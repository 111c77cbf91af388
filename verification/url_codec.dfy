/** PHP's `urlencode` (used to put the search term into the search URL) and
    `urldecode` (used on the redirect header before the file name is taken
    from it). */
module UrlCodec {
  import opened Text

  predicate IsHexDigit(c: char) {
    '0' <= c <= '9' || 'a' <= c <= 'f' || 'A' <= c <= 'F'
  }

  function HexValue(c: char): (v: nat)
    requires IsHexDigit(c)
    ensures v < 16
  {
    if '0' <= c <= '9' then c as int - 48
    else if 'a' <= c <= 'f' then c as int - 87
    else c as int - 55
  }

  /** The upper-case hex digit `urlencode` writes for `v`. */
  function HexDigit(v: nat): (c: char)
    requires v < 16
    ensures IsHexDigit(c) && HexValue(c) == v
  {
    if v < 10 then (48 + v) as char else (55 + v) as char
  }

  /** PHP's `urldecode`: `+` becomes a space, `%` followed by two hex digits
      becomes that byte, and everything else (a `%` without two hex digits
      after it included) is copied. */
  function UrlDecode(s: string): (r: string)
    decreases |s|
    ensures |r| <= |s|
  {
    if |s| == 0 then ""
    else if s[0] == '+' then " " + UrlDecode(s[1..])
    else if s[0] == '%' && |s| >= 3 && IsHexDigit(s[1]) && IsHexDigit(s[2]) then
      [(16 * HexValue(s[1]) + HexValue(s[2])) as char] + UrlDecode(s[3..])
    else [s[0]] + UrlDecode(s[1..])
  }

  /** The bytes `urlencode` leaves alone: ASCII letters and digits, `-`, `_`, `.`. */
  predicate IsUnreserved(c: char) {
    'a' <= c <= 'z' || 'A' <= c <= 'Z' || '0' <= c <= '9' || c == '-' || c == '_' || c == '.'
  }

  /** `urlencode` of one byte. A PHP string holds only bytes; a char beyond
      one byte cannot arise and is copied. */
  function EncodeChar(c: char): string {
    if c == ' ' then "+"
    else if IsUnreserved(c) || c as int >= 256 then [c]
    else ['%', HexDigit(c as int / 16), HexDigit(c as int % 16)]
  }

  /** What may appear in an encoded text: the unreserved bytes, `+` for a
      space, `%` and the hex digits of an escape, and a char beyond one
      byte copied as is. */
  predicate UrlSafe(c: char) {
    IsUnreserved(c) || c == '+' || c == '%' || c as int >= 256
  }

  /** PHP's `urlencode`. No space, slash, `&` or other byte that would end or
      split a query value is left in the result. */
  function UrlEncode(s: string): (r: string)
    decreases |s|
    ensures forall k :: 0 <= k < |r| ==> UrlSafe(r[k])
  {
    if |s| == 0 then "" else EncodeChar(s[0]) + UrlEncode(s[1..])
  }

  /** Decoding the encoding of one byte, followed by anything, gives that byte back first. */
  lemma DecodeEncodeChar(c: char, rest: string)
    ensures UrlDecode(EncodeChar(c) + rest) == [c] + UrlDecode(rest)
  {
    var t := EncodeChar(c) + rest;
    if c == ' ' {
      assert t[1..] == rest;
    } else if IsUnreserved(c) || c as int >= 256 {
      assert t[1..] == rest;
    } else {
      DecodeEscape(c, rest);
    }
  }

  /** A `%HH` escape written by `urlencode` decodes to the byte it encodes. */
  lemma DecodeEscape(c: char, rest: string)
    requires c as int < 256
    ensures UrlDecode(['%', HexDigit(c as int / 16), HexDigit(c as int % 16)] + rest) == [c] + UrlDecode(rest)
  {
    var v := c as int;
    var hi := HexDigit(v / 16);
    var lo := HexDigit(v % 16);
    var t := ['%', hi, lo] + rest;
    assert t[0] == '%' && t[1] == hi && t[2] == lo;
    assert t[3..] == rest;
    assert 16 * HexValue(hi) + HexValue(lo) == v;
  }

  /** `urldecode` undoes `urlencode`. */
  lemma {:induction false} DecodeEncode(s: string)
    ensures UrlDecode(UrlEncode(s)) == s
  {
    if |s| > 0 {
      DecodeEncodeChar(s[0], UrlEncode(s[1..]));
      DecodeEncode(s[1..]);
      assert s == [s[0]] + s[1..];
    }
  }

  /** Text with no `%` and no `+` is left unchanged by `urldecode`. */
  lemma {:induction false} DecodePlain(s: string)
    requires '%' !in s && '+' !in s
    ensures UrlDecode(s) == s
  {
    if |s| > 0 {
      DecodePlain(s[1..]);
      assert s == [s[0]] + s[1..];
    }
  }
}
