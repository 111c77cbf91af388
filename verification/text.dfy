/** String and sequence helpers the script leans on: PHP's `rtrim`, `explode`,
    `strtolower`, `strpos`, its truthiness of strings, and the character
    classes and literal characters its regular expressions are built from.
    PHP strings are byte strings; here they are `string`, one char per byte. */
module Text {
  import opened Wrappers

  const VerticalTab: char := 11 as char
  const FormFeed: char := 12 as char

  /** The characters PHP's `rtrim` strips when no character list is given. */
  predicate IsTrimChar(c: char) {
    c == ' ' || c == '\t' || c == '\n' || c == '\r' || c == '\0' || c == VerticalTab
  }

  /** PCRE's `\s`: space, tab, line feed, vertical tab, form feed, carriage return. */
  predicate IsSpace(c: char) {
    c == ' ' || c == '\t' || c == '\n' || c == VerticalTab || c == FormFeed || c == '\r'
  }

  /** PCRE's `\d` outside UTF mode. */
  predicate IsDigit(c: char) {
    '0' <= c <= '9'
  }

  predicate AllDigits(s: string) {
    forall k :: 0 <= k < |s| ==> IsDigit(s[k])
  }

  /** The class `[^/]`. */
  predicate NotSlash(c: char) {
    c != '/'
  }

  /** ASCII lower-casing, as `strtolower` and PCRE's caseless matching do it. */
  function ToLowerChar(c: char): char {
    if 'A' <= c <= 'Z' then (c as int + 32) as char else c
  }

  function ToLower(s: string): (r: string)
    ensures |r| == |s|
    ensures forall k :: 0 <= k < |s| ==> r[k] == ToLowerChar(s[k])
  {
    seq(|s|, k requires 0 <= k < |s| => ToLowerChar(s[k]))
  }

  /** PHP's truthiness of a string: only "" and "0" are false. */
  predicate Truthy(s: string) {
    s != "" && s != "0"
  }

  /** PHP's `rtrim` with its default character list. The result is the
      longest prefix of `s` that does not end in a trim character. */
  function RTrim(s: string): (r: string)
    decreases |s|
    ensures r <= s
    ensures |r| == 0 || !IsTrimChar(r[|r| - 1])
    ensures forall k :: |r| <= k < |s| ==> IsTrimChar(s[k])
  {
    if |s| > 0 && IsTrimChar(s[|s| - 1]) then RTrim(s[..|s| - 1]) else s
  }

  /** `d` occurs in `s` starting at index `i`. */
  predicate OccursAt<T(==)>(s: seq<T>, d: seq<T>, i: int) {
    0 <= i && i + |d| <= |s| && s[i..i + |d|] == d
  }

  /** The first occurrence of `d` in `s` at or after `from`, as `strpos` finds it. */
  function IndexFrom<T(==)>(s: seq<T>, d: seq<T>, from: nat): (r: Option<nat>)
    decreases |s| - from
    ensures r.Some? ==> from <= r.value && OccursAt(s, d, r.value)
    ensures r.Some? ==> forall j :: from <= j < r.value ==> !OccursAt(s, d, j)
    ensures r.None? ==> forall j :: from <= j ==> !OccursAt(s, d, j)
  {
    if from + |d| > |s| then None
    else if s[from..from + |d|] == d then Some(from)
    else IndexFrom(s, d, from + 1)
  }

  /** `strpos($s, $d) !== false`. */
  predicate Contains<T(==)>(s: seq<T>, d: seq<T>) {
    IndexFrom(s, d, 0).Some?
  }

  /** The inverse of `Split`: the parts glued back together with `d`. */
  function Join<T>(parts: seq<seq<T>>, d: seq<T>): seq<T>
    requires |parts| >= 1
  {
    if |parts| == 1 then parts[0] else parts[0] + d + Join(parts[1..], d)
  }

  /** PHP's `explode(d, s)` (with no limit): the pieces of `s` between
      left-to-right, non-overlapping occurrences of `d`. */
  function Split<T(==)>(s: seq<T>, d: seq<T>): (parts: seq<seq<T>>)
    requires |d| > 0
    decreases |s|
    ensures |parts| >= 1
    ensures Join(parts, d) == s
    ensures forall k :: 0 <= k < |parts| ==> forall j :: !OccursAt(parts[k], d, j)
    ensures |parts| > 1 <==> exists i :: OccursAt(s, d, i)
  {
    match IndexFrom(s, d, 0)
    case None => [s]
    case Some(i) =>
      var rest := Split(s[i + |d|..], d);
      assert s == s[..i] + d + s[i + |d|..];
      assert forall j :: OccursAt(s[..i], d, j) ==> OccursAt(s, d, j);
      [s[..i]] + rest
  }

  /** Splitting at a delimiter character that the first field does not
      contain gives that field, then the pieces of the remainder. */
  lemma SplitAtFirst(a: string, c: char, b: string)
    requires c !in a
    ensures Split(a + [c] + b, [c]) == [a] + Split(b, [c])
  {
    var s := a + [c] + b;
    assert OccursAt(s, [c], |a|);
    forall j | 0 <= j < |a|
      ensures !OccursAt(s, [c], j)
    {
      assert s[j] == a[j];
    }
    assert IndexFrom(s, [c], 0) == Some(|a|);
    assert s[..|a|] == a;
    assert s[|a| + 1..] == b;
  }

  /** A field without the delimiter character splits into itself. */
  lemma SplitNone(b: string, c: char)
    requires c !in b
    ensures Split(b, [c]) == [b]
  {
  }

  /** `c` is one of the characters of `s` exactly when `[c]` occurs in it. */
  lemma CharOccurs(s: string, c: char)
    ensures c in s <==> exists i :: OccursAt(s, [c], i)
  {
    if c in s {
      var i :| 0 <= i < |s| && s[i] == c;
      assert OccursAt(s, [c], i);
    }
    if i :| OccursAt(s, [c], i) {
      assert s[i] == c;
    }
  }

  /** The end of the run of characters satisfying `P` that starts at `i`:
      how far a greedy `P+` or `P*` reaches. */
  function SpanEnd(s: string, i: nat, P: char -> bool): (j: nat)
    requires i <= |s|
    decreases |s| - i
    ensures i <= j <= |s|
    ensures forall k :: i <= k < j ==> P(s[k])
    ensures j < |s| ==> !P(s[j])
  {
    if i < |s| && P(s[i]) then SpanEnd(s, i + 1, P) else i
  }

  /** A run is as long as `SpanEnd` says exactly when it cannot be extended. */
  lemma SpanEndIs(s: string, i: nat, P: char -> bool, j: nat)
    requires i <= j <= |s|
    requires forall k :: i <= k < j ==> P(s[k])
    requires j < |s| ==> !P(s[j])
    ensures SpanEnd(s, i, P) == j
  {
  }

  /** Whether `Hit` holds at some position of `p..n`. */
  function SomeHit(Hit: nat -> bool, p: nat, n: nat): bool
    decreases n + 1 - p
  {
    p <= n && (Hit(p) || SomeHit(Hit, p + 1, n))
  }

  /** A position of `p..n` where `Hit` holds is found. */
  lemma {:induction false} SomeHitAt(Hit: nat -> bool, p: nat, n: nat, q: nat)
    requires p <= q <= n && Hit(q)
    ensures SomeHit(Hit, p, n)
    decreases q - p
  {
    if p < q {
      SomeHitAt(Hit, p + 1, n, q);
    }
  }

  /** The first defined value of `f` at a position in `p..n`, trying the
      positions from left to right: the capture of the leftmost match. */
  function FirstSome<T>(f: nat -> Option<T>, p: nat, n: nat): Option<T>
    decreases n + 1 - p
  {
    if p > n then None
    else if f(p).Some? then f(p)
    else FirstSome(f, p + 1, n)
  }

  /** When nothing is found, `f` is undefined at every position of `p..n`. */
  lemma {:induction false} FirstSomeNone<T>(f: nat -> Option<T>, p: nat, n: nat)
    requires FirstSome(f, p, n).None?
    ensures forall q :: p <= q <= n ==> f(q).None?
    decreases n + 1 - p
  {
    if p <= n {
      FirstSomeNone(f, p + 1, n);
    }
  }

  /** A position of `p..n` where `f` is defined is not missed: something
      is found. */
  lemma {:induction false} FirstSomeFound<T>(f: nat -> Option<T>, p: nat, n: nat, q: nat)
    requires p <= q <= n && f(q).Some?
    ensures FirstSome(f, p, n).Some?
    decreases q - p
  {
    if p < q && f(p).None? {
      FirstSomeFound(f, p + 1, n, q);
    }
  }

  /** What holds of every defined value of `f` holds of the one found. */
  lemma {:induction false} FirstSomeKeeps<T>(f: nat -> Option<T>, p: nat, n: nat, P: T -> bool)
    requires forall q :: f(q).Some? ==> P(f(q).value)
    ensures FirstSome(f, p, n).Some? ==> P(FirstSome(f, p, n).value)
    decreases n + 1 - p
  {
    if p <= n && f(p).None? {
      FirstSomeKeeps(f, p + 1, n, P);
    }
  }

  /** When something is found, it is the value at the leftmost position
      `q` of `p..n` where `f` is defined. */
  lemma {:induction false} FirstSomeAt<T>(f: nat -> Option<T>, p: nat, n: nat) returns (q: nat)
    requires FirstSome(f, p, n).Some?
    ensures p <= q <= n && f(q) == FirstSome(f, p, n)
    ensures forall k :: p <= k < q ==> f(k).None?
    decreases n + 1 - p
  {
    if f(p).Some? {
      q := p;
    } else {
      q := FirstSomeAt(f, p + 1, n);
    }
  }

  /** Whether the pattern character `p`, written unescaped into a PCRE
      pattern, matches `c`: `.` matches anything but a line feed, and with
      the `i` flag ASCII letters match in either case. */
  predicate CharMatches(p: char, c: char, caseless: bool) {
    if p == '.' then c != '\n'
    else if caseless then ToLowerChar(p) == ToLowerChar(c)
    else p == c
  }

  /** The text `pat`, interpolated into a pattern, matches `s` at `p`. */
  predicate LiteralAt(s: string, p: nat, pat: string, caseless: bool) {
    p + |pat| <= |s| && forall k :: 0 <= k < |pat| ==> CharMatches(pat[k], s[p + k], caseless)
  }

  /** Interpolated text always matches a copy of itself. */
  lemma LiteralSelf(s: string, p: nat, pat: string, caseless: bool)
    requires p + |pat| <= |s| && s[p..p + |pat|] == pat
    ensures LiteralAt(s, p, pat, caseless)
  {
    forall k | 0 <= k < |pat|
      ensures CharMatches(pat[k], s[p + k], caseless)
    {
      assert s[p + k] == pat[k];
    }
  }
  /** Two pieces of interpolated text that match side by side match as one. */
  lemma LiteralAppend(s: string, p: nat, x: string, y: string, caseless: bool)
    requires LiteralAt(s, p, x, caseless) && LiteralAt(s, p + |x|, y, caseless)
    ensures LiteralAt(s, p, x + y, caseless)
  {
    forall k | 0 <= k < |x + y|
      ensures CharMatches((x + y)[k], s[p + k], caseless)
    {
      if k >= |x| {
        assert (x + y)[k] == y[k - |x|];
        assert CharMatches(y[k - |x|], s[p + |x| + (k - |x|)], caseless);
      }
    }
  }
  /** Slices within a prefix are the same in the longer sequence. */
  lemma SlicePrefix(s: string, st: string, i: nat, j: nat)
    requires s <= st && i <= j <= |s|
    ensures st[i..j] == s[i..j]
  {
    assert st[..|s|] == s;
    assert st[i..j] == st[..|s|][i..j];
  }

  /** A literal that matches within a prefix matches in the longer text. */
  lemma LiteralPrefix(s: string, st: string, p: nat, pat: string, caseless: bool)
    requires s <= st && LiteralAt(s, p, pat, caseless)
    ensures LiteralAt(st, p, pat, caseless)
  {
    forall k | 0 <= k < |pat|
      ensures CharMatches(pat[k], st[p + k], caseless)
    {
      assert st[p + k] == st[..|s|][p + k];
    }
  }

  /** A run that ends inside a prefix ends at the same place in the longer text. */
  lemma SpanEndPrefix(s: string, st: string, i: nat, P: char -> bool)
    requires s <= st && i <= |s| && SpanEnd(s, i, P) < |s|
    ensures SpanEnd(st, i, P) == SpanEnd(s, i, P)
  {
    var j := SpanEnd(s, i, P);
    assert st[..|s|] == s;
    forall k | i <= k <= j
      ensures st[k] == s[k]
    {
      assert st[k] == st[..|s|][k];
    }
    SpanEndIs(st, i, P, j);
  }
}
