/** Decimal text the script produces and reads: PHP's integer-to-string
    conversion, its `(int)` cast of a digit run, and `sprintf("%03d", n)`.
    Integers are unbounded here; PHP's 64-bit saturation is not modelled. */
module Numbers {
  import opened Text

  function DigitChar(d: nat): (c: char)
    requires d < 10
    ensures IsDigit(c)
  {
    (48 + d) as char
  }

  function DigitValue(c: char): (d: nat)
    requires IsDigit(c)
    ensures d < 10
  {
    c as int - 48
  }

  function Pow10(k: nat): (p: nat)
    ensures p >= 1
  {
    if k == 0 then 1 else 10 * Pow10(k - 1)
  }

  /** The decimal text PHP gives a non-negative integer: digits only, and no
      leading zero unless the number is 0 itself. */
  function IntToString(n: nat): (s: string)
    ensures |s| >= 1 && AllDigits(s)
    ensures |s| > 1 ==> s[0] != '0'
  {
    if n < 10 then [DigitChar(n)] else IntToString(n / 10) + [DigitChar(n % 10)]
  }

  /** The `(int)` cast of a string made only of decimal digits. */
  function ParseDecimal(s: string): nat
    requires AllDigits(s)
  {
    if |s| == 0 then 0 else 10 * ParseDecimal(s[..|s| - 1]) + DigitValue(s[|s| - 1])
  }

  /** Reading back the decimal text of `n` gives `n`. */
  lemma {:induction false} ParseIntToString(n: nat)
    ensures ParseDecimal(IntToString(n)) == n
  {
    if n >= 10 {
      var s := IntToString(n);
      assert s[..|s| - 1] == IntToString(n / 10);
      ParseIntToString(n / 10);
    }
  }

  /** Distinct numbers have distinct decimal texts. */
  lemma IntToStringInjective(a: nat, b: nat)
    requires IntToString(a) == IntToString(b)
    ensures a == b
  {
    ParseIntToString(a);
    ParseIntToString(b);
  }

  /** The decimal text of `n` fits in `k >= 1` characters exactly when
      `n < 10^k`. */
  lemma {:induction false} LengthBound(n: nat, k: nat)
    requires k >= 1
    ensures |IntToString(n)| <= k <==> n < Pow10(k)
  {
    if n >= 10 {
      if k == 1 {
        assert |IntToString(n)| >= 2;
      } else {
        LengthBound(n / 10, k - 1);
        var p := Pow10(k - 1);
        assert n == 10 * (n / 10) + n % 10;
        if n / 10 < p {
          assert n / 10 <= p - 1;
          assert n < 10 * p;
        } else {
          assert 10 * (n / 10) >= 10 * p;
        }
      }
    } else {
      assert Pow10(k) == 10 * Pow10(k - 1);
    }
  }

  function Zeros(k: nat): (s: string)
    ensures |s| == k
    ensures forall i :: 0 <= i < k ==> s[i] == '0'
  {
    if k == 0 then "" else "0" + Zeros(k - 1)
  }

  lemma {:induction false} ParseZeros(k: nat)
    ensures ParseDecimal(Zeros(k)) == 0
  {
    if k > 0 {
      assert Zeros(k)[..k - 1] == Zeros(k - 1);
      ParseZeros(k - 1);
    }
  }

  /** Leading zeros do not change the value of a digit run. */
  lemma {:induction false} ParseLeadingZeros(k: nat, s: string)
    requires AllDigits(s)
    ensures AllDigits(Zeros(k) + s)
    ensures ParseDecimal(Zeros(k) + s) == ParseDecimal(s)
  {
    var t := Zeros(k) + s;
    if |s| == 0 {
      assert t == Zeros(k);
      ParseZeros(k);
    } else {
      assert t[..|t| - 1] == Zeros(k) + s[..|s| - 1];
      ParseLeadingZeros(k, s[..|s| - 1]);
    }
  }

  /** `sprintf("%03d", n)` for a non-negative `n`: the decimal text of `n`,
      left-padded with zeros to three characters and never cut short. It
      still reads back as `n`, and from 100 on it is the plain decimal text. */
  function Pad3(n: nat): (s: string)
    ensures AllDigits(s)
    ensures |s| == if |IntToString(n)| < 3 then 3 else |IntToString(n)|
    ensures ParseDecimal(s) == n
    ensures n >= 100 ==> s == IntToString(n)
  {
    var d := IntToString(n);
    ParseIntToString(n);
    LengthBound(n, 2);
    if |d| < 3 then
      ParseLeadingZeros(3 - |d|, d);
      Zeros(3 - |d|) + d
    else
      d
  }
}
