/** ASCII decimal digit strings: the value they denote and the fixed-width,
    zero-padded rendering of a number (`%02d`, `%04d`). */
module Decimal {

  predicate IsDigit(c: char) {
    '0' <= c <= '9'
  }

  predicate AllDigits(s: string) {
    forall i | 0 <= i < |s| :: IsDigit(s[i])
  }

  function DigitValue(c: char): (d: nat)
    requires IsDigit(c)
    ensures d < 10
  {
    c as int - '0' as int
  }

  function DigitChar(d: nat): (c: char)
    requires d < 10
    ensures IsDigit(c) && DigitValue(c) == d
  {
    ('0' as int + d) as char
  }

  function Pow10(n: nat): (r: nat)
    ensures r >= 1
  {
    if n == 0 then 1 else 10 * Pow10(n - 1)
  }

  /** The number a digit string denotes, most significant digit first;
      leading zeros are allowed and do not count. */
  function ValueOf(s: string): (v: nat)
    requires AllDigits(s)
    ensures v < Pow10(|s|)
  {
    if s == [] then 0
    else ValueOf(s[..|s| - 1]) * 10 + DigitValue(s[|s| - 1])
  }

  /** The last `w` decimal digits of `n`, zero-padded to width `w`. */
  function Fixed(n: nat, w: nat): (r: string)
    ensures |r| == w && AllDigits(r)
  {
    if w == 0 then [] else Fixed(n / 10, w - 1) + [DigitChar(n % 10)]
  }

  /** Reading back a padded rendering gives the number, when it fits. */
  lemma {:induction false} FixedValue(n: nat, w: nat)
    requires n < Pow10(w)
    ensures ValueOf(Fixed(n, w)) == n
  {
    if w > 0 {
      assert n / 10 < Pow10(w - 1);
      FixedValue(n / 10, w - 1);
      ValueOfAppendDigit(Fixed(n / 10, w - 1), DigitChar(n % 10));
    }
  }

  /** A digit string is the padded rendering of its own value at its own width. */
  lemma {:induction false} FixedOfValue(s: string)
    requires AllDigits(s)
    ensures Fixed(ValueOf(s), |s|) == s
    decreases |s|
  {
    if s != [] {
      var n := |s|;
      var v := ValueOf(s);
      var p := s[..n - 1];
      assert v / 10 == ValueOf(p) && v % 10 == DigitValue(s[n - 1]);
      FixedOfValue(p);
      assert DigitChar(v % 10) == s[n - 1];
      assert s == p + [s[n - 1]];
    }
  }

  lemma {:induction false} ValueOfAppendDigit(s: string, c: char)
    requires AllDigits(s) && IsDigit(c)
    ensures AllDigits(s + [c]) && ValueOf(s + [c]) == ValueOf(s) * 10 + DigitValue(c)
  {
    assert (s + [c])[..|s|] == s;
  }

  /** The value of a prefix one digit longer. */
  lemma {:induction false} ValueOfPrefix(s: string, k: nat)
    requires AllDigits(s) && 0 < k <= |s|
    ensures ValueOf(s[..k]) == ValueOf(s[..k - 1]) * 10 + DigitValue(s[k - 1])
  {
    assert s[..k][..k - 1] == s[..k - 1];
  }

  /** The value of a field of up to five digits, digit by digit. */
  lemma {:induction false} ValueOfShort(s: string)
    requires AllDigits(s) && 1 <= |s| <= 5
    ensures |s| == 1 ==> ValueOf(s) == DigitValue(s[0])
    ensures |s| == 2 ==> ValueOf(s) == 10 * DigitValue(s[0]) + DigitValue(s[1])
    ensures |s| == 4 ==> ValueOf(s) == 1000 * DigitValue(s[0]) + 100 * DigitValue(s[1])
                                      + 10 * DigitValue(s[2]) + DigitValue(s[3])
    ensures |s| == 5 ==> ValueOf(s) == 10000 * DigitValue(s[0]) + 1000 * DigitValue(s[1])
                                      + 100 * DigitValue(s[2]) + 10 * DigitValue(s[3]) + DigitValue(s[4])
  {
    assert s[..0] == [] && s[..|s|] == s;
    ValueOfPrefix(s, 1);
    if |s| >= 2 { ValueOfPrefix(s, 2); }
    if |s| >= 3 { ValueOfPrefix(s, 3); }
    if |s| >= 4 { ValueOfPrefix(s, 4); }
    if |s| >= 5 { ValueOfPrefix(s, 5); }
  }
}
