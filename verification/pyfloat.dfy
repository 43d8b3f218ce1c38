/** Python's built-in `float(text)` as the coordinate check uses it, over
    ASCII text, with the parsed value kept as an exact real number.

    CPython first rejects any `_` that does not sit between two digits and
    drops the others, strips surrounding whitespace, then accepts an optional
    sign followed by `inf`, `infinity` or `nan` (in any letter case) or by a
    decimal numeral with an optional exponent. Before that it turns every
    non-ASCII whitespace character into a space, and it strips only ASCII
    whitespace: the four information separators U+001C..U+001F, which
    `str.isspace()` counts as whitespace, are never stripped and so make the
    text unreadable wherever they stand. */
module PyFloat {
  import opened Results
  import opened Text
  import opened Decimal

  /** A Python float: a finite value, a signed infinity, or NaN. */
  datatype Float = Finite(value: real) | Infinite(negative: bool) | NaN

  /** The characters a finite numeral can be spelled with. */
  predicate NumeralChar(c: char) {
    IsDigit(c) || c == '.' || c == 'e' || c == 'E' || c == '+' || c == '-'
  }

  predicate AllNumeralChars(s: string) {
    forall i | 0 <= i < |s| :: NumeralChar(s[i])
  }

  /** CPython's rule for digit-group separators: every `_` has a digit
      immediately before it and immediately after it. */
  predicate UnderscoresBetweenDigits(s: string) {
    forall i {:trigger SeparatorAt(s, i)} | 0 <= i < |s| :: SeparatorAt(s, i)
  }

  /** Position `i` of `s` is not an underscore, or one with a digit on each side. */
  predicate SeparatorAt(s: string, i: int)
    requires 0 <= i < |s|
  {
    s[i] == '_' ==> 0 < i < |s| - 1 && IsDigit(s[i - 1]) && IsDigit(s[i + 1])
  }

  function LowerChar(c: char): char {
    if 'A' <= c <= 'Z' then (c as int - 'A' as int + 'a' as int) as char else c
  }

  function LowerAscii(s: string): string {
    seq(|s|, i requires 0 <= i < |s| => LowerChar(s[i]))
  }

  /** Index of the first exponent marker (`e` or `E`), or `|s|` when there is none. */
  function IndexOfExponent(s: string): (i: nat)
    ensures i <= |s|
    ensures i < |s| ==> s[i] == 'e' || s[i] == 'E'
    ensures forall j | 0 <= j < i :: s[j] != 'e' && s[j] != 'E'
  {
    if s == [] then 0
    else if s[0] == 'e' || s[0] == 'E' then 0
    else 1 + IndexOfExponent(s[1..])
  }

  /** 10 raised to an integer power, as a real. */
  function TenPow(e: int): (r: real)
    ensures r > 0.0
  {
    if e >= 0 then Pow10(e) as real else 1.0 / (Pow10(-e) as real)
  }

  /** The value of the numeral `intDigits.fracDigits` scaled by `10^exponent`. */
  function DecimalValue(intDigits: string, fracDigits: string, exponent: int): (v: real)
    requires AllDigits(intDigits) && AllDigits(fracDigits)
    ensures v >= 0.0
  {
    var fraction := ValueOf(fracDigits) as real / (Pow10(|fracDigits|) as real);
    var mantissa := ValueOf(intDigits) as real + fraction;
    assert fraction >= 0.0 && mantissa >= 0.0;
    mantissa * TenPow(exponent)
  }

  /** An exponent after the marker: an optional sign and at least one digit. */
  function ParseExponent(s: string): (r: Option<int>)
    ensures r.Some? ==> AllNumeralChars(s) && s != []
  {
    var negative := s != [] && s[0] == '-';
    var digits := if s != [] && (s[0] == '+' || s[0] == '-') then s[1..] else s;
    if digits == [] || !AllDigits(digits) then None
    else
      var magnitude: int := ValueOf(digits);
      Some(if negative then -magnitude else magnitude)
  }

  /** An unsigned decimal numeral: digits with at most one `.` and at least
      one digit, then optionally `e`/`E` and an exponent. */
  function ParseUnsigned(s: string): (r: Option<real>)
    ensures r.Some? ==> r.value >= 0.0 && s != [] && AllNumeralChars(s)
  {
    var e := IndexOfExponent(s);
    var mantissa := s[..e];
    var d := IndexOf(mantissa, '.');
    var intDigits := mantissa[..d];
    var fracDigits := if d < |mantissa| then mantissa[d + 1..] else [];
    if !AllDigits(intDigits) || !AllDigits(fracDigits) || |intDigits| + |fracDigits| == 0 then None
    else
      var exponent := if e == |s| then Some(0) else ParseExponent(s[e + 1..]);
      if exponent.None? then None
      else
        UnsignedAlphabet(s, e, d, intDigits, fracDigits);
        Some(DecimalValue(intDigits, fracDigits, exponent.value))
  }

  lemma {:induction false} UnsignedAlphabet(s: string, e: nat, d: nat, intDigits: string, fracDigits: string)
    requires e <= |s| && d <= e
    requires (e < |s| ==> ParseExponent(s[e + 1..]).Some?) && (e < |s| ==> s[e] == 'e' || s[e] == 'E')
    requires intDigits == s[..e][..d] && AllDigits(intDigits) && AllDigits(fracDigits)
    requires d < e ==> s[d] == '.' && fracDigits == s[..e][d + 1..]
    requires d == e ==> fracDigits == []
    ensures AllNumeralChars(s)
  {
    forall i | 0 <= i < |s| ensures NumeralChar(s[i]) {
      if i < d {
        assert s[i] == intDigits[i];
      } else if i == d {
      } else if i < e {
        assert s[i] == fracDigits[i - d - 1];
      } else if i > e {
        assert s[i] == s[e + 1..][i - e - 1];
      }
    }
  }

  /** `inf` or `infinity` in any letter case. */
  predicate IsInfinityWord(s: string) {
    var w := LowerAscii(s);
    w == "inf" || w == "infinity"
  }

  /** `nan` in any letter case. */
  predicate IsNanWord(s: string) {
    LowerAscii(s) == "nan"
  }

  /** Text after the optional sign: a special word or an unsigned numeral. */
  function ParseMagnitude(negative: bool, body: string): (r: Option<Float>)
    ensures r.Some? && r.value.Finite? ==> AllNumeralChars(body)
  {
    if IsInfinityWord(body) then Some(Infinite(negative))
    else if IsNanWord(body) then Some(NaN)
    else
      match ParseUnsigned(body)
      case None => None
      case Some(v) => Some(Finite(if negative then -v else v))
  }

  /** Stripped, underscore-free text: an optional sign, then the magnitude. */
  function ParseStripped(t: string): (r: Option<Float>)
    ensures r.Some? && r.value.Finite? ==> AllNumeralChars(t)
  {
    if t != [] && (t[0] == '+' || t[0] == '-') then
      var r := ParseMagnitude(t[0] == '-', t[1..]);
      assert r.Some? && r.value.Finite? ==> AllNumeralChars(t) by {
        if r.Some? && r.value.Finite? {
          assert forall i | 1 <= i < |t| :: t[i] == t[1..][i - 1];
        }
      }
      r
    else ParseMagnitude(false, t)
  }

  /** The ASCII information separators, whitespace to `str.isspace()` but
      not to the C-locale test `float` strips with. */
  predicate IsInfoSeparator(c: char) {
    '\U{1C}' <= c <= '\U{1F}'
  }

  predicate NoInfoSeparator(s: string) {
    forall i | 0 <= i < |s| :: !IsInfoSeparator(s[i])
  }

  /** Python's `float(s)`: `None` where Python raises `ValueError`; in
      particular blank text is refused. */
  function ParseFloat(s: string): (r: Option<Float>)
    ensures AllSpace(s) ==> r.None?
  {
    if !UnderscoresBetweenDigits(s) || !NoInfoSeparator(s) then None
    else
      var t := Strip(RemoveChar(s, '_'));
      BlankStripsEmpty(s);
      if t == [] then None else ParseStripped(t)
  }

  lemma {:induction false} BlankStripsEmpty(s: string)
    ensures AllSpace(s) ==> Strip(RemoveChar(s, '_')) == []
  {
    if AllSpace(s) {
      assert '_' !in s by {
        assert !IsSpace('_');
      }
      StripFacts(s);
    }
  }

  /** An information separator anywhere makes the text unreadable, even at
      either end where `strip()` would have removed it. */
  lemma {:induction false} InfoSeparatorRefused(a: string, c: char, b: string)
    requires IsInfoSeparator(c)
    ensures ParseFloat(a + [c] + b) == None
  {
    assert (a + [c] + b)[|a|] == c;
  }

  /** A finite float is spelled only with numeral characters, digit-group
      underscores and surrounding whitespace: in particular a decimal comma
      or a degree sign is never accepted. */
  lemma {:induction false} FiniteAlphabet(s: string)
    requires ParseFloat(s).Some? && ParseFloat(s).value.Finite?
    ensures forall i | 0 <= i < |s| :: NumeralChar(s[i]) || s[i] == '_' || IsSpace(s[i])
    ensures ',' !in s && '\U{B0}' !in s
  {
    var u := RemoveChar(s, '_');
    assert AllNumeralChars(Strip(u));
    forall i | 0 <= i < |s| ensures NumeralChar(s[i]) || s[i] == '_' || IsSpace(s[i]) {
      if s[i] != '_' {
        assert s[i] in u;
        StripKeeps(u, s[i]);
      }
    }
    assert !NumeralChar(',') && !IsSpace(',') && !NumeralChar('\U{B0}') && !IsSpace('\U{B0}');
  }

  /** The optional sign written in front of a numeral. */
  datatype Sign = NoSign | Plus | Minus

  function SignText(sign: Sign): string {
    match sign
    case NoSign => ""
    case Plus => "+"
    case Minus => "-"
  }

  /** `v` with `sign` applied. */
  function Signed(sign: Sign, v: real): real {
    if sign == Minus then -v else v
  }

  /** Text of digits and points only: never a special word, nothing to strip
      and no underscore to drop. */
  predicate DigitsAndPoints(s: string) {
    forall i | 0 <= i < |s| :: IsDigit(s[i]) || s[i] == '.'
  }

  /** The exact value of the numeral `intDigits.fracDigits`. */
  function PointValue(intDigits: string, fracDigits: string): real
    requires AllDigits(intDigits) && AllDigits(fracDigits)
  {
    ValueOf(intDigits) as real + ValueOf(fracDigits) as real / (Pow10(|fracDigits|) as real)
  }

  lemma {:induction false} ParseUnsignedPoint(intDigits: string, fracDigits: string)
    requires AllDigits(intDigits) && AllDigits(fracDigits)
    requires |intDigits| + |fracDigits| > 0
    ensures ParseUnsigned(intDigits + "." + fracDigits) == Some(PointValue(intDigits, fracDigits))
  {
    var body := intDigits + "." + fracDigits;
    forall i | 0 <= i < |body| ensures body[i] != 'e' && body[i] != 'E' {
      if i < |intDigits| {
        assert body[i] == intDigits[i];
      } else if i > |intDigits| {
        assert body[i] == fracDigits[i - |intDigits| - 1];
      }
    }
    assert IndexOfExponent(body) == |body|;
    assert body[..|body|] == body;
    assert forall j | 0 <= j < |intDigits| :: intDigits[j] != '.' by {
      forall j | 0 <= j < |intDigits| ensures intDigits[j] != '.' { assert IsDigit(intDigits[j]); }
    }
    IndexOfPast(intDigits, '.', fracDigits);
    assert body[..|intDigits|] == intDigits;
    assert body[|intDigits| + 1..] == fracDigits;
    assert TenPow(0) == 1.0;
  }

  lemma {:induction false} ParseUnsignedInteger(digits: string)
    requires AllDigits(digits) && digits != []
    ensures ParseUnsigned(digits) == Some(ValueOf(digits) as real)
  {
    assert IndexOfExponent(digits) == |digits|;
    assert digits[..|digits|] == digits;
    assert IndexOf(digits, '.') == |digits|;
    assert ValueOf([]) == 0 && Pow10(0) == 1 && TenPow(0) == 1.0;
  }

  /** Text without underscores, information separators or surrounding
      whitespace reaches the sign and magnitude parser unchanged. */
  lemma {:induction false} PlainText(s: string)
    requires s != [] && '_' !in s && NoInfoSeparator(s) && Trimmed(s)
    ensures ParseFloat(s) == ParseStripped(s)
  {
    assert UnderscoresBetweenDigits(s);
    StripTrimmed(s);
  }

  /** Text led by a digit or a point is neither an infinity nor a NaN. */
  lemma {:induction false} NotWord(body: string)
    requires body != [] && (IsDigit(body[0]) || body[0] == '.')
    ensures !IsInfinityWord(body) && !IsNanWord(body)
  {
    assert LowerAscii(body)[0] == body[0];
  }

  lemma {:induction false} StrippedUnsigned(t: string)
    requires t != [] && t[0] != '+' && t[0] != '-'
    ensures ParseStripped(t) == ParseMagnitude(false, t)
  {
  }

  lemma {:induction false} StrippedSigned(t: string)
    requires t != [] && (t[0] == '+' || t[0] == '-')
    ensures ParseStripped(t) == ParseMagnitude(t[0] == '-', t[1..])
  {
  }

  /** Digits and points after an optional `+` or `-` are read as their
      magnitude, negated after a minus sign. */
  lemma {:induction false} ParseSigned(sign: Sign, body: string)
    requires body != [] && DigitsAndPoints(body)
    ensures ParseFloat(SignText(sign) + body) == ParseMagnitude(sign == Minus, body)
  {
    var s := SignText(sign) + body;
    var k := |SignText(sign)|;
    forall i | 0 <= i < |s| ensures s[i] != '_' && !IsInfoSeparator(s[i]) && !IsSpace(s[i]) {
      if i >= k {
        assert s[i] == body[i - k];
      }
    }
    PlainText(s);
    if sign == NoSign {
      assert s == body;
      StrippedUnsigned(body);
    } else {
      assert s[1..] == body;
      StrippedSigned(s);
    }
  }

  /** Text led by a digit or a point is read as the unsigned numeral it spells. */
  lemma {:induction false} MagnitudeOfNumeral(negative: bool, body: string, v: real)
    requires body != [] && (IsDigit(body[0]) || body[0] == '.') && ParseUnsigned(body) == Some(v)
    ensures ParseMagnitude(negative, body) == Some(Finite(if negative then -v else v))
  {
    NotWord(body);
  }

  /** Digits around a point, at least one of them, read after an optional
      minus sign. */
  lemma {:induction false} PointMagnitude(negative: bool, intDigits: string, fracDigits: string)
    requires AllDigits(intDigits) && AllDigits(fracDigits) && |intDigits| + |fracDigits| > 0
    ensures var v := PointValue(intDigits, fracDigits);
      ParseMagnitude(negative, intDigits + "." + fracDigits) == Some(Finite(if negative then -v else v))
  {
    var body := intDigits + "." + fracDigits;
    assert body[0] == if intDigits == [] then '.' else intDigits[0];
    ParseUnsignedPoint(intDigits, fracDigits);
    MagnitudeOfNumeral(negative, body, PointValue(intDigits, fracDigits));
  }

  lemma {:induction false} PointBody(intDigits: string, fracDigits: string)
    requires AllDigits(intDigits) && AllDigits(fracDigits)
    ensures DigitsAndPoints(intDigits + "." + fracDigits)
  {
    var body := intDigits + "." + fracDigits;
    forall i | 0 <= i < |body| ensures IsDigit(body[i]) || body[i] == '.' {
      if i < |intDigits| {
        assert body[i] == intDigits[i];
      } else if i > |intDigits| {
        assert body[i] == fracDigits[i - |intDigits| - 1];
      }
    }
  }

  /** A decimal numeral with a point, such as `-55.75222`, `+1.5`, `.5` or
      `5.`, is read as exactly the number it denotes. */
  lemma {:induction false} ParsePointNumeral(sign: Sign, intDigits: string, fracDigits: string)
    requires AllDigits(intDigits) && AllDigits(fracDigits) && |intDigits| + |fracDigits| > 0
    ensures ParseFloat(SignText(sign) + (intDigits + "." + fracDigits))
      == Some(Finite(Signed(sign, PointValue(intDigits, fracDigits))))
  {
    PointBody(intDigits, fracDigits);
    PointMagnitude(sign == Minus, intDigits, fracDigits);
    ParseSigned(sign, intDigits + "." + fracDigits);
  }

  /** Digits alone, read after an optional minus sign. */
  lemma {:induction false} IntegerMagnitude(negative: bool, digits: string)
    requires AllDigits(digits) && digits != []
    ensures var v := ValueOf(digits) as real;
      ParseMagnitude(negative, digits) == Some(Finite(if negative then -v else v))
  {
    ParseUnsignedInteger(digits);
    MagnitudeOfNumeral(negative, digits, ValueOf(digits) as real);
  }

  /** An integer numeral, such as `-91` or `+91`, is read as exactly that
      integer. */
  lemma {:induction false} ParseIntegerNumeral(sign: Sign, digits: string)
    requires AllDigits(digits) && digits != []
    ensures ParseFloat(SignText(sign) + digits) == Some(Finite(Signed(sign, ValueOf(digits) as real)))
  {
    assert DigitsAndPoints(digits);
    IntegerMagnitude(sign == Minus, digits);
    ParseSigned(sign, digits);
  }

  lemma {:induction false} NanWord(s: string)
    requires s == "nan"
    ensures IsNanWord(s) && !IsInfinityWord(s)
  {
    assert LowerAscii(s) == "nan";
  }

  /** `float("nan")` is NaN, not an error. */
  lemma {:induction false} NanText(s: string)
    requires s == "nan"
    ensures ParseFloat(s) == Some(NaN)
  {
    NanWord(s);
    assert '_' !in s && NoInfoSeparator(s);
    PlainText(s);
    StrippedUnsigned(s);
  }
}
