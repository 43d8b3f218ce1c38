/** The coordinate check of the add-checkpoint form: both texts are
    normalised (decimal comma to point, degree signs dropped, whitespace
    stripped), read with Python's `float`, and accepted only together and
    only inside the latitude and longitude ranges. */
module Coords {
  import opened Results
  import opened Text
  import opened Decimal
  import opened PyFloat

  const Degree: char := '\U{B0}'
  const LatitudeLimit: real := 90.0
  const LongitudeLimit: real := 180.0

  /** The outcome of the check: both values, or neither. */
  datatype CoordCheck = Accepted(latitude: real, longitude: real) | Rejected

  /** Every `,` made a `.` and every degree sign removed. */
  function Canonical(s: string): (r: string)
    ensures ',' !in r && Degree !in r
  {
    var d := ReplaceChar(s, ',', '.');
    assert ',' !in d by {
      forall i | 0 <= i < |d| ensures d[i] != ',' { }
    }
    RemoveChar(d, Degree)
  }

  /** The text handed to `float`: canonical, then stripped. */
  function Normalise(s: string): (r: string)
    ensures ',' !in r && Degree !in r
  {
    var c := Canonical(s);
    StripAbsent(c, ',');
    StripAbsent(c, Degree);
    Strip(c)
  }

  /** Python's `bound <= f` between an int and a float: false for NaN,
      decided by the sign for an infinity. */
  predicate NotBelow(bound: real, f: Float) {
    match f
    case Finite(v) => bound <= v
    case Infinite(negative) => !negative
    case NaN => false
  }

  /** Python's `f <= bound` between a float and an int. */
  predicate NotAbove(f: Float, bound: real) {
    match f
    case Finite(v) => v <= bound
    case Infinite(negative) => negative
    case NaN => false
  }

  /** Python's chained comparison `-bound <= f <= bound`. */
  predicate Within(f: Float, bound: real) {
    NotBelow(-bound, f) && NotAbove(f, bound)
  }

  /** `text` reads as a finite number no further than `bound` from zero. */
  predicate ReadsWithin(text: string, bound: real) {
    var f := ParseFloat(Normalise(text));
    f.Some? && f.value.Finite? && -bound <= f.value.value <= bound
  }

  /** `validate_coords`: accepted exactly when both texts read as finite numbers
      in range, and then with exactly those numbers. */
  function ValidateCoords(latText: string, lonText: string): (r: CoordCheck)
    ensures r.Accepted? <==> ReadsWithin(latText, LatitudeLimit) && ReadsWithin(lonText, LongitudeLimit)
    ensures r.Accepted? ==> ParseFloat(Normalise(latText)) == Some(Finite(r.latitude))
    ensures r.Accepted? ==> ParseFloat(Normalise(lonText)) == Some(Finite(r.longitude))
    ensures r.Accepted? ==> -LatitudeLimit <= r.latitude <= LatitudeLimit
    ensures r.Accepted? ==> -LongitudeLimit <= r.longitude <= LongitudeLimit
  {
    match (ParseFloat(Normalise(latText)), ParseFloat(Normalise(lonText)))
    case (Some(lat), Some(lon)) =>
      WithinMeansFinite(lat, LatitudeLimit);
      WithinMeansFinite(lon, LongitudeLimit);
      if Within(lat, LatitudeLimit) && Within(lon, LongitudeLimit) then Accepted(lat.value, lon.value)
      else Rejected
    case _ => Rejected
  }

  /** Under IEEE comparison, a range check with a non-negative bound passes
      exactly for finite values in the range: infinities and NaN fail it. */
  lemma {:induction false} WithinMeansFinite(f: Float, bound: real)
    requires bound >= 0.0
    ensures Within(f, bound) <==> f.Finite? && -bound <= f.value <= bound
  {
  }

  lemma {:induction false} CanonicalAppend(s: string, t: string)
    ensures Canonical(s + t) == Canonical(s) + Canonical(t)
  {
    ReplaceCharAppend(s, t, ',', '.');
    RemoveCharAppend(ReplaceChar(s, ',', '.'), ReplaceChar(t, ',', '.'), Degree);
  }

  /** Whitespace has no comma or degree sign, so normalising keeps it as is. */
  lemma {:induction false} CanonicalSpace(a: string)
    requires AllSpace(a)
    ensures Canonical(a) == a
  {
    assert ',' !in a && Degree !in a by {
      forall i | 0 <= i < |a| ensures a[i] != ',' && a[i] != Degree {
        assert IsSpace(a[i]);
      }
    }
    ReplaceCharAbsent(a, ',', '.');
  }

  /** The strip `save_cp` applies to each field before `validate_coords`
      never changes what `validate_coords` reads: its own replacements and
      strip give the same text with or without it. */
  lemma {:induction false} NormaliseAfterStrip(s: string)
    ensures Normalise(Strip(s)) == Normalise(s)
  {
    var k := |s| - |TrimStart(s)|;
    var m := Strip(s);
    StripFacts(s);
    var before := s[..k];
    var after := s[k + |m|..];
    assert s == before + m + after;
    CanonicalSpace(before);
    CanonicalSpace(after);
    CanonicalAppend(before + m, after);
    CanonicalAppend(before, m);
    StripSpaceFrame(before, Canonical(m), after);
  }

  /** A decimal comma reads exactly as a decimal point. */
  lemma {:induction false} CommaAsPoint(a: string, b: string)
    ensures Normalise(a + "," + b) == Normalise(a + "." + b)
  {
    CanonicalAppend(a + ",", b);
    CanonicalAppend(a, ",");
    CanonicalAppend(a + ".", b);
    CanonicalAppend(a, ".");
    assert Canonical(",") == Canonical(".") == ".";
  }

  /** A degree sign anywhere in the text is ignored. */
  lemma {:induction false} DegreeIgnored(a: string, b: string)
    ensures Normalise(a + [Degree] + b) == Normalise(a + b)
  {
    CanonicalAppend(a + [Degree], b);
    CanonicalAppend(a, [Degree]);
    CanonicalAppend(a, b);
    assert ReplaceChar([Degree], ',', '.') == [Degree];
    assert Canonical([Degree]) == [];
    assert Canonical(a) + [] == Canonical(a);
  }

  /** Writing the latitude with a decimal comma instead of a point does not
      change the outcome. */
  lemma {:induction false} LatitudeCommaIgnored(a: string, b: string, lonText: string)
    ensures ValidateCoords(a + "," + b, lonText) == ValidateCoords(a + "." + b, lonText)
  {
    CommaAsPoint(a, b);
  }

  /** Writing the longitude with a decimal comma instead of a point does not
      change the outcome. */
  lemma {:induction false} LongitudeCommaIgnored(latText: string, a: string, b: string)
    ensures ValidateCoords(latText, a + "," + b) == ValidateCoords(latText, a + "." + b)
  {
    CommaAsPoint(a, b);
  }

  /** A degree sign in the latitude does not change the outcome. */
  lemma {:induction false} LatitudeDegreeIgnored(a: string, b: string, lonText: string)
    ensures ValidateCoords(a + [Degree] + b, lonText) == ValidateCoords(a + b, lonText)
  {
    DegreeIgnored(a, b);
  }

  /** A degree sign in the longitude does not change the outcome. */
  lemma {:induction false} LongitudeDegreeIgnored(latText: string, a: string, b: string)
    ensures ValidateCoords(latText, a + [Degree] + b) == ValidateCoords(latText, a + b)
  {
    DegreeIgnored(a, b);
  }

  /** Text already free of commas, degree signs and surrounding whitespace is
      handed to `float` unchanged. */
  lemma {:induction false} NormalisePlain(s: string)
    requires ',' !in s && Degree !in s && Trimmed(s)
    ensures Normalise(s) == s
  {
    ReplaceCharAbsent(s, ',', '.');
    StripTrimmed(s);
  }

  /** The advertised spelling `dd,ddddd°`, optionally signed and with
      either part of the number possibly empty (`,5°`), reads as the decimal
      number it denotes. */
  lemma {:induction false} ReadsAdvertisedFormat(sign: Sign, intDigits: string, fracDigits: string)
    requires AllDigits(intDigits) && AllDigits(fracDigits) && |intDigits| + |fracDigits| > 0
    ensures ParseFloat(Normalise(SignText(sign) + intDigits + "," + fracDigits + [Degree]))
      == Some(Finite(Signed(sign, PointValue(intDigits, fracDigits))))
  {
    NormaliseAdvertised(sign, intDigits, fracDigits);
    ParsePointNumeral(sign, intDigits, fracDigits);
  }

  lemma {:induction false} NormaliseAdvertised(sign: Sign, intDigits: string, fracDigits: string)
    requires AllDigits(intDigits) && AllDigits(fracDigits) && |intDigits| + |fracDigits| > 0
    ensures Normalise(SignText(sign) + intDigits + "," + fracDigits + [Degree])
      == SignText(sign) + (intDigits + "." + fracDigits)
  {
    var prefix := SignText(sign);
    var plain := prefix + (intDigits + "." + fracDigits);
    AdvertisedShape(prefix, intDigits, fracDigits);
    CommaAsPoint(prefix + intDigits, fracDigits + [Degree]);
    TrailingDegree(plain);
    PlainNumeral(sign, intDigits, fracDigits);
    NormalisePlain(plain);
  }

  lemma {:induction false} AdvertisedShape(sign: string, intDigits: string, fracDigits: string)
    ensures sign + intDigits + "," + fracDigits + [Degree] == (sign + intDigits) + "," + (fracDigits + [Degree])
    ensures (sign + intDigits) + "." + (fracDigits + [Degree]) == sign + (intDigits + "." + fracDigits) + [Degree]
  {
  }

  lemma {:induction false} TrailingDegree(s: string)
    ensures Normalise(s + [Degree]) == Normalise(s)
  {
    DegreeIgnored(s, []);
    assert s + [Degree] + [] == s + [Degree];
    assert s + [] == s;
  }

  lemma {:induction false} PlainNumeral(sign: Sign, intDigits: string, fracDigits: string)
    requires AllDigits(intDigits) && AllDigits(fracDigits)
    ensures var plain := SignText(sign) + (intDigits + "." + fracDigits);
      ',' !in plain && Degree !in plain && Trimmed(plain)
  {
    var body := intDigits + "." + fracDigits;
    var plain := SignText(sign) + body;
    var k := |SignText(sign)|;
    PointBody(intDigits, fracDigits);
    forall i | 0 <= i < |plain| ensures plain[i] != ',' && plain[i] != Degree && !IsSpace(plain[i]) {
      if i >= k {
        assert plain[i] == body[i - k];
      }
    }
  }

  /** Coordinates typed in the advertised format are accepted with their
      decimal values whenever those values lie in range. */
  lemma {:induction false} AdvertisedFormatAccepted(latSign: Sign, latInt: string, latFrac: string,
                                                    lonSign: Sign, lonInt: string, lonFrac: string)
    requires AllDigits(latInt) && AllDigits(latFrac) && |latInt| + |latFrac| > 0
    requires AllDigits(lonInt) && AllDigits(lonFrac) && |lonInt| + |lonFrac| > 0
    requires PointValue(latInt, latFrac) <= LatitudeLimit
    requires PointValue(lonInt, lonFrac) <= LongitudeLimit
    ensures ValidateCoords(SignText(latSign) + latInt + "," + latFrac + [Degree],
                           SignText(lonSign) + lonInt + "," + lonFrac + [Degree])
      == Accepted(Signed(latSign, PointValue(latInt, latFrac)), Signed(lonSign, PointValue(lonInt, lonFrac)))
  {
    PointValueNonNegative(latInt, latFrac);
    PointValueNonNegative(lonInt, lonFrac);
    ReadsAdvertisedFormat(latSign, latInt, latFrac);
    ReadsAdvertisedFormat(lonSign, lonInt, lonFrac);
  }

  lemma {:induction false} PointValueNonNegative(intDigits: string, fracDigits: string)
    requires AllDigits(intDigits) && AllDigits(fracDigits)
    ensures PointValue(intDigits, fracDigits) >= 0.0
  {
    var q := ValueOf(fracDigits) as real / (Pow10(|fracDigits|) as real);
    assert q >= 0.0;
  }

  lemma {:induction false} ExampleDigits(latInt: string, latFrac: string, lonInt: string, lonFrac: string)
    requires latInt == "55" && latFrac == "75222" && lonInt == "37" && lonFrac == "61556"
    ensures PointValue(latInt, latFrac) == 55.75222
    ensures PointValue(lonInt, lonFrac) == 37.61556
  {
    ValueOfShort(latInt);
    ValueOfShort(latFrac);
    ValueOfShort(lonInt);
    ValueOfShort(lonFrac);
    assert Pow10(5) == 100000;
  }

  /** An example in the format the form's hint advertises, `55,75222°` and
      `37,61556°`, is accepted as latitude 55.75222 and longitude 37.61556. */
  lemma {:induction false} HintExampleAccepted(latText: string, lonText: string)
    requires latText == "55,75222\U{B0}" && lonText == "37,61556\U{B0}"
    ensures ValidateCoords(latText, lonText) == Accepted(55.75222, 37.61556)
  {
    ExampleDigits("55", "75222", "37", "61556");
    assert SignText(NoSign) + "55" + "," + "75222" + [Degree] == latText;
    assert SignText(NoSign) + "37" + "," + "61556" + [Degree] == lonText;
    AdvertisedFormatAccepted(NoSign, "55", "75222", NoSign, "37", "61556");
  }

  /** A latitude of 91 degrees is refused, whatever the longitude. */
  lemma {:induction false} LatitudeNinetyOneRejected(latText: string, lonText: string)
    requires latText == "91"
    ensures ValidateCoords(latText, lonText) == Rejected
  {
    assert latText[..1] == "9";
    assert ValueOf(latText) == 91;
    NormalisePlain(latText);
    ParseIntegerNumeral(NoSign, latText);
    assert SignText(NoSign) + latText == latText;
  }

  /** `nan` is a float to Python but fails every comparison, so it is refused. */
  lemma {:induction false} NanRejected(latText: string, lonText: string)
    requires latText == "nan"
    ensures ValidateCoords(latText, lonText) == Rejected
  {
    NormalisePlain(latText);
    NanText(latText);
  }
}
