/** The combine-measurement conversions: a "feet-inches" height token to
    centimetres, and three null-propagating scalings, each rounded to two
    decimals. */
module Conversions {
  import opened Wrappers
  import opened Text
  import opened Cells
  import opened Rounding

  const InchesPerFoot: int := 12
  const CmPerInch: real := 2.54
  const KgPerPound: real := 0.453592
  const MetresPerInch: real := 0.0254

  /** Why the as-written height conversion raises `ValueError`. */
  datatype HeightError =
    | TooManyParts   // more than one '-': the two-name unpacking fails
    | NotAnInteger   // a piece that `int()` rejects

  /** `round(...)` to hundredths of `x`: a whole number of hundredths, no
      farther from `x` than any other, an exact tie going to the even one. */
  ghost predicate IsRoundedTo(r: real, x: real) {
    && IsCents(r)
    && Abs(r - x) <= 0.005
    && (forall m: int :: Abs(r - x) <= CentGap(m, x))
    && (Abs(r - x) == 0.005 ==> (r * 100.0).Floor % 2 == 0)
  }

  /** Total inches of `feet` and `inches`, in centimetres, before rounding. */
  function ExactCm(feet: int, inches: int): real {
    (feet * InchesPerFoot + inches) as real * CmPerInch
  }

  /** `feet_inches_to_cm` exactly as written: strings without '-' and
      non-strings give None, and a hyphenated string that is not two integers
      raises. */
  function FeetInchesToCm(height: Cell): (r: Result<Option<real>, HeightError>)
    ensures !height.Str? ==> r == Success(None)
    ensures height.Str? && '-' !in height.s ==> r == Success(None)
    ensures height.Str? && '-' in height.s ==> r != Success(None)
    ensures r.Success? && r.value.Some? ==>
      exists feet: int, inches: int {:trigger ExactCm(feet, inches)} ::
        IsRoundedTo(r.value.value, ExactCm(feet, inches))
  {
    match height
    case Str(s) =>
      if '-' !in s then Success(None)
      else
        var parts := Split(s, '-');
        if |parts| != 2 then Failure(TooManyParts)
        else (match (ParseInt(parts[0]), ParseInt(parts[1]))
              case (Some(feet), Some(inches)) => Success(Some(Round2(ExactCm(feet, inches))))
              case _ => Failure(NotAnInteger))
    case _ => Success(None)
  }

  /** A dangling hyphen makes the as-written conversion raise. */
  lemma DanglingHyphenRaises()
    ensures FeetInchesToCm(Str("6-")) == Failure(NotAnInteger)
  {
    assert "6-" == "6" + ['-'] + "";
    SplitAtSingleSeparator("6", "", '-');
  }

  /** A second hyphen makes the as-written conversion raise. */
  lemma SecondHyphenRaises()
    ensures FeetInchesToCm(Str("6-2-1")) == Failure(TooManyParts)
  {
    assert "6-2-1" == "6" + ['-'] + ("2" + ['-'] + "1");
    SplitFirstPiece("6", "2-1", '-');
    SplitAtSingleSeparator("2", "1", '-');
  }

  /** The feet and inches of a height token: exactly one '-' with an integer
      on each side. */
  function HeightParts(s: string): (r: Option<(int, int)>)
    ensures r.Some? ==> '-' in s
  {
    var parts := Split(s, '-');
    if '-' !in s then SplitWithoutSeparator(s, '-'); None
    else if |parts| != 2 then None
    else match (ParseInt(parts[0]), ParseInt(parts[1]))
      case (Some(feet), Some(inches)) => Some((feet, inches))
      case _ => None
  }

  /** The height conversion with every malformed token mapped to None, the way
      non-hyphenated strings and non-strings already are. It agrees with
      `FeetInchesToCm` wherever that one does not raise. */
  function HeightToCm(height: Cell): (r: Option<real>)
    ensures r.Some? <==> height.Str? && HeightParts(height.s).Some?
    ensures r.Some? ==>
      var (feet, inches) := HeightParts(height.s).value;
      IsRoundedTo(r.value, ExactCm(feet, inches))
    ensures FeetInchesToCm(height).Success? ==> r == FeetInchesToCm(height).value
    ensures FeetInchesToCm(height).Failure? ==> r.None?
  {
    match height
    case Str(s) =>
      (match HeightParts(s)
       case Some((feet, inches)) => Some(Round2(ExactCm(feet, inches)))
       case None => None)
    case _ => None
  }

  /** A height written "F-I" converts to exactly (12F + I) * 2.54 cm: the
      product is already in hundredths, so rounding leaves it alone. */
  lemma HeightTokenRoundTrip(feet: nat, inches: nat)
    ensures HeightToCm(Str(ShowNat(feet) + "-" + ShowNat(inches))) == Some(ExactCm(feet, inches))
    ensures FeetInchesToCm(Str(ShowNat(feet) + "-" + ShowNat(inches))) == Success(Some(ExactCm(feet, inches)))
  {
    TokenParses(feet, inches);
    ExactCmIsCents(feet, inches);
  }

  /** "F-I" splits into the two renderings, and each reads back as itself. */
  lemma TokenParses(feet: nat, inches: nat)
    ensures '-' in ShowNat(feet) + "-" + ShowNat(inches)
    ensures Split(ShowNat(feet) + "-" + ShowNat(inches), '-') == [ShowNat(feet), ShowNat(inches)]
    ensures ParseInt(ShowNat(feet)) == Some(feet) && ParseInt(ShowNat(inches)) == Some(inches)
  {
    var f, i := ShowNat(feet), ShowNat(inches);
    assert '-' !in f by { assert forall k :: 0 <= k < |f| ==> IsDigit(f[k]); }
    assert '-' !in i by { assert forall k :: 0 <= k < |i| ==> IsDigit(i[k]); }
    assert f + "-" + i == f + ['-'] + i;
    assert (f + "-" + i)[|f|] == '-';
    SplitAtSingleSeparator(f, i, '-');
    ParseIntOfDigits(f);
    ParseIntOfDigits(i);
    DigitsValueOfShowNat(feet);
    DigitsValueOfShowNat(inches);
  }

  /** Whole inches times 2.54 is a whole number of hundredths. */
  lemma ExactCmIsCents(feet: int, inches: int)
    ensures Round2(ExactCm(feet, inches)) == ExactCm(feet, inches)
  {
    var n := (feet * InchesPerFoot + inches) * 254;
    assert ExactCm(feet, inches) == n as real / 100.0;
    Round2OfCents(n);
  }

  /** The shared shape of the three numeric conversions: null stays null,
      a number is scaled by `factor` and rounded to hundredths. */
  function ScaleToCents(v: Option<real>, factor: real): (r: Option<real>)
    ensures r.None? <==> v.None?
    ensures v.Some? ==> IsRoundedTo(r.value, v.value * factor)
  {
    if v.None? then None else Some(Round2(v.value * factor))
  }

  /** `pounds_to_kg`. */
  function PoundsToKg(weight: Option<real>): (r: Option<real>)
    ensures r.None? <==> weight.None?
    ensures weight.Some? ==> IsRoundedTo(r.value, weight.value * KgPerPound)
  {
    ScaleToCents(weight, KgPerPound)
  }

  /** `inches_to_m`. */
  function InchesToM(inches: Option<real>): (r: Option<real>)
    ensures r.None? <==> inches.None?
    ensures inches.Some? ==> IsRoundedTo(r.value, inches.value * MetresPerInch)
  {
    ScaleToCents(inches, MetresPerInch)
  }

  /** `inches_to_cm`. */
  function InchesToCm(inches: Option<real>): (r: Option<real>)
    ensures r.None? <==> inches.None?
    ensures inches.Some? ==> IsRoundedTo(r.value, inches.value * CmPerInch)
  {
    ScaleToCents(inches, CmPerInch)
  }

  /** The conversions keep measurements in order: a heavier or longer raw
      value never converts to a smaller one. */
  lemma ConversionsPreserveOrder(x: real, y: real)
    requires x <= y
    ensures PoundsToKg(Some(x)).value <= PoundsToKg(Some(y)).value
    ensures InchesToM(Some(x)).value <= InchesToM(Some(y)).value
    ensures InchesToCm(Some(x)).value <= InchesToCm(Some(y)).value
  {
    PoundsToKgPreservesOrder(x, y);
    InchesToMPreservesOrder(x, y);
    InchesToCmPreservesOrder(x, y);
  }

  lemma PoundsToKgPreservesOrder(x: real, y: real)
    requires x <= y
    ensures PoundsToKg(Some(x)).value <= PoundsToKg(Some(y)).value
  {
    Round2Monotone(x * KgPerPound, y * KgPerPound);
  }

  lemma InchesToMPreservesOrder(x: real, y: real)
    requires x <= y
    ensures InchesToM(Some(x)).value <= InchesToM(Some(y)).value
  {
    Round2Monotone(x * MetresPerInch, y * MetresPerInch);
  }

  lemma InchesToCmPreservesOrder(x: real, y: real)
    requires x <= y
    ensures InchesToCm(Some(x)).value <= InchesToCm(Some(y)).value
  {
    Round2Monotone(x * CmPerInch, y * CmPerInch);
  }

  /** A whole number of inches converts to centimetres exactly. */
  lemma WholeInchesToCmIsExact(n: int)
    ensures InchesToCm(Some(n as real)) == Some(n as real * CmPerInch)
  {
    var x := n as real * CmPerInch;
    assert x == (n * 254) as real / 100.0;
    Round2OfCents(n * 254);
    assert Round2(x) == x;
    assert ScaleToCents(Some(n as real), CmPerInch) == Some(Round2(x));
  }
}
