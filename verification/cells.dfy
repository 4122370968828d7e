/** A pandas cell and the per-cell conversions the pipeline applies:
    `astype(str)`, `pd.to_numeric(errors='coerce')` and `round(3)`. */
module Cells {
  import opened Outcomes
  import opened Text

  /** One cell of a data frame: a missing value (NaN/NA), a string, an
      integer, or a float. Floats are finite decimals, which is what the
      spreadsheets and CSV files hold. */
  datatype Cell = Missing | Str(s: string) | Int(i: int) | Float(d: Decimal)

  /** The same decimal with trailing fractional zeros removed. */
  function Normalize(d: Decimal): (r: Decimal)
    ensures r.Value() == d.Value()
    ensures r.scale == 0 || r.mantissa % 10 != 0
    decreases d.scale
  {
    if d.scale > 0 && d.mantissa % 10 == 0 then
      var smaller := Decimal(d.mantissa / 10, d.scale - 1);
      assert smaller.Value() == d.Value() by {
        assert d.mantissa == (d.mantissa / 10) * 10;
        assert Pow10(d.scale) == 10 * Pow10(d.scale - 1);
      }
      Normalize(smaller)
    else d
  }

  /** A whole number written with trailing zero decimals normalises to the
      whole number itself. */
  lemma {:induction false} NormalizeWhole(i: int, e: nat)
    ensures Normalize(Decimal(i * Pow10(e), e)) == Decimal(i, 0)
  {
    if e > 0 {
      var m := i * Pow10(e);
      assert m == (i * Pow10(e - 1)) * 10;
      assert m % 10 == 0 && m / 10 == i * Pow10(e - 1);
      NormalizeWhole(i, e - 1);
    }
  }

  /** Python's `repr` of a float in the non-exponent range: the shortest
      decimal, with ".0" after a whole number. */
  function FloatText(d: Decimal): string
  {
    ReprText(Normalize(d))
  }

  /** The repr of a decimal already without trailing fractional zeros. */
  function ReprText(n: Decimal): string
  {
    if n.scale == 0 then IntText(n.mantissa) + ".0"
    else if n.mantissa < 0 then "-" + FixedText(-n.mantissa, n.scale)
    else FixedText(n.mantissa, n.scale)
  }

  /** `magnitude / 10^scale` written with exactly `scale` fractional
      digits and at least one whole digit. */
  function FixedText(magnitude: nat, scale: nat): string
  {
    var digits := ZFill(NatText(magnitude), scale + 1);
    digits[..|digits| - scale] + "." + digits[|digits| - scale..]
  }

  /** pandas' `astype(str)`: a missing value becomes the text "nan". */
  function AsStr(c: Cell): string
  {
    match c
    case Missing => "nan"
    case Str(s) => s
    case Int(i) => IntText(i)
    case Float(d) => FloatText(d)
  }

  /** A whole-valued float cell is written as its integer text plus ".0",
      whatever trailing zeros the decimal carries. */
  lemma WholeFloatText(i: int, e: nat)
    ensures AsStr(Float(Decimal(i * Pow10(e), e))) == IntText(i) + ".0"
  {
    NormalizeWhole(i, e);
  }

  /** `pd.to_numeric(errors='coerce')` on one cell: numbers keep their value,
      text is read as a decimal, and anything unparsable becomes missing. */
  function ToNumeric(c: Cell): (r: Option<real>)
    ensures c.Missing? ==> r.None?
    ensures c.Int? ==> r == Some(c.i as real)
    ensures c.Float? ==> r == Some(c.d.Value())
    ensures c.Str? ==> (r.Some? <==> ParseDecimal(c.s).Some?)
    ensures c.Str? && r.Some? ==> r.value == ParseDecimal(c.s).value.Value()
  {
    match c
    case Missing => None
    case Int(i) => Some(i as real)
    case Float(d) => Some(d.Value())
    case Str(s) =>
      match ParseDecimal(s)
      case Some(d) => Some(d.Value())
      case None => None
  }

  /** A whole number gives the same numeric value whether the reader
      produced it as text or as an integer. */
  lemma NumericTextOfInt(i: int)
    ensures ToNumeric(Str(IntText(i))) == ToNumeric(Int(i))
  {
    var t := IntText(i);
    IntTextParses(i);
    assert Pow10(0) == 1;
    assert Decimal(i, 0).Value() == i as real;
    assert ToNumeric(Str(t)) == Some(Decimal(i, 0).Value());
  }

  /** Round to the nearest integer, ties to the even neighbour (numpy's
      `rint`, which `Series.round` applies after scaling). */
  function RoundHalfEven(x: real): (n: int)
    ensures -0.5 <= x - n as real <= 0.5
    ensures x - n as real == 0.5 || n as real - x == 0.5 ==> n % 2 == 0
  {
    var f := x.Floor;
    var frac := x - f as real;
    if frac < 0.5 then f
    else if frac > 0.5 then f + 1
    else if f % 2 == 0 then f
    else f + 1
  }

  /** The rounding contract determines the result: any integer within one
      half of `x`, and even on a tie, is the rounded value. */
  lemma RoundHalfEvenUnique(x: real, n: int)
    requires -0.5 <= x - n as real <= 0.5
    requires x - n as real == 0.5 || n as real - x == 0.5 ==> n % 2 == 0
    ensures n == RoundHalfEven(x)
  {
    var m := RoundHalfEven(x);
  }

  /** `x` lies exactly half a thousandth from `y`. */
  predicate IsTie(x: real, y: real)
  {
    x - y == 1.0 / 2000.0 || y - x == 1.0 / 2000.0
  }

  /** A rate cell after `pd.to_numeric(..., errors='coerce') / 100` and
      `round(3)`: unparsable cells (the "--" placeholder among them) become
      missing; a parsed percentage `v` becomes `v / 100` rounded half-even to
      three decimal places, so on a tie the last digit kept is even. */
  function RateCell(c: Cell): (r: Cell)
    ensures ToNumeric(c).None? <==> r.Missing?
    ensures ToNumeric(c).Some? ==>
              r.Float? && r.d.scale == 3 &&
              -1.0 / 2000.0 <= r.d.Value() - ToNumeric(c).value / 100.0 <= 1.0 / 2000.0
    ensures ToNumeric(c).Some? && r.Float? && IsTie(r.d.Value(), ToNumeric(c).value / 100.0) ==>
              r.d.mantissa % 2 == 0
    ensures ToNumeric(c).Some? ==> r.Float? && r.d.mantissa == RoundHalfEven(ToNumeric(c).value * 10.0)
    ensures ToNumeric(c).Some? && 0.0 <= ToNumeric(c).value <= 100.0 ==>
              r.Float? && 0.0 <= r.d.Value() <= 1.0
  {
    match ToNumeric(c)
    case None => Missing
    case Some(v) =>
      var n := RoundHalfEven(v * 10.0);
      assert Pow10(3) == 1000;
      assert Decimal(n, 3).Value() == n as real / 1000.0;
      Float(Decimal(n, 3))
  }

  /** The rate contract pins the value down: a three-place decimal within
      half a thousandth of the percentage over 100, and even on a tie, is
      the rate. */
  lemma RateCellDetermined(c: Cell, n: int)
    requires ToNumeric(c).Some?
    requires -1.0 / 2000.0 <= Decimal(n, 3).Value() - ToNumeric(c).value / 100.0 <= 1.0 / 2000.0
    requires IsTie(Decimal(n, 3).Value(), ToNumeric(c).value / 100.0) ==> n % 2 == 0
    ensures RateCell(c) == Float(Decimal(n, 3))
  {
    var x := ToNumeric(c).value * 10.0;
    assert Pow10(3) == 1000;
    assert Decimal(n, 3).Value() == n as real / 1000.0;
    RoundHalfEvenUnique(x, n);
  }

  /** Writing a cell with `astype(str)` and reading it back with
      `pd.to_numeric` gives its numeric value back: "nan" is missing again,
      `str(i)` reads as `i` and a float's repr reads as the float. */
  lemma NumericTextRoundTrip(c: Cell)
    ensures ToNumeric(Str(AsStr(c))) == ToNumeric(c)
  {
    match c
    case Missing =>
      assert AsStr(c) == "nan";
      assert !IsDigit('n') && !IsSign('n') && 'n' != '.';
    case Str(_) =>
    case Int(i) =>
      NumericTextOfInt(i);
    case Float(d) =>
      FloatTextParses(d);
      var t := AsStr(c);
      assert ToNumeric(Str(t)) == Some(ParseDecimal(t).value.Value());
  }

  /** `FixedText` is a digit string, a '.', and `scale` more digits, the
      digits together denoting the magnitude. */
  lemma FixedTextParts(magnitude: nat, scale: nat) returns (whole: string, frac: string)
    ensures FixedText(magnitude, scale) == whole + "." + frac
    ensures IsDigits(whole) && IsDigits(frac) && |whole| >= 1 && |frac| == scale
    ensures IsDigits(whole + frac) && DigitsValue(whole + frac) == magnitude
  {
    var text := NatText(magnitude);
    var digits := ZFill(text, scale + 1);
    ZFillPreservesValue(text, scale + 1);
    NatTextValue(magnitude);
    whole, frac := SplitDigits(digits, scale);
  }

  /** The last `k` digits and the ones before them. */
  lemma SplitDigits(digits: string, k: nat) returns (whole: string, frac: string)
    requires IsDigits(digits) && k < |digits|
    ensures whole == digits[..|digits| - k] && frac == digits[|digits| - k..]
    ensures IsDigits(whole) && IsDigits(frac) && |whole| >= 1 && |frac| == k
    ensures whole + frac == digits
  {
    whole := digits[..|digits| - k];
    frac := digits[|digits| - k..];
    assert whole + frac == digits;
  }

  /** A digit string with a "0" appended is worth ten times as much. */
  lemma AppendZeroValue(w: string)
    requires IsDigits(w)
    ensures IsDigits(w + "0") && DigitsValue(w + "0") == DigitsValue(w) * 10
  {
    assert (w + "0")[..|w|] == w;
  }

  /** Python's float repr, read back as a decimal, has the float's value. */
  lemma FloatTextParses(d: Decimal)
    ensures ParseDecimal(FloatText(d)).Some?
    ensures ParseDecimal(FloatText(d)).value.Value() == d.Value()
  {
    ReprTextParses(Normalize(d));
  }

  lemma ReprTextParses(n: Decimal)
    ensures ParseDecimal(ReprText(n)).Some?
    ensures ParseDecimal(ReprText(n)).value.Value() == n.Value()
  {
    if n.scale == 0 {
      WholeReprParses(n);
    } else {
      FractionTextParses(n);
    }
  }

  lemma WholeReprParses(n: Decimal)
    requires n.scale == 0
    ensures ParseDecimal(ReprText(n)).Some?
    ensures ParseDecimal(ReprText(n)).value.Value() == n.Value()
  {
    var t := ReprText(n);
    assert t == IntText(n.mantissa) + ".0";
    WholeTextParses(n.mantissa);
    assert n.Value() == n.mantissa as real by { assert Pow10(0) == 1; }
  }

  /** A whole float's repr, "i.0", reads back as `i`. */
  lemma WholeTextParses(i: int)
    ensures ParseDecimal(IntText(i) + ".0").Some?
    ensures ParseDecimal(IntText(i) + ".0").value.Value() == i as real
  {
    var magnitude: nat := if i < 0 then -i else i;
    var sign := if i < 0 then "-" else "";
    var w := NatText(magnitude);
    assert IntText(i) + ".0" == sign + (w + "." + "0");
    ParsesFixedPoint(sign, w, "0");
    AppendZeroValue(w);
    NatTextValue(magnitude);
    var r := Decimal(Signed(sign, magnitude * 10), 1);
    assert Pow10(1) == 10;
    assert r.Value() == (Signed(sign, magnitude * 10) as real) / 10.0;
    assert Signed(sign, magnitude * 10) == i * 10;
  }

  /** The repr of a float with a fractional part reads back as that float. */
  lemma FractionTextParses(n: Decimal)
    requires n.scale > 0
    ensures ParseDecimal(ReprText(n)) == Some(n)
  {
    var magnitude: nat := if n.mantissa < 0 then -n.mantissa else n.mantissa;
    var sign := if n.mantissa < 0 then "-" else "";
    var whole, frac := FixedTextParts(magnitude, n.scale);
    ParsesFixedPoint(sign, whole, frac);
    assert Signed(sign, magnitude) == n.mantissa;
    assert ReprText(n) == sign + (whole + "." + frac);
  }

  /** The spreadsheet placeholder "--" becomes a missing rate. */
  lemma PlaceholderRateMissing()
    ensures RateCell(Str("--")) == Missing
  {
    PlaceholderUnparsable();
  }

  /** A percentage of "85" becomes the rate 0.850. */
  lemma RateOfEightyFive()
    ensures RateCell(Str("85")) == Float(Decimal(850, 3))
  {
    IntTextParses(85);
    assert IntText(85) == "85";
  }
}
