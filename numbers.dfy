/**
  JavaScript numbers as the dashboard uses them, over exact reals: NaN or a real value,
  `parseFloat`, `Math.round` and `Number.prototype.toFixed(1)`.
*/
module Numbers {
  import opened Optional
  import opened Text

  /** A JavaScript number: NaN, or a (finite) value. */
  datatype Number = NaN | Num(value: real)

  /** `Math.round(x)`: the nearest integer, halves rounded towards +infinity. */
  function MathRound(x: real): (n: int)
    ensures x - 0.5 < n as real <= x + 0.5
  {
    (x + 0.5).Floor
  }

  // ---------------------------------------------------------------------------------------
  // parseFloat

  /** The value of the decimal text `whole.frac`. */
  function DecimalValue(whole: string, frac: string): real
    requires AllDigits(whole) && AllDigits(frac)
  {
    DigitsValue(whole) as real + DigitsValue(frac) as real / Pow10(|frac|) as real
  }

  /** Digits, optionally followed by a point and more digits, with at least one digit overall. */
  function ParseUnsignedDecimal(s: string): Option<real> {
    var n := LeadingDigits(s);
    if n < |s| && s[n] == '.' then
      var f := LeadingDigits(s[n + 1..]);
      if n == 0 && f == 0 then None
      else Some(DecimalValue(s[..n], s[n + 1..][..f]))
    else if n == 0 then None
    else Some(DecimalValue(s[..n], ""))
  }

  /** `parseFloat(s)`: an optional sign and the longest decimal prefix; NaN when there is none. */
  function ParseFloat(s: string): (r: Number)
    ensures |s| > 0 && IsDigit(s[0]) ==> r.Num?
    ensures (|s| == 0 || !(IsDigit(s[0]) || s[0] in "+-.")) ==> r == NaN
  {
    var signed := |s| > 0 && (s[0] == '-' || s[0] == '+');
    var body := if signed then s[1..] else s;
    match ParseUnsignedDecimal(body)
    case None => NaN
    case Some(v) => Num(if signed && s[0] == '-' then -v else v)
  }

  lemma ParseUnsignedText(whole: string, frac: string)
    requires AllDigits(whole) && AllDigits(frac) && |whole| > 0 && |frac| > 0
    ensures ParseUnsignedDecimal(whole + "." + frac) == Some(DecimalValue(whole, frac))
  {
    var s := whole + "." + frac;
    var n := LeadingDigits(s);
    assert n == |whole| by {
      assert s == whole + ("." + frac);
      LeadingDigitsOfDigitsThen(whole, "." + frac);
    }
    assert s[..n] == whole;
    assert n < |s| && s[n] == '.';
    var rest := s[n + 1..];
    assert rest == frac;
    var f := LeadingDigits(rest);
    assert f == |frac| by {
      assert frac + "" == frac;
      LeadingDigitsOfDigitsThen(frac, "");
    }
    assert rest[..f] == frac;
  }

  /** A plain decimal `whole.frac` parses to its exact value. */
  lemma ParseDecimalText(whole: string, frac: string)
    requires AllDigits(whole) && AllDigits(frac) && |whole| > 0 && |frac| > 0
    ensures ParseFloat(whole + "." + frac) == Num(DecimalValue(whole, frac))
  {
    ParseUnsignedText(whole, frac);
    var s := whole + "." + frac;
    assert s[0] == whole[0];
  }

  // ---------------------------------------------------------------------------------------
  // toFixed(1)

  /** The value `toFixed(1)` renders: `x` rounded to one decimal place, halves away from zero. */
  function Round1(x: real): (r: real)
    ensures x >= 0.0 ==> x - 0.05 < r <= x + 0.05
    ensures x < 0.0 ==> x - 0.05 <= r < x + 0.05
    ensures (r * 10.0).Floor as real == r * 10.0
  {
    var k := if x < 0.0 then -MathRound(-x * 10.0) else MathRound(x * 10.0);
    WholeTenths(k);
    k as real / 10.0
  }

  /** A whole number of tenths, times ten, is a whole number. */
  lemma WholeTenths(k: int)
    ensures (k as real / 10.0 * 10.0).Floor == k
  {
    assert k as real / 10.0 * 10.0 == k as real;
  }

  function FixedNonNegative(x: real): string
    requires x >= 0.0
  {
    Tenths(MathRound(x * 10.0))
  }

  /** `n` tenths written as the whole part, a point and the tenths digit. */
  function Tenths(n: nat): string {
    NatToString(n / 10) + "." + [DigitChar(n % 10)]
  }

  /** Tenths are written as digits, a point and one digit. */
  lemma TenthsShape(n: nat)
    ensures var t := Tenths(n);
      |t| >= 3 && IsDigit(t[0]) && t[|t| - 2] == '.' && IsDigit(t[|t| - 1]) && AllDigits(t[..|t| - 2])
  {
    var t := Tenths(n);
    var whole := NatToString(n / 10);
    assert t == whole + "." + [DigitChar(n % 10)];
    assert t[..|t| - 2] == whole;
  }

  /**
    `Number.prototype.toFixed(1)`: NaN is written `NaN`; a number is written with a minus sign
    exactly when it is negative, then digits, a point and exactly one digit.
  */
  function ToFixed1(x: Number): (r: string)
    ensures x.NaN? ==> r == "NaN"
    ensures x.Num? ==> |r| >= 3 && r[|r| - 2] == '.' && IsDigit(r[|r| - 1])
    ensures x.Num? ==> (r[0] == '-' <==> x.value < 0.0)
  {
    match x
    case NaN => "NaN"
    case Num(v) =>
      if v < 0.0 then
        TenthsShape(MathRound(-v * 10.0));
        "-" + FixedNonNegative(-v)
      else
        TenthsShape(MathRound(v * 10.0));
        FixedNonNegative(v)
  }

  lemma FixedNonNegativeParses(x: real)
    requires x >= 0.0
    ensures ParseFloat(FixedNonNegative(x)) == Num(Round1(x))
  {
    TenthsParse(MathRound(x * 10.0));
  }

  /** Written tenths parse back to their value. */
  lemma TenthsParse(n: nat)
    ensures ParseFloat(Tenths(n)) == Num(n as real / 10.0)
  {
    var whole := NatToString(n / 10);
    var frac := [DigitChar(n % 10)];
    NatToStringValue(n / 10);
    assert Tenths(n) == whole + "." + frac;
    ParseDecimalText(whole, frac);
    TenthsValue(n, whole, frac);
  }

  /** The whole part and last digit of a count of tenths denote its value. */
  lemma TenthsValue(n: nat, whole: string, frac: string)
    requires whole == NatToString(n / 10) && frac == [DigitChar(n % 10)]
    requires AllDigits(whole) && DigitsValue(whole) == n / 10
    ensures AllDigits(frac) && DecimalValue(whole, frac) == n as real / 10.0
  {
    assert DigitsValue(frac) == n % 10 by {
      assert frac[..0] == [];
    }
    assert Pow10(1) == 10;
    TenthsSplit(n);
  }

  /** A count of tenths is its whole part plus its last digit in tenths. */
  lemma TenthsSplit(n: int)
    requires n >= 0
    ensures (n / 10) as real + (n % 10) as real / 10.0 == n as real / 10.0
  {
    assert n == 10 * (n / 10) + n % 10;
  }

  /**
    What `toFixed(1)` writes is the value rounded to one decimal place: parsing the text back
    gives exactly Round1 of the number, and NaN stays NaN.
  */
  lemma ToFixed1RoundTrip(x: Number)
    ensures ParseFloat(ToFixed1(x)) == match x case NaN => NaN case Num(v) => Num(Round1(v))
  {
    match x
    case NaN =>
    case Num(v) =>
      if v < 0.0 {
        NegativeFixedParses(v);
      } else {
        NonNegativeFixedParses(v);
      }
  }

  lemma NegativeFixedParses(v: real)
    requires v < 0.0
    ensures ParseFloat(ToFixed1(Num(v))) == Num(Round1(v))
  {
    FixedNonNegativeParses(-v);
    var t := FixedNonNegative(-v);
    assert IsDigit(t[0]) by {
      var n := MathRound(-v * 10.0) / 10;
      assert t[0] == NatToString(n)[0];
    }
    NegatedParse(t, Round1(-v));
    assert ToFixed1(Num(v)) == "-" + t;
  }

  /** A minus sign before unsigned digits negates the parsed value. */
  lemma NegatedParse(t: string, w: real)
    requires |t| > 0 && IsDigit(t[0]) && ParseFloat(t) == Num(w)
    ensures ParseFloat("-" + t) == Num(-w)
  {
    assert ("-" + t)[1..] == t;
  }

  lemma NonNegativeFixedParses(v: real)
    requires v >= 0.0
    ensures ParseFloat(ToFixed1(Num(v))) == Num(Round1(v))
  {
    FixedNonNegativeParses(v);
    var t := FixedNonNegative(v);
    assert ToFixed1(Num(v)) == t;
    assert t[0] != '-' && t[0] != '+' by {
      assert t[0] == NatToString(MathRound(v * 10.0) / 10)[0];
    }
  }

  /** `toFixed(1)` writes digits, a point and exactly one digit after it (or "NaN"). */
  lemma ToFixed1Shape(v: real)
    requires v >= 0.0
    ensures var t := ToFixed1(Num(v));
            |t| >= 3 && t[|t| - 2] == '.' && IsDigit(t[|t| - 1]) && AllDigits(t[..|t| - 2])
  {
    var t := ToFixed1(Num(v));
    var whole := NatToString(MathRound(v * 10.0) / 10);
    assert t == whole + "." + [t[|t| - 1]];
    assert t[..|t| - 2] == whole;
  }
}
