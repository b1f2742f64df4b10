/** Digit counts and quotient sizes from the exponent of a rounded floating-point conversion. */
module Estimate {
  import opened Powers
  import opened Encoding
  import opened DivTables

  /**
   The exponent of a coefficient converted to single precision: the conversion may round up to the next power
   of two. (Any relative error up to 2^-20 is allowed for; the actual one is below 2^-22.)
   */
  ghost predicate IsFloatExponent(c: nat, b: nat) {
    || Pow2(b) <= c < Pow2(b + 1)
    || (b > 0 && c < Pow2(b) && 0xf_ffff * Pow2(b) <= 0x10_0000 * c)
  }

  method FloatExponent(c: nat) returns (b: nat)
    requires 0 < c < EXP_UNIT
    ensures b < 114 && IsFloatExponent(c, b)
  {
    b := FloorLog2(c);
    CoefficientLog2(c);
    if 0xf_ffff * Pow2(b + 1) <= 0x10_0000 * c {
      if * {
        b := b + 1;
      }
    }
  }

  /** The estimate for b, one more from the next power of ten on, counts the digits exactly. */
  function DigitsFromExponent(c: nat, b: nat): (q: nat)
    requires 0 < c && b < 114 && IsFloatExponent(c, b)
    ensures q == Digits(c)
  {
    DigitsEstimated(c, b);
    if c >= Power10Index(b) then EstimateDigits(b) + 1 else EstimateDigits(b)
  }

  lemma DigitsEstimated(c: nat, b: nat)
    requires 0 < c && b < 114 && IsFloatExponent(c, b)
    ensures Digits(c) == if c >= Power10Index(b) then EstimateDigits(b) + 1 else EstimateDigits(b)
  {
    hide EstimateDigits, Power10Index, Digits, Pow2, Pow10;
    EstimateRow(b);
    var d := EstimateDigits(b);
    Pow2Double(b);
    Pow10Step(d);
    if b == 0 {
      Pow10Zero();
    }
    DigitsUnique(c, if c >= Pow10(d) then d + 1 else d);
  }

  /** floor(log2(cy / cx)) of the two conversions: their bit patterns subtracted and shifted. */
  ghost predicate IsQuotientExponent(cx: nat, cy: nat, b: nat) {
    && 0xf_ffff * (Pow2(b) * cx) <= 0x10_0000 * cy
    && 0xf_ffff * cy < 0x10_0000 * (2 * (Pow2(b) * cx))
  }

  method FloatQuotientExponent(cx: nat, cy: nat) returns (b: nat)
    requires 0 < cx < cy < EXP_UNIT
    ensures b < 114 && IsQuotientExponent(cx, cy, b)
  {
    QuotientPositive(cx, cy);
    b := FloorLog2(cy / cx);
    QuotientLog2(cx, cy, b);
    if 0xf_ffff * (Pow2(b + 1) * cx) <= 0x10_0000 * cy {
      NextExponent(cx, cy, b);
      if * {
        b := b + 1;
      }
    } else if b > 0 && 0xf_ffff * cy < 0x10_0000 * (Pow2(b) * cx) {
      PreviousExponent(cx, cy, b);
      if * {
        b := b - 1;
      }
    }
  }

  lemma QuotientPositive(cx: nat, cy: nat)
    requires 0 < cx < cy < EXP_UNIT
    ensures 0 < cy / cx < EXP_UNIT
  {
  }

  lemma QuotientLog2(cx: nat, cy: nat, b: nat)
    requires 0 < cx < cy < EXP_UNIT && cy / cx > 0 && b == FloorLog2(cy / cx)
    ensures b < 113 && IsQuotientExponent(cx, cy, b)
  {
    hide FloorLog2, Pow2;
    QuotientPositive(cx, cy);
    CoefficientLog2(cy / cx);
    Pow2Double(b);
    QuotientBetween(cx, cy, cy / cx, Pow2(b));
  }

  lemma QuotientBetween(cx: nat, cy: nat, q: nat, two: nat)
    requires cx > 0 && q == cy / cx && two <= q < 2 * two
    ensures two * cx <= cy < 2 * (two * cx)
  {
    DivModEquation(cy, cx);
    MulMono(two, q, cx);
    MulMono(q + 1, 2 * two, cx);
    MulDistribute(q, 1, cx);
    MulAssoc(2, two, cx);
  }

  lemma NextExponent(cx: nat, cy: nat, b: nat)
    requires IsQuotientExponent(cx, cy, b) && 0xf_ffff * (Pow2(b + 1) * cx) <= 0x10_0000 * cy
    ensures cx > 0 ==> IsQuotientExponent(cx, cy, b + 1)
  {
  }

  lemma PreviousExponent(cx: nat, cy: nat, b: nat)
    requires b > 0 && IsQuotientExponent(cx, cy, b) && 0xf_ffff * cy < 0x10_0000 * (Pow2(b) * cx)
    ensures IsQuotientExponent(cx, cy, b - 1)
  {
  }

  /** Scaling cx by the table's power of ten brings it within a factor of ten of cy, on either side. */
  lemma QuotientScaled(cx: nat, cy: nat, b: nat)
    requires 0 < cx < cy && b < 114 && IsQuotientExponent(cx, cy, b)
    ensures cx * Power10Index(b) < 10 * cy && cy < 10 * (cx * Power10Index(b))
    ensures Power10Index(b) == Pow10(EstimateDigits(b)) && EstimateDigits(b) <= 35
  {
    hide EstimateDigits, Power10Index, Pow2, Pow10;
    EstimateRow(b);
    var d := EstimateDigits(b);
    Pow10Step(d - 1);
    if b == 0 {
      Pow10Zero();
    } else {
      LowerPower(cx, cy, Pow2(b), Pow10(d - 1));
    }
    MulAssoc(10, Pow10(d - 1), cx);
    UpperPower(cx, cy, Pow2(b), Pow10(d));
  }

  lemma LowerPower(cx: nat, cy: nat, two: nat, ten: nat)
    requires cx > 0 && 0x10_0000 * ten < 0xf_ffff * two && 0xf_ffff * (two * cx) <= 0x10_0000 * cy
    ensures ten * cx < cy
  {
  }

  lemma UpperPower(cx: nat, cy: nat, two: nat, ten: nat)
    requires cx > 0 && two < ten && 0xf_ffff * cy < 0x10_0000 * (2 * (two * cx))
    ensures cy < 10 * (cx * ten)
  {
  }
}
