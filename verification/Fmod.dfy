/** bid128_fmod: the scaled-remainder loop. */
module Fmod {
  import opened Powers
  import opened Encoding
  import opened Words
  import opened Tables
  import opened DivTables
  import opened Rounding
  import opened Arithmetic
  import opened Estimate
  import opened Unpacking

  /** The remainder of two finite data with the quotient cut off: the sign of x and the smaller exponent. */
  function Remainder(x: Datum, y: Datum): Datum
    requires x.Finite? && y.Finite? && y.coef > 0
  {
    var e := Min(x.exp, y.exp);
    MulPositive(y.coef, Pow10(y.exp - e));
    MulNonNegative(x.coef, Pow10(x.exp - e));
    DivModEquation(x.coef * Pow10(x.exp - e), y.coef * Pow10(y.exp - e));
    Finite(x.neg, e, x.coef * Pow10(x.exp - e) % (y.coef * Pow10(y.exp - e)))
  }

  lemma MulPositive(a: nat, b: nat)
    requires a > 0 && b > 0
    ensures a * b > 0
  {
  }

  /** On exact values: |r| < |y|, and |x| - |r| is a natural multiple of |y|. */
  lemma RemainderMeaning(x: Datum, y: Datum) returns (k: nat)
    requires x.Finite? && y.Finite? && y.coef > 0
    ensures var r := Remainder(x, y);
            && r.Finite? && r.neg == x.neg && r.exp == (if x.exp <= y.exp then x.exp else y.exp)
            && Abs(Units(r)) < Abs(Units(y))
            && Abs(Units(x)) == Abs(Units(r)) + k * Abs(Units(y))
  {
    hide Pow10;
    var e := Min(x.exp, y.exp);
    var r := Remainder(x, y);
    var p := Pow10(e);
    MulPositive(y.coef, Pow10(y.exp - e));
    MulNonNegative(x.coef, Pow10(x.exp - e));
    var q, s := Divide(x.coef * Pow10(x.exp - e), y.coef * Pow10(y.exp - e));
    k := q;
    Pow10Add(x.exp - e, e);
    Pow10Add(y.exp - e, e);
    MulAssoc(x.coef, Pow10(x.exp - e), p);
    MulAssoc(y.coef, Pow10(y.exp - e), p);
    ScaleOrder(s, y.coef * Pow10(y.exp - e), p);
    MulDistribute(q * (y.coef * Pow10(y.exp - e)), s, p);
    MulAssoc(q, y.coef * Pow10(y.exp - e), p);
    AbsUnits(x);
    AbsUnits(y);
    AbsUnits(r);
  }

  /** diff_expon <= 0: y is brought to the exponent of x, and there is at most one division. */
  method RemainderBelow(cx: Bits128, cy: Bits128, d: nat) returns (c: Bits128)
    requires 0 < cx < TEN34 && 0 < cy < TEN34
    ensures cy * Pow10(d) > 0 && c == cx % (cy * Pow10(d))
  {
    hide Pow10;
    MulPositive(cy, Pow10(d));
    c := cx;
    ghost var p := cy * Pow10(d);
    if d > 34 {
      LargeDivisor(cx, cy, d);
      DivModUnique(cx, p, 0, cx);
      return;
    }
    Power10TableValue(d);
    var product := cy * Power10Table128(d);
    if product >= W128 || PairGt(product, cx) {
      DivModUnique(cx, p, 0, cx);
      return;
    }
    DivModEquation(cx, product);
    c := cx % product;
  }

  lemma LargeDivisor(cx: nat, cy: nat, d: nat)
    requires cx < TEN34 && cy > 0 && d > 34
    ensures cx < cy * Pow10(d)
  {
    hide Pow10;
    Pow10Values();
    Pow10Mono(34, d);
    MulMono(1, cy, Pow10(d));
  }

  /** How many zeros to append: up to 38 digits in all, or 34 when y is a single word. */
  method ChooseScale(cx: Bits128, scale0: nat) returns (scale: nat)
    requires 0 < cx < TEN34 && (scale0 == 34 || scale0 == 38)
    ensures 0 <= cx * Pow10(scale) < Pow10(38) < W128
    ensures scale == scale0 - Digits(cx) && scale <= 37
  {
    hide Digits, Pow10, EstimateDigits, Power10Index;
    ScaleFits(cx, scale0);
    var b := FloatExponent(cx);
    scale := scale0 - DigitsFromExponent(cx, b);
  }

  lemma ScaleFits(cx: nat, scale0: nat)
    requires 0 < cx < TEN34 && (scale0 == 34 || scale0 == 38)
    ensures 1 <= Digits(cx) <= 34
    ensures var scale := scale0 - Digits(cx); 0 <= cx * Pow10(scale) < Pow10(38) < W128
    ensures scale0 == 34 && cx < W64 ==> Digits(cx) <= 20
  {
    hide Digits, Pow10;
    DigitsBounds(cx);
    Pow10Values();
    var q := Digits(cx);
    if q > 34 {
      Pow10Mono(34, q - 1);
    }
    Power10TableValue(38);
    Power10TableValue(20);
    if cx < W64 && q > 20 {
      Pow10Mono(20, q - 1);
    }
    Pow10Add(q, scale0 - q);
    Pow10Mono(scale0, 38);
    ScaleOrder(cx, Pow10(q), Pow10(scale0 - q));
    MulNonNegative(cx, Pow10(scale0 - q));
  }

  /** Scaling by part of the remaining exponent and reducing keeps the remainder. */
  lemma ReduceStep(x: nat, cx: nat, cy: nat, diff: nat, scale: nat, k: nat, q: nat, r: nat)
    requires scale <= diff && x == cx * Pow10(diff) + k * cy
    requires cx * Pow10(scale) == q * cy + r
    ensures x == r * Pow10(diff - scale) + (k + q * Pow10(diff - scale)) * cy
  {
    hide Pow10;
    var p := Pow10(diff - scale);
    Pow10Add(scale, diff - scale);
    MulAssoc(cx, Pow10(scale), p);
    MulDistribute(q * cy, r, p);
    MulAssoc(q, cy, p);
    MulAssoc(q, p, cy);
    MulDistribute(k, q * p, cy);
  }

  /**
   diff_expon > 0: appends as many zeros as fit and reduces, until the exponents agree. The measure is
   lexicographic, because the first pass can append none.
   */
  method RemainderLoop(cx0: Bits128, cy: Bits128, diff0: nat) returns (c: Bits128)
    requires 0 < cx0 < TEN34 && 0 < cy < TEN34 && diff0 > 0
    ensures cx0 * Pow10(diff0) >= 0 && c == cx0 * Pow10(diff0) % cy
  {
    hide Digits, Pow10;
    var cx, diff := cx0, diff0;
    var scale0 := 38;
    if Hi(cy) == 0 {
      scale0 := 34;
    }
    ghost var x, k: int := cx0 * Pow10(diff0), 0;
    MulNonNegative(cx0, Pow10(diff0));
    while diff > 0
      invariant 0 <= diff <= diff0 && 0 < cx < TEN34 && k >= 0
      invariant x == cx * Pow10(diff) + k * cy
      invariant diff < diff0 ==> cx < cy
      decreases diff, cx
    {
      var scale := ChooseScale(cx, scale0);
      ScaleFits(cx, scale0);
      if diff < scale {
        scale := diff;
        PartialScale(cx, diff, scale0 - Digits(cx));
      }
      Power10TableValue(scale);
      var scaled := MulLow128(cx, Power10Table128(scale));
      MulLowExact(cx, Pow10(scale));
      ghost var q, r := Divide(scaled, cy);
      ReduceStep(x, cx, cy, diff, scale, k, q, r);
      MulNonNegative(q, Pow10(diff - scale));
      k := k + q * Pow10(diff - scale);
      if scale == 0 {
        NothingScaled(cx);
      }
      diff, cx := diff - scale, scaled % cy;
      if cx == 0 {
        DivModUnique(x, cy, k, 0);
        return 0;
      }
    }
    Pow10Zero();
    DivModUnique(x, cy, k, cx);
    c := cx;
  }

  lemma NothingScaled(cx: nat)
    ensures cx * Pow10(0) == cx
  {
  }

  lemma PartialScale(cx: nat, a: nat, b: nat)
    requires a <= b
    ensures 0 <= cx * Pow10(a) <= cx * Pow10(b)
  {
  }

  /** Remainders with a NaN, an infinity or a zero: sections 6.1 and 7.2. */
  function SpecialRemainder(x: Datum, y: Datum): Outcome
    requires !(IsNonzero(x) && IsNonzero(y))
  {
    if x.NaN? || y.NaN? then
      Outcome(NaN(false), if (x.NaN? && x.signaling) || (y.NaN? && y.signaling) then {Invalid} else {})
    else if x.Infinite? || (y.Finite? && y.coef == 0) then Outcome(NaN(false), {Invalid})
    else if y.Infinite? then Outcome(x, {})
    else Outcome(Finite(x.neg, Min(x.exp, y.exp), 0), {})
  }

  /** Remainders with a NaN, an infinity or a zero. */
  lemma SpecialRemainders(x: Datum, y: Datum)
    requires !(IsNonzero(x) && IsNonzero(y))
    ensures x.NaN? || y.NaN? ==>
              SpecialRemainder(x, y) == Outcome(NaN(false), if x == NaN(true) || y == NaN(true) then {Invalid} else {})
    ensures x.Infinite? && !y.NaN? ==> SpecialRemainder(x, y) == Outcome(NaN(false), {Invalid})
    ensures !x.NaN? && y.Finite? && y.coef == 0 ==> SpecialRemainder(x, y) == Outcome(NaN(false), {Invalid})
    ensures x.Finite? && y.Infinite? ==> SpecialRemainder(x, y) == Outcome(x, {})
    ensures x.Finite? && x.coef == 0 && IsNonzero(y) ==>
              SpecialRemainder(x, y) == Outcome(Finite(x.neg, if x.exp <= y.exp then x.exp else y.exp, 0), {})
  {
  }

  /** The result of fmod on any two data. */
  function RemainderOutcome(x: Datum, y: Datum): Outcome {
    if IsNonzero(x) && IsNonzero(y) then Outcome(Remainder(x, y), {}) else SpecialRemainder(x, y)
  }

  /** The arms of bid128_fmod that come before the division. */
  method FmodSpecial(x: Bits128, y: Bits128, st: Status) returns (res: Bits128)
    requires !(IsNonzero(Decode(x)) && IsNonzero(Decode(y)))
    modifies st
    ensures var target := SpecialRemainder(Decode(x), Decode(y));
            && InFormat(target.datum) && Decode(res) == target.datum
            && (if HasNaN(x) || HasNaN(y) then res == NaNResult(x, y) else res == Encode(target.datum))
            && st.raised == old(st.raised) + target.flags
  {
    hide Encode, Decode, Quieted;
    DecodedFacts(x);
    DecodedFacts(y);
    DecodeInFormat(x);
    SpecialImpliesSteering(x);
    SpecialImpliesSteering(y);
    SignalingIsNaN(x);
    SignalingIsNaN(y);
    InfinityPattern(false);
    if HasNaN(x) {
      if HasSNaN(y) || HasSNaN(x) {
        st.Raise({Invalid});
      }
      return Quieted(x);
    }
    if HasSNaN(y) {
      st.Raise({Invalid});
    }
    if HasNaN(y) {
      return Quieted(y);
    }
    if HasSpecial(x) {
      st.Raise({Invalid});
      return 0x7c00_0000_0000_0000 * W64;
    }
    var xNeg, xExp, cx := Unpack(x);
    if HasSpecial(y) {
      ZeroPattern(xNeg, xExp);
      return if cx == 0 then SignValue(xNeg) + xExp * EXP_UNIT else x;
    }
    var yNeg, yExp, cy := Unpack(y);
    if cy == 0 {
      st.Raise({Invalid});
      return 0x7c00_0000_0000_0000 * W64;
    }
    if xExp > yExp {
      xExp := yExp;
    }
    ZeroPattern(xNeg, xExp);
    return SignValue(xNeg) + xExp * EXP_UNIT;
  }

  lemma RemainderFits(x: Datum, y: Datum)
    requires x.Finite? && y.Finite? && InFormat(x) && InFormat(y) && y.coef > 0
    ensures InFormat(Remainder(x, y))
    ensures x.exp <= y.exp ==>
              y.coef * Pow10(y.exp - x.exp) > 0 && Remainder(x, y).coef == x.coef % (y.coef * Pow10(y.exp - x.exp))
    ensures x.exp > y.exp ==>
              x.coef * Pow10(x.exp - y.exp) >= 0 && Remainder(x, y).coef == x.coef * Pow10(x.exp - y.exp) % y.coef
  {
    hide Pow10;
    Pow10Zero();
    var e := Min(x.exp, y.exp);
    MulPositive(y.coef, Pow10(y.exp - e));
    MulNonNegative(x.coef, Pow10(x.exp - e));
    var q, r := Divide(x.coef * Pow10(x.exp - e), y.coef * Pow10(y.exp - e));
    if x.exp <= y.exp {
      MulNonNegative(q, y.coef * Pow10(y.exp - e));
    }
  }

  /** bid128_fmod. */
  method Fmod(x: Bits128, y: Bits128, st: Status) returns (res: Bits128)
    modifies st
    ensures var target := RemainderOutcome(Decode(x), Decode(y));
            && InFormat(target.datum) && Decode(res) == target.datum
            && (if HasNaN(x) || HasNaN(y) then res == NaNResult(x, y) else res == Encode(target.datum))
            && st.raised == old(st.raised) + target.flags
  {
    hide Encode, Decode, Remainder, SpecialRemainder, Pow10;
    DecodedFacts(x);
    DecodedFacts(y);
    SpecialImpliesSteering(x);
    SpecialImpliesSteering(y);
    if !(IsNonzero(Decode(x)) && IsNonzero(Decode(y))) {
      res := FmodSpecial(x, y, st);
      return;
    }
    var xNeg, xExp, cx := Unpack(x);
    var yNeg, yExp, cy := Unpack(y);
    DecodeInFormat(x);
    DecodeInFormat(y);
    RemainderFits(Decode(x), Decode(y));
    var c, e;
    if xExp <= yExp {
      c := RemainderBelow(cx, cy, yExp - xExp);
      e := xExp;
    } else {
      c := RemainderLoop(cx, cy, xExp - yExp);
      e := yExp;
    }
    RemainderShape(Decode(x), Decode(y));
    FinitePattern(xNeg, e, c);
    res := SignValue(xNeg) + e * EXP_UNIT + c;
  }

  lemma RemainderShape(x: Datum, y: Datum)
    requires x.Finite? && y.Finite? && y.coef > 0
    ensures Remainder(x, y).Finite? && Remainder(x, y).neg == x.neg && Remainder(x, y).exp == Min(x.exp, y.exp)
  {
  }
}
