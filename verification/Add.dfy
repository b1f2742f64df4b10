/** bid128_add and bid128_sub on encodings: special operands, zeros, and the choice of path. */
module Add {
  import opened Powers
  import opened Encoding
  import opened DigitCount
  import opened Rounding
  import opened Arithmetic
  import opened AddCommon
  import opened AddFar
  import opened AddNear
  import opened AddOverlap
  import opened Unpacking

  /** A number scaled towards a smaller preferred exponent, as far as 34 digits allow, is the rounded number. */
  lemma ScaledTowards(neg: bool, c: nat, q: nat, d: nat, s: nat, e0: nat, mode: Mode)
    requires IsOperand(c, q) && q <= 34 && s == Min(34 - q, d)
    ensures 0 < c * Pow10(s) < TEN34
    ensures c * Pow10(d) > 0
    ensures Round34(neg, c * Pow10(d), e0, mode) == Place(neg, c * Pow10(s), e0 + d - s, false, mode)
  {
    hide Round34, Digits, Pow10, Place;
    ScaledDigits(c, q, s);
    Pow10Values();
    Pow10Mono(q + s, 34);
    if s == d {
      RoundExact(neg, c * Pow10(d), e0, mode);
    } else {
      Pow10Add(s, d - s);
      MulAssoc(c, Pow10(s), Pow10(d - s));
      ShiftedRounds(neg, c * Pow10(s), d - s, c * Pow10(d), e0, mode);
    }
  }

  /** A 34-digit number followed by zeros. */
  lemma ShiftedRounds(neg: bool, q: nat, k: nat, n: nat, e0: nat, mode: Mode)
    requires TEN33 <= q < TEN34 && k > 0 && n == q * Pow10(k)
    ensures n > 0 && Round34(neg, n, e0, mode) == Place(neg, q, e0 + k, false, mode)
  {
    hide Round34, Pow10, Place;
    MulMono(1, q, Pow10(k));
    Round34At(neg, n, e0, mode, k, q, 0);
  }

  lemma PlaceExact(neg: bool, c: nat, e: nat, mode: Mode)
    requires c < TEN34 && e <= EXP_MAX
    ensures Place(neg, c, e, false, mode) == Outcome(Finite(neg, e, c), {})
    ensures Assemble(neg, e, c) == Encode(Finite(neg, e, c))
  {
  }

  /** 0 + y: y with the exponent moved towards that of the zero. */
  method AddToZero(b: Bits128, neg: bool, e: nat, c: Bits128, zeroNeg: bool, zeroExp: nat, mode: Mode)
    returns (res: Bits128)
    requires e <= EXP_MAX && 0 < c < TEN34 && b == Encode(Finite(neg, e, c))
    ensures var target := FiniteSum(Finite(neg, e, c), Finite(zeroNeg, zeroExp, 0), mode);
            InFormat(target.datum) && res == Encode(target.datum) && target.flags == {}
  {
    hide Round34, Digits, Pow10, FiniteSum, Place, Encode;
    ZeroSum(neg, e, c, zeroNeg, zeroExp, mode);
    if e <= zeroExp {
      RoundExact(neg, c, e, mode);
      PlaceExact(neg, c, e, mode);
      res := b;
    } else {
      res := ScaleTowards(b, neg, e, c, zeroExp, mode);
    }
  }

  /** Appends zeros until the exponent is e0 or the coefficient has 34 digits. */
  method ScaleTowards(b: Bits128, neg: bool, e: nat, c: Bits128, e0: nat, ghost mode: Mode) returns (res: Bits128)
    requires e0 < e <= EXP_MAX && 0 < c < TEN34 && b == Encode(Finite(neg, e, c))
    ensures c * Pow10(e - e0) > 0
    ensures var target := Round34(neg, c * Pow10(e - e0), e0, mode);
            InFormat(target.datum) && res == Encode(target.datum) && target.flags == {}
  {
    hide Round34, Digits, Pow10, Place, Encode, Assemble, CountDigits;
    var q := CountDigits(c);
    OperandBounds(c, q);
    var scale := 34 - q;
    if e - e0 < scale {
      scale := e - e0;
    }
    var scaled := c;
    if scale != 0 {
      scaled := ScaleBy(c, q, scale);
    } else {
      Pow10Zero();
    }
    ScaledPlace(neg, e, c, q, e0, scale, scaled, mode);
    res := if scale == 0 then b else Assemble(neg, e - scale, scaled);
  }

  lemma ScaledPlace(neg: bool, e: nat, c: nat, q: nat, e0: nat, scale: nat, scaled: nat, mode: Mode)
    requires IsOperand(c, q) && q <= 34 && e0 < e <= EXP_MAX
    requires scale == Min(34 - q, e - e0) && scaled == c * Pow10(scale)
    ensures c * Pow10(e - e0) > 0 && scaled < EXP_UNIT && InFormat(Finite(neg, e - scale, scaled))
    ensures Round34(neg, c * Pow10(e - e0), e0, mode) == Outcome(Finite(neg, e - scale, scaled), {})
    ensures Assemble(neg, e - scale, scaled) == Encode(Finite(neg, e - scale, scaled))
    ensures scale == 0 ==> scaled == c
  {
    hide Round34, Digits, Pow10, Place, Encode, Assemble;
    ScaledTowards(neg, c, q, e - e0, scale, e0, mode);
    PlaceExact(neg, scaled, e - scale, mode);
    AssembleFits(scaled);
    Pow10Zero();
  }

  lemma AssembleFits(c: nat)
    ensures c < TEN34 ==> c < EXP_UNIT
  {
  }

  lemma ZeroSum(neg: bool, e: nat, c: nat, zeroNeg: bool, zeroExp: nat, mode: Mode)
    requires c > 0
    ensures var d := if e <= zeroExp then 0 else e - zeroExp;
            && c * Pow10(d) > 0 && (d == 0 ==> c * Pow10(d) == c)
            && FiniteSum(Finite(neg, e, c), Finite(zeroNeg, zeroExp, 0), mode)
               == Round34(neg, c * Pow10(d), Min(e, zeroExp), mode)
  {
  }

  lemma ZerosSum(xNeg: bool, xExp: nat, yNeg: bool, yExp: nat, mode: Mode)
    ensures var e := Min(xExp, yExp);
            FiniteSum(Finite(xNeg, xExp, 0), Finite(yNeg, yExp, 0), mode)
            == Outcome(Finite((xNeg && yNeg) || (mode == Down && xNeg != yNeg), e, 0), {})
  {
  }

  /** Two nonzero operands, x at or above the exponent of y: the case split on delta. */
  method AddNonzero(o: Operands, mode: Mode, st: Status) returns (res: Bits128)
    requires o.Valid()
    modifies st
    ensures Delivers(o, mode, res, old(st.raised), st.raised)
  {
    hide Round34, FiniteSum, Digits, Pow10;
    OperandBounds(o.c1, o.q1);
    var delta := o.Delta();
    if delta >= 35 {
      res := AddVeryFar(o, mode, st);
    } else if delta >= 34 {
      if o.SameSign() || !IsPowerOfTen(o) {
        res := AddOneUlpApart(o, mode, st);
      } else {
        res := AddUnderDecade(o, mode, st);
      }
    } else if delta >= 0 {
      if delta <= 33 - o.q2 {
        res := AddShort(o, mode);
      } else if delta == 34 - o.q2 {
        res := AddTouching(o, mode, st);
      } else {
        ghost var passes;
        res, passes := AddOverlapping(o, mode, st);
      }
    } else {
      res := AddBelow(o, mode, st);
    }
  }

  /** Finite operands. */
  method AddFinite(x: Bits128, y: Bits128, mode: Mode, st: Status) returns (res: Bits128)
    requires !HasSpecial(x) && !HasSpecial(y)
    modifies st
    ensures Decode(x).Finite? && Decode(y).Finite?
    ensures var target := FiniteSum(Decode(x), Decode(y), mode);
            InFormat(target.datum) && res == Encode(target.datum) && st.raised == old(st.raised) + target.flags
  {
    hide Round34, Digits, Pow10, FiniteSum, Decode, Encode, CountDigits;
    var xNeg, xExp, c1 := Unpack(x);
    var yNeg, yExp, c2 := Unpack(y);
    if c1 == 0 && c2 == 0 {
      var e := if xExp < yExp then xExp else yExp;
      ZerosSum(xNeg, xExp, yNeg, yExp, mode);
      PlaceExact((xNeg && yNeg) || (mode == Down && xNeg != yNeg), 0, e, mode);
      res := Assemble((xNeg && yNeg) || (mode == Down && xNeg != yNeg), e, 0);
    } else {
      SumCommutes(Finite(xNeg, xExp, c1), Finite(yNeg, yExp, c2), mode);
      if c1 == 0 {
        res := AddToZero(y, yNeg, yExp, c2, xNeg, xExp, mode);
      } else if c2 == 0 {
        res := AddToZero(x, xNeg, xExp, c1, yNeg, yExp, mode);
      } else {
        var o := Operands(xNeg, xExp, c1, CountDigits(c1), yNeg, yExp, c2, CountDigits(c2));
        if xExp < yExp {
          o := Operands(yNeg, yExp, c2, o.q2, xNeg, xExp, c1, o.q1);
        }
        OperandBounds(c1, CountDigits(c1));
        OperandBounds(c2, CountDigits(c2));
        res := AddNonzero(o, mode, st);
      }
    }
  }

  /** The arms of bid128_add for NaNs and infinities. */
  method AddSpecial(x: Bits128, y: Bits128, mode: Mode, st: Status) returns (res: Bits128)
    requires HasSpecial(x) || HasSpecial(y)
    modifies st
    ensures HasNaN(x) || HasNaN(y) ==> res == NaNResult(x, y)
    ensures var target := Sum(Decode(x), Decode(y), mode);
            && InFormat(target.datum) && Decode(res) == target.datum
            && (!HasNaN(x) && !HasNaN(y) ==> res == Encode(target.datum))
            && st.raised == old(st.raised) + target.flags
  {
    hide FiniteSum, Encode, Quieted;
    SpecialImpliesSteering(x);
    SpecialImpliesSteering(y);
    SignalingIsNaN(x);
    SignalingIsNaN(y);
    InfinityPattern(SignBit(x));
    InfinityPattern(SignBit(y));
    if HasNaN(x) {
      res := Quieted(x);
      if HasSNaN(x) || HasSNaN(y) {
        st.Raise({Invalid});
      }
    } else if HasNaN(y) {
      res := Quieted(y);
      if HasSNaN(y) {
        st.Raise({Invalid});
      }
    } else if HasSpecial(x) {
      if HasSpecial(y) && SignBit(x) != SignBit(y) {
        st.Raise({Invalid});
        res := 0x7c00_0000_0000_0000 * W64;
      } else {
        res := SignValue(SignBit(x)) + INFINITY_COEF;
      }
    } else {
      res := SignValue(SignBit(y)) + INFINITY_COEF;
    }
  }

  /** bid128_add. */
  method Add(x: Bits128, y: Bits128, mode: Mode, st: Status) returns (res: Bits128)
    modifies st
    ensures HasNaN(x) || HasNaN(y) ==> res == NaNResult(x, y)
    ensures var target := Sum(Decode(x), Decode(y), mode);
            && InFormat(target.datum) && Decode(res) == target.datum
            && (!HasNaN(x) && !HasNaN(y) ==> res == Encode(target.datum))
            && st.raised == old(st.raised) + target.flags
  {
    hide FiniteSum;
    SpecialImpliesSteering(x);
    SpecialImpliesSteering(y);
    if HasSpecial(x) || HasSpecial(y) {
      res := AddSpecial(x, y, mode, st);
    } else {
      hide Decode, Encode;
      res := AddFinite(x, y, mode, st);
      DecodeEncode(FiniteSum(Decode(x), Decode(y), mode).datum);
    }
  }

  /** A datum with its sign reversed; a NaN is left alone. */
  function Negated(d: Datum): Datum {
    match d
    case Finite(neg, exp, coef) => Finite(!neg, exp, coef)
    case Infinite(neg) => Infinite(!neg)
    case NaN(_) => d
  }

  /** Clears or sets the sign bit, as bid128_sub does to a y that is not a NaN. */
  function FlipSign(b: Bits128): (r: Bits128)
    ensures !HasNaN(b) ==> Decode(r) == Negated(Decode(b)) && !HasNaN(r)
  {
    FlipFields(Hi(b));
    if SignBit(b) then Join(Hi(b) - 0x8000_0000_0000_0000, Lo(b)) else Join(Hi(b) + 0x8000_0000_0000_0000, Lo(b))
  }

  /** Every field below the sign is the same for h and h with the sign bit flipped. */
  lemma FlipFields(h: int)
    requires 0 <= h < W64
    ensures var g := if h >= 0x8000_0000_0000_0000 then h - 0x8000_0000_0000_0000 else h + 0x8000_0000_0000_0000;
            && h / 0x800_0000_0000_0000 % 16 == g / 0x800_0000_0000_0000 % 16
            && h / 0x400_0000_0000_0000 % 32 == g / 0x400_0000_0000_0000 % 32
            && h / 0x200_0000_0000_0000 % 64 == g / 0x200_0000_0000_0000 % 64
            && h / 0x2000_0000_0000_0000 % 4 == g / 0x2000_0000_0000_0000 % 4
            && h / 0x2_0000_0000_0000 % 0x4000 == g / 0x2_0000_0000_0000 % 0x4000
            && h / 0x8000_0000_0000 % 0x4000 == g / 0x8000_0000_0000 % 0x4000
            && h % 0x2_0000_0000_0000 == g % 0x2_0000_0000_0000
  {
    var l := if h >= 0x8000_0000_0000_0000 then h - 0x8000_0000_0000_0000 else h;
    FieldBelowSign(l, 0x800_0000_0000_0000, 16, 1);
    FieldBelowSign(l, 0x400_0000_0000_0000, 32, 1);
    FieldBelowSign(l, 0x200_0000_0000_0000, 64, 1);
    FieldBelowSign(l, 0x2000_0000_0000_0000, 4, 1);
    FieldBelowSign(l, 0x2_0000_0000_0000, 0x4000, 1);
    FieldBelowSign(l, 0x8000_0000_0000, 0x4000, 4);
    FieldBelowSign(l, 1, 0x2_0000_0000_0000, 0x4000);
  }

  lemma FieldBelowSign(l: nat, d: nat, m: nat, k: nat)
    requires d > 0 && m > 0 && d * m * k == 0x8000_0000_0000_0000
    ensures (l + 0x8000_0000_0000_0000) / d % m == l / d % m
    ensures d == 1 ==> (l + 0x8000_0000_0000_0000) % m == l % m
  {
    var q, r := Divide(l, d);
    var a, b := Divide(q, m);
    MulAssoc(k, m, d);
    assert d * m * k == k * m * d;
    MulDistribute(q, k * m, d);
    DivModUnique(l + 0x8000_0000_0000_0000, d, q + k * m, r);
    MulDistribute(a, k, m);
    DivModUnique(q + k * m, m, a + k, b);
    if d == 1 {
      DivModUnique(l + 0x8000_0000_0000_0000, m, a + k, b);
    }
  }

  /** bid128_sub. */
  method Sub(x: Bits128, y: Bits128, mode: Mode, st: Status) returns (res: Bits128)
    modifies st
    ensures HasNaN(x) || HasNaN(y) ==> res == NaNResult(x, y)
    ensures var target := Sum(Decode(x), Negated(Decode(y)), mode);
            && InFormat(target.datum) && Decode(res) == target.datum
            && (!HasNaN(x) && !HasNaN(y) ==> res == Encode(target.datum))
            && st.raised == old(st.raised) + target.flags
  {
    var minusY := y;
    if !HasNaN(y) {
      minusY := FlipSign(y);
    }
    res := Add(x, minusY, mode, st);
  }

  /** The largest number of either sign added to itself, in each mode. */
  method LargestTwice(neg: bool, mode: Mode) returns (res: Bits128, flags: set<Flag>)
    ensures !neg ==> res == if mode == ToZero || mode == Down then 0x5fff_ed09_bead_87c0_378d_8e63_ffff_ffff
                            else 0x7800_0000_0000_0000_0000_0000_0000_0000
    ensures neg ==> res == if mode == ToZero || mode == Up then 0xdfff_ed09_bead_87c0_378d_8e63_ffff_ffff
                           else 0xf800_0000_0000_0000_0000_0000_0000_0000
    ensures flags == {Overflow, Inexact}
  {
    var largest := if neg then 0xdfff_ed09_bead_87c0_378d_8e63_ffff_ffff
                   else 0x5fff_ed09_bead_87c0_378d_8e63_ffff_ffff;
    LargestPattern(neg, largest);
    LargestDoubled(neg, mode);
    hide Decode, FiniteSum;
    var st := new Status();
    res := Add(largest, largest, mode, st);
    flags := st.raised;
  }

  lemma LargestPattern(neg: bool, largest: Bits128)
    requires largest == if neg then 0xdfff_ed09_bead_87c0_378d_8e63_ffff_ffff
                        else 0x5fff_ed09_bead_87c0_378d_8e63_ffff_ffff
    ensures !HasNaN(largest) && Decode(largest) == Finite(neg, 12287, TEN34 - 1)
  {
    DecodedFacts(largest);
    hide Decode;
    FiniteLayout(neg, 12287, TEN34 - 1);
  }

  lemma LargestDoubled(neg: bool, mode: Mode)
    ensures var x := Finite(neg, 12287, TEN34 - 1);
            FiniteSum(x, x, mode) == Outcome(Overflowed(neg, mode), {Overflow, Inexact})
  {
    Pow10Zero();
    Pow10One();
    hide Round34, Overflowed, RoundsUp, Pow10;
    Round34At(neg, 2 * TEN34 - 2, EXP_MAX, mode, 1, 2 * TEN33 - 1, 8);
  }

  /** Sums with a NaN or an infinity. */
  lemma SpecialSums(x: Datum, y: Datum, mode: Mode)
    ensures x.NaN? || y.NaN? ==>
              Sum(x, y, mode) == Outcome(NaN(false), if x == NaN(true) || y == NaN(true) then {Invalid} else {})
    ensures forall neg: bool :: Sum(Infinite(neg), Infinite(!neg), mode) == Outcome(NaN(false), {Invalid})
    ensures forall neg: bool :: Sum(Infinite(neg), Infinite(neg), mode) == Outcome(Infinite(neg), {})
    ensures x.Finite? ==>
              forall neg: bool ::
                Sum(x, Infinite(neg), mode) == Sum(Infinite(neg), x, mode) == Outcome(Infinite(neg), {})
  {
  }

  /** The second operand of a subtraction has the opposite value at the same exponent. */
  lemma NegatedValue(y: Datum)
    ensures y.Finite? ==> Negated(y).Finite? && Units(Negated(y)) == 0 - Units(y) && Negated(y).exp == y.exp
    ensures y.Infinite? ==> Negated(y) == Infinite(!y.neg)
    ensures y.NaN? ==> Negated(y) == y
  {
  }

  /** Both orders of the operands take different paths and still give the same bits and the same flags. */
  method AddBothWays(x: Bits128, y: Bits128, mode: Mode)
    returns (r: Bits128, s: Bits128, rFlags: set<Flag>, sFlags: set<Flag>)
    ensures !HasNaN(x) && !HasNaN(y) ==> r == s
    ensures Decode(r) == Decode(s) == Sum(Decode(x), Decode(y), mode).datum
    ensures rFlags == sFlags == Sum(Decode(x), Decode(y), mode).flags
  {
    hide Sum, Decode;
    SumCommutes(Decode(x), Decode(y), mode);
    var st := new Status();
    r := Add(x, y, mode, st);
    rFlags := st.raised;
    st := new Status();
    s := Add(y, x, mode, st);
    sFlags := st.raised;
  }
}
