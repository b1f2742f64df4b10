/**
 bid128_add when the operands overlap or touch (delta <= 33): the exact paths, the 35-digit sum rounded
 once, and the roundC2 loop that rounds only the smaller operand.
 */
module AddNear {
  import opened Powers
  import opened Encoding
  import opened Words
  import opened Rounding
  import opened Positions
  import opened LastDigit
  import opened Arithmetic
  import opened AddCommon
  import opened AddFar

  /** The exact sum, both operands counted in units of the exponent of y. */
  lemma AlignedSum(o: Operands, big: nat, mode: Mode)
    requires o.Valid() && big == o.c1 * Pow10(o.xExp - o.yExp)
    ensures big > 0
    ensures o.SameSign() ==> FiniteSum(o.X(), o.Y(), mode) == Round34(o.xNeg, big + o.c2, o.yExp, mode)
    ensures !o.SameSign() && big > o.c2 ==>
              FiniteSum(o.X(), o.Y(), mode) == Round34(o.xNeg, big - o.c2, o.yExp, mode)
    ensures !o.SameSign() && big < o.c2 ==>
              FiniteSum(o.X(), o.Y(), mode) == Round34(o.yNeg, o.c2 - big, o.yExp, mode)
    ensures !o.SameSign() && big == o.c2 ==>
              FiniteSum(o.X(), o.Y(), mode) == Outcome(Finite(mode == Down, o.yExp, 0), {})
  {
    hide Round34, Pow10;
    MulMono(1, o.c1, Pow10(o.xExp - o.yExp));
    SumOfOperands(o);
    if o.SameSign() {
      FiniteSumOf(o, o.xNeg, big + o.c2, mode);
    } else if big > o.c2 {
      FiniteSumOf(o, o.xNeg, big - o.c2, mode);
    } else if big < o.c2 {
      FiniteSumOf(o, o.yNeg, o.c2 - big, mode);
    }
  }

  /** A magnitude that fits in 34 digits is exact. */
  lemma RoundExact(neg: bool, n: nat, e0: nat, mode: Mode)
    requires 0 < n < TEN34
    ensures Round34(neg, n, e0, mode) == Place(neg, n, e0, false, mode)
  {
    ExtraDigitsNone(n);
    assert Pow10(0) == 1;
  }

  lemma ExactDelivered(o: Operands, neg: bool, n: nat, mode: Mode, raised: set<Flag>)
    requires o.Valid() && 0 < n < TEN34 && FiniteSum(o.X(), o.Y(), mode) == Round34(neg, n, o.yExp, mode)
    ensures Delivers(o, mode, Assemble(neg, o.yExp, n), raised, raised)
  {
    hide Round34, FiniteSum;
    RoundExact(neg, n, o.yExp, mode);
  }

  lemma ZeroDelivered(o: Operands, mode: Mode)
    requires o.Valid() && FiniteSum(o.X(), o.Y(), mode) == Outcome(Finite(mode == Down, o.yExp, 0), {})
    ensures Delivers(o, mode, Assemble(mode == Down, o.yExp, 0), {}, {})
  {
    hide FiniteSum;
  }

  /** |C1' - C2| with its sign, or a zero that is negative only when rounding down. */
  method SubtractExact(o: Operands, a: Bits128, b: Bits128, aNeg: bool, mode: Mode, ghost big: nat)
    returns (res: Bits128)
    requires o.Valid() && !o.SameSign() && big == o.c1 * Pow10(o.xExp - o.yExp) < TEN34
    requires (a, b, aNeg) == (big, o.c2, o.xNeg) || (a, b, aNeg) == (o.c2, big, o.yNeg)
    ensures Delivers(o, mode, res, {}, {})
  {
    hide Round34, FiniteSum, Pow10, Digits, Delivers;
    AlignedSum(o, big, mode);
    var d, negative := AbsoluteDifference(a, b);
    if d == 0 {
      ZeroDelivered(o, mode);
      res := Assemble(mode == Down, o.yExp, 0);
    } else {
      var neg := if negative then !aNeg else aNeg;
      ExactDelivered(o, neg, d, mode, {});
      res := Assemble(neg, o.yExp, d);
    }
  }

  /** The scale of y's exponent fits the coefficient of x in 35 digits. */
  lemma ScaledBig(o: Operands, k: nat)
    requires o.Valid() && o.q1 + k <= 35
    ensures o.c1 * Pow10(k) < Pow10(o.q1 + k) <= Pow10(35) == 10 * TEN34
    ensures o.q1 + k <= 34 ==> o.c1 * Pow10(k) < TEN34
  {
    hide Pow10;
    ScaledDigits(o.c1, o.q1, k);
    Pow10Values();
    Pow10Mono(o.q1 + k, 35);
    if o.q1 + k <= 34 {
      Pow10Mono(o.q1 + k, 34);
    }
  }

  /** delta <= 33 - q2: neither addition nor subtraction leaves 34 digits. */
  lemma SumFits(o: Operands, big: nat)
    requires o.Valid() && 0 <= o.Delta() <= 33 - o.q2 && big == o.c1 * Pow10(o.xExp - o.yExp)
    ensures big + o.c2 < TEN34
  {
    hide Pow10;
    ScaledDigits(o.c1, o.q1, o.xExp - o.yExp);
    OperandBounds(o.c2, o.q2);
    Pow10Mono(o.Delta() + o.q2, 33);
    Pow10Mono(o.q2, 33);
    Pow10Values();
  }

  /** 0 <= delta <= 33 - q2: the sum is exact. */
  method AddShort(o: Operands, mode: Mode) returns (res: Bits128)
    requires o.Valid() && 0 <= o.Delta() <= 33 - o.q2
    ensures Delivers(o, mode, res, {}, {})
  {
    hide Round34, FiniteSum, Pow10, Digits;
    var c := ScaleBy(o.c1, o.q1, o.xExp - o.yExp);
    SumFits(o, c);
    if o.SameSign() {
      AlignedSum(o, c, mode);
      var sum := AddPair(c, o.c2);
      ExactDelivered(o, o.xNeg, sum, mode, {});
      res := Assemble(o.xNeg, o.yExp, sum);
    } else {
      res := SubtractExact(o, c, o.c2, o.xNeg, mode, c);
    }
  }

  predicate ToNearestMode(mode: Mode) { mode == ToNearest || mode == TiesAway }

  /** A coefficient about to be corrected, with what its position allows. */
  ghost predicate Correctable(mode: Mode, neg: bool, pos: Position, unfolded: int) {
    && 0 <= unfolded <= TEN34
    && (pos != ON_TARGET ==> TEN33 <= unfolded)
    && (unfolded == TEN33 ==> Correction(mode, neg, pos) >= 0)
    && (unfolded == TEN34 ==> Correction(mode, neg, pos) <= 0)
    && (unfolded == TEN34 - 1 ==> !pos.midGtEven)
  }

  /** Past the largest exponent, rounding to nearest gives an infinity. */
  method OverflowToNearest(neg: bool, mode: Mode, st: Status, ghost pos: Position, ghost unfolded: int, ghost e': nat)
    returns (res: Bits128)
    requires ToNearestMode(mode) && Correctable(mode, neg, pos, unfolded) && Fold(unfolded, e').1 > EXP_MAX
    modifies st
    ensures var target := Place(neg, unfolded + Correction(mode, neg, pos), e', pos != ON_TARGET, mode);
            InFormat(target.datum) && res == Encode(target.datum) && st.raised == old(st.raised) + target.flags
  {
    st.Raise({Inexact});
    st.Raise({Overflow});
    res := Assemble(neg, 0, INFINITY_COEF);
  }

  /** The general correction, the overflow of the directed modes, and the assembly. */
  method FinishPlaced(neg: bool, c: Bits128, e: int, mode: Mode, pos: Position, st: Status,
                      ghost unfolded: int, ghost e': nat)
    returns (res: Bits128)
    requires (c as int, e) == Fold(unfolded, e') && 0 <= e <= EXP_MAX + 1
    requires Correctable(mode, neg, pos, unfolded) && (e' > EXP_MAX ==> unfolded < TEN34 - 1)
    requires ToNearestMode(mode) ==> e <= EXP_MAX
    modifies st
    ensures var target := Place(neg, unfolded + Correction(mode, neg, pos), e', pos != ON_TARGET, mode);
            && InFormat(target.datum) && res == Encode(target.datum)
            && (pos != ON_TARGET ==> Inexact in target.flags) && old(st.raised) <= st.raised
            && st.raised + (if pos != ON_TARGET then {Inexact} else {}) == old(st.raised) + target.flags
  {
    var c1, e1 := CorrectCoefficient(mode, neg, c, e, pos, unfolded, e');
    if mode != ToNearest && e1 == EXP_MAX + 1 {
      c1 := if (mode == Down && neg) || (mode == Up && !neg) then INFINITY_COEF else LARGEST_COEF;
      e1 := 0;
      st.Raise({Inexact});
      st.Raise({Overflow});
    }
    res := Assemble(neg, e1, c1);
  }

  /** Above 10^34 the exact sum is rounded to 34 digits, one decade up. */
  method AddLong(o: Operands, sum: Bits128, mode: Mode, st: Status) returns (res: Bits128)
    requires o.Valid() && o.SameSign() && o.yExp <= EXP_MAX
    requires sum == o.c1 * Pow10(o.xExp - o.yExp) + o.c2 && TEN34 <= sum < 2 * TEN34
    modifies st
    ensures Delivers(o, mode, res, old(st.raised), st.raised)
  {
    hide Round34, FiniteSum, Digits, Place;
    AlignedSum(o, sum - o.c2, mode);
    var c, pos, inexact := RoundExactSum(sum);
    var e := o.yExp + 1;
    Pow10One();
    DescribedRounding(o.xNeg, sum, o.yExp, mode, 1, c, pos);
    DescribedCorrectable(sum, 10, c, pos, mode, o.xNeg);
    TenthBound(sum, 10, c, pos);
    if e == EXP_MAX + 1 && ToNearestMode(mode) {
      res := OverflowToNearest(o.xNeg, mode, st, pos, c, e);
    } else {
      if inexact {
        st.Raise({Inexact});
      }
      res := FinishPlaced(o.xNeg, c, e, mode, pos, st, c, e);
    }
  }

  /** A described 34-digit coefficient can be corrected without leaving its decade the wrong way. */
  lemma DescribedCorrectable(n: nat, p: nat, c: nat, pos: Position, mode: Mode, neg: bool)
    requires p > 0 && Describes(n, p, c, pos) && c <= TEN34
    requires pos != ON_TARGET ==> TEN33 <= c
    requires c == TEN33 ==> n >= c * p
    requires c == TEN34 ==> n <= c * p
    ensures Correctable(mode, neg, pos, c)
  {
  }

  /** A described coefficient is within half a unit of the value. */
  lemma TenthBound(n: nat, p: nat, c: nat, pos: Position)
    requires p > 0 && Describes(n, p, c, pos)
    ensures n < 4 * TEN33 * p ==> c <= 4 * TEN33
    ensures n < TEN34 * p ==> c <= TEN34
    ensures n > 2 * TEN33 * p ==> c > TEN33
  {
    if c > TEN34 {
      MulMono(TEN34 + 1, c, p);
    }
    if c > 4 * TEN33 {
      MulMono(4 * TEN33 + 1, c, p);
    }
    if c <= TEN33 {
      MulMono(c, TEN33, p);
    }
  }

  /** delta == 34 - q2: the sum may have 35 digits, the difference is exact. */
  method AddTouching(o: Operands, mode: Mode, st: Status) returns (res: Bits128)
    requires o.Valid() && o.Delta() == 34 - o.q2
    modifies st
    ensures Delivers(o, mode, res, old(st.raised), st.raised)
  {
    hide Round34, FiniteSum, Pow10, Digits, Place;
    ScaledBig(o, o.xExp - o.yExp);
    var c := ScaleBy(o.c1, o.q1, o.xExp - o.yExp);
    if o.SameSign() {
      res := AddAligned(o, c, mode, st);
    } else {
      res := SubtractExact(o, c, o.c2, o.xNeg, mode, c);
    }
  }

  /** C1' + C2, kept when it has 34 digits. */
  method AddAligned(o: Operands, c: Bits128, mode: Mode, st: Status) returns (res: Bits128)
    requires o.Valid() && o.SameSign() && c == o.c1 * Pow10(o.xExp - o.yExp) < TEN34
    modifies st
    ensures Delivers(o, mode, res, old(st.raised), st.raised)
  {
    hide Round34, FiniteSum, Pow10, Digits, Delivers;
    var sum := AddPair(c, o.c2);
    if PairGe(sum, TEN34) {
      res := AddLong(o, sum, mode, st);
    } else {
      AlignedSum(o, c, mode);
      ExactDelivered(o, o.xNeg, sum, mode, st.raised);
      res := Assemble(o.xNeg, o.yExp, sum);
    }
  }

  /** delta < 0: y has the higher leading digit, and the sum is taken at its exponent. */
  method AddBelow(o: Operands, mode: Mode, st: Status) returns (res: Bits128)
    requires o.Valid() && o.Delta() < 0
    modifies st
    ensures Delivers(o, mode, res, old(st.raised), st.raised)
  {
    hide Round34, FiniteSum, Pow10, Digits, Place;
    ScaledBig(o, o.xExp - o.yExp);
    var c := ScaleBy(o.c1, o.q1, o.xExp - o.yExp);
    if o.SameSign() {
      res := AddAligned(o, c, mode, st);
    } else {
      res := SubtractExact(o, o.c2, c, o.yNeg, mode, c);
    }
  }
}
