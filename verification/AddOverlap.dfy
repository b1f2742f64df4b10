/**
 bid128_add when the operands overlap by at least one digit (35 - q2 <= delta <= 33): only the smaller operand
 is rounded, and the block at roundC2 is repeated one digit further down after a cancellation.
 */
module AddOverlap {
  import opened Powers
  import opened Encoding
  import opened Words
  import opened Rounding
  import opened Positions
  import opened LastDigit
  import opened Arithmetic
  import opened AddCommon
  import opened AddFar
  import opened AddNear

  ghost predicate Overlaps(o: Operands) {
    o.Valid() && 35 - o.q2 <= o.Delta() <= 33
  }

  /** The digits of y below the last place of x scaled to 34 digits. */
  function FirstCut(o: Operands): int { o.Delta() + o.q2 - 34 }

  /** The magnitude of the exact sum, in units of the exponent of y. */
  function Magnitude(o: Operands): int
    requires o.yExp <= o.xExp
  {
    if o.SameSign() then o.c1 * Pow10(o.xExp - o.yExp) + o.c2 else o.c1 * Pow10(o.xExp - o.yExp) - o.c2
  }

  /** x scaled for the cut x1, which is FirstCut or one less. */
  lemma ScaledForCut(o: Operands, x1: nat, big: nat)
    requires Overlaps(o) && FirstCut(o) - 1 <= x1 <= FirstCut(o)
    requires big == o.c1 * Pow10(o.xExp - o.yExp - x1)
    ensures o.xExp - o.yExp - x1 + o.q1 <= 35 && x1 <= 33
    ensures o.c1 * Pow10(o.xExp - o.yExp) == big * Pow10(x1)
    ensures x1 == FirstCut(o) ==> TEN33 <= big < TEN34
    ensures x1 < FirstCut(o) ==> TEN34 <= big < 10 * TEN34
  {
    hide Pow10, Digits;
    var scale := o.xExp - o.yExp - x1;
    OperandBounds(o.c1, o.q1);
    Pow10Add(scale, x1);
    MulAssoc(o.c1, Pow10(scale), Pow10(x1));
    ScaledDigits(o.c1, o.q1, scale);
    Pow10Values();
    Pow10Mono(o.q1 + scale, 35);
  }

  /** The digits of y that a cut leaves. */
  lemma SmallerBound(o: Operands, x1: nat)
    requires Overlaps(o) && FirstCut(o) - 1 <= x1 <= FirstCut(o)
    ensures o.c2 < Pow10(o.q2 - x1) * Pow10(x1)
    ensures x1 == FirstCut(o) ==> Pow10(o.q2 - x1) <= TEN33
    ensures Pow10(o.q2 - x1) <= TEN34
  {
    hide Pow10, Digits;
    OperandBounds(o.c2, o.q2);
    Pow10Add(o.q2 - x1, x1);
    Pow10Values();
    Pow10Mono(o.q2 - x1, 34);
    if x1 == FirstCut(o) {
      Pow10Mono(o.q2 - x1, 33);
    }
  }

  lemma StarBound(c2: nat, p: nat, t: nat, star: nat)
    requires p > 0 && c2 < t * p && 2 * (c2 - star * p) >= -(p as int)
    ensures star <= t
  {
    if star > t {
      MulMono(t + 1, star, p);
    }
  }

  /**
   A difference of overlapping operands is positive, below 10^34 units of the first cut, and well above 10^33
   units of the second unless that is the last digit of y.
   */
  lemma DifferenceBounds(o: Operands)
    requires Overlaps(o) && !o.SameSign()
    ensures FirstCut(o) >= 1 && 0 < Magnitude(o) < TEN34 * Pow10(FirstCut(o))
    ensures FirstCut(o) >= 2 ==> Magnitude(o) > 2 * TEN33 * Pow10(FirstCut(o) - 1)
  {
    hide Digits, Pow10;
    var x := FirstCut(o);
    var big := o.c1 * Pow10(o.xExp - o.yExp - x);
    OperandBounds(o.c2, o.q2);
    ScaledForCut(o, x, big);
    Pow10Shifted(x);
    Pow10Mono(o.q2, 33 + x);
    DifferenceInside(big, Pow10(x), o.c2);
    if x >= 2 {
      Pow10Mono(o.q2, 32 + x);
      Pow10Step(32 + x);
      Pow10Step(x - 1);
      DifferenceAbove(big, Pow10(x - 1), o.c2);
    }
  }

  lemma DifferenceInside(big: nat, p: nat, c2: nat)
    requires TEN33 <= big < TEN34 && 0 < c2 < TEN33 * p
    ensures 0 < big * p - c2 < TEN34 * p
  {
    MulMono(TEN33, big, p);
    MulMono(big, TEN34, p);
  }

  lemma DifferenceAbove(big: nat, p1: nat, c2: nat)
    requires TEN33 <= big && 10 * c2 < TEN33 * (10 * p1)
    ensures big * (10 * p1) - c2 > 2 * TEN33 * p1
  {
  }

  /** The block at roundC2: scale x, round y, add or subtract. */
  method RoundC2(o: Operands, x1: nat) returns (c: Bits128, neg: bool, pos: Position)
    requires Overlaps(o) && FirstCut(o) - 1 <= x1 <= FirstCut(o)
    requires o.SameSign() ==> x1 == FirstCut(o)
    ensures Describes(Magnitude(o), Pow10(x1), c, pos)
    ensures o.SameSign() ==> TEN33 <= c <= 2 * TEN34 && Magnitude(o) > TEN33 * Pow10(x1)
    ensures !o.SameSign() && x1 == FirstCut(o) ==> c < TEN34
    ensures neg == o.xNeg
  {
    hide Digits, Describes, Pow10;
    var scale := o.xExp - o.yExp - x1;
    ghost var big := o.c1 * Pow10(scale);
    ghost var p := Pow10(x1);
    ScaledForCut(o, x1, big);
    SmallerBound(o, x1);
    c := ScaleBy(o.c1, o.q1, scale);
    var star;
    star, pos := RoundSmaller(c, o.c2, x1, o.SameSign());
    StarBound(o.c2, p, Pow10(o.q2 - x1), star);
    neg := o.xNeg;
    if o.SameSign() {
      c := AddPair(c, star);
      MulMono(TEN33, big, p);
    } else {
      var negative;
      c, negative := AbsoluteDifference(c, star);
      if negative {
        neg := o.yNeg;
      }
    }
  }

  /** The difference is short, or 10^33 and rounded up to that: its last place is ten times finer. */
  predicate NeedsFinerCut(c: Bits128, pos: Position) {
    PairGt(TEN33, c) || (c == TEN33 && (pos.inexGtMid || pos.midLtEven))
  }

  lemma FinerCutBound(n: nat, x1: nat, c: Bits128, pos: Position)
    requires Describes(n, Pow10(x1), c, pos)
    ensures NeedsFinerCut(c, pos) ==> n < TEN33 * Pow10(x1)
    ensures NeedsFinerCut(c, pos) && x1 > 0 ==> n < TEN34 * Pow10(x1 - 1)
    ensures !NeedsFinerCut(c, pos) && c == TEN33 ==> n >= c * Pow10(x1)
  {
    hide Pow10;
    if c < TEN33 {
      MulMono(c + 1, TEN33, Pow10(x1));
      MulDistribute(c, 1, Pow10(x1));
    }
    if x1 > 0 {
      Pow10Step(x1 - 1);
    }
  }

  /** With no digits to cut, the description is exact. */
  lemma DescribedUnit(n: nat, c: Bits128, pos: Position)
    requires Describes(n, Pow10(0), c, pos)
    ensures c == n && pos == ON_TARGET
  {
  }

  /**
   Runs the block at roundC2 until the cut is fine enough: at most twice, and only once for a sum. x1 == -1
   says that a second pass left an exact difference of fewer than 34 digits.
   */
  method CutAndCombine(o: Operands) returns (c: Bits128, neg: bool, pos: Position, x1: int, ghost passes: nat)
    requires Overlaps(o)
    ensures 1 <= passes <= 2 && (o.SameSign() ==> passes == 1)
    ensures FirstCut(o) - 2 <= x1 <= FirstCut(o) && x1 >= -1 && neg == o.xNeg && Magnitude(o) > 0
    ensures x1 == -1 ==> !o.SameSign() && c == Magnitude(o) < TEN33 && pos == ON_TARGET
    ensures x1 >= 0 ==> Describes(Magnitude(o), Pow10(x1), c, pos)
    ensures x1 >= 0 && o.SameSign() ==>
              x1 == FirstCut(o) && TEN33 <= c <= 2 * TEN34 && Magnitude(o) > TEN33 * Pow10(x1)
    ensures x1 >= 0 && !o.SameSign() ==>
              && Magnitude(o) < TEN34 * Pow10(x1) && TEN33 <= c && (c == TEN33 ==> Magnitude(o) >= c * Pow10(x1))
              && (x1 == FirstCut(o) ==> c < TEN34)
  {
    hide Describes, Pow10, Digits, Magnitude, NeedsFinerCut;
    ghost var x := FirstCut(o);
    if !o.SameSign() {
      DifferenceBounds(o);
    } else {
      SumPositive(o);
    }
    c, neg, pos, x1 := 0, o.xNeg, ON_TARGET, o.Delta() + o.q2 - 34;
    passes := 0;
    var again := true;
    while again
      invariant passes <= 2 && (passes == 0 ==> again && x1 == x)
      invariant again && passes > 0 ==> passes == 1 && x1 == x - 1 && !o.SameSign()
      invariant again ==> x1 >= 0 && (!o.SameSign() ==> Magnitude(o) < TEN34 * Pow10(x1))
      invariant !again ==> passes >= 1 && (o.SameSign() ==> passes == 1)
      invariant !again ==> x - 2 <= x1 <= x && x1 >= -1 && neg == o.xNeg
      invariant !again && x1 == -1 ==> !o.SameSign() && c == Magnitude(o) < TEN33 && pos == ON_TARGET
      invariant !again && x1 >= 0 ==> Describes(Magnitude(o), Pow10(x1), c, pos)
      invariant !again && x1 >= 0 && o.SameSign() ==>
                  x1 == x && TEN33 <= c <= 2 * TEN34 && Magnitude(o) > TEN33 * Pow10(x1)
      invariant !again && x1 >= 0 && !o.SameSign() ==>
                  && Magnitude(o) < TEN34 * Pow10(x1) && TEN33 <= c
                  && (c == TEN33 ==> Magnitude(o) >= c * Pow10(x1)) && (x1 == x ==> c < TEN34)
      decreases again, 2 - passes
    {
      c, neg, pos := RoundC2(o, x1);
      passes := passes + 1;
      again := false;
      if !o.SameSign() {
        FinerCutBound(Magnitude(o), x1, c, pos);
        if NeedsFinerCut(c, pos) {
          if x1 == 0 {
            DescribedUnit(Magnitude(o), c, pos);
            Pow10Zero();
          }
          x1 := x1 - 1;
          again := x1 >= 0;
        } else {
          LongEnough(c, pos);
        }
      }
    }
  }

  lemma LongEnough(c: Bits128, pos: Position)
    requires !NeedsFinerCut(c, pos)
    ensures TEN33 <= c
  {
  }

  lemma SumPositive(o: Operands)
    requires o.Valid() && o.SameSign()
    ensures Magnitude(o) > 0
  {
  }

  /** The rounded overlap sum, one decade up when it has 35 digits. */
  method FinishSum(o: Operands, sum: Bits128, pos: Position, x1: nat, mode: Mode, st: Status) returns (res: Bits128)
    requires Overlaps(o) && o.SameSign() && x1 == FirstCut(o)
    requires Describes(Magnitude(o), Pow10(x1), sum, pos) && TEN33 <= sum <= 2 * TEN34
    requires Magnitude(o) > TEN33 * Pow10(x1)
    modifies st
    ensures Delivers(o, mode, res, old(st.raised), st.raised)
  {
    hide Round34, FiniteSum, Digits, Place, Pow10, Describes, Magnitude;
    ghost var n: nat := Magnitude(o);
    MagnitudeRounded(o, mode);
    OperandBounds(o.c1, o.q1);
    var c, e, pos1, inexact := sum, o.yExp + x1, pos, pos != ON_TARGET;
    ghost var unfolded, e' := c as int, e;
    if PairGe(sum, TEN34) {
      c, pos1, inexact := RoundRoundedSum(sum, pos, inexact, n, Pow10(x1));
      e := o.yExp + (x1 + 1);
      unfolded, e' := SecondRoundingPlaced(o.xNeg, n, o.yExp, mode, x1, sum, pos, c, pos1);
    } else {
      FirstRoundingPlaced(o.xNeg, n, o.yExp, mode, x1, c, pos);
    }
    if e == EXP_MAX + 1 && ToNearestMode(mode) {
      res := OverflowToNearest(o.xNeg, mode, st, pos1, unfolded, e');
    } else {
      res := FinishPlaced(o.xNeg, c, e, mode, pos1, st, unfolded, e');
      if inexact {
        st.Raise({Inexact});
      }
    }
  }

  lemma MagnitudeRounded(o: Operands, mode: Mode)
    requires Overlaps(o) && Magnitude(o) > 0
    ensures FiniteSum(o.X(), o.Y(), mode) == Round34(o.xNeg, Magnitude(o), o.yExp, mode)
  {
  }

  lemma FirstRoundingPlaced(neg: bool, n: nat, e0: nat, mode: Mode, x1: nat, c: nat, pos: Position)
    requires n > 0 && Describes(n, Pow10(x1), c, pos) && TEN33 <= c < TEN34
    requires c == TEN33 ==> n >= c * Pow10(x1)
    ensures Correctable(mode, neg, pos, c)
    ensures Round34(neg, n, e0, mode) == Place(neg, c + Correction(mode, neg, pos), e0 + x1, pos != ON_TARGET, mode)
  {
    hide Round34, Pow10;
    DescribedRounding(neg, n, e0, mode, x1, c, pos);
    DescribedCorrectable(n, Pow10(x1), c, pos, mode, neg);
  }

  /** What the second rounding leaves, as one rounding of the exact magnitude. */
  lemma SecondRoundingPlaced(neg: bool, n: nat, e0: nat, mode: Mode, x1: nat, sum: nat, pos: Position,
                             c: nat, pos1: Position)
    returns (unfolded: int, e': int)
    requires n > 0 && x1 > 0 && TEN34 <= sum <= 2 * TEN34
    requires Describes(n, Pow10(x1), sum, pos)
    requires Describes(n, 10 * Pow10(x1), c, pos1) && TEN33 <= c < TEN34
    requires if sum == TEN34 && n <= sum * Pow10(x1)
             then c == TEN33 && pos1 == ON_TARGET.(inexGtMid := pos.inexGtMid || pos.midLtEven)
             else c == TEN33 ==> n >= c * (10 * Pow10(x1))
    ensures (c as int, e0 + x1 + 1) == Fold(unfolded, e')
    ensures Correctable(mode, neg, pos1, unfolded) && unfolded != TEN34 - 1
    ensures Round34(neg, n, e0, mode) == Place(neg, unfolded + Correction(mode, neg, pos1), e', pos1 != ON_TARGET, mode)
  {
    hide Round34, Pow10, Place;
    var p := Pow10(x1);
    Pow10Step(x1);
    if sum == TEN34 && n <= sum * p {
      unfolded, e' := TEN34, e0 + x1;
      DescribedRounding(neg, n, e0, mode, x1, sum, pos);
    } else {
      unfolded, e' := c, e0 + x1 + 1;
      FirstRoundingPlaced(neg, n, e0, mode, x1 + 1, c, pos1);
      TenthOfSum(n, p, sum, pos, c, pos1);
    }
  }

  lemma TenthOfSum(n: nat, p: nat, sum: nat, pos: Position, c: nat, pos1: Position)
    requires p > 0 && sum <= 2 * TEN34
    requires Describes(n, p, sum, pos) && Describes(n, 10 * p, c, pos1)
    ensures c < TEN34 - 1
  {
    MulMono(sum, 2 * TEN34, p);
    if c >= TEN34 - 1 {
      MulMono(TEN34 - 1, c, 10 * p);
    }
  }

  /** The rounded overlap difference; 10^34 after a second pass becomes 10^33. */
  method FinishDifference(o: Operands, c: Bits128, neg: bool, pos: Position, x1: int, mode: Mode, st: Status)
    returns (res: Bits128)
    requires Overlaps(o) && !o.SameSign() && neg == o.xNeg && -1 <= x1 <= FirstCut(o) && Magnitude(o) > 0
    requires x1 == -1 ==> c == Magnitude(o) < TEN33 && pos == ON_TARGET
    requires x1 >= 0 ==> && Describes(Magnitude(o), Pow10(x1), c, pos) && Magnitude(o) < TEN34 * Pow10(x1)
                         && TEN33 <= c && (c == TEN33 ==> Magnitude(o) >= c * Pow10(x1))
                         && (x1 == FirstCut(o) ==> c < TEN34)
    modifies st
    ensures Delivers(o, mode, res, old(st.raised), st.raised)
  {
    hide Round34, FiniteSum, Digits, Place, Pow10, Describes, Magnitude;
    ghost var n: nat := Magnitude(o);
    MagnitudeRounded(o, mode);
    OperandBounds(o.c1, o.q1);
    var c1, e := c, o.yExp;
    if x1 >= 1 {
      e := e + x1;
    }
    DifferencePlaced(o.xNeg, n, o.yExp, mode, x1, c, pos);
    ghost var e' := e;
    if c1 == TEN34 {
      c1, e := TEN33, e + 1;
    }
    res := FinishPlaced(neg, c1, e, mode, pos, st, c, e');
    if pos != ON_TARGET {
      st.Raise({Inexact});
    }
  }

  lemma DifferencePlaced(neg: bool, n: nat, e0: nat, mode: Mode, x1: int, c: nat, pos: Position)
    requires n > 0 && x1 >= -1
    requires x1 == -1 ==> c == n < TEN33 && pos == ON_TARGET
    requires x1 >= 0 ==> && Describes(n, Pow10(x1), c, pos) && n < TEN34 * Pow10(x1)
                         && TEN33 <= c && (c == TEN33 ==> n >= c * Pow10(x1))
    ensures Correctable(mode, neg, pos, c)
    ensures Round34(neg, n, e0, mode) ==
            Place(neg, c + Correction(mode, neg, pos), e0 + (if x1 >= 1 then x1 else 0), pos != ON_TARGET, mode)
  {
    hide Round34, Place;
    if x1 == -1 {
      RoundExact(neg, n, e0, mode);
    } else {
      TenthBound(n, Pow10(x1), c, pos);
      if x1 == 0 {
        Pow10Zero();
      }
      if c == TEN34 {
        MulMono(n, n, 1);
      }
      DescribedRounding(neg, n, e0, mode, x1, c, pos);
      DescribedCorrectable(n, Pow10(x1), c, pos, mode, neg);
    }
  }

  /** The overlap path as a whole. */
  method AddOverlapping(o: Operands, mode: Mode, st: Status) returns (res: Bits128, ghost passes: nat)
    requires Overlaps(o)
    modifies st
    ensures Delivers(o, mode, res, old(st.raised), st.raised)
    ensures 1 <= passes <= 2 && (o.SameSign() ==> passes == 1) && Magnitude(o) != 0
  {
    hide Round34, FiniteSum, Digits, Describes, Pow10, Magnitude;
    var c, neg, pos, x1;
    c, neg, pos, x1, passes := CutAndCombine(o);
    if o.SameSign() {
      res := FinishSum(o, c, pos, x1, mode, st);
    } else {
      res := FinishDifference(o, c, neg, pos, x1, mode, st);
    }
  }
}
