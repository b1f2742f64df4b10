/**
 The midpoint and inexactness indicators that bid128_add keeps about a coefficient rounded to nearest,
 and the correction they allow to any other rounding mode.
 */
module Positions {
  import opened Powers
  import opened Encoding
  import opened Words
  import opened Rounding
  import opened Reciprocal

  /** is_midpoint_lt_even, is_midpoint_gt_even, is_inexact_lt_midpoint, is_inexact_gt_midpoint. */
  datatype Position = Position(midLtEven: bool, midGtEven: bool, inexLtMid: bool, inexGtMid: bool)

  const ON_TARGET: Position := Position(false, false, false, false)

  /**
   The exact value n lies at the given position relative to c * p: at most half of p away, a tie only
   when c is even.
   */
  ghost predicate Describes(n: int, p: nat, c: int, pos: Position) {
    var d := 2 * (n - c * p);
    && 0 <= d + p && d <= p
    && (d == p || d + p == 0 ==> d == 0 || c % 2 == 0)
    && (pos.midLtEven <==> d + p == 0 && d != 0)
    && (pos.midGtEven <==> d == p && d != 0)
    && (pos.inexLtMid <==> 0 < d < p)
    && (pos.inexGtMid <==> 0 < d + p < p)
  }

  /** The general correction from rounding to nearest even to the other modes, in units of the last place. */
  function Correction(mode: Mode, neg: bool, pos: Position): int {
    if mode == ToNearest then 0
    else if (!neg && ((mode == Up && pos.inexLtMid) || ((mode == TiesAway || mode == Up) && pos.midGtEven)))
         || (neg && ((mode == Down && pos.inexLtMid) || ((mode == TiesAway || mode == Down) && pos.midGtEven)))
    then 1
    else if (pos.midLtEven || pos.inexGtMid)
         && ((neg && (mode == Up || mode == ToZero)) || (!neg && (mode == Down || mode == ToZero)))
    then -1
    else 0
  }

  /** The correction of a coefficient at or below the exact value is the rounding of the remainder. */
  lemma CorrectionAbove(n: int, p: nat, c: nat, pos: Position, mode: Mode, neg: bool)
    requires p > 0 && Describes(n, p, c, pos) && n >= c * p
    ensures n - c * p < p
    ensures Correction(mode, neg, pos) == if RoundsUp(mode, neg, c % 2 == 1, n - c * p, p) then 1 else 0
    ensures pos != ON_TARGET <==> n - c * p != 0
  {
  }

  /** The correction of a coefficient above the exact value undoes the rounding up, or not. */
  lemma CorrectionBelow(n: int, p: nat, c: nat, pos: Position, mode: Mode, neg: bool)
    requires p > 0 && Describes(n, p, c, pos) && n < c * p && c > 0
    ensures 0 < n - c * p + p < p
    ensures Correction(mode, neg, pos) == if RoundsUp(mode, neg, (c - 1) % 2 == 1, n - c * p + p, p) then 0 else -1
    ensures pos != ON_TARGET
  {
  }

  /** Correcting a described coefficient gives the exact value rounded once in the asked mode. */
  lemma DescribedRounding(neg: bool, n: nat, e0: nat, mode: Mode, k: nat, c: nat, pos: Position)
    requires Describes(n, Pow10(k), c, pos)
    requires TEN33 <= c <= TEN34
    requires c == TEN33 ==> n >= c * Pow10(k)
    requires c == TEN34 ==> n <= c * Pow10(k) && k > 0
    ensures n > 0 && 0 <= c + Correction(mode, neg, pos) <= TEN34
    ensures Round34(neg, n, e0, mode) ==
            Place(neg, c + Correction(mode, neg, pos), e0 + k, pos != ON_TARGET, mode)
  {
    hide Round34, Place, Pow10, Describes, Correction, RoundsUp;
    var p := Pow10(k);
    var d := n - c * p;
    if d >= 0 {
      CorrectionAbove(n, p, c, pos, mode, neg);
      Round34At(neg, n, e0, mode, k, c, d);
    } else {
      CorrectionBelow(n, p, c, pos, mode, neg);
      MulDistribute(c, 1, p);
      Round34At(neg, n, e0, mode, k, c - 1, d + p);
    }
  }

  /**
   The correction as the code applies it to an already folded coefficient, stepping over the decade
   boundaries. (In bid128_add the block follows every rounding that can be inexact.)
   */
  method CorrectCoefficient(mode: Mode, neg: bool, c: Bits128, e: int, pos: Position,
                            ghost unfolded: int, ghost e': int)
    returns (c1: Bits128, e1: int)
    requires (c as int, e) == Fold(unfolded, e') && unfolded <= TEN34
    requires pos != ON_TARGET ==> TEN33 <= unfolded
    requires unfolded == TEN33 ==> Correction(mode, neg, pos) >= 0
    requires unfolded == TEN34 ==> Correction(mode, neg, pos) <= 0
    ensures (c1 as int, e1) == Fold(unfolded + Correction(mode, neg, pos), e')
  {
    c1, e1 := c, e;
    if mode != ToNearest {
      if (!neg && ((mode == Up && pos.inexLtMid) || ((mode == TiesAway || mode == Up) && pos.midGtEven)))
         || (neg && ((mode == Down && pos.inexLtMid) || ((mode == TiesAway || mode == Down) && pos.midGtEven))) {
        c1 := IncrementPair(c1);
        if c1 == TEN34 {
          c1, e1 := TEN33, e1 + 1;
        }
      } else if (pos.midLtEven || pos.inexGtMid)
                && ((neg && (mode == Up || mode == ToZero)) || (!neg && (mode == Down || mode == ToZero))) {
        c1 := DecrementPair(c1);
        if c1 == TEN33 - 1 {
          c1, e1 := TEN34 - 1, e1 - 1;
        }
      }
    }
  }

  /** The position a rounded-off operand gives the sum it was added to, or the difference it was taken from. */
  function OperandPosition(f: Fraction, oddSum: bool, sameSign: bool): Position {
    match f
    case Exact => ON_TARGET
    case Midpoint =>
      if oddSum == sameSign then ON_TARGET.(midGtEven := true) else ON_TARGET.(midLtEven := true)
    case Above => if sameSign then ON_TARGET.(inexLtMid := true) else ON_TARGET.(inexGtMid := true)
    case Below => if sameSign then ON_TARGET.(inexGtMid := true) else ON_TARGET.(inexLtMid := true)
  }

  /**
   Rounding only the smaller operand: a * p plus or minus c2, with c2 rounded off to star (one less
   after an odd tie), is described by a plus or minus star.
   */
  lemma RoundedOperand(a: int, c2: nat, p: nat, star: nat, f: Fraction, sameSign: bool)
    requires p > 0 && FractionOf(c2, p, star, f)
    ensures var odd := f == Midpoint && (a + star) % 2 == 1;
            var t := if odd then star - 1 else star;
            var n := if sameSign then a * p + c2 else a * p - c2;
            var s := if sameSign then a + t else a - t;
            Describes(n, p, s, OperandPosition(f, odd, sameSign))
  {
    var odd := f == Midpoint && (a + star) % 2 == 1;
    var t := if odd then star - 1 else star;
    MulDistribute(star, 1, p);
    MulDistribute(a, t, p);
    assert 2 * (c2 - t * p) == 2 * (c2 - star * p) + if odd then 2 * p else 0;
  }
}
