/**
 What a delivered result is in the order on all data, infinities included: rounding downwards gives the greatest
 datum not above the exact value, rounding upwards the least one not below it, and rounding to nearest an infinity
 when the rounded value is beyond every finite number (sections 4.3 and 7.4).
 */
module Directed {
  import opened Powers
  import opened Encoding
  import opened Rounding
  import opened RoundingMeaning
  import opened Arithmetic
  import opened Order
  import opened Pack

  // The exact value is the fraction t / s, with the sign of t.

  ghost predicate NotAbove(d: Datum, t: int, s: nat) {
    (d.Infinite? && d.neg) || (d.Finite? && Units(d) * s <= t)
  }

  ghost predicate NotBelow(d: Datum, t: int, s: nat) {
    (d.Infinite? && !d.neg) || (d.Finite? && t <= Units(d) * s)
  }

  ghost predicate GreatestNotAbove(d: Datum, t: int, s: nat)
    requires !d.NaN?
  {
    && InFormat(d) && NotAbove(d, t, s)
    && forall g: Datum :: !g.NaN? && InFormat(g) && NotAbove(g, t, s) ==> !ValueLess(d, g)
  }

  ghost predicate LeastNotBelow(d: Datum, t: int, s: nat)
    requires !d.NaN?
  {
    && InFormat(d) && NotBelow(d, t, s)
    && forall g: Datum :: !g.NaN? && InFormat(g) && NotBelow(g, t, s) ==> !ValueLess(g, d)
  }

  /** The result of the three directed modes. */
  ghost predicate IsDirected(mode: Mode, t: int, s: nat, d: Datum)
    requires !d.NaN?
  {
    match mode
    case Down => GreatestNotAbove(d, t, s)
    case Up => LeastNotBelow(d, t, s)
    case ToZero => if t < 0 then LeastNotBelow(d, t, s) else GreatestNotAbove(d, t, s)
    case ToNearest => true
    case TiesAway => true
  }

  /** Every mode: directed as above; to nearest an infinity of the sign exactly when c * 10^x is beyond all numbers. */
  ghost predicate IsDelivered(mode: Mode, neg: bool, t: nat, s: nat, c: nat, x: nat, d: Datum) {
    && !d.NaN? && IsDirected(mode, Signed(neg, t), s, d)
    && (mode == ToNearest || mode == TiesAway ==>
          if Value(c, x) > Value(TEN34 - 1, EXP_MAX) then d == Infinite(neg)
          else d.Finite? && d.neg == neg && Value(d.coef, d.exp) == Value(c, x))
  }

  lemma FormatBound(g: Datum)
    requires g.Finite? && InFormat(g)
    ensures Value(g.coef, g.exp) <= Value(TEN34 - 1, EXP_MAX)
  {
    hide Pow10;
    Pow10Mono(g.exp, EXP_MAX);
    MulMono(g.coef, TEN34 - 1, Pow10(g.exp));
    MulMono(Pow10(g.exp), Pow10(EXP_MAX), TEN34 - 1);
  }

  /** d holds the rounded magnitude, or what an overflow puts in its place. */
  ghost predicate Holds(mode: Mode, neg: bool, c: nat, x: nat, d: Datum) {
    if Value(c, x) > Value(TEN34 - 1, EXP_MAX) then d == Overflowed(neg, mode)
    else d.Finite? && d.neg == neg && InFormat(d) && Value(d.coef, d.exp) == Value(c, x)
  }

  /** Towards zero: no magnitude of the format lies between the result and the exact one. */
  lemma TowardsZero(mode: Mode, neg: bool, t: nat, s: nat, c: nat, x: nat, d: Datum, g: Datum)
    requires s > 0 && c < TEN34 && LargestBelow(t, s, Value(c, x)) && Holds(mode, neg, c, x, d)
    requires mode == ToZero || mode == if neg then Up else Down
    requires g.Finite? && InFormat(g)
    ensures d.Finite? && d.neg == neg && InFormat(d) && Value(d.coef, d.exp) * s <= t
    ensures Value(g.coef, g.exp) * s <= t ==> Value(g.coef, g.exp) <= Value(d.coef, d.exp)
  {
    hide Value;
    FormatBound(g);
    ScaleOrder(Value(c, x), Value(g.coef, g.exp), s);
    ScaleOrder(Value(TEN34 - 1, EXP_MAX), Value(c, x), s);
  }

  /** Away from zero: the same; past the largest number there is only the infinity. */
  lemma AwayFromZero(mode: Mode, neg: bool, t: nat, s: nat, c: nat, x: nat, d: Datum, g: Datum)
    requires s > 0 && c < TEN34 && SmallestAbove(t, s, Value(c, x)) && Holds(mode, neg, c, x, d)
    requires mode == if neg then Down else Up
    requires g.Finite? && InFormat(g)
    ensures d == Infinite(neg) || (d.Finite? && d.neg == neg && InFormat(d) && t <= Value(d.coef, d.exp) * s)
    ensures d.Infinite? ==> Value(g.coef, g.exp) * s < t
    ensures d.Finite? && t <= Value(g.coef, g.exp) * s ==> Value(d.coef, d.exp) <= Value(g.coef, g.exp)
  {
    hide Value;
    FormatBound(g);
    ScaleOrder(Value(g.coef, g.exp), Value(c, x), s);
  }

  lemma SignedUnits(d: Datum)
    requires d.Finite?
    ensures Units(d) == Signed(d.neg, Value(d.coef, d.exp))
  {
  }

  /** A magnitude with a sign: the order turns round when the sign is negative. */
  lemma SignedProduct(neg: bool, v: nat, s: nat)
    ensures Signed(neg, v) * s == Signed(neg, v * s)
  {
  }

  /** Signed, g is not above t / s, not below it, or beyond d, as its magnitude and its sign say. */
  lemma SignedOrder(neg: bool, t: nat, s: nat, d: Datum, g: Datum)
    requires d.Finite? && d.neg == neg && g.Finite? && t > 0
    ensures NotAbove(g, Signed(neg, t), s) <==>
              if g.neg then !neg || Value(g.coef, g.exp) * s >= t else !neg && Value(g.coef, g.exp) * s <= t
    ensures NotBelow(g, Signed(neg, t), s) <==>
              if g.neg then neg && Value(g.coef, g.exp) * s <= t else neg || Value(g.coef, g.exp) * s >= t
    ensures g.neg == neg ==>
              (ValueLess(d, g) <==> if neg then Value(g.coef, g.exp) < Value(d.coef, d.exp)
                                    else Value(d.coef, d.exp) < Value(g.coef, g.exp))
              && (ValueLess(g, d) <==> if neg then Value(d.coef, d.exp) < Value(g.coef, g.exp)
                                       else Value(g.coef, g.exp) < Value(d.coef, d.exp))
    ensures g.neg && !neg ==> !ValueLess(d, g)
    ensures !g.neg && neg ==> !ValueLess(g, d)
  {
    hide Value, Units;
    SignedUnits(d);
    SignedUnits(g);
    SignedProduct(g.neg, Value(g.coef, g.exp), s);
    MulNonNegative(Value(g.coef, g.exp), s);
  }

  lemma TowardsInOrder(mode: Mode, neg: bool, t: nat, s: nat, c: nat, x: nat, d: Datum)
    requires t > 0 && s > 0 && c < TEN34 && LargestBelow(t, s, Value(c, x)) && Holds(mode, neg, c, x, d)
    requires mode == ToZero || mode == if neg then Up else Down
    ensures !d.NaN?
    ensures if neg then LeastNotBelow(d, Signed(neg, t), s) else GreatestNotAbove(d, Signed(neg, t), s)
  {
    hide Value, Units, LargestBelow, Holds, InFormat;
    ZeroFits(neg);
    TowardsZero(mode, neg, t, s, c, x, d, Finite(neg, 0, 0));
    SignedOrder(neg, t, s, d, d);
    forall g: Datum | g.Finite? && InFormat(g)
      ensures if neg then NotBelow(g, Signed(neg, t), s) ==> !ValueLess(g, d)
              else NotAbove(g, Signed(neg, t), s) ==> !ValueLess(d, g)
    {
      TowardsZero(mode, neg, t, s, c, x, d, g);
      SignedOrder(neg, t, s, d, g);
    }
  }

  lemma AwayInOrder(mode: Mode, neg: bool, t: nat, s: nat, c: nat, x: nat, d: Datum)
    requires t > 0 && s > 0 && c < TEN34 && SmallestAbove(t, s, Value(c, x)) && Holds(mode, neg, c, x, d)
    requires mode == if neg then Down else Up
    ensures !d.NaN?
    ensures if neg then GreatestNotAbove(d, Signed(neg, t), s) else LeastNotBelow(d, Signed(neg, t), s)
  {
    hide Value, Units, SmallestAbove, Holds, InFormat;
    ZeroFits(neg);
    InfiniteFits(neg);
    var zero := Finite(neg, 0, 0);
    AwayFromZero(mode, neg, t, s, c, x, d, zero);
    var finite := if d.Finite? then d else zero;
    SignedOrder(neg, t, s, finite, finite);
    forall g: Datum | g.Finite? && InFormat(g)
      ensures if neg then NotAbove(g, Signed(neg, t), s) ==> !ValueLess(d, g)
              else NotBelow(g, Signed(neg, t), s) ==> !ValueLess(g, d)
    {
      AwayFromZero(mode, neg, t, s, c, x, d, g);
      SignedOrder(neg, t, s, finite, g);
    }
  }

  lemma DeliveredInOrder(mode: Mode, neg: bool, t: nat, s: nat, c: nat, x: nat, d: Datum)
    requires t > 0 && s > 0 && c < TEN34 && IsRounding(mode, neg, t, s, c, x) && Holds(mode, neg, c, x, d)
    ensures IsDelivered(mode, neg, t, s, c, x, d)
  {
    hide Value, LargestBelow, SmallestAbove, Nearest, Tied, Holds, GreatestNotAbove, LeastNotBelow;
    if mode == ToNearest || mode == TiesAway {
      HoldsNearest(mode, neg, c, x, d);
    } else if mode == ToZero || mode == (if neg then Up else Down) {
      TowardsInOrder(mode, neg, t, s, c, x, d);
    } else {
      AwayInOrder(mode, neg, t, s, c, x, d);
    }
  }

  lemma HoldsNearest(mode: Mode, neg: bool, c: nat, x: nat, d: Datum)
    requires (mode == ToNearest || mode == TiesAway) && Holds(mode, neg, c, x, d)
    ensures if Value(c, x) > Value(TEN34 - 1, EXP_MAX) then d == Infinite(neg)
            else d.Finite? && d.neg == neg && Value(d.coef, d.exp) == Value(c, x)
  {
  }

  lemma ZeroFits(neg: bool)
    ensures InFormat(Finite(neg, 0, 0))
  {
  }

  lemma InfiniteFits(neg: bool)
    ensures InFormat(Infinite(neg))
  {
  }

  /** Packing c * 10^x, the rounding of t / s, delivers it. */
  lemma PackedInOrder(mode: Mode, neg: bool, t: nat, s: nat, c: nat, x: nat, inexact: bool)
    requires t > 0 && s > 0 && c < TEN34 && IsRounding(mode, neg, t, s, c, x)
    ensures IsDelivered(mode, neg, t, s, c, x, Delivered(neg, c, x, inexact, mode).datum)
  {
    hide Value, Delivered, Overflowed, IsRounding, IsDelivered;
    DeliveredMeaning(neg, c, x, inexact, mode);
    DeliveredInOrder(mode, neg, t, s, c, x, Delivered(neg, c, x, inexact, mode).datum);
  }

  /** The sum of two finite data, in every mode. */
  lemma FiniteSumInOrder(x: Datum, y: Datum, mode: Mode) returns (c: nat, e: nat)
    requires x.Finite? && y.Finite? && InFormat(x) && InFormat(y) && Units(x) + Units(y) != 0
    ensures var t := Units(x) + Units(y);
            && IsRounding(mode, t < 0, Abs(t), 1, c, e)
            && IsDelivered(mode, t < 0, Abs(t), 1, c, e, FiniteSum(x, y, mode).datum)
            && (Overflow in FiniteSum(x, y, mode).flags <==> Value(c, e) > Value(TEN34 - 1, EXP_MAX))
  {
    hide Value, Overflowed, IsRounding, IsDelivered, FiniteSum, Units, LeastExponent;
    c, e := FiniteSumMeaning(x, y, mode);
    var t := Units(x) + Units(y);
    DeliveredInOrder(mode, t < 0, Abs(t), 1, c, e, FiniteSum(x, y, mode).datum);
  }
}
