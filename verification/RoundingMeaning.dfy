/**
 The rounded result against the definition of the standard: sections 4.3 and 5.2 of IEEE 754-2008. All values
 are whole multiples of 10^-6176, so they are compared as integers.
 */
module RoundingMeaning {
  import opened Powers
  import opened Encoding
  import opened Rounding
  import opened Arithmetic

  function Value(m: nat, e: nat): nat { m * Pow10(e) }

  // The exact magnitude is the fraction t / s; s is 1 except for a quotient.

  /** No number of at most 34 digits is nearer to t / s than v. */
  ghost predicate Nearest(t: int, s: nat, v: int) {
    forall m: nat, e: nat :: m < TEN34 ==> Abs(t - v * s) <= Abs(t - Value(m, e) * s)
  }

  /** Another number of at most 34 digits is as near to t / s as v. */
  ghost predicate Tied(t: int, s: nat, v: int) {
    exists m: nat, e: nat :: m < TEN34 && Value(m, e) * s != v * s && Abs(t - v * s) == Abs(t - Value(m, e) * s)
  }

  ghost predicate LargestBelow(t: int, s: nat, v: int) {
    v * s <= t && forall m: nat, e: nat :: m < TEN34 && Value(m, e) * s <= t ==> Value(m, e) * s <= v * s
  }

  ghost predicate SmallestAbove(t: int, s: nat, v: int) {
    v * s >= t && forall m: nat, e: nat :: m < TEN34 && Value(m, e) * s >= t ==> Value(m, e) * s >= v * s
  }

  /** c * 10^x is the magnitude t / s rounded in the given direction, the exponent range being unlimited. */
  ghost predicate IsRounding(mode: Mode, neg: bool, t: int, s: nat, c: nat, x: nat) {
    var v := Value(c, x);
    match mode
    case ToNearest => Nearest(t, s, v) && (Tied(t, s, v) ==> c % 2 == 0)
    case TiesAway => Nearest(t, s, v) && (Tied(t, s, v) ==> v * s > t)
    case Down => if neg then SmallestAbove(t, s, v) else LargestBelow(t, s, v)
    case Up => if neg then LargestBelow(t, s, v) else SmallestAbove(t, s, v)
    case ToZero => LargestBelow(t, s, v)
  }

  /** There is no 34-digit number strictly between two neighbouring multiples of 10^e that have 34 digits. */
  lemma NoneBetween(q: nat, e: nat, m: nat, f: nat)
    requires TEN33 <= q && m < TEN34
    ensures Value(m, f) <= q * Pow10(e) || (q + 1) * Pow10(e) <= Value(m, f)
  {
    hide Pow10;
    if f >= e {
      Pow10Add(f - e, e);
      MulAssoc(m, Pow10(f - e), Pow10(e));
      var a := m * Pow10(f - e);
      if a <= q {
        MulMono(a, q, Pow10(e));
      } else {
        MulMono(q + 1, a, Pow10(e));
      }
    } else {
      Pow10Mono(f, e);
      MulMono(m, TEN34, Pow10(f));
      MulMono(TEN33, q, Pow10(e));
      assert 10 * (TEN33 * Pow10(f)) <= 10 * q * Pow10(f) by { MulMono(TEN33, q, Pow10(f)); }
      BelowDecade(m, q, Pow10(f), Pow10(e));
    }
  }

  lemma BelowDecade(m: nat, q: nat, small: nat, large: nat)
    requires TEN33 <= q && m < TEN34 && 10 * small <= large
    ensures m * small <= q * large
  {
  }

  /** The two neighbours q * p and (q + 1) * p of t, with nothing between them, and the one RoundsUp picks. */
  lemma PickedNeighbour(mode: Mode, neg: bool, q: nat, p: nat, r: nat, c: nat, v: int, m: int)
    requires r < p && c == (if RoundsUp(mode, neg, q % 2 == 1, r, p) then q + 1 else q) && v == c * p
    requires m <= q * p || (q + 1) * p <= m
    ensures var t := q * p + r;
            && (mode == ToNearest || mode == TiesAway ==> Abs(t - v) <= Abs(t - m))
            && (mode == ToNearest && m != v && Abs(t - v) == Abs(t - m) ==> c % 2 == 0)
            && (mode == TiesAway && m != v && Abs(t - v) == Abs(t - m) ==> v > t)
            && (mode == ToZero || mode == (if neg then Up else Down) ==> v <= t && (m <= t ==> m <= v))
            && (mode == (if neg then Down else Up) ==> v >= t && (m >= t ==> m >= v))
  {
    MulDistribute(q, 1, p);
  }

  /** The rounding depends on no more than where the remainder lies next to zero and to one half. */
  lemma SameDecision(mode: Mode, neg: bool, odd: bool, r: nat, p: nat, r': nat, p': nat)
    requires (r == 0 <==> r' == 0) && (2 * r > p <==> 2 * r' > p') && (2 * r == p <==> 2 * r' == p')
    ensures RoundsUp(mode, neg, odd, r, p) == RoundsUp(mode, neg, odd, r', p')
  {
  }

  /** Rounding a remainder and its scaled copy is the same. */
  lemma RoundsUpScaled(mode: Mode, neg: bool, odd: bool, r: nat, p: nat, s: nat)
    requires s > 0 && r < p
    ensures r * s < p * s
    ensures RoundsUp(mode, neg, odd, r, p) == RoundsUp(mode, neg, odd, r * s, p * s)
  {
    hide RoundsUp;
    ScaleOrder(r, p, s);
    ScaleOrder(0, r, s);
    ScaleOrder(2 * r, p, s);
    ScaleOrder(p, 2 * r, s);
    MulAssoc(2, r, s);
    SameDecision(mode, neg, odd, r, p, r * s, p * s);
  }

  lemma ExactIsRounding(mode: Mode, neg: bool, s: nat, c: nat, x: nat)
    ensures IsRounding(mode, neg, Value(c, x) * s, s, c, x)
  {
  }

  /** NoneBetween, scaled. */
  lemma NoneBetweenScaled(q: nat, p: nat, s: nat, v: nat)
    requires v <= q * p || (q + 1) * p <= v
    ensures v * s <= q * (p * s) || (q + 1) * (p * s) <= v * s
  {
  }

  /** With no number of the format strictly between two neighbours, the picked one is the rounding. */
  lemma PickedIsRounding(mode: Mode, neg: bool, q: nat, p: nat, r: nat, s: nat, c: nat, x: nat, d: nat)
    requires r < p && d == if RoundsUp(mode, neg, q % 2 == 1, r, p) then q + 1 else q
    requires Value(c, x) * s == d * p && c % 2 == d % 2
    requires forall m: nat, f: nat :: m < TEN34 ==> Value(m, f) * s <= q * p || (q + 1) * p <= Value(m, f) * s
    ensures IsRounding(mode, neg, q * p + r, s, c, x)
  {
    hide RoundsUp, Value;
    var t, v := q * p + r, Value(c, x) * s;
    MulNonNegative(q, p);
    PickedNeighbour(mode, neg, q, p, r, d, v, 0);
    forall m: nat, f: nat | m < TEN34
      ensures mode == ToNearest || mode == TiesAway ==> Abs(t - v) <= Abs(t - Value(m, f) * s)
      ensures mode == ToNearest && Value(m, f) * s != v && Abs(t - v) == Abs(t - Value(m, f) * s) ==> c % 2 == 0
      ensures mode == TiesAway && Value(m, f) * s != v && Abs(t - v) == Abs(t - Value(m, f) * s) ==> v > t
      ensures mode == ToZero || mode == (if neg then Up else Down) ==> (Value(m, f) * s <= t ==> Value(m, f) * s <= v)
      ensures mode == (if neg then Down else Up) ==> (Value(m, f) * s >= t ==> Value(m, f) * s >= v)
    {
      PickedNeighbour(mode, neg, q, p, r, d, v, Value(m, f) * s);
    }
  }

  lemma NeighbourIsRounding(mode: Mode, neg: bool, q: nat, e: nat, s: nat, r: nat, c: nat, x: nat, d: nat)
    requires TEN33 <= q < TEN34 && r < Pow10(e) * s && c < TEN34
    requires d == if RoundsUp(mode, neg, q % 2 == 1, r, Pow10(e) * s) then q + 1 else q
    requires Value(c, x) == Value(d, e) && (c == d || (c == TEN33 && d == TEN34))
    ensures IsRounding(mode, neg, q * (Pow10(e) * s) + r, s, c, x)
  {
    hide Pow10, RoundsUp, IsRounding;
    assert TEN33 % 2 == 0 && TEN34 % 2 == 0;
    MulAssoc(d, Pow10(e), s);
    forall m: nat, f: nat | m < TEN34
      ensures Value(m, f) * s <= q * (Pow10(e) * s) || (q + 1) * (Pow10(e) * s) <= Value(m, f) * s
    {
      NoneBetween(q, e, m, f);
      NoneBetweenScaled(q, Pow10(e), s, Value(m, f));
    }
    PickedIsRounding(mode, neg, q, Pow10(e) * s, r, s, c, x, d);
  }

  /** At the smallest exponent the neighbours are whole numbers, and every number of the format is one. */
  lemma IntegerIsRounding(mode: Mode, neg: bool, q: nat, s: nat, r: nat, c: nat)
    requires r < s && c == if RoundsUp(mode, neg, q % 2 == 1, r, s) then q + 1 else q
    ensures IsRounding(mode, neg, q * s + r, s, c, 0)
  {
    hide RoundsUp, IsRounding;
    Pow10Zero();
    hide Pow10;
    forall m: nat, f: nat | m < TEN34
      ensures Value(m, f) * s <= q * s || (q + 1) * s <= Value(m, f) * s
    {
      WholeNeighbours(q, s, Value(m, f));
    }
    PickedIsRounding(mode, neg, q, s, r, s, c, 0, c);
  }

  lemma WholeNeighbours(q: nat, s: nat, w: nat)
    ensures w * s <= q * s || (q + 1) * s <= w * s
  {
    if w <= q {
      MulMono(w, q, s);
    } else {
      MulMono(q + 1, w, s);
    }
  }

  /** A coefficient and exponent before overflow is considered. */
  function Unbounded(neg: bool, n: nat, e0: nat, mode: Mode): (nat, nat)
    requires n > 0
  {
    var k := ExtraDigits(n);
    var c := RoundedQuotient(neg, n, k, mode);
    if c == TEN34 then (TEN33, e0 + k + 1) else (c, e0 + k)
  }

  /** A magnitude that fits is its own rounding. */
  lemma ShortMeaning(neg: bool, n: nat, e0: nat, mode: Mode)
    requires 0 < n < TEN34
    ensures Unbounded(neg, n, e0, mode) == (n, e0) && RoundedQuotient(neg, n, ExtraDigits(n), mode) == n
    ensures ExtraDigits(n) == 0 && n % Pow10(ExtraDigits(n)) == 0
    ensures IsRounding(mode, neg, n * Pow10(e0), 1, n, e0)
  {
    ExtraDigitsNone(n);
    Pow10Zero();
    ExactIsRounding(mode, neg, 1, n, e0);
  }

  /** A longer magnitude is rounded to one of its two neighbours. */
  lemma LongMeaning(neg: bool, n: nat, e0: nat, mode: Mode)
    requires n >= TEN34
    ensures var (c, x) := Unbounded(neg, n, e0, mode);
            && TEN33 <= c < TEN34 && IsRounding(mode, neg, n * Pow10(e0), 1, c, x)
            && (Value(c, x) == n * Pow10(e0) <==> n % Pow10(ExtraDigits(n)) == 0)
  {
    hide Pow10, Digits, RoundsUp, IsRounding;
    var k := ExtraDigits(n);
    var p := Pow10(k);
    ExtraDigitsBounds(n);
    QuotientBounds(n, p, TEN33, TEN34);
    RoundedQuotientBound(neg, n, mode);
    var q, r := Divide(n, p);
    var d := RoundedQuotient(neg, n, k, mode);
    NeverRoundsZero(mode, neg, q, r, p);
    Pow10Add(k, e0);
    SplitScaled(n, q, r, p, Pow10(e0));
    RoundsUpScaled(mode, neg, q % 2 == 1, r, p, Pow10(e0));
    DifferFromExact(q, d, r, p, Pow10(e0));
    Refolded(d, e0 + k);
    var (c, x) := Unbounded(neg, n, e0, mode);
    NeighbourIsRounding(mode, neg, q, e0 + k, 1, r * Pow10(e0), c, x, d);
  }

  lemma Refolded(d: nat, e: nat)
    ensures d == TEN34 ==> Value(TEN33, e + 1) == Value(d, e)
  {
  }

  /**
   Round34 is the rounding of the standard: the unbounded result is the correctly rounded magnitude, Inexact is
   raised just when it differs (and then all 34 digits are used), and an overflow happens just when the result
   lies beyond every finite number.
   */
  lemma Round34Meaning(neg: bool, n: nat, e0: nat, mode: Mode)
    requires n > 0 && e0 <= EXP_MAX
    ensures var (c, x) := Unbounded(neg, n, e0, mode);
            var o := Round34(neg, n, e0, mode);
            && 0 < c < TEN34 && InFormat(o.datum)
            && IsRounding(mode, neg, n * Pow10(e0), 1, c, x)
            && (Value(c, x) != n * Pow10(e0) ==> TEN33 <= c)
            && (Value(c, x) > Value(TEN34 - 1, EXP_MAX) ==> o == Outcome(Overflowed(neg, mode), {Overflow, Inexact}))
            && (Value(c, x) <= Value(TEN34 - 1, EXP_MAX) ==>
                  o == Outcome(Finite(neg, x, c), if Value(c, x) != n * Pow10(e0) then {Inexact} else {}))
  {
    hide Pow10, Digits, RoundsUp, IsRounding, Value, Overflowed, ExtraDigits, RoundedQuotient;
    RoundedQuotientBound(neg, n, mode);
    var (c, x) := Unbounded(neg, n, e0, mode);
    if n < TEN34 {
      ShortMeaning(neg, n, e0, mode);
      ValueIs(n, e0);
    } else {
      LongMeaning(neg, n, e0, mode);
    }
    BeyondRange(c, x, n < TEN34);
    OverflowedFits(neg, mode);
  }

  lemma OverflowedFits(neg: bool, mode: Mode)
    ensures InFormat(Overflowed(neg, mode))
  {
  }

  lemma ValueIs(m: nat, e: nat)
    ensures Value(m, e) == m * Pow10(e)
  {
  }

  lemma SplitScaled(n: nat, q: nat, r: nat, p: nat, s: nat)
    requires n == q * p + r
    ensures n * s == q * (p * s) + r * s
  {
  }

  lemma NeverRoundsZero(mode: Mode, neg: bool, q: nat, r: nat, p: nat)
    ensures RoundsUp(mode, neg, q % 2 == 1, r, p) ==> r > 0
  {
  }

  /** The rounded coefficient differs in value from the exact magnitude just when something remained. */
  lemma DifferFromExact(q: nat, d: nat, r: nat, p: nat, s: nat)
    requires s > 0 && r < p && (d == q || (d == q + 1 && r > 0))
    ensures d * (p * s) == q * (p * s) + r * s <==> r == 0
  {
  }

  lemma BeyondRange(c: nat, x: nat, short: bool)
    requires 0 < c < TEN34 && (if short then x <= EXP_MAX else TEN33 <= c)
    ensures x > EXP_MAX <==> Value(c, x) > Value(TEN34 - 1, EXP_MAX)
  {
    hide Pow10;
    if x > EXP_MAX {
      Pow10Mono(EXP_MAX, x);
      MulMono(10 * Pow10(EXP_MAX), Pow10(x), TEN33);
      MulMono(TEN33, c, Pow10(x));
      ScaleOrder(TEN34 - 1, TEN34, Pow10(EXP_MAX));
    } else {
      Pow10Mono(x, EXP_MAX);
      MulMono(c, TEN34 - 1, Pow10(x));
      MulMono(Pow10(x), Pow10(EXP_MAX), TEN34 - 1);
    }
  }

  /** An exact result keeps the exponent nearest the preferred one that the value allows. */
  ghost predicate LeastExponent(t: int, e0: nat, c: nat, e: nat) {
    e0 <= e && forall m: nat, f: nat :: e0 <= f && m < TEN34 && Value(m, f) == t ==> e <= f
  }

  lemma EnoughZeros(n: nat, m: nat, j: nat, k: nat)
    requires n == m * Pow10(j) && m < TEN34 && n >= TEN33 * Pow10(k)
    ensures j >= k
  {
    hide Pow10;
    if j < k {
      Pow10Mono(j, k);
      ScaleOrder(m, TEN34, Pow10(j));
      MulMono(10 * Pow10(j), Pow10(k), TEN33);
    }
  }

  lemma ExactKeepsPreferred(neg: bool, n: nat, e0: nat, mode: Mode, m: nat, e: nat)
    requires n > 0 && e0 <= e && m < TEN34 && Value(m, e) == n * Pow10(e0)
    ensures Unbounded(neg, n, e0, mode).1 <= e
    ensures Value(Unbounded(neg, n, e0, mode).0, Unbounded(neg, n, e0, mode).1) == n * Pow10(e0)
  {
    hide Pow10, Digits;
    var k, j := ExtraDigits(n), e - e0;
    Pow10Add(j, e0);
    MulAssoc(m, Pow10(j), Pow10(e0));
    ScaleOrder(m * Pow10(j), n, Pow10(e0));
    Pow10Zero();
    if n < TEN34 {
      ExtraDigitsNone(n);
    } else {
      ExtraDigitsBounds(n);
      EnoughZeros(n, m, j, k);
      Pow10Add(j - k, k);
      MulAssoc(m, Pow10(j - k), Pow10(k));
      DivModUnique(n, Pow10(k), m * Pow10(j - k), 0);
      QuotientBounds(n, Pow10(k), TEN33, TEN34);
      Pow10Add(k, e0);
      MulAssoc(m * Pow10(j - k), Pow10(k), Pow10(e0));
    }
  }

  lemma InUnits(d: Datum, e0: nat)
    requires d.Finite? && e0 <= d.exp
    ensures Units(d) == InUnitsOf(d, e0) * Pow10(e0)
  {
    hide Pow10;
    Pow10Add(d.exp - e0, e0);
    MulAssoc(d.coef, Pow10(d.exp - e0), Pow10(e0));
    MulDistribute(0, d.coef * Pow10(d.exp - e0), Pow10(e0));
  }

  lemma ExactIsLeast(neg: bool, n: nat, e0: nat, mode: Mode)
    requires n > 0
    ensures var (c, e) := Unbounded(neg, n, e0, mode);
            Value(c, e) == n * Pow10(e0) ==> LeastExponent(n * Pow10(e0), e0, c, e)
  {
    hide Pow10, ExtraDigits, RoundedQuotient;
    forall m: nat, f: nat | e0 <= f && m < TEN34 && Value(m, f) == n * Pow10(e0)
      ensures Unbounded(neg, n, e0, mode).1 <= f
    {
      ExactKeepsPreferred(neg, n, e0, mode, m, f);
    }
  }

  /**
   The specification of addition, told on exact values: the sum of the two values, rounded once; an exact sum
   stays as near to the smaller exponent as its digits allow, an inexact one has 34 digits.
   */
  lemma FiniteSumMeaning(x: Datum, y: Datum, mode: Mode) returns (c: nat, e: nat)
    requires x.Finite? && y.Finite? && InFormat(x) && InFormat(y)
    ensures var t := Units(x) + Units(y);
            var o := FiniteSum(x, y, mode);
            if t == 0 then
              var neg := if x.neg == y.neg then x.neg else mode == Down;
              o == Outcome(Finite(neg, if x.exp <= y.exp then x.exp else y.exp, 0), {})
            else
              && 0 < c < TEN34 && InFormat(o.datum) && IsRounding(mode, t < 0, Abs(t), 1, c, e)
              && (if Value(c, e) == Abs(t) then LeastExponent(Abs(t), Min(x.exp, y.exp), c, e) else TEN33 <= c)
              && o == (if Value(c, e) > Value(TEN34 - 1, EXP_MAX)
                       then Outcome(Overflowed(t < 0, mode), {Overflow, Inexact})
                       else Outcome(Finite(t < 0, e, c), if Value(c, e) != Abs(t) then {Inexact} else {}))
  {
    hide Pow10, Round34, IsRounding, Value, Overflowed, InUnitsOf, Units, LeastExponent;
    var e0 := Min(x.exp, y.exp);
    var s := ExactSum(x, y);
    InUnits(x, e0);
    InUnits(y, e0);
    MulDistribute(InUnitsOf(x, e0), InUnitsOf(y, e0), Pow10(e0));
    ScaleOrder(s, 0, Pow10(e0));
    ScaleOrder(0, s, Pow10(e0));
    MulDistribute(0, s, Pow10(e0));
    c, e := 0, 0;
    if s != 0 {
      Round34Meaning(s < 0, Abs(s), e0, mode);
      ExactIsLeast(s < 0, Abs(s), e0, mode);
      c, e := Unbounded(s < 0, Abs(s), e0, mode).0, Unbounded(s < 0, Abs(s), e0, mode).1;
    }
  }
}
