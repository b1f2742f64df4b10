/**
 bid_handle_UF_128_rem and handle_UF_128 (smilelib/decimal/bid_internal.h): a number below the format's smallest
 exponent, rounded to a multiple of it. The two repeat the same code after their first lines; it is written once.
 */
module Subnormal {
  import opened Powers
  import opened Encoding
  import opened Words
  import opened DivTables
  import opened Rounding
  import opened RoundingMeaning
  import opened Arithmetic
  import opened Reciprocal
  import opened Unpacking

  /** n / 10^k as a multiple of the smallest number: rounded once, with both flags exactly when digits are lost. */
  function SubnormalOutcome(neg: bool, n: nat, k: nat, mode: Mode): Outcome {
    Outcome(Finite(neg, 0, RoundedQuotient(neg, n, k, mode)), if n % Pow10(k) != 0 then {Underflow, Inexact} else {})
  }

  /** A flag that an earlier operation left raised makes the code raise Underflow whether digits are lost or not. */
  function StickyFlags(raised: set<Flag>): set<Flag> { if Inexact in raised then {Underflow} else {} }

  /** The flags are the promised ones unless no digit is lost, Inexact was raised before and Underflow was not. */
  lemma UnderflowFlagIff(neg: bool, n: nat, k: nat, mode: Mode, raised: set<Flag>)
    ensures var flags := SubnormalOutcome(neg, n, k, mode).flags;
            raised + flags + StickyFlags(raised) == raised + flags
            <==> !(n % Pow10(k) == 0 && Inexact in raised && Underflow !in raised)
  {
    hide Pow10, RoundedQuotient;
    var flags := SubnormalOutcome(neg, n, k, mode).flags;
    if n % Pow10(k) == 0 && Inexact in raised && Underflow !in raised {
      assert Underflow in raised + flags + StickyFlags(raised) && Underflow !in raised + flags;
    }
  }

  lemma RoundedSplit(neg: bool, n: nat, k: nat, mode: Mode, q: nat, r: nat)
    requires n == q * Pow10(k) + r && r < Pow10(k)
    ensures RoundedQuotient(neg, n, k, mode) == if RoundsUp(mode, neg, q % 2 == 1, r, Pow10(k)) then q + 1 else q
    ensures n % Pow10(k) == r
  {
    DivModUnique(n, Pow10(k), q, r);
  }

  /** A number below the smallest normal one rounds to at most that one. */
  lemma SubnormalBound(neg: bool, n: nat, k: nat, mode: Mode)
    requires n < TEN33 * Pow10(k)
    ensures RoundedQuotient(neg, n, k, mode) <= TEN33
  {
    hide Pow10, RoundsUp;
    var q, r := Divide(n, Pow10(k));
    RoundedSplit(neg, n, k, mode, q, r);
    if q >= TEN33 {
      MulMono(TEN33, q, Pow10(k));
    }
  }

  /** The outcome is the exact number rounded once at the smallest exponent; both flags exactly when it differs. */
  lemma SubnormalMeaning(neg: bool, n: nat, k: nat, mode: Mode)
    requires n < TEN33 * Pow10(k)
    ensures var o := SubnormalOutcome(neg, n, k, mode);
            && o.datum.Finite? && o.datum.neg == neg && o.datum.exp == 0 && o.datum.coef <= TEN33
            && IsRounding(mode, neg, n, Pow10(k), o.datum.coef, 0)
            && o.flags == if o.datum.coef * Pow10(k) != n then {Underflow, Inexact} else {}
  {
    hide Pow10, RoundsUp, IsRounding;
    var p := Pow10(k);
    var q, r := Divide(n, p);
    RoundedSplit(neg, n, k, mode, q, r);
    SubnormalBound(neg, n, k, mode);
    var c := RoundedQuotient(neg, n, k, mode);
    IntegerIsRounding(mode, neg, q, p, r, c);
    NeverRoundsZero(mode, neg, q, r, p);
    MulDistribute(q, 1, p);
  }

  // The rounding: a constant is added, then the quotient and the fraction are read off a reciprocal's product.

  // bid_round_const_table_128
  function RoundConstant(rmode: Mode, k: nat): nat
    requires k < 36
  {
    match rmode
    case ToNearest => HalfConstant(k)
    case Down => 0
    case Up => UpConstant(k)
    case ToZero => 0
    case TiesAway => HalfConstant(k)
  }

  /** The remainder that a number without lost digits leaves once the constant is added. */
  function ExactRemainder(rmode: Mode, p: nat): nat {
    match rmode
    case ToNearest => p / 2
    case Down => 0
    case Up => if p > 0 then p - 1 else 0
    case ToZero => 0
    case TiesAway => p / 2
  }

  /** Quotient and remainder after the constant was added tell the rounded quotient and whether digits were lost. */
  lemma ShiftedRounding(mode: Mode, neg: bool, cq: nat, k: nat, q: nat, r: nat)
    requires k > 0 && cq + ExactRemainder(MagnitudeMode(mode, neg), Pow10(k)) == q * Pow10(k) + r && r < Pow10(k)
    ensures mode == ToNearest && q % 2 == 1 && r == 0 ==> q > 0
    ensures RoundedQuotient(neg, cq, k, mode) == if mode == ToNearest && q % 2 == 1 && r == 0 then q - 1 else q
    ensures cq % Pow10(k) == 0 <==> r == ExactRemainder(MagnitudeMode(mode, neg), Pow10(k))
  {
    hide Pow10;
    var p := Pow10(k);
    Pow10Even(k);
    var t := ExactRemainder(MagnitudeMode(mode, neg), p);
    var q0, r0 := Divide(cq, p);
    RoundedSplit(neg, cq, k, mode, q0, r0);
    MulDistribute(q0, 1, p);
    if r0 + t < p {
      SameQuotient(p, q0, r0 + t, q, r);
    } else {
      SameQuotient(p, q0 + 1, r0 + t - p, q, r);
    }
  }

  /** How the fraction of the product, with the excess of the reciprocal, places the remainder. */
  lemma FractionPlaces(n: nat, p: nat, two: nat, excess: nat, recip: nat, r: nat, fr: nat)
    requires p > 0 && p % 2 == 0 && two % 2 == 0
    requires recip * p == two + excess && (n + 1) * excess < two
    requires r <= n && r < p && fr * p == r * two + n * excess && fr < two
    ensures fr < recip <==> r == 0
    ensures two / 2 <= fr < two / 2 + recip <==> r == p / 2
    ensures two <= fr + recip <==> r == p - 1
  {
    MulDistribute(n, 1, excess);
    MulNonNegative(n, excess);
    ScaleOrder(fr, recip, p);
    MulDistribute(fr, recip, p);
    ScaleOrder(two, fr + recip, p);
    ScaleOrder(fr + recip, two, p);
    FractionAtEnds(n, p, two, excess, r);
    FractionAtHalf(n, p, two, excess, recip, r, fr, p / 2, two / 2);
  }

  lemma FractionAtEnds(n: nat, p: nat, two: nat, excess: nat, r: nat)
    requires p > 0 && (n + 1) * excess < two && r <= n && r < p
    ensures r * two + n * excess < two + excess <==> r == 0
    ensures two * p <= r * two + n * excess + (two + excess) <==> r == p - 1
  {
    MulDistribute(n, 1, excess);
    MulNonNegative(n, excess);
    if r > 0 {
      MulMono(1, r, two);
      MulMono(1, n, excess);
    }
    assert two * p == p * two;
    MulDistribute(p, 1, two);
    MulDistribute(p, 2, two);
    if r <= p - 2 {
      MulMono(r, p - 2, two);
    }
  }

  lemma FractionAtHalf(n: nat, p: nat, two: nat, excess: nat, recip: nat, r: nat, fr: nat, h: nat, half: nat)
    requires p == 2 * h && two == 2 * half && recip * p == two + excess && (n + 1) * excess < two
    requires r <= n && r < p && fr * p == r * two + n * excess
    ensures half <= fr < half + recip <==> r == h
  {
    var g := fr - half;
    MulDistribute(fr, half, p);
    MulDistribute(r, h, two);
    HalvesCross(half, h);
    assert g * p == (r - h) * two + n * excess;
    ScaleOrder(g, 0, p);
    ScaleOrder(g, recip, p);
    CentredFraction(r - h, n, two, excess);
  }

  lemma HalvesCross(half: nat, h: nat)
    ensures half * (2 * h) == h * (2 * half)
  {
  }

  lemma CentredFraction(d: int, n: nat, two: nat, excess: nat)
    requires (n + 1) * excess < two && d <= n
    ensures 0 <= d * two + n * excess < two + excess <==> d == 0
  {
    MulDistribute(n, 1, excess);
    MulNonNegative(n, excess);
    if d < 0 {
      MulMono(d, -1, two);
    } else if d > 0 {
      MulMono(1, d, two);
      MulMono(1, n, excess);
    }
  }

  // Reading the fraction: high is its part in the upper half of the product, ql the lower half.

  /** high in its shifted place, next to one half. */
  lemma ShiftedHalf(high: nat, amount: nat)
    requires 0 < amount < 128
    ensures high * Pow2(128 - amount) == W128 / 2 <==> high == Pow2(amount - 1)
    ensures high * Pow2(128 - amount) == 0 <==> high == 0
    ensures W128 * Pow2(amount) / 2 == Pow2(amount - 1) * W128
  {
    hide Pow2;
    Pow2WideValues();
    Pow2Add(amount - 1, 128 - amount);
    assert Pow2(amount) == 2 * Pow2(amount - 1) by { Pow2Add(1, amount - 1); Pow2Add(1, 0); Pow2One(); }
    Pow2Add(127, 1);
    Pow2One();
    ScaleOrder(high, Pow2(amount - 1), Pow2(128 - amount));
    ScaleOrder(high, 0, Pow2(128 - amount));
  }

  /** Comparing the parts is comparing the whole. */
  lemma PartsCompare(high: nat, ql: nat, recip: nat, mark: nat)
    requires ql < W128 && recip < W128
    ensures high == mark && ql < recip <==> mark * W128 <= high * W128 + ql < mark * W128 + recip
    ensures high + (if ql + recip >= W128 then 1 else 0) >= mark <==> mark * W128 <= high * W128 + ql + recip
  {
  }

  /** The carry out of a pair sum: __add_carry_out below __add_carry_in_out. */
  method PairCarry(a: Bits128, b: Bits128) returns (carry: nat)
    ensures carry == if a + b >= W128 then 1 else 0
  {
    hide Wrap;
    var s0 := Wrap(Lo(a) + Lo(b));
    AddWraps(Lo(a), Lo(b));
    var cy := if s0 < Lo(a) then 1 else 0;
    var x1 := Wrap(Hi(a) + cy);
    AddWraps(cy, Hi(a));
    assert cy + Hi(a) == Hi(a) + cy;
    var s1 := Wrap(x1 + Hi(b));
    AddWraps(x1, Hi(b));
    carry := if s1 < x1 || x1 < cy then 1 else 0;
  }

  /** Whether no digit was lost: the fraction compared with what the remainder of an exact number leaves. */
  method NothingLost(rmode: Mode, ghost high: nat, rest: Bits128, ql: Bits128, recip: Bits128, amount: nat)
    returns (exact: bool)
    requires 0 < amount < 114 && amount != 64
    requires high < Pow2(amount) && rest == high * Pow2(128 - amount)
    ensures var two, fr := W128 * Pow2(amount), high * W128 + ql;
            exact <==> match rmode
                       case ToNearest => two / 2 <= fr < two / 2 + recip
                       case TiesAway => two / 2 <= fr < two / 2 + recip
                       case Down => fr < recip
                       case ToZero => fr < recip
                       case Up => two <= fr + recip
  {
    hide Pow2;
    ShiftedHalf(high, amount);
    if rmode == ToNearest || rmode == TiesAway {
      PartsCompare(high, ql, recip, Pow2(amount - 1));
      exact := rest == W128 / 2 && PairGt(recip, ql);
    } else if rmode == Down || rmode == ToZero {
      PartsCompare(high, ql, recip, 0);
      exact := rest == 0 && PairGt(recip, ql);
    } else {
      PartsCompare(high, ql, recip, Pow2(amount));
      var carry := PairCarry(ql, recip);
      DivModUnique(rest, Pow2(128 - amount), high, 0);
      var upper := ShiftRight(rest, 128 - amount);
      OneShifted(amount);
      var top := ShiftLeft(1, amount);
      UpperFits(high, amount);
      if carry == 1 {
        upper := IncrementPair(upper);
      }
      exact := PairGe(upper, top);
    }
  }

  lemma OneShifted(amount: nat)
    requires 0 < amount < 114
    ensures 1 % Pow2(128 - amount) * Pow2(amount) == Pow2(amount)
  {
    hide Pow2;
    Pow2Mono(14, 128 - amount);
    assert Pow2(14) == 2 * Pow2(13) by { Pow2Add(1, 13); Pow2One(); }
    DivModUnique(1, Pow2(128 - amount), 0, 1);
  }

  lemma UpperFits(high: nat, amount: nat)
    requires amount < 114 && high < Pow2(amount)
    ensures high < W128 - 1
  {
    hide Pow2;
    Pow2WideValues();
    Pow2Mono(amount, 113);
  }

  /** The product with the reciprocal, as the two halves that are read. */
  lemma ProductHalves(n: nat, recip: nat, amount: nat) returns (qh: nat, ql: nat, q: nat, high: nat)
    requires n < 2 * (10 * TEN34) && recip < W128 && 0 < amount < 114
    ensures qh == n * recip / W128 < W128 && ql == n * recip % W128 < W128
    ensures q == qh / Pow2(amount) && high == qh % Pow2(amount) < Pow2(amount)
    ensures n * recip == q * (W128 * Pow2(amount)) + (high * W128 + ql)
    ensures high * W128 + ql < W128 * Pow2(amount)
  {
    hide Pow2;
    MulNonNegative(n, recip);
    MulMono(n, 2 * (10 * TEN34), recip);
    qh, ql := Divide(n * recip, W128);
    q, high := Divide(qh, Pow2(amount));
    MulMono(high, Pow2(amount) - 1, W128);
    MulDistribute(Pow2(amount), 1, W128);
    MulAssoc(q, Pow2(amount), W128);
  }

  /** The scale of row k, its reciprocal and its constant for the given direction. */
  ghost predicate IsRow(rmode: Mode, k: nat, p: nat, two: nat, recip: nat, t: nat) {
    && k > 0 && p == Pow10(k) && p % 2 == 0 && two % 2 == 0
    && two < recip * p <= two + p && (10 * TEN34 + p) * p < two
    && t == ExactRemainder(rmode, p) && t < p <= 10 * TEN34
  }

  lemma RowOf(rmode: Mode, k: nat)
    requires 0 < k < 36
    ensures IsRow(rmode, k, Pow10(k), W128 * Pow2(RecipScale(k)), Reciprocal10Wide(k), RoundConstant(rmode, k))
  {
    hide Pow2, Pow10, HalfConstant, UpConstant, Reciprocal10Wide, RecipScale, IsRow;
    SubnormalRow(k);
    StripRow(k);
    Pow10Even(k);
    EvenScale(Pow2(RecipScale(k)));
    RowIs(rmode, k, Pow10(k), W128 * Pow2(RecipScale(k)), Reciprocal10Wide(k), RoundConstant(rmode, k));
  }

  lemma RowIs(rmode: Mode, k: nat, p: nat, two: nat, recip: nat, t: nat)
    requires k > 0 && p == Pow10(k) && p % 2 == 0 && two % 2 == 0
    requires two < recip * p <= two + p && (10 * TEN34 + p) * p < two
    requires t == ExactRemainder(rmode, p) && p <= 10 * TEN34
    ensures IsRow(rmode, k, p, two, recip, t)
  {
  }

  /** Where the fraction places the remainder of n by p. */
  ghost predicate Placed(p: nat, two: nat, recip: nat, r: nat, fr: nat) {
    && (fr < recip <==> r == 0)
    && (two / 2 <= fr < two / 2 + recip <==> r == p / 2)
    && (two <= fr + recip <==> r == p - 1)
  }

  /** What the fraction of the product says about the number before the constant was added. */
  lemma ReadFraction(mode: Mode, neg: bool, cq: nat, k: nat, p: nat, two: nat, recip: nat, t: nat, q: nat, fr: nat)
    returns (r: nat)
    requires IsRow(MagnitudeMode(mode, neg), k, p, two, recip, t) && cq < 10 * TEN34
    requires (cq + t) * recip == q * two + fr && fr < two
    ensures Placed(p, two, recip, r, fr)
    ensures mode == ToNearest && q % 2 == 1 && r == 0 ==> q > 0
    ensures RoundedQuotient(neg, cq, k, mode) == if mode == ToNearest && q % 2 == 1 && r == 0 then q - 1 else q
    ensures cq % Pow10(k) == 0 <==> r == ExactRemainder(MagnitudeMode(mode, neg), p)
  {
    hide Pow10, RoundedQuotient, Placed;
    var n, excess := cq + t, recip * p - two;
    var q', r' := Divide(n, p);
    ExcessBound(n, p, two, excess);
    MulDistribute(n, 1, excess);
    ProductSplit(n, p, two, excess, recip, q', r', q, fr);
    RemainderBelow(n, p, q', r');
    FractionPlaces(n, p, two, excess, recip, r', fr);
    PlacedIs(p, two, recip, r', fr);
    ShiftedRounding(mode, neg, cq, k, q, r');
    r := r';
  }

  lemma RemainderBelow(n: nat, p: nat, q: nat, r: nat)
    requires n == q * p + r
    ensures r <= n
  {
    MulNonNegative(q, p);
  }

  lemma PlacedIs(p: nat, two: nat, recip: nat, r: nat, fr: nat)
    ensures Placed(p, two, recip, r, fr) <==>
            && (fr < recip <==> r == 0)
            && (two / 2 <= fr < two / 2 + recip <==> r == p / 2)
            && (two <= fr + recip <==> r == p - 1)
  {
  }

  /** An odd quotient after a tie goes one down: CQ.w[0]--. */
  method TieDown(c0: Bits128, tied: bool, mode: Mode) returns (c: Bits128)
    ensures c == if mode == ToNearest && c0 % 2 == 1 && tied then c0 - 1 else c0
  {
    LowBit(c0);
    c := c0;
    if mode == ToNearest && Lo(c) % 2 == 1 && tied {
      c := Join(Hi(c), Lo(c) - 1);
    }
  }

  /** The flags; what was raised before decides whether exactness is looked at. */
  method RaiseUnderflow(rmode: Mode, ghost high: nat, rest: Bits128, ql: Bits128, recip: Bits128, amount: nat,
                        ghost p: nat, ghost r: nat, st: Status)
    requires 0 < amount < 114 && amount != 64
    requires high < Pow2(amount) && rest == high * Pow2(128 - amount)
    requires p > 0 && Placed(p, W128 * Pow2(amount), recip, r, high * W128 + ql)
    modifies st
    ensures st.raised == old(st.raised) + StickyFlags(old(st.raised))
                         + if r != ExactRemainder(rmode, p) then {Underflow, Inexact} else {}
  {
    hide Pow2;
    if Inexact in st.raised {
      st.Raise({Underflow});
    } else {
      var exact := NothingLost(rmode, high, rest, ql, recip, amount);
      if !exact {
        st.Raise({Underflow, Inexact});
      }
    }
  }

  /** The rounding common to both routines. */
  method RoundBelow(neg: bool, cq: Bits128, k: nat, mode: Mode, st: Status) returns (c: Bits128)
    requires cq < 10 * TEN34 && 0 < k < 36
    modifies st
    ensures c == RoundedQuotient(neg, cq, k, mode)
    ensures st.raised == old(st.raised) + SubnormalOutcome(neg, cq, k, mode).flags + StickyFlags(old(st.raised))
  {
    hide Pow2, Pow10, RoundedQuotient, RoundConstant, Reciprocal10Wide, RecipScale, IsRow, Placed, ExactRemainder;
    var rmode := MagnitudeMode(mode, neg);
    var recip, amount, constant := Reciprocal10Wide(k), RecipScale(k), RoundConstant(rmode, k);
    ghost var p, two := Pow10(k), W128 * Pow2(amount);
    RowOf(rmode, k);
    RowBounds(rmode, k, p, two, recip, constant);
    var n := AddPair(cq, constant);
    ghost var qh', ql', q, high := ProductHalves(n, recip, amount);
    var qh, ql := n * recip / W128, n * recip % W128;
    ghost var r := ReadFraction(mode, neg, cq, k, p, two, recip, constant, q, high * W128 + ql);
    var quotient := ShiftRight(qh, amount);
    var rest := ShiftLeft(qh, 128 - amount);
    ShiftedHalf(high, amount);
    PartsCompare(high, ql, recip, 0);
    PlacedIs(p, two, recip, r, high * W128 + ql);
    c := TieDown(quotient, rest == 0 && PairGt(recip, ql), mode);
    RaiseUnderflow(rmode, high, rest, ql, recip, amount, p, r, st);
  }

  lemma RowBounds(rmode: Mode, k: nat, p: nat, two: nat, recip: nat, t: nat)
    requires IsRow(rmode, k, p, two, recip, t)
    ensures t < 10 * TEN34
  {
  }

  lemma ExcessBound(n: nat, p: nat, two: nat, excess: nat)
    requires n + 1 <= 10 * TEN34 + p && 0 < excess <= p && (10 * TEN34 + p) * p < two
    ensures (n + 1) * excess < two
  {
    MulMono(excess, p, n + 1);
    MulMono(n + 1, 10 * TEN34 + p, p);
  }

  // The two routines.

  /** Far below the smallest number the code no longer looks at the coefficient; a zero counts as a digit there. */
  function Counted(cq: nat, expon: int): nat { if cq == 0 && expon + 34 < 0 then 1 else cq }

  /** Less than a tenth of the smallest number: nothing, or one unit in the direction of rounding. */
  lemma FarBelow(neg: bool, n: nat, k: nat, mode: Mode)
    requires 0 < n < 10 * TEN34 && 10 * n <= Pow10(k)
    ensures RoundedQuotient(neg, n, k, mode) == if (neg && mode == Down) || (!neg && mode == Up) then 1 else 0
    ensures n % Pow10(k) != 0
  {
    RoundedSplit(neg, n, k, mode, 0, n);
  }

  /** handle_UF_128. */
  method HandleUnderflow(neg: bool, expon: int, cq: Bits128, mode: Mode, st: Status) returns (res: Bits128)
    requires expon < 0 && cq < TEN34
    modifies st
    ensures var o := SubnormalOutcome(neg, Counted(cq, expon), 0 - expon, mode);
            && InFormat(o.datum) && res == Encode(o.datum)
            && st.raised == old(st.raised) + o.flags + StickyFlags(old(st.raised))
  {
    hide Pow10, RoundedQuotient, Encode;
    Pow10Values();
    if expon + 34 < 0 {
      Pow10Mono(35, 0 - expon);
      FarBelow(neg, Counted(cq, expon), 0 - expon, mode);
      res := GiveSmallest(neg, mode, st);
      return;
    }
    var c := RoundBelow(neg, cq, 0 - expon, mode, st);
    SmallEnough(cq, 0 - expon);
    SubnormalBound(neg, cq, 0 - expon, mode);
    FinitePattern(neg, 0, c);
    res := SignValue(neg) + c;
  }

  lemma SmallEnough(n: nat, k: nat)
    requires (n < TEN34 && k >= 1) || (n < 10 * TEN34 && k >= 2)
    ensures n < TEN33 * Pow10(k)
  {
    assert Pow10(1) == 10 && Pow10(2) == 100;
    hide Pow10;
    Pow10Mono(if n < TEN34 then 1 else 2, k);
    MulMono(if n < TEN34 then Pow10(1) else Pow10(2), Pow10(k), TEN33);
  }

  /** The early exit of both. */
  method GiveSmallest(neg: bool, mode: Mode, st: Status) returns (res: Bits128)
    modifies st
    ensures res == Encode(Finite(neg, 0, if (neg && mode == Down) || (!neg && mode == Up) then 1 else 0))
    ensures st.raised == old(st.raised) + {Underflow, Inexact}
  {
    st.Raise({Underflow, Inexact});
    res := SignValue(neg);
    if (neg && mode == Down) || (!neg && mode == Up) {
      FinitePattern(neg, 0, 1);
      res := res + 1;
    } else {
      ZeroPattern(neg, 0);
    }
  }

  /** Ten times the coefficient by two shifts, its low bit set when a remainder is left. */
  method AppendDigit(cq: Bits128, remainder: nat) returns (tenfold: Bits128)
    requires cq < TEN34
    ensures tenfold == 10 * cq + if remainder != 0 then 1 else 0
  {
    var two, eight := 2 * cq, 8 * cq;
    tenfold := AddPair(two, eight);
    if remainder != 0 {
      // |= 1 on the low word
      LowBit(tenfold);
      tenfold := Join(Hi(tenfold), Lo(tenfold) - Lo(tenfold) % 2 + 1);
    }
  }

  /** bid_handle_UF_128_rem: one more digit, set when a remainder is left below the coefficient. */
  method HandleUnderflowRem(neg: bool, expon: int, cq: Bits128, remainder: nat, mode: Mode, st: Status)
    returns (res: Bits128)
    requires expon < 0 && cq < TEN34
    modifies st
    ensures var n := 10 * cq + if remainder != 0 then 1 else 0;
            var o := SubnormalOutcome(neg, Counted(n, expon), 1 - expon, mode);
            && InFormat(o.datum) && res == Encode(o.datum)
            && st.raised == old(st.raised) + o.flags + StickyFlags(old(st.raised))
  {
    hide Pow10, RoundedQuotient, Encode;
    Pow10Values();
    ghost var n := 10 * cq + if remainder != 0 then 1 else 0;
    if expon + 34 < 0 {
      Pow10Mono(36, 1 - expon);
      Pow10Step(35);
      FarBelow(neg, Counted(n, expon), 1 - expon, mode);
      res := GiveSmallest(neg, mode, st);
      return;
    }
    var tenfold := AppendDigit(cq, remainder);
    var c := RoundBelow(neg, tenfold, 1 - expon, mode, st);
    SmallEnough(tenfold, 1 - expon);
    SubnormalBound(neg, tenfold, 1 - expon, mode);
    FinitePattern(neg, 0, c);
    res := SignValue(neg) + c;
  }

  lemma LowBit(b: Bits128)
    ensures Lo(b) % 2 == b % 2 && Lo(b) - Lo(b) % 2 + 1 < W64
  {
    var q, r := Divide(Lo(b), 2);
    DivModEquation(b, W64);
    DivModUnique(b, 2, Hi(b) * 0x8000_0000_0000_0000 + q, r);
  }
}
