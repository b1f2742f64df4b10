/** bid128_div: the correctly rounded quotient, its preferred exponent, and the special operands. */
module Div {
  import opened Powers
  import opened Encoding
  import opened Words
  import opened Rounding
  import opened RoundingMeaning
  import opened Arithmetic
  import opened Reciprocal
  import opened Subnormal
  import opened Pack
  import opened Directed
  import opened DivSteps
  import opened Unpacking

  /** cx / cy * 10^e as a fraction. */
  function Numerator(cx: nat, e: int): nat { if e >= 0 then cx * Pow10(e) else cx }

  function Denominator(cy: nat, e: int): nat { if e >= 0 then cy else cy * Pow10(0 - e) }

  /** A quotient delivered: it underflows when it is inexact and below the smallest normal number (section 7.5). */
  function QuotientOutcome(neg: bool, c: nat, x: nat, inexact: bool, tiny: bool, mode: Mode): Outcome {
    var o := Delivered(neg, c, x, inexact, mode);
    Outcome(o.datum, o.flags + if inexact && tiny then {Underflow} else {})
  }

  /**
   o is the quotient of two coefficients at the biased exponent e, which may be negative: the rounding of
   cx / cy * 10^e (section 4.3), with all 34 digits or at the smallest exponent when inexact; when it is exact, at e
   or, if no representation reaches up to e, at the largest exponent there is (section 5.2).
   */
  ghost predicate IsQuotient(mode: Mode, neg: bool, cx: nat, cy: nat, e: int, c: nat, x: nat, o: Outcome) {
    var t, s := Numerator(cx, e), Denominator(cy, e);
    var exact := Value(c, x) * s == t;
    && c < TEN34
    && IsRounding(mode, neg, t, s, c, x)
    && (if exact then x == (if e < 0 then 0 else e) || (x < e && c % 10 != 0) else TEN33 <= c || x == 0)
    && o == QuotientOutcome(neg, c, x, !exact, t < TEN33 * s, mode)
  }

  /** No other exact representation lies nearer to the preferred exponent than one that does not end in a zero. */
  lemma NearestToPreferred(c: nat, x: nat, e: nat, m: nat, f: nat)
    requires x < e && c % 10 != 0 && Value(m, f) == Value(c, x)
    ensures f <= x < e
  {
    hide Pow10;
    if f > x {
      Pow10Add(f - x - 1, x);
      Pow10Step(f - 1);
      MulAssoc(m, 10 * Pow10(f - x - 1), Pow10(x));
      ScaleOrder(m * (10 * Pow10(f - x - 1)), c, Pow10(x));
      DivModUnique(c, 10, m * Pow10(f - x - 1), 0);
    }
  }

  /** A quotient at an exponent that is not negative, and its outcome. */
  lemma NormalQuotient(mode: Mode, neg: bool, cx: nat, cy: nat, e: nat, c: nat, x: nat, inexact: bool)
    requires c < TEN34 && IsRounding(mode, neg, cx * Pow10(e), cy, c, x)
    requires inexact <==> Value(c, x) * cy != cx * Pow10(e)
    requires if inexact then TEN33 <= c && cx * Pow10(e) >= TEN33 * cy else x == e || (x < e && c % 10 != 0)
    ensures IsQuotient(mode, neg, cx, cy, e, c, x, Delivered(neg, c, x, inexact, mode))
  {
    hide Pow10, IsRounding, Delivered, Value;
  }

  /** A cut 34-digit quotient with a remainder, rounded by it. */
  lemma InexactQuotient(mode: Mode, neg: bool, cx: nat, cy: nat, k: nat, e: nat, cq: nat, rem: nat, d: nat)
    requires cy > 0 && rem > 0 && CutQuotient(cx, cy, k, cq, rem) && TEN33 <= cq < TEN34
    requires d == if RoundsUp(mode, neg, cq % 2 == 1, rem, cy) then cq + 1 else cq
    ensures var (c, x) := Fold(d, e);
            IsQuotient(mode, neg, cx, cy, e + k, c, x, Delivered(neg, c, x, true, mode))
  {
    hide Pow10, RoundsUp, IsRounding, Delivered, IsQuotient;
    var p := Pow10(e);
    var c: nat, x: nat := Fold(d, e).0, Fold(d, e).1;
    Refolded(d, e);
    Pow10Add(k, e);
    MulAssoc(cx, Pow10(k), p);
    MulDistribute(cq * cy, rem, p);
    MulAssoc(cq, cy, p);
    assert cy * p == p * cy;
    RoundsUpScaled(mode, neg, cq % 2 == 1, rem, cy, p);
    NeighbourIsRounding(mode, neg, cq, e, cy, rem * p, c, x, d);
    ScaleOrder(0, rem, p);
    ScaleOrder(rem, cy, p);
    MulAssoc(d, p, cy);
    MulDistribute(cq, 1, p * cy);
    NotTiny(cq, rem, cy, p);
    NormalQuotient(mode, neg, cx, cy, e + k, c, x, true);
  }

  /** With 34 digits and an exponent of at least the smallest, a quotient is normal. */
  lemma NotTiny(cq: nat, rem: nat, cy: nat, p: nat)
    requires TEN33 <= cq && p >= 1
    ensures (cq * cy + rem) * p >= TEN33 * cy
  {
    MulMono(TEN33, cq, cy);
    MulMono(1, p, cq * cy + rem);
  }

  /** A quotient without a remainder. */
  lemma ExactQuotient(mode: Mode, neg: bool, cx: nat, cy: nat, k: nat, e: nat, c: nat)
    requires cy > 0 && CutQuotient(cx, cy, k, c, 0) && 0 < c < TEN34
    requires k == 0 || c % 10 != 0
    ensures IsQuotient(mode, neg, cx, cy, e + k, c, e, Delivered(neg, c, e, false, mode))
  {
    hide Pow10, IsRounding, Delivered, IsQuotient;
    Pow10Add(k, e);
    MulAssoc(cx, Pow10(k), Pow10(e));
    MulAssoc(c, cy, Pow10(e));
    MulAssoc(c, Pow10(e), cy);
    ExactIsRounding(mode, neg, cy, c, e);
    NormalQuotient(mode, neg, cx, cy, e + k, c, e, false);
  }

  /** Zeros stripped from an exact quotient never reach up to the preferred exponent unless cy divides cx. */
  lemma StrippedScale(cx: nat, cy: nat, cq: nat, ed2: nat, c: nat, nzeros: nat)
    requires cy > 0 && cx % cy != 0 && cq * cy == cx * Pow10(ed2) && cq == c * Pow10(nzeros)
    ensures nzeros < ed2 && c * cy == cx * Pow10(ed2 - nzeros)
  {
    hide Pow10;
    MulAssoc(c, Pow10(nzeros), cy);
    if nzeros >= ed2 {
      Pow10Add(nzeros - ed2, ed2);
      MulAssoc(c * cy, Pow10(nzeros - ed2), Pow10(ed2));
      ScaleOrder(c * cy * Pow10(nzeros - ed2), cx, Pow10(ed2));
      MulAssoc(c, cy, Pow10(nzeros - ed2));
      DivModUnique(cx, cy, c * Pow10(nzeros - ed2), 0);
    } else {
      Pow10Add(ed2 - nzeros, nzeros);
      MulAssoc(cx, Pow10(ed2 - nzeros), Pow10(nzeros));
      ScaleOrder(c * cy, cx * Pow10(ed2 - nzeros), Pow10(nzeros));
    }
  }

  /** The quotient to 34 digits when it is not an integer; an integer quotient is returned as it is. */
  method FullQuotient(cx: Bits128, cy: Bits128) returns (cq: Bits128, ca4: Bits128, ed2: nat, integral: bool)
    requires 0 < cx < TEN34 && 0 < cy < TEN34
    ensures CutQuotient(cx, cy, ed2, cq, ca4) && ca4 < cy && 0 < cq < TEN34
    ensures if integral then ed2 == 0 && ca4 == 0 else TEN33 <= cq && cx % cy != 0
    ensures !integral && cx <= 1024 && cy <= 1024 ==> ed2 >= 30
  {
    hide Pow10;
    integral := false;
    if PairGt(cy, cx) {
      DivModUnique(cx, cy, 0, cx);
      cq, ca4, ed2 := DivideSmaller(cx, cy);
    } else {
      ghost var q0, r0 := Divide(cx, cy);
      IntegerQuotientBounds(cx, cy, q0, r0);
      cq, ca4, ed2 := cx / cy, cx % cy, 0;
      Pow10Zero();
      integral := ca4 == 0;
      if !integral {
        cq, ca4, ed2 := ExtendQuotient(cx, cy, cq, ca4);
      }
    }
  }

  /** The unrounded quotient, its remainder and its place: cx / cy * 10^k. */
  method CutOff(cx: Bits128, cy: Bits128) returns (c: Bits128, rem: Bits128, k: nat)
    requires 0 < cx < TEN34 && 0 < cy < TEN34
    ensures CutQuotient(cx, cy, k, c, rem) && rem < cy && 0 < c < TEN34
    ensures rem > 0 ==> TEN33 <= c
    ensures rem == 0 ==> k == 0 || c % 10 != 0
  {
    hide Pow10, CutQuotient;
    var cq, ca4, ed2, integral := FullQuotient(cx, cy);
    c, rem, k := cq, ca4, ed2;
    if ca4 == 0 && !integral {
      ExactCut(cx, cy, ed2, cq);
      var nzeros;
      c, nzeros := StripZeros(cx, cy, cq, ed2);
      StrippedScale(cx, cy, cq, ed2, c, nzeros);
      ExactCut(cx, cy, ed2 - nzeros, c);
      NotLonger(c, Pow10(nzeros), cq);
      k := ed2 - nzeros;
    }
  }

  lemma ExactCut(cx: nat, cy: nat, k: nat, c: nat)
    requires cy > 0
    ensures CutQuotient(cx, cy, k, c, 0) <==> c * cy == cx * Pow10(k)
  {
  }

  lemma NotLonger(c: nat, p: nat, cq: nat)
    requires p > 0 && cq == c * p
    ensures c <= cq
  {
  }

  // Below the smallest exponent: expon is -j.

  /** The fraction of cx and cy at 10^(k - j) is that of the cut quotient with its remainder at 10^-j. */
  lemma CommonScale(cx: nat, cy: nat, k: nat, j: nat, cq: nat, rem: nat) returns (f: nat)
    requires CutQuotient(cx, cy, k, cq, rem)
    ensures f > 0 && Numerator(cx, k - j) * f == cq * cy + rem && Denominator(cy, k - j) * f == cy * Pow10(j)
  {
    hide Pow10;
    if k >= j {
      f := Pow10(j);
      Pow10Add(k - j, j);
      MulAssoc(cx, Pow10(k - j), f);
    } else {
      f := Pow10(k);
      Pow10Add(j - k, k);
      MulAssoc(cy, Pow10(j - k), f);
    }
  }

  /** The digits cut off and the remainder, as one remainder of the denominator. */
  lemma CutRemainder(cq: nat, rem: nat, cy: nat, p: nat, q: nat, r: nat, t: nat, s: nat, f: nat) returns (left: nat)
    requires cy > 0 && f > 0 && cq == q * p + r && r < p && rem < cy
    requires t * f == cq * cy + rem && s * f == cy * p
    ensures t == q * s + left && left < s && left * f == r * cy + rem
  {
    if s == 0 {
      MulMono(1, p, cy);
    }
    var q', left' := Divide(t, s);
    MulDistribute(q' * s, left', f);
    MulAssoc(q', s, f);
    ScaleOrder(left', s, f);
    MulDistribute(q * p, r, cy);
    MulAssoc(q, p, cy);
    MulMono(r, p - 1, cy);
    MulDistribute(p, 1, cy);
    assert p * cy == cy * p;
    MulNonNegative(r, cy);
    SameQuotient(s * f, q', left' * f, q, r * cy + rem);
    left := left';
  }

  /** A remainder below one unit only breaks ties. */
  lemma RemainderOrder(r: nat, h: nat, rem: nat, cy: nat)
    requires rem < cy
    ensures h * cy < r * cy + rem <==> h < r || (h == r && rem > 0)
    ensures h * cy == r * cy + rem <==> h == r && rem == 0
  {
    if r < h {
      MulMono(r + 1, h, cy);
      MulDistribute(r, 1, cy);
    } else {
      MulMono(h, r, cy);
      if r > h {
        MulMono(h + 1, r, cy);
        MulDistribute(h, 1, cy);
      }
    }
  }

  /** One digit that tells whether a remainder is left decides the rounding like the remainder itself. */
  lemma StickyDigit(mode: Mode, neg: bool, odd: bool, r: nat, p: nat, rem: nat, cy: nat)
    requires r < p && p % 2 == 0 && rem < cy
    ensures RoundsUp(mode, neg, odd, 10 * r + (if rem != 0 then 1 else 0), 10 * p) ==
            RoundsUp(mode, neg, odd, r * cy + rem, cy * p)
    ensures r * cy + rem == 0 <==> 10 * r + (if rem != 0 then 1 else 0) == 0
  {
    var h := p / 2;
    RemainderOrder(r, h, rem, cy);
    RemainderOrder(r, 0, rem, cy);
    MulAssoc(cy, h, 2);
    assert cy * h == h * cy;
    SameDecision(mode, neg, odd, 10 * r + (if rem != 0 then 1 else 0), 10 * p, r * cy + rem, cy * p);
  }

  /** The same when the digits are rounded off without a further one. */
  lemma NumberForRounding(mode: Mode, neg: bool, cq: nat, rem: nat, cy: nat, j: nat, n: nat, i: nat, q: nat, r: nat)
    requires j > 0 && rem < cy && cq == q * Pow10(j) + r && r < Pow10(j)
    requires (n == 10 * cq + (if rem != 0 then 1 else 0) && i == j + 1) || (rem == 0 && n == cq && i == j)
    ensures RoundedQuotient(neg, n, i, mode) ==
            if RoundsUp(mode, neg, q % 2 == 1, r * cy + rem, cy * Pow10(j)) then q + 1 else q
    ensures n % Pow10(i) == 0 <==> r * cy + rem == 0
  {
    hide Pow10, RoundsUp;
    var p := Pow10(j);
    Pow10Even(j);
    Pow10Step(j);
    StickyDigit(mode, neg, q % 2 == 1, r, p, rem, cy);
    if i == j {
      RoundedSplit(neg, n, i, mode, q, r);
      RoundsUpScaled(mode, neg, q % 2 == 1, r, p, 10);
    } else {
      MulAssoc(10, q, p);
      MulAssoc(q, 10, p);
      RoundedSplit(neg, n, i, mode, q, 10 * r + if rem != 0 then 1 else 0);
    }
  }

  /** A cut quotient below the smallest exponent, rounded there, is the quotient rounded once. */
  lemma TinyQuotient(mode: Mode, neg: bool, cx: nat, cy: nat, k: nat, j: nat, cq: nat, rem: nat, n: nat, i: nat)
    requires cy > 0 && j > 0 && CutQuotient(cx, cy, k, cq, rem) && cq < TEN34
    requires rem == 0 ==> k == 0 || cq % 10 != 0
    requires (n == 10 * cq + (if rem != 0 then 1 else 0) && i == j + 1) || (rem == 0 && n == cq && i == j)
    ensures IsQuotient(mode, neg, cx, cy, k - j, RoundedQuotient(neg, n, i, mode), 0, SubnormalOutcome(neg, n, i, mode))
    ensures n % Pow10(i) == 0 ==> ExactBelow(cx, cy, k - j)
  {
    hide Pow10, RoundsUp, IsRounding, RoundedQuotient;
    var t, s, p := Numerator(cx, k - j), Denominator(cy, k - j), Pow10(j);
    var q, r := Divide(cq, p);
    var f := CommonScale(cx, cy, k, j, cq, rem);
    var left := CutRemainder(cq, rem, cy, p, q, r, t, s, f);
    NumberForRounding(mode, neg, cq, rem, cy, j, n, i, q, r);
    RoundsUpScaled(mode, neg, q % 2 == 1, left, s, f);
    var c := RoundedQuotient(neg, n, i, mode);
    IntegerIsRounding(mode, neg, q, s, left, c);
    TinyBound(cq, rem, cy, j, q, t, s, f);
    ScaleOrder(0, left, f);
    NeverRoundsZero(mode, neg, q, left, s);
    Pow10Zero();
    MulDistribute(q, 1, s);
    if left == 0 {
      ExactTiny(cy, k, j, cq, rem, q, r, s);
      DivModUnique(t, s, q, 0);
    }
  }

  lemma TinyBound(cq: nat, rem: nat, cy: nat, j: nat, q: nat, t: nat, s: nat, f: nat)
    requires j > 0 && cq < TEN34 && rem < cy && f > 0 && q * Pow10(j) <= cq
    requires t * f == cq * cy + rem && s * f == cy * Pow10(j)
    ensures t < TEN33 * s && q < TEN33
  {
    hide Pow10;
    var p := Pow10(j);
    Pow10One();
    Pow10Mono(1, j);
    MulMono(cq + 1, TEN34, cy);
    MulDistribute(cq, 1, cy);
    MulMono(10, p, TEN33 * cy);
    MulAssoc(TEN33, cy, p);
    MulAssoc(TEN33, s, f);
    ScaleOrder(t, TEN33 * s, f);
    if q >= TEN33 {
      MulMono(TEN33, q, p);
      MulMono(10, p, TEN33);
    }
  }

  /** Nothing is lost only from an integer quotient, whose exponent is the preferred one. */
  lemma ExactTiny(cy: nat, k: nat, j: nat, cq: nat, rem: nat, q: nat, r: nat, s: nat)
    requires j > 0 && cq == q * Pow10(j) + r && r * cy + rem == 0 && cy > 0
    requires rem == 0 ==> k == 0 || cq % 10 != 0
    ensures k == 0
  {
    hide Pow10;
    MulNonNegative(r, cy);
    if r > 0 {
      MulMono(1, r, cy);
    }
    Pow10Step(j - 1);
    MulAssoc(q, Pow10(j - 1), 10);
    DivModUnique(cq, 10, q * Pow10(j - 1), 0);
  }

  /** The quotient is exact and its preferred exponent lies below the smallest one. */
  predicate ExactBelow(cx: nat, cy: nat, diff: int)
    requires cy > 0
  {
    diff < 0 && cx % (cy * Pow10(0 - diff)) == 0
  }

  /** The quotient of two finite nonzero operands, diff the biased exponent of their exponents' difference. */
  method DivideFinite(neg: bool, cx: Bits128, cy: Bits128, diff: int, mode: Mode, st: Status)
    returns (res: Bits128, ghost c: nat, ghost x: nat, ghost o: Outcome)
    requires 0 < cx < TEN34 && 0 < cy < TEN34
    modifies st
    ensures IsQuotient(mode, neg, cx, cy, diff, c, x, o) && InFormat(o.datum) && res == Encode(o.datum)
    ensures st.raised == old(st.raised) + o.flags + if ExactBelow(cx, cy, diff) then StickyFlags(old(st.raised)) else {}
  {
    hide Pow10, IsQuotient, Delivered, CutQuotient, RoundedQuotient, ExactBelow;
    var cq, rem, k := CutOff(cx, cy);
    var expon := diff - k;
    if rem == 0 {
      res := PackResult(neg, expon, cq, mode, st);
      o := PackOutcome(neg, cq, expon, mode);
      if expon < 0 {
        TinyQuotient(mode, neg, cx, cy, k, 0 - expon, cq, 0, cq, 0 - expon);
        c, x := RoundedQuotient(neg, cq, 0 - expon, mode), 0;
      } else {
        ExactQuotient(mode, neg, cx, cy, k, expon, cq);
        NotBelow(cx, cy, diff);
        c, x := cq, expon;
      }
      return;
    }
    st.Raise({Inexact});
    if expon >= 0 {
      var d := RoundQuotient(cq, rem, cy, neg, mode);
      InexactQuotient(mode, neg, cx, cy, k, expon, cq, rem, d);
      NotBelow(cx, cy, diff);
      c, x := Fold(d, expon).0, Fold(d, expon).1;
      o := Delivered(neg, c, x, true, mode);
      DeliveredFlags(neg, c, x, mode);
      res := PackResult(neg, expon, d, mode, st);
    } else {
      // 10 * cq + 1
      TinyQuotient(mode, neg, cx, cy, k, 0 - expon, cq, rem, 10 * cq + 1, 1 - expon);
      c, x := RoundedQuotient(neg, 10 * cq + 1, 1 - expon, mode), 0;
      o := SubnormalOutcome(neg, 10 * cq + 1, 1 - expon, mode);
      NeverExact(cq, 1 - expon);
      res := HandleUnderflowRem(neg, expon, cq, rem, mode, st);
    }
  }

  lemma NotBelow(cx: nat, cy: nat, diff: int)
    requires cy > 0
    ensures diff >= 0 ==> !ExactBelow(cx, cy, diff)
  {
  }

  lemma NeverExact(cq: nat, k: nat)
    requires k > 0
    ensures (10 * cq + 1) % Pow10(k) != 0
  {
    hide Pow10;
    Pow10Step(k - 1);
    var p := Pow10(k - 1);
    var q, r := Divide(10 * cq + 1, Pow10(k));
    MulAssoc(q, 10, p);
    MulAssoc(10, q, p);
    assert r == 10 * (cq - q * p) + 1;
  }

  lemma DeliveredFlags(neg: bool, c: nat, x: nat, mode: Mode)
    ensures var o, i := Delivered(neg, c, x, false, mode), Delivered(neg, c, x, true, mode);
            o.datum == i.datum && i.flags == o.flags + {Inexact}
  {
  }

  // What the quotient is, on exact values and on all data.

  /** The fraction that is rounded is the quotient of the two values, told in units: that of 1 cancels theirs. */
  lemma QuotientFraction(x: Datum, y: Datum)
    requires x.Finite? && y.Finite?
    ensures Decode(ONE).Finite?
    ensures var e := x.exp - y.exp + EXP_BIAS;
            Numerator(x.coef, e) * Abs(Units(y)) == Denominator(y.coef, e) * (Abs(Units(x)) * Units(Decode(ONE)))
  {
    KnownPatterns();
    hide Pow10, Decode;
    var one := Pow10(6176);
    var e := x.exp - y.exp + EXP_BIAS;
    AbsUnits(x);
    AbsUnits(y);
    var a, b := Pow10(x.exp), Pow10(y.exp);
    if e >= 0 {
      Pow10Add(e, y.exp);
      Pow10Add(x.exp, 6176);
      CrossProducts(x.coef, y.coef, Pow10(e), b, 1, a * one);
    } else {
      Pow10Add(0 - e, x.exp + 6176);
      Pow10Add(x.exp, 6176);
      CrossProducts(x.coef, y.coef, 1, b, Pow10(0 - e), a * one);
    }
    MulAssoc(x.coef, a, one);
  }

  lemma CrossProducts(cx: nat, cy: nat, f: nat, b: nat, g: nat, a: nat)
    requires f * b == g * a
    ensures cx * f * (cy * b) == cy * g * (cx * a)
  {
    MulAssoc(cx, f, cy * b);
    MulAssoc(f, cy, b);
    MulAssoc(cy, f, b);
    MulAssoc(cy, g, cx * a);
    MulAssoc(g, cx, a);
    MulAssoc(cx, g, a);
    MulAssoc(cx, cy, f * b);
    MulAssoc(cy, cx, g * a);
  }

  /** In every mode the delivered quotient is where it has to be in the order of all data. */
  lemma QuotientInOrder(mode: Mode, neg: bool, cx: nat, cy: nat, e: int, c: nat, x: nat, o: Outcome)
    requires cx > 0 && cy > 0 && IsQuotient(mode, neg, cx, cy, e, c, x, o)
    ensures IsDelivered(mode, neg, Numerator(cx, e), Denominator(cy, e), c, x, o.datum)
  {
    hide IsRounding, IsDelivered, Delivered, Value, Pow10;
    var t, s := Numerator(cx, e), Denominator(cy, e);
    if e >= 0 {
      MulMono(1, cx, Pow10(e));
    } else {
      MulMono(1, cy, Pow10(0 - e));
    }
    PackedInOrder(mode, neg, t, s, c, x, Value(c, x) * s != t);
  }

  /** A quotient that is a number of the format is delivered without rounding. */
  lemma RepresentableQuotient(mode: Mode, neg: bool, t: nat, s: nat, c: nat, x: nat, m: nat, f: nat)
    requires s > 0 && m < TEN34 && t == Value(m, f) * s && IsRounding(mode, neg, t, s, c, x)
    ensures Value(c, x) == Value(m, f)
  {
    hide Value;
    ScaleOrder(Value(c, x), Value(m, f), s);
    ScaleOrder(Value(m, f), Value(c, x), s);
  }

  /** Dividing by the number one gives the operand back, canonically encoded, and raises nothing. */
  method DivideByOne(x: Bits128, mode: Mode) returns (res: Bits128, flags: set<Flag>)
    requires IsNonzero(Decode(x))
    ensures InFormat(Decode(x)) && res == Encode(Decode(x)) && flags == {}
  {
    KnownPatterns();
    DecodeInFormat(x);
    hide Decode, Encode, IsQuotient;
    ghost var a := Decode(x);
    var st := new Status();
    ghost var c, e, o;
    res, c, e, o := Div(x, ONE, mode, st);
    flags := st.raised;
    ByOne(mode, a.neg, a.coef, a.exp, c, e, o);
  }

  lemma ByOne(mode: Mode, neg: bool, cx: nat, e: nat, c: nat, x: nat, o: Outcome)
    requires 0 < cx < TEN34 && e <= EXP_MAX && IsQuotient(mode, neg, cx, 1, e, c, x, o)
    ensures o == Outcome(Finite(neg, e, cx), {}) && !ExactBelow(cx, 1, e)
  {
    hide Pow10, IsRounding;
    RepresentableQuotient(mode, neg, cx * Pow10(e), 1, c, x, cx, e);
    if x < e {
      Pow10Add(e - x, x);
      MulAssoc(cx, Pow10(e - x), Pow10(x));
      ScaleOrder(c, cx * Pow10(e - x), Pow10(x));
      Pow10Step(e - x - 1);
      MulAssoc(cx, Pow10(e - x - 1), 10);
      MulAssoc(cx, 10, Pow10(e - x - 1));
      DivModUnique(c, 10, cx * Pow10(e - x - 1), 0);
    } else {
      ScaleOrder(c, cx, Pow10(e));
    }
  }

  /** Quotients with a NaN, an infinity or a zero. */
  lemma SpecialQuotients(x: Datum, y: Datum)
    requires !(IsNonzero(x) && IsNonzero(y))
    ensures x.NaN? || y.NaN? ==>
              SpecialQuotient(x, y) == Outcome(NaN(false), if x == NaN(true) || y == NaN(true) then {Invalid} else {})
    ensures x.Infinite? && y.Infinite? ==> SpecialQuotient(x, y) == Outcome(NaN(false), {Invalid})
    ensures x.Finite? && y.Finite? && x.coef == 0 == y.coef ==> SpecialQuotient(x, y) == Outcome(NaN(false), {Invalid})
    ensures x.Infinite? && y.Finite? ==> SpecialQuotient(x, y) == Outcome(Infinite(x.neg != y.neg), {})
    ensures IsNonzero(x) && y.Finite? ==> SpecialQuotient(x, y) == Outcome(Infinite(x.neg != y.neg), {ZeroDivide})
    ensures x.Finite? && y.Infinite? ==> SpecialQuotient(x, y) == Outcome(Finite(x.neg != y.neg, 0, 0), {})
    ensures x.Finite? && x.coef == 0 && IsNonzero(y) ==>
              var e := x.exp - y.exp + 6176;
              SpecialQuotient(x, y) ==
              Outcome(Finite(x.neg != y.neg, if e < 0 then 0 else if e > 12287 then 12287 else e, 0), {})
  {
  }

  /** Quotients with a NaN, an infinity or a zero: sections 6.1, 7.2 and 7.3. */
  function SpecialQuotient(x: Datum, y: Datum): Outcome
    requires !(IsNonzero(x) && IsNonzero(y))
  {
    if x.NaN? || y.NaN? then
      Outcome(NaN(false), if (x.NaN? && x.signaling) || (y.NaN? && y.signaling) then {Invalid} else {})
    else if x.Infinite? then
      if y.Infinite? then Outcome(NaN(false), {Invalid}) else Outcome(Infinite(x.neg != y.neg), {})
    else if y.Infinite? then Outcome(Finite(x.neg != y.neg, 0, 0), {})
    else if x.coef == 0 then
      if y.coef == 0 then Outcome(NaN(false), {Invalid})
      else Outcome(Finite(x.neg != y.neg, ClampExponent(x.exp - y.exp + EXP_BIAS), 0), {})
    else Outcome(Infinite(x.neg != y.neg), {ZeroDivide})
  }

  /** The arms of bid128_div that come before the division proper. */
  method DivideSpecial(x: Bits128, y: Bits128, st: Status) returns (res: Bits128)
    requires !(IsNonzero(Decode(x)) && IsNonzero(Decode(y)))
    modifies st
    ensures var target := SpecialQuotient(Decode(x), Decode(y));
            && InFormat(target.datum) && Decode(res) == target.datum
            && (if HasNaN(x) || HasNaN(y) then res == NaNResult(x, y) else res == Encode(target.datum))
            && st.raised == old(st.raised) + target.flags
  {
    hide Encode, Quieted;
    SpecialImpliesSteering(x);
    SpecialImpliesSteering(y);
    SignalingIsNaN(x);
    SignalingIsNaN(y);
    var neg := SignBit(x) != SignBit(y);
    InfinityPattern(neg);
    if HasNaN(x) {
      if HasSNaN(x) || HasSNaN(y) {
        st.Raise({Invalid});
      }
      return Quieted(x);
    }
    if HasSpecial(x) {
      if HasSpecial(y) && !HasNaN(y) {
        st.Raise({Invalid});
        return 0x7c00_0000_0000_0000 * W64;
      }
      if !HasNaN(y) {
        return SignValue(neg) + INFINITY_COEF;
      }
    }
    if HasNaN(y) {
      if HasSNaN(y) {
        st.Raise({Invalid});
      }
      return Quieted(y);
    }
    var xNeg, xExp, cx := Unpack(x);
    if HasSpecial(y) {
      ZeroPattern(neg, 0);
      return SignValue(neg);
    }
    var yNeg, yExp, cy := Unpack(y);
    if cx == 0 {
      if cy == 0 {
        st.Raise({Invalid});
        return 0x7c00_0000_0000_0000 * W64;
      }
      var e := xExp - yExp + EXP_BIAS;
      if e > EXP_MAX {
        e := EXP_MAX;
      } else if e < 0 {
        e := 0;
      }
      ZeroPattern(neg, e);
      return SignValue(neg) + e * EXP_UNIT;
    }
    st.Raise({ZeroDivide});
    return SignValue(neg) + INFINITY_COEF;
  }

  /** bid128_div. */
  method Div(x: Bits128, y: Bits128, mode: Mode, st: Status)
    returns (res: Bits128, ghost c: nat, ghost e: nat, ghost o: Outcome)
    modifies st
    ensures var a, b := Decode(x), Decode(y);
            if !(IsNonzero(a) && IsNonzero(b)) then
              var target := SpecialQuotient(a, b);
              && InFormat(target.datum) && Decode(res) == target.datum
              && (if a.NaN? || b.NaN? then res == NaNResult(x, y) else res == Encode(target.datum))
              && st.raised == old(st.raised) + target.flags
            else
              var neg, diff := a.neg != b.neg, a.exp - b.exp + EXP_BIAS;
              && IsQuotient(mode, neg, a.coef, b.coef, diff, c, e, o) && InFormat(o.datum) && res == Encode(o.datum)
              && st.raised == old(st.raised) + o.flags +
                              if ExactBelow(a.coef, b.coef, diff) then StickyFlags(old(st.raised)) else {}
  {
    hide IsQuotient, SpecialQuotient, Encode, ExactBelow;
    SpecialImpliesSteering(x);
    SpecialImpliesSteering(y);
    if IsNonzero(Decode(x)) && IsNonzero(Decode(y)) {
      var xNeg, xExp, cx := Unpack(x);
      var yNeg, yExp, cy := Unpack(y);
      res, c, e, o := DivideFinite(xNeg != yNeg, cx, cy, xExp - yExp + EXP_BIAS, mode, st);
    } else {
      res := DivideSpecial(x, y, st);
      c, e, o := 0, 0, Outcome(NaN(false), {});
    }
  }
}
