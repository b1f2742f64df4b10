/**
 The order on values (section 5.11), and the word-level tests from which the comparison trees and the
 minimum and maximum functions are built.
 */
module Order {
  import opened Powers
  import opened Encoding
  import opened Tables
  import opened Reciprocal

  ghost predicate ValueLess(a: Datum, b: Datum)
    requires !a.NaN? && !b.NaN?
  {
    if a.Infinite? then a.neg && !(b.Infinite? && b.neg)
    else if b.Infinite? then !b.neg
    else Units(a) < Units(b)
  }

  ghost predicate ValueEqual(a: Datum, b: Datum)
    requires !a.NaN? && !b.NaN?
  {
    if a.Infinite? || b.Infinite? then a == b else Units(a) == Units(b)
  }

  lemma Trichotomy(a: Datum, b: Datum)
    requires !a.NaN? && !b.NaN?
    ensures (if ValueLess(a, b) then 1 else 0) + (if ValueEqual(a, b) then 1 else 0)
            + (if ValueLess(b, a) then 1 else 0) == 1
  {
  }

  /** The infinities are the ends of the order. */
  lemma InfiniteEnds(d: Datum)
    requires d.Finite?
    ensures ValueLess(Infinite(true), d) && ValueLess(d, Infinite(false)) && ValueLess(Infinite(true), Infinite(false))
    ensures !ValueLess(d, Infinite(true)) && !ValueLess(Infinite(false), d)
    ensures forall neg: bool :: ValueEqual(Infinite(neg), Infinite(neg)) && !ValueEqual(d, Infinite(neg))
  {
  }

  lemma LessTransitive(a: Datum, b: Datum, c: Datum)
    requires !a.NaN? && !b.NaN? && !c.NaN?
    ensures ValueLess(a, b) && ValueLess(b, c) ==> ValueLess(a, c)
    ensures ValueEqual(a, b) ==> (ValueLess(a, c) <==> ValueLess(b, c)) && (ValueLess(c, a) <==> ValueLess(c, b))
  {
  }

  /** A coefficient beyond 10^34 - 1, or the encoding with the steering bits set. */
  predicate NonCanonical(b: Bits128) {
    || CoefHi(b) > 0x1_ed09_bead_87c0
    || (CoefHi(b) == 0x1_ed09_bead_87c0 && Lo(b) > 0x378d_8e63_ffff_ffff)
    || HasSteering(b)
  }

  predicate IsZeroOperand(b: Bits128) {
    NonCanonical(b) || (CoefHi(b) == 0 && Lo(b) == 0)
  }

  /** What a finite operand decodes to, in terms of the fields the trees compare. */
  lemma OperandFields(b: Bits128)
    requires !HasSpecial(b)
    ensures Decode(b).Finite? && Decode(b).neg == SignBit(b) && Decode(b).exp <= EXP_MAX
    ensures IsZeroOperand(b) <==> Decode(b).coef == 0
    ensures !NonCanonical(b) ==> Decode(b) == Finite(SignBit(b), ExpField(b), CoefField(b)) && CoefField(b) < TEN34
  {
    SpecialImpliesSteering(b);
    DecodeInFormat(b);
  }

  /** sig * 10^diff by the 64-bit or the 128-bit table of powers. */
  function ScaledSignificand(sig: Bits128, diff: nat): (p: Words256)
    requires diff <= 33
    ensures p.Valid() && p.Value() == sig * Pow10(diff)
  {
    ScaledFits(sig, diff);
    if diff > 19 then
      Ten2k128Value(diff - 20);
      SplitProduct(sig * Ten2k128(diff - 20))
    else
      Ten2k64Value(diff);
      SplitProduct(Ten2k64(diff) * sig)
  }

  lemma ScaledFits(sig: Bits128, diff: nat)
    requires diff <= 33
    ensures 0 <= sig * Pow10(diff) < W128 * W128
  {
    hide Pow10;
    Pow10Values();
    Pow10Mono(diff, 33);
    MulMono(Pow10(diff), TEN33, sig);
    MulNonNegative(sig, Pow10(diff));
  }

  function ProductEquals(p: Words256, s: Bits128): (r: bool)
    requires p.Valid()
    ensures r <==> p.Value() == s
  {
    assert s == Hi(s) * W64 + Lo(s);
    p.w3 == 0 && p.w2 == 0 && p.w1 == Hi(s) && p.w0 == Lo(s)
  }

  function ProductAbove(p: Words256, s: Bits128): (r: bool)
    requires p.Valid()
    ensures r <==> p.Value() > s
  {
    assert s == Hi(s) * W64 + Lo(s);
    p.w3 > 0 || p.w2 > 0 || p.w1 > Hi(s) || (p.w1 == Hi(s) && p.w0 > Lo(s))
  }

  function ProductBelow(p: Words256, s: Bits128): (r: bool)
    requires p.Valid()
    ensures r <==> p.Value() < s
  {
    assert s == Hi(s) * W64 + Lo(s);
    p.w3 == 0 && p.w2 == 0 && (p.w1 < Hi(s) || (p.w1 == Hi(s) && p.w0 < Lo(s)))
  }

  /** Every test the trees make on significands and exponents, as a comparison of magnitudes. */
  lemma MagnitudeTests(sx: nat, ex: nat, sy: nat, ey: nat)
    requires 0 < sx < TEN34 && 0 < sy < TEN34
    ensures var mx, my := sx * Pow10(ex), sy * Pow10(ey);
            && (ex == ey ==> (sx > sy <==> mx > my) && (sx == sy <==> mx == my))
            && (ex >= ey && sx > sy ==> mx > my) && (ex > ey && sx >= sy ==> mx > my)
            && (ex <= ey && sx < sy ==> mx < my) && (ex < ey && sx <= sy ==> mx < my)
            && (ex > ey + 33 ==> mx > my) && (ey > ex + 33 ==> mx < my)
            && (ex >= ey ==> (sx * Pow10(ex - ey) > sy <==> mx > my) && (sx * Pow10(ex - ey) == sy <==> mx == my))
            && (ey >= ex ==> (sy * Pow10(ey - ex) > sx <==> mx < my) && (sy * Pow10(ey - ex) == sx <==> mx == my))
  {
    hide Pow10;
    if ex >= ey {
      OneSidedTests(sx, ex, sy, ey);
    }
    if ey >= ex {
      OneSidedTests(sy, ey, sx, ex);
    }
  }

  lemma OneSidedTests(sx: nat, ex: nat, sy: nat, ey: nat)
    requires 0 < sx < TEN34 && 0 < sy < TEN34 && ex >= ey
    ensures var mx, my := sx * Pow10(ex), sy * Pow10(ey);
            && (sx > sy ==> mx > my) && (ex > ey && sx >= sy ==> mx > my)
            && (ex == ey ==> (sx > sy <==> mx > my) && (sx == sy <==> mx == my))
            && (ex > ey + 33 ==> mx > my)
            && (sx * Pow10(ex - ey) > sy <==> mx > my) && (sx * Pow10(ex - ey) == sy <==> mx == my)
  {
    hide Pow10;
    var p := Pow10(ex - ey);
    Pow10Add(ex - ey, ey);
    MulAssoc(sx, p, Pow10(ey));
    ScaleOrder(sx * p, sy, Pow10(ey));
    ScaleOrder(sy, sx * p, Pow10(ey));
    MulMono(1, p, sx);
    ScaleOrder(sx, sy, Pow10(ey));
    ScaleOrder(sy, sx, Pow10(ey));
    if ex > ey {
      Pow10Mono(1, ex - ey);
      Pow10Values();
      Pow10One();
      MulMono(10, p, sx);
    }
    if ex > ey + 33 {
      Pow10Values();
      Pow10Mono(34, ex - ey);
      MulMono(TEN34, p, sx);
    }
  }

  /** How two finite operands are ordered, by their zeros, their signs and their magnitudes. */
  lemma FiniteOrder(a: Datum, b: Datum)
    requires a.Finite? && b.Finite?
    ensures a.coef == 0 && b.coef == 0 ==> ValueEqual(a, b)
    ensures a.coef == 0 && b.coef != 0 ==>
              (ValueLess(a, b) <==> !b.neg) && (ValueLess(b, a) <==> b.neg) && !ValueEqual(a, b)
    ensures a.coef != 0 && b.coef == 0 ==>
              (ValueLess(a, b) <==> a.neg) && (ValueLess(b, a) <==> !a.neg) && !ValueEqual(a, b)
    ensures a.coef != 0 && b.coef != 0 ==>
              var ma, mb := a.coef * Pow10(a.exp), b.coef * Pow10(b.exp);
              && (a.neg != b.neg ==> (ValueLess(a, b) <==> a.neg) && (ValueLess(b, a) <==> b.neg) && !ValueEqual(a, b))
              && (a.neg == b.neg ==> && (ValueLess(a, b) <==> if a.neg then ma > mb else ma < mb)
                                     && (ValueLess(b, a) <==> if a.neg then mb > ma else mb < ma)
                                     && (ValueEqual(a, b) <==> ma == mb))
  {
  }

  /** Both words of a at least those of b: not the order on pairs, but it implies it. */
  function WordsAtLeast(a: Bits128, b: Bits128): (r: bool)
    ensures r ==> a >= b
  {
    Hi(a) >= Hi(b) && Lo(a) >= Lo(b)
  }

  /** All that the trees ask about two operands that are not NaN, in terms of the order on values. */
  lemma TreeFacts(x: Bits128, y: Bits128)
    requires !HasNaN(x) && !HasNaN(y)
    ensures !Decode(x).NaN? && !Decode(y).NaN?
    ensures HasSpecial(x) ==> Decode(x) == Infinite(SignBit(x))
    ensures HasSpecial(y) ==> Decode(y) == Infinite(SignBit(y))
    ensures !HasSpecial(x) ==>
              && Decode(x).Finite? && Decode(x).neg == SignBit(x)
              && (IsZeroOperand(x) <==> Decode(x).coef == 0)
    ensures !HasSpecial(y) ==>
              && Decode(y).Finite? && Decode(y).neg == SignBit(y)
              && (IsZeroOperand(y) <==> Decode(y).coef == 0)
    ensures x == y ==> ValueEqual(Decode(x), Decode(y))
  {
  }

  /** Two distinct nonzero operands of one sign, compared by significand and exponent. */
  lemma NonzeroFacts(x: Bits128, y: Bits128)
    requires !HasSpecial(x) && !HasSpecial(y) && !IsZeroOperand(x) && !IsZeroOperand(y)
    requires x != y && SignBit(x) == SignBit(y)
    ensures Decode(x).Finite? && Decode(y).Finite?
    ensures var sx, sy, ex, ey := CoefField(x), CoefField(y), ExpField(x), ExpField(y);
            var mx, my := sx * Pow10(ex), sy * Pow10(ey);
            && (ValueLess(Decode(x), Decode(y)) <==> if SignBit(x) then mx > my else mx < my)
            && (ValueLess(Decode(y), Decode(x)) <==> if SignBit(x) then my > mx else my < mx)
            && (ValueEqual(Decode(x), Decode(y)) <==> mx == my)
            && (ex == ey ==> sx != sy && (sx > sy <==> mx > my))
            && (ex >= ey && sx > sy ==> mx > my) && (ex > ey && sx >= sy ==> mx > my)
            && (ex <= ey && sx < sy ==> mx < my) && (ex < ey && sx <= sy ==> mx < my)
            && (ex > ey + 33 ==> mx > my) && (ey > ex + 33 ==> mx < my)
            && (ex >= ey ==> (sx * Pow10(ex - ey) > sy <==> mx > my) && (sx * Pow10(ex - ey) == sy <==> mx == my))
            && (ey >= ex ==> (sy * Pow10(ey - ex) > sx <==> mx < my) && (sy * Pow10(ey - ex) == sx <==> mx == my))
  {
    hide Pow10, CoefField, ExpField, Decode, ValueLess, ValueEqual, SignBit, HasSpecial;
    OperandFields(x);
    OperandFields(y);
    FiniteOrder(Decode(x), Decode(y));
    MagnitudeTests(CoefField(x), ExpField(x), CoefField(y), ExpField(y));
    if ExpField(x) == ExpField(y) && CoefField(x) == CoefField(y) {
      SameFields(x, y);
    }
  }

  lemma SameFields(x: Bits128, y: Bits128)
    requires !HasSteering(x) && !HasSteering(y)
    requires SignBit(x) == SignBit(y) && ExpField(x) == ExpField(y) && CoefField(x) == CoefField(y)
    ensures x == y
  {
    FieldsRejoin(x);
    FieldsRejoin(y);
  }

  lemma DecodedNaN(x: Bits128)
    ensures HasNaN(x) <==> Decode(x).NaN?
  {
  }
}
