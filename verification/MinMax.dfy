/** smilelib/decimal/bid128_minmax.c: minimum and maximum, by value and by magnitude (section 5.3.1). */
module MinMax {
  import opened Powers
  import opened Encoding
  import opened Words
  import opened Rounding
  import opened Arithmetic
  import opened Unpacking
  import opened Order

  // bit 57 of the high word, which tells a signaling NaN
  const SIGNALING_BIT: nat := 0x200_0000_0000_0000 * 0x1_0000_0000_0000_0000

  /** Canonicalises an operand: its NaN payload, its infinity, or a coefficient out of range. */
  method Canonicalize(b: Bits128) returns (c: Bits128)
    ensures if HasNaN(b) then c == Quieted(b) + (if HasSNaN(b) then SIGNALING_BIT else 0)
            else DecodeFits(b) && c == Encode(Decode(b)) && !HasNaN(c) && Decode(c) == Decode(b)
  {
    hide Encode, Quieted;
    DecodeInFormat(b);
    SpecialImpliesSteering(b);
    if HasNaN(b) {
      c := Quieted(b) + if HasSNaN(b) then SIGNALING_BIT else 0;
    } else {
      DecodeEncode(Decode(b));
      DecodedNaN(b);
      if HasSpecial(b) {
        InfinityPattern(SignBit(b));
        c := SignValue(SignBit(b)) + INFINITY_COEF;
      } else if HasSteering(b) {
        ZeroPattern(SignBit(b), ExpFieldShifted(b));
        c := SignValue(SignBit(b)) + ExpFieldShifted(b) * EXP_UNIT;
      } else if CoefHi(b) > 0x1_ed09_bead_87c0 || (CoefHi(b) == 0x1_ed09_bead_87c0 && Lo(b) > 0x378d_8e63_ffff_ffff) {
        ZeroPattern(SignBit(b), ExpField(b));
        c := SignValue(SignBit(b)) + ExpField(b) * EXP_UNIT;
      } else {
        CanonicalIff(b);
        c := b;
      }
    }
  }

  predicate DecodeFits(b: Bits128) { InFormat(Decode(b)) }

  /** A canonical operand that is no NaN. */
  predicate Canonical(b: Bits128) { !HasNaN(b) && (HasSpecial(b) || !NonCanonical(b)) && IsCanonical(b) }

  /** The tree of bid128_minnum. */
  function MinTree(x: Bits128, y: Bits128): Bits128 {
    var sx, sy, ex, ey := CoefField(x), CoefField(y), ExpField(x), ExpField(y);
    if x == y then x
    else if HasSpecial(x) then if SignBit(x) then x else y
    else if HasSpecial(y) then if SignBit(y) then y else x
    else if sx == 0 && sy == 0 then x
    else if sx == 0 then if SignBit(y) then y else x
    else if sy == 0 then if !SignBit(x) then y else x
    else if SignBit(x) != SignBit(y) then if SignBit(y) then y else x
    else if ey == ex then if PairGe(sx, sy) != SignBit(x) then y else x
    else if WordsAtLeast(sx, sy) && ex > ey then if !SignBit(x) then y else x
    else if WordsAtLeast(sy, sx) && ex < ey then if SignBit(x) then y else x
    else if ex > ey then
      if ex - ey > 33 then if !SignBit(x) then y else x
      else if ProductAbove(ScaledSignificand(sx, ex - ey), sy) != SignBit(y) then y else x
    else if ey - ex > 33 then if SignBit(x) then y else x
    else if ProductAbove(ScaledSignificand(sy, ey - ex), sx) != SignBit(x) then x else y
  }

  /** The tree of bid128_maxnum. */
  function MaxTree(x: Bits128, y: Bits128): Bits128 {
    var sx, sy, ex, ey := CoefField(x), CoefField(y), ExpField(x), ExpField(y);
    if x == y then x
    else if HasSpecial(x) then if SignBit(x) then y else x
    else if HasSpecial(y) then if SignBit(y) then x else y
    else if sx == 0 && sy == 0 then x
    else if sx == 0 then if SignBit(y) then x else y
    else if sy == 0 then if !SignBit(x) then x else y
    else if SignBit(x) != SignBit(y) then if SignBit(y) then x else y
    else if ey == ex then if PairGe(sx, sy) != SignBit(x) then x else y
    else if PairGt(sx, sy) && ex >= ey then if !SignBit(x) then x else y
    else if PairGt(sy, sx) && ex <= ey then if SignBit(x) then x else y
    else if ex > ey then
      if ex - ey > 33 then if !SignBit(x) then x else y
      else if ProductAbove(ScaledSignificand(sx, ex - ey), sy) != SignBit(y) then x else y
    else if ey - ex > 33 then if SignBit(x) then x else y
    else if ProductAbove(ScaledSignificand(sy, ey - ex), sx) != !SignBit(x) then x else y
  }

  /** The tree of bid128_minnum_mag. */
  function MinMagTree(x: Bits128, y: Bits128): Bits128 {
    var sx, sy, ex, ey := CoefField(x), CoefField(y), ExpField(x), ExpField(y);
    if x == y then y
    else if HasSpecial(x) then if SignBit(x) && HasSpecial(y) then x else y
    else if HasSpecial(y) then x
    else if sx == 0 then x
    else if sy == 0 then y
    else if ey == ex && sx == sy then if SignBit(x) then x else y
    else if (PairGt(sx, sy) && ex == ey) || (PairGe(sx, sy) && ex > ey) then y
    else if (PairGt(sy, sx) && ey == ex) || (PairGe(sy, sx) && ey > ex) then x
    else if ex > ey then
      if ex - ey > 33 then y
      else
        var p := ScaledSignificand(sx, ex - ey);
        if ProductEquals(p, sy) then if SignBit(y) then y else x
        else if ProductAbove(p, sy) then y else x
    else if ey - ex > 33 then x
    else
      var p := ScaledSignificand(sy, ey - ex);
      if ProductEquals(p, sx) then if SignBit(y) then y else x
      else if ProductBelow(p, sx) then y else x
  }

  /** The tree of bid128_maxnum_mag. */
  function MaxMagTree(x: Bits128, y: Bits128): Bits128 {
    var sx, sy, ex, ey := CoefField(x), CoefField(y), ExpField(x), ExpField(y);
    if x == y then y
    else if HasSpecial(x) then if SignBit(x) && HasSpecial(y) then y else x
    else if HasSpecial(y) then y
    else if sx == 0 then y
    else if sy == 0 then x
    else if ey == ex && sx == sy then if SignBit(x) then y else x
    else if (PairGt(sx, sy) && ex == ey) || (PairGe(sx, sy) && ex > ey) then x
    else if (PairGt(sy, sx) && ey == ex) || (PairGe(sy, sx) && ey > ex) then y
    else if ex > ey then
      if ex - ey > 33 then x
      else
        var p := ScaledSignificand(sx, ex - ey);
        if ProductEquals(p, sy) then if SignBit(y) then x else y
        else if ProductAbove(p, sy) then x else y
    else if ey - ex > 33 then y
    else
      var p := ScaledSignificand(sy, ey - ex);
      if ProductEquals(p, sx) then if SignBit(y) then x else y
      else if ProductBelow(p, sx) then x else y
  }

  /** A datum without its sign. */
  function Magnitude(d: Datum): Datum {
    match d
    case Finite(_, exp, coef) => Finite(false, exp, coef)
    case Infinite(_) => Infinite(false)
    case NaN(_) => d
  }

  /** r is a smallest, or a largest, of a and b. */
  ghost predicate IsLeast(a: Datum, b: Datum, r: Datum)
    requires !a.NaN? && !b.NaN? && !r.NaN?
  {
    (r == a || r == b) && !ValueLess(a, r) && !ValueLess(b, r)
  }

  ghost predicate IsGreatest(a: Datum, b: Datum, r: Datum)
    requires !a.NaN? && !b.NaN? && !r.NaN?
  {
    (r == a || r == b) && !ValueLess(r, a) && !ValueLess(r, b)
  }

  lemma CanonicalFields(x: Bits128)
    requires Canonical(x)
    ensures !Decode(x).NaN?
    ensures if HasSpecial(x) then Decode(x) == Infinite(SignBit(x))
            else Decode(x) == Finite(SignBit(x), ExpField(x), CoefField(x)) && CoefField(x) < TEN34
                 && (IsZeroOperand(x) <==> CoefField(x) == 0)
  {
  }

  lemma SameInfinity(x: Bits128, y: Bits128)
    requires Canonical(x) && Canonical(y) && HasSpecial(x) && HasSpecial(y) && SignBit(x) == SignBit(y)
    ensures x == y
  {
  }

  /** The minimum and the maximum, and that they are the two operands unless both are zeros told apart. */
  lemma MinMaxOrder(x: Bits128, y: Bits128)
    requires Canonical(x) && Canonical(y)
    ensures !Decode(x).NaN? && !Decode(y).NaN? && !Decode(MinTree(x, y)).NaN? && !Decode(MaxTree(x, y)).NaN?
    ensures IsLeast(Decode(x), Decode(y), Decode(MinTree(x, y)))
    ensures IsGreatest(Decode(x), Decode(y), Decode(MaxTree(x, y)))
    ensures (MinTree(x, y) == x && MaxTree(x, y) == y) || (MinTree(x, y) == y && MaxTree(x, y) == x)
            <==> x == y || !(!HasSpecial(x) && !HasSpecial(y) && CoefField(x) == 0 && CoefField(y) == 0)
    ensures MinTree(x, y) == x || MinTree(x, y) == y
    ensures MaxTree(x, y) == x || MaxTree(x, y) == y
  {
    hide Pow10, CoefField, ExpField, Decode, SignBit, HasSpecial, IsZeroOperand, ScaledSignificand, Canonical;
    CanonicalFields(x);
    CanonicalFields(y);
    if x != y {
      if HasSpecial(x) || HasSpecial(y) {
        if HasSpecial(x) && HasSpecial(y) && SignBit(x) == SignBit(y) {
          SameInfinity(x, y);
        }
      } else if IsZeroOperand(x) || IsZeroOperand(y) || SignBit(x) != SignBit(y) {
        FiniteOrder(Decode(x), Decode(y));
      } else {
        hide ValueLess, ValueEqual;
        NonzeroFacts(x, y);
      }
      Trichotomy(Decode(x), Decode(y));
    }
    Trichotomy(Decode(x), Decode(x));
    Trichotomy(Decode(y), Decode(y));
  }

  /** r is least, or greatest, by magnitude, and by value when the magnitudes are equal. */
  ghost predicate IsLeastMagnitude(a: Datum, b: Datum, r: Datum)
    requires !a.NaN? && !b.NaN? && !r.NaN?
  {
    && (r == a || r == b)
    && !ValueLess(Magnitude(a), Magnitude(r)) && !ValueLess(Magnitude(b), Magnitude(r))
    && (ValueEqual(Magnitude(a), Magnitude(b)) ==> IsLeast(a, b, r))
  }

  ghost predicate IsGreatestMagnitude(a: Datum, b: Datum, r: Datum)
    requires !a.NaN? && !b.NaN? && !r.NaN?
  {
    && (r == a || r == b)
    && !ValueLess(Magnitude(r), Magnitude(a)) && !ValueLess(Magnitude(r), Magnitude(b))
    && (ValueEqual(Magnitude(a), Magnitude(b)) ==> IsGreatest(a, b, r))
  }

  /** Two nonzero finite operands of any signs: the magnitudes and the fields. */
  lemma MagnitudeFacts(x: Bits128, y: Bits128)
    requires Canonical(x) && Canonical(y) && !HasSpecial(x) && !HasSpecial(y)
    requires CoefField(x) != 0 && CoefField(y) != 0
    ensures Decode(x).Finite? && Decode(y).Finite?
    ensures var sx, sy, ex, ey := CoefField(x), CoefField(y), ExpField(x), ExpField(y);
            var mx, my := sx * Pow10(ex), sy * Pow10(ey);
            && (ValueLess(Magnitude(Decode(x)), Magnitude(Decode(y))) <==> mx < my)
            && (ValueLess(Magnitude(Decode(y)), Magnitude(Decode(x))) <==> my < mx)
            && (ValueEqual(Magnitude(Decode(x)), Magnitude(Decode(y))) <==> mx == my)
            && (mx == my ==> (ValueLess(Decode(x), Decode(y)) <==> SignBit(x) && !SignBit(y)))
            && (mx == my ==> (ValueLess(Decode(y), Decode(x)) <==> SignBit(y) && !SignBit(x)))
            && (ex == ey ==> (sx == sy <==> mx == my) && (sx > sy <==> mx > my))
            && (ex > ey && sx >= sy ==> mx > my) && (ex < ey && sx <= sy ==> mx < my)
            && (ex > ey + 33 ==> mx > my) && (ey > ex + 33 ==> mx < my)
            && (ex >= ey ==> (sx * Pow10(ex - ey) > sy <==> mx > my) && (sx * Pow10(ex - ey) == sy <==> mx == my))
            && (ey >= ex ==> (sy * Pow10(ey - ex) > sx <==> mx < my) && (sy * Pow10(ey - ex) == sx <==> mx == my))
  {
    hide Pow10, CoefField, ExpField, Decode, ValueLess, ValueEqual, SignBit, HasSpecial, Canonical;
    CanonicalFields(x);
    CanonicalFields(y);
    FiniteOrder(Decode(x), Decode(y));
    FiniteOrder(Magnitude(Decode(x)), Magnitude(Decode(y)));
    MagnitudeTests(CoefField(x), ExpField(x), CoefField(y), ExpField(y));
  }

  /** The same for the magnitude forms, which always return one operand each. */
  lemma MinMaxMagnitudeOrder(x: Bits128, y: Bits128)
    requires Canonical(x) && Canonical(y)
    ensures !Decode(x).NaN? && !Decode(y).NaN? && !Decode(MinMagTree(x, y)).NaN? && !Decode(MaxMagTree(x, y)).NaN?
    ensures IsLeastMagnitude(Decode(x), Decode(y), Decode(MinMagTree(x, y)))
    ensures IsGreatestMagnitude(Decode(x), Decode(y), Decode(MaxMagTree(x, y)))
    ensures (MinMagTree(x, y) == x && MaxMagTree(x, y) == y) || (MinMagTree(x, y) == y && MaxMagTree(x, y) == x)
  {
    hide Pow10, CoefField, ExpField, Decode, SignBit, HasSpecial, IsZeroOperand, ScaledSignificand, Canonical;
    CanonicalFields(x);
    CanonicalFields(y);
    if x != y {
      if HasSpecial(x) || HasSpecial(y) {
        if HasSpecial(x) && HasSpecial(y) && SignBit(x) == SignBit(y) {
          SameInfinity(x, y);
        }
      } else if CoefField(x) == 0 || CoefField(y) == 0 {
        FiniteOrder(Decode(x), Decode(y));
        FiniteOrder(Magnitude(Decode(x)), Magnitude(Decode(y)));
      } else {
        hide ValueLess, ValueEqual;
        MagnitudeFacts(x, y);
      }
      Trichotomy(Decode(x), Decode(y));
      Trichotomy(Magnitude(Decode(x)), Magnitude(Decode(y)));
    }
    Trichotomy(Decode(x), Decode(x));
    Trichotomy(Decode(y), Decode(y));
    Trichotomy(Magnitude(Decode(x)), Magnitude(Decode(x)));
    Trichotomy(Magnitude(Decode(y)), Magnitude(Decode(y)));
  }

  /**
   Which of two different encodings of one nonzero value comes back: for the minimum of two positive ones that with the
   larger exponent, of two negative ones that with the smaller, and the other for the maximum; the magnitude forms go
   by the order of the operands.
   */
  lemma TiesByExponent(x: Bits128, y: Bits128)
    requires Canonical(x) && Canonical(y) && !HasSpecial(x) && !HasSpecial(y) && x != y
    requires !Decode(x).NaN? && !Decode(y).NaN? && CoefField(x) != 0 && ValueEqual(Decode(x), Decode(y))
    ensures SignBit(x) == SignBit(y) && ExpField(x) != ExpField(y)
    ensures MinTree(x, y) == if SignBit(x) == (ExpField(x) < ExpField(y)) then x else y
    ensures MaxTree(x, y) == if SignBit(x) == (ExpField(x) < ExpField(y)) then y else x
    ensures MinMagTree(x, y) == if SignBit(x) then y else x
    ensures MaxMagTree(x, y) == if SignBit(x) then x else y
  {
    hide Pow10, CoefField, ExpField, Decode, SignBit, HasSpecial, IsZeroOperand, ScaledSignificand, Canonical;
    CanonicalFields(x);
    CanonicalFields(y);
    FiniteOrder(Decode(x), Decode(y));
    hide ValueLess, ValueEqual;
    NonzeroFacts(x, y);
  }

  /** Two zeros: the minimum and the maximum are the first, the magnitude forms give one each. */
  lemma ZerosInOrder(x: Bits128, y: Bits128)
    requires !HasSpecial(x) && !HasSpecial(y) && CoefField(x) == 0 && CoefField(y) == 0
    ensures MinTree(x, y) == x && MaxTree(x, y) == x
    ensures x != y ==> MinMagTree(x, y) == x && MaxMagTree(x, y) == y
  {
  }

  // A quiet NaN gives way to a number; a signaling NaN does not.

  function NaNChoice(x: Bits128, y: Bits128): Bits128
    requires HasNaN(x) || HasNaN(y)
  {
    DecodeInFormat(x);
    DecodeInFormat(y);
    if HasNaN(x) then if HasSNaN(x) || HasNaN(y) then Quieted(x) else Encode(Decode(y))
    else if HasSNaN(y) then Quieted(y) else Encode(Decode(x))
  }

  ghost function NaNChoiceFlags(x: Bits128, y: Bits128): set<Flag> {
    if HasSNaN(x) || HasSNaN(y) then {Invalid} else {}
  }

  /** A number wins over a quiet NaN; a signaling NaN, and otherwise the first of two NaNs, comes back quiet. */
  lemma NaNChoices(x: Bits128, y: Bits128)
    requires HasNaN(x) || HasNaN(y)
    ensures !HasNaN(x) && !HasSNaN(y) ==> InFormat(Decode(x)) && NaNChoice(x, y) == Encode(Decode(x))
    ensures !HasSNaN(x) && !HasNaN(y) ==> InFormat(Decode(y)) && NaNChoice(x, y) == Encode(Decode(y))
    ensures HasNaN(x) && (HasSNaN(x) || HasNaN(y)) ==> NaNChoice(x, y) == Quieted(x)
    ensures !HasNaN(x) && HasNaN(y) && HasSNaN(y) ==> NaNChoice(x, y) == Quieted(y)
  {
    hide Decode, Encode, Quieted;
    SignalingIsNaN(x);
    SignalingIsNaN(y);
    DecodeInFormat(x);
    DecodeInFormat(y);
  }

  /** The NaN arms, on canonicalised operands. */
  method ChooseNaN(x: Bits128, y: Bits128, cx: Bits128, cy: Bits128, st: Status) returns (res: Bits128)
    requires HasNaN(x) || HasNaN(y)
    requires HasNaN(x) ==> cx == Quieted(x) + if HasSNaN(x) then SIGNALING_BIT else 0
    requires HasNaN(y) ==> cy == Quieted(y) + if HasSNaN(y) then SIGNALING_BIT else 0
    requires !HasNaN(x) ==> DecodeFits(x) && cx == Encode(Decode(x))
    requires !HasNaN(y) ==> DecodeFits(y) && cy == Encode(Decode(y))
    modifies st
    ensures res == NaNChoice(x, y)
    ensures st.raised == old(st.raised) + NaNChoiceFlags(x, y)
  {
    hide Encode, Quieted;
    SignalingIsNaN(x);
    SignalingIsNaN(y);
    if HasNaN(x) {
      if HasSNaN(x) {
        st.Raise({Invalid});
        res := cx - SIGNALING_BIT;
      } else if HasNaN(y) {
        if HasSNaN(y) {
          st.Raise({Invalid});
        }
        res := cx;
      } else {
        res := cy;
      }
    } else if HasSNaN(y) {
      st.Raise({Invalid});
      res := cy - SIGNALING_BIT;
    } else {
      res := cx;
    }
  }

  lemma CanonicalizedIsCanonical(b: Bits128, c: Bits128)
    requires !HasNaN(b) && DecodeFits(b) && c == Encode(Decode(b))
    ensures Canonical(c) && Decode(c) == Decode(b)
  {
    DecodedNaN(b);
    DecodeEncode(Decode(b));
    if Decode(b).Infinite? {
      InfinityPattern(Decode(b).neg);
    }
  }

  /** bid128_minnum. */
  method MinNum(x: Bits128, y: Bits128, st: Status) returns (res: Bits128)
    modifies st
    ensures if HasNaN(x) || HasNaN(y) then
              res == NaNChoice(x, y) && st.raised == old(st.raised) + NaNChoiceFlags(x, y)
            else
              && DecodeFits(x) && DecodeFits(y) && !Decode(x).NaN? && !Decode(y).NaN? && !Decode(res).NaN?
              && res == MinTree(Encode(Decode(x)), Encode(Decode(y)))
              && (res == Encode(Decode(x)) || res == Encode(Decode(y)))
              && IsLeast(Decode(x), Decode(y), Decode(res))
              && st.raised == old(st.raised)
  {
    hide Encode, MinTree, IsLeast, Canonical;
    var cx := Canonicalize(x);
    var cy := Canonicalize(y);
    if HasNaN(x) || HasNaN(y) {
      res := ChooseNaN(x, y, cx, cy, st);
    } else {
      CanonicalizedIsCanonical(x, cx);
      CanonicalizedIsCanonical(y, cy);
      MinMaxOrder(cx, cy);
      res := MinTree(cx, cy);
    }
  }

  /** bid128_maxnum. */
  method MaxNum(x: Bits128, y: Bits128, st: Status) returns (res: Bits128)
    modifies st
    ensures if HasNaN(x) || HasNaN(y) then
              res == NaNChoice(x, y) && st.raised == old(st.raised) + NaNChoiceFlags(x, y)
            else
              && DecodeFits(x) && DecodeFits(y) && !Decode(x).NaN? && !Decode(y).NaN? && !Decode(res).NaN?
              && res == MaxTree(Encode(Decode(x)), Encode(Decode(y)))
              && (res == Encode(Decode(x)) || res == Encode(Decode(y)))
              && IsGreatest(Decode(x), Decode(y), Decode(res))
              && st.raised == old(st.raised)
  {
    hide Encode, MaxTree, IsGreatest, Canonical;
    var cx := Canonicalize(x);
    var cy := Canonicalize(y);
    if HasNaN(x) || HasNaN(y) {
      res := ChooseNaN(x, y, cx, cy, st);
    } else {
      CanonicalizedIsCanonical(x, cx);
      CanonicalizedIsCanonical(y, cy);
      MinMaxOrder(cx, cy);
      res := MaxTree(cx, cy);
    }
  }

  /** bid128_minnum_mag. */
  method MinNumMag(x: Bits128, y: Bits128, st: Status) returns (res: Bits128)
    modifies st
    ensures if HasNaN(x) || HasNaN(y) then
              res == NaNChoice(x, y) && st.raised == old(st.raised) + NaNChoiceFlags(x, y)
            else
              && DecodeFits(x) && DecodeFits(y) && !Decode(x).NaN? && !Decode(y).NaN? && !Decode(res).NaN?
              && res == MinMagTree(Encode(Decode(x)), Encode(Decode(y)))
              && (res == Encode(Decode(x)) || res == Encode(Decode(y)))
              && IsLeastMagnitude(Decode(x), Decode(y), Decode(res))
              && st.raised == old(st.raised)
  {
    hide Encode, MinMagTree, IsLeastMagnitude, Canonical;
    var cx := Canonicalize(x);
    var cy := Canonicalize(y);
    if HasNaN(x) || HasNaN(y) {
      res := ChooseNaN(x, y, cx, cy, st);
    } else {
      CanonicalizedIsCanonical(x, cx);
      CanonicalizedIsCanonical(y, cy);
      MinMaxMagnitudeOrder(cx, cy);
      res := MinMagTree(cx, cy);
    }
  }

  /** bid128_maxnum_mag. */
  method MaxNumMag(x: Bits128, y: Bits128, st: Status) returns (res: Bits128)
    modifies st
    ensures if HasNaN(x) || HasNaN(y) then
              res == NaNChoice(x, y) && st.raised == old(st.raised) + NaNChoiceFlags(x, y)
            else
              && DecodeFits(x) && DecodeFits(y) && !Decode(x).NaN? && !Decode(y).NaN? && !Decode(res).NaN?
              && res == MaxMagTree(Encode(Decode(x)), Encode(Decode(y)))
              && (res == Encode(Decode(x)) || res == Encode(Decode(y)))
              && IsGreatestMagnitude(Decode(x), Decode(y), Decode(res))
              && st.raised == old(st.raised)
  {
    hide Encode, MaxMagTree, IsGreatestMagnitude, Canonical;
    var cx := Canonicalize(x);
    var cy := Canonicalize(y);
    if HasNaN(x) || HasNaN(y) {
      res := ChooseNaN(x, y, cx, cy, st);
    } else {
      CanonicalizedIsCanonical(x, cx);
      CanonicalizedIsCanonical(y, cy);
      MinMaxMagnitudeOrder(cx, cy);
      res := MaxMagTree(cx, cy);
    }
  }

  predicate BothZero(x: Bits128, y: Bits128) {
    !HasSpecial(x) && !HasSpecial(y) && IsZeroOperand(x) && IsZeroOperand(y)
  }

  /**
   Minimum and maximum of two operands that are no NaN: their canonical encodings come back as a pair, except
   that of two different zeros the first comes back twice. The magnitude forms have no exception.
   */
  method MinAndMax(x: Bits128, y: Bits128) returns (low: Bits128, high: Bits128, lowMag: Bits128, highMag: Bits128)
    requires !HasNaN(x) && !HasNaN(y)
    ensures DecodeFits(x) && DecodeFits(y)
    ensures var cx, cy := Encode(Decode(x)), Encode(Decode(y));
            && multiset{lowMag, highMag} == multiset{cx, cy}
            && (multiset{low, high} == multiset{cx, cy} <==> cx == cy || !BothZero(x, y))
            && (BothZero(x, y) ==> low == cx && high == cx)
  {
    hide Encode, MinTree, MaxTree, MinMagTree, MaxMagTree, Canonical;
    var st := new Status();
    low := MinNum(x, y, st);
    high := MaxNum(x, y, st);
    lowMag := MinNumMag(x, y, st);
    highMag := MaxNumMag(x, y, st);
    ghost var cx, cy := Encode(Decode(x)), Encode(Decode(y));
    CanonicalizedIsCanonical(x, cx);
    CanonicalizedIsCanonical(y, cy);
    MinMaxOrder(cx, cy);
    MinMaxMagnitudeOrder(cx, cy);
    ZeroesAgree(x, cx);
    ZeroesAgree(y, cy);
    if !HasSpecial(cx) && !HasSpecial(cy) && CoefField(cx) == 0 && CoefField(cy) == 0 {
      ZerosInOrder(cx, cy);
    }
    PairsAgree(cx, cy, low, high);
  }

  lemma ZeroesAgree(b: Bits128, c: Bits128)
    requires !HasNaN(b) && Canonical(c) && Decode(c) == Decode(b)
    ensures HasSpecial(c) <==> HasSpecial(b)
    ensures !HasSpecial(b) ==> (CoefField(c) == 0 <==> IsZeroOperand(b))
  {
  }

  lemma PairsAgree(x: Bits128, y: Bits128, a: Bits128, b: Bits128)
    requires a == x || a == y
    requires b == x || b == y
    ensures multiset{a, b} == multiset{x, y} <==> (a == x && b == y) || (a == y && b == x)
  {
  }
}
