/**
 smilelib/decimal/bid128_compare.c: twenty predicates over seven decision trees. Where a tree computes the scaled
 significand with a 192-bit product for small differences and a 256-bit product for larger ones, and then
 repeats its tests, the tests are written once, on four words.
 */
module Compare {
  import opened Powers
  import opened Encoding
  import opened Words
  import opened Rounding
  import opened Arithmetic
  import opened Order

  /** The tree of quiet_equal; the operand with the smaller exponent is swapped to the front. */
  predicate EqualTree(x: Bits128, y: Bits128) {
    if x == y then true
    else if HasSpecial(x) then HasSpecial(y) && SignBit(x) == SignBit(y)
    else if HasSpecial(y) then false
    else if IsZeroOperand(x) && IsZeroOperand(y) then true
    else if IsZeroOperand(x) || IsZeroOperand(y) then false
    else if SignBit(x) != SignBit(y) then false
    else
      var (lo, hi) := if ExpField(x) > ExpField(y) then (y, x) else (x, y);
      var diff := ExpField(hi) - ExpField(lo);
      diff <= 33 && ProductEquals(ScaledSignificand(CoefField(hi), diff), CoefField(lo))
  }

  /** The tree of quiet_not_equal. */
  predicate NotEqualTree(x: Bits128, y: Bits128) {
    if x == y then false
    else if HasSpecial(x) then if HasSpecial(y) then SignBit(x) != SignBit(y) else true
    else if HasSpecial(y) then true
    else if IsZeroOperand(x) && IsZeroOperand(y) then false
    else if IsZeroOperand(x) || IsZeroOperand(y) then true
    else if SignBit(x) != SignBit(y) then true
    else
      var (lo, hi) := if ExpField(x) > ExpField(y) then (y, x) else (x, y);
      var diff := ExpField(hi) - ExpField(lo);
      if diff > 33 then true
      else
        var p, s := ScaledSignificand(CoefField(hi), diff), CoefField(lo);
        p.w3 != 0 || p.w2 != 0 || p.w1 != Hi(s) || p.w0 != Lo(s)
  }

  /** The tree of the two greater predicates. */
  predicate GreaterTree(x: Bits128, y: Bits128) {
    if x == y then false
    else if HasSpecial(x) then if SignBit(x) then false else !HasSpecial(y) || SignBit(y)
    else if HasSpecial(y) then SignBit(y)
    else if IsZeroOperand(x) && IsZeroOperand(y) then false
    else if IsZeroOperand(x) then SignBit(y)
    else if IsZeroOperand(y) then !SignBit(x)
    else if SignBit(x) != SignBit(y) then SignBit(y)
    else
      var sx, sy, ex, ey := CoefField(x), CoefField(y), ExpField(x), ExpField(y);
      if ey == ex then PairGe(sx, sy) != SignBit(x)
      else if PairGt(sx, sy) && ex >= ey then !SignBit(x)
      else if PairGt(sy, sx) && ex <= ey then SignBit(x)
      else if ex > ey then
        if ex - ey > 33 then !SignBit(x)
        else
          var p := ScaledSignificand(sx, ex - ey);
          if ProductEquals(p, sy) then false else ProductAbove(p, sy) != SignBit(y)
      else if ey - ex > 33 then SignBit(x)
      else
        var p := ScaledSignificand(sy, ey - ex);
        if ProductEquals(p, sx) then false else ProductAbove(p, sx) != !SignBit(x)
  }

  /** The tree of the two greater_unordered predicates. */
  predicate GreaterUnorderedTree(x: Bits128, y: Bits128) {
    if x == y then false
    else if HasSpecial(x) then if SignBit(x) then false else !HasSpecial(y) || SignBit(y)
    else if HasSpecial(y) then SignBit(y)
    else if IsZeroOperand(x) && IsZeroOperand(y) then false
    else if IsZeroOperand(x) then SignBit(y)
    else if IsZeroOperand(y) then !SignBit(x)
    else if SignBit(x) != SignBit(y) then SignBit(y)
    else
      var sx, sy, ex, ey := CoefField(x), CoefField(y), ExpField(x), ExpField(y);
      if ey == ex then PairGe(sx, sy) != SignBit(x)
      else if WordsAtLeast(sx, sy) && ex > ey then !SignBit(x)
      else if WordsAtLeast(sy, sx) && ex < ey then SignBit(x)
      else if ex > ey then
        if ex - ey > 33 then !SignBit(x)
        else
          var p := ScaledSignificand(sx, ex - ey);
          if ProductEquals(p, sy) then false else ProductAbove(p, sy) != SignBit(y)
      else if ey - ex > 33 then SignBit(x)
      else
        var p := ScaledSignificand(sy, ey - ex);
        if ProductEquals(p, sx) then false else ProductBelow(p, sx) != SignBit(x)
  }

  /** The tree of greater_equal and not_less, quiet and signaling. */
  predicate GreaterEqualTree(x: Bits128, y: Bits128) {
    if x == y then true
    else if HasSpecial(x) then if SignBit(x) then HasSpecial(y) && SignBit(y) else true
    else if HasSpecial(y) then SignBit(y)
    else if IsZeroOperand(x) && IsZeroOperand(y) then true
    else if IsZeroOperand(x) then SignBit(y)
    else if IsZeroOperand(y) then !SignBit(x)
    else if SignBit(x) != SignBit(y) then SignBit(y)
    else
      var sx, sy, ex, ey := CoefField(x), CoefField(y), ExpField(x), ExpField(y);
      if ey == ex then PairGe(sx, sy) != SignBit(x)
      else if WordsAtLeast(sx, sy) && ex > ey then !SignBit(x)
      else if WordsAtLeast(sy, sx) && ex < ey then SignBit(x)
      else if ex > ey then
        if ex - ey > 33 then !SignBit(x)
        else
          var p := ScaledSignificand(sx, ex - ey);
          if ProductEquals(p, sy) then true else ProductAbove(p, sy) != SignBit(y)
      else if ey - ex > 33 then SignBit(x)
      else
        var p := ScaledSignificand(sy, ey - ex);
        if ProductEquals(p, sx) then true else ProductBelow(p, sx) != SignBit(x)
  }

  /** The tree of less and less_unordered, quiet and signaling. */
  predicate LessTree(x: Bits128, y: Bits128) {
    if x == y then false
    else if HasSpecial(x) then if SignBit(x) then !HasSpecial(y) || !SignBit(y) else false
    else if HasSpecial(y) then !SignBit(y)
    else if IsZeroOperand(x) && IsZeroOperand(y) then false
    else if IsZeroOperand(x) then !SignBit(y)
    else if IsZeroOperand(y) then SignBit(x)
    else if SignBit(x) != SignBit(y) then !SignBit(y)
    else
      var sx, sy, ex, ey := CoefField(x), CoefField(y), ExpField(x), ExpField(y);
      if ey == ex then PairGe(sx, sy) != !SignBit(x)
      else if PairGt(sx, sy) && ex >= ey then SignBit(x)
      else if PairGt(sy, sx) && ex <= ey then !SignBit(x)
      else if ex > ey then
        if ex - ey > 33 then SignBit(x)
        else
          var p := ScaledSignificand(sx, ex - ey);
          if ProductEquals(p, sy) then false else ProductAbove(p, sy) != !SignBit(y)
      else if ey - ex > 33 then !SignBit(x)
      else
        var p := ScaledSignificand(sy, ey - ex);
        if ProductEquals(p, sx) then false else ProductAbove(p, sx) != SignBit(x)
  }

  /** The tree of less_equal and not_greater, quiet and signaling. */
  predicate LessEqualTree(x: Bits128, y: Bits128) {
    if x == y then true
    else if HasSpecial(x) then if SignBit(x) then true else HasSpecial(y) && !SignBit(y)
    else if HasSpecial(y) then !SignBit(y)
    else if IsZeroOperand(x) && IsZeroOperand(y) then true
    else if IsZeroOperand(x) then !SignBit(y)
    else if IsZeroOperand(y) then SignBit(x)
    else if SignBit(x) != SignBit(y) then !SignBit(y)
    else
      var sx, sy, ex, ey := CoefField(x), CoefField(y), ExpField(x), ExpField(y);
      if ey == ex then PairGe(sx, sy) != !SignBit(x)
      else if PairGt(sx, sy) && ex >= ey then SignBit(x)
      else if PairGt(sy, sx) && ex <= ey then !SignBit(x)
      else if ex > ey then
        if ex - ey > 33 then SignBit(x)
        else
          var p := ScaledSignificand(sx, ex - ey);
          if ProductEquals(p, sy) then true else ProductAbove(p, sy) != !SignBit(y)
      else if ey - ex > 33 then !SignBit(x)
      else
        var p := ScaledSignificand(sy, ey - ex);
        if ProductEquals(p, sx) then true else ProductAbove(p, sx) != SignBit(x)
  }

  // Each tree decides the order on values.

  lemma GreaterTreeOrder(x: Bits128, y: Bits128)
    requires !HasNaN(x) && !HasNaN(y)
    ensures !Decode(x).NaN? && !Decode(y).NaN?
    ensures GreaterTree(x, y) <==> ValueLess(Decode(y), Decode(x))
  {
    hide Pow10, CoefField, ExpField, Decode, SignBit, HasSpecial, IsZeroOperand;
    hide ScaledSignificand, ProductEquals, ProductAbove, ProductBelow;
    TreeFacts(x, y);
    if x != y && !HasSpecial(x) && !HasSpecial(y) {
      if IsZeroOperand(x) || IsZeroOperand(y) || SignBit(x) != SignBit(y) {
        FiniteOrder(Decode(x), Decode(y));
      } else {
        hide ValueLess, ValueEqual;
        NonzeroFacts(x, y);
      }
    }
  }

  lemma GreaterUnorderedTreeOrder(x: Bits128, y: Bits128)
    requires !HasNaN(x) && !HasNaN(y)
    ensures !Decode(x).NaN? && !Decode(y).NaN?
    ensures GreaterUnorderedTree(x, y) <==> ValueLess(Decode(y), Decode(x))
  {
    hide Pow10, CoefField, ExpField, Decode, SignBit, HasSpecial, IsZeroOperand;
    hide ScaledSignificand, ProductEquals, ProductAbove, ProductBelow;
    TreeFacts(x, y);
    if x != y && !HasSpecial(x) && !HasSpecial(y) {
      if IsZeroOperand(x) || IsZeroOperand(y) || SignBit(x) != SignBit(y) {
        FiniteOrder(Decode(x), Decode(y));
      } else {
        hide ValueLess, ValueEqual;
        NonzeroFacts(x, y);
      }
    }
  }

  lemma GreaterEqualTreeOrder(x: Bits128, y: Bits128)
    requires !HasNaN(x) && !HasNaN(y)
    ensures !Decode(x).NaN? && !Decode(y).NaN?
    ensures GreaterEqualTree(x, y) <==> !ValueLess(Decode(x), Decode(y))
  {
    hide Pow10, CoefField, ExpField, Decode, SignBit, HasSpecial, IsZeroOperand;
    hide ScaledSignificand, ProductEquals, ProductAbove, ProductBelow;
    TreeFacts(x, y);
    if x != y && !HasSpecial(x) && !HasSpecial(y) {
      if IsZeroOperand(x) || IsZeroOperand(y) || SignBit(x) != SignBit(y) {
        FiniteOrder(Decode(x), Decode(y));
      } else {
        hide ValueLess, ValueEqual;
        NonzeroFacts(x, y);
      }
    }
  }

  lemma LessTreeOrder(x: Bits128, y: Bits128)
    requires !HasNaN(x) && !HasNaN(y)
    ensures !Decode(x).NaN? && !Decode(y).NaN?
    ensures LessTree(x, y) <==> ValueLess(Decode(x), Decode(y))
  {
    hide Pow10, CoefField, ExpField, Decode, SignBit, HasSpecial, IsZeroOperand;
    hide ScaledSignificand, ProductEquals, ProductAbove, ProductBelow;
    TreeFacts(x, y);
    if x != y && !HasSpecial(x) && !HasSpecial(y) {
      if IsZeroOperand(x) || IsZeroOperand(y) || SignBit(x) != SignBit(y) {
        FiniteOrder(Decode(x), Decode(y));
      } else {
        hide ValueLess, ValueEqual;
        NonzeroFacts(x, y);
      }
    }
  }

  lemma LessEqualTreeOrder(x: Bits128, y: Bits128)
    requires !HasNaN(x) && !HasNaN(y)
    ensures !Decode(x).NaN? && !Decode(y).NaN?
    ensures LessEqualTree(x, y) <==> !ValueLess(Decode(y), Decode(x))
  {
    hide Pow10, CoefField, ExpField, Decode, SignBit, HasSpecial, IsZeroOperand;
    hide ScaledSignificand, ProductEquals, ProductAbove, ProductBelow;
    TreeFacts(x, y);
    if x != y && !HasSpecial(x) && !HasSpecial(y) {
      if IsZeroOperand(x) || IsZeroOperand(y) || SignBit(x) != SignBit(y) {
        FiniteOrder(Decode(x), Decode(y));
      } else {
        hide ValueLess, ValueEqual;
        NonzeroFacts(x, y);
      }
    }
  }

  lemma EqualTreeOrder(x: Bits128, y: Bits128)
    requires !HasNaN(x) && !HasNaN(y)
    ensures !Decode(x).NaN? && !Decode(y).NaN?
    ensures EqualTree(x, y) <==> ValueEqual(Decode(x), Decode(y))
    ensures NotEqualTree(x, y) <==> !ValueEqual(Decode(x), Decode(y))
  {
    hide Pow10, CoefField, ExpField, Decode, SignBit, HasSpecial, IsZeroOperand;
    hide ScaledSignificand, ProductEquals, ProductAbove, ProductBelow;
    TreeFacts(x, y);
    if x != y && !HasSpecial(x) && !HasSpecial(y) {
      if IsZeroOperand(x) || IsZeroOperand(y) || SignBit(x) != SignBit(y) {
        FiniteOrder(Decode(x), Decode(y));
      } else {
        hide ValueLess, ValueEqual;
        NonzeroFacts(x, y);
      }
    }
  }

  // The predicates: a NaN arm that may raise Invalid, and one of the trees.

  function Unordered(x: Bits128, y: Bits128): (r: bool)
    ensures r <==> Decode(x).NaN? || Decode(y).NaN?
  {
    DecodedNaN(x);
    DecodedNaN(y);
    HasNaN(x) || HasNaN(y)
  }

  ghost predicate Less(x: Bits128, y: Bits128) {
    DecodedNaN(x);
    DecodedNaN(y);
    !Unordered(x, y) && ValueLess(Decode(x), Decode(y))
  }

  ghost predicate Equal(x: Bits128, y: Bits128) {
    DecodedNaN(x);
    DecodedNaN(y);
    !Unordered(x, y) && ValueEqual(Decode(x), Decode(y))
  }

  /** Invalid for a signaling NaN only, or for any NaN. */
  ghost function NaNFlags(x: Bits128, y: Bits128, signaling: bool): set<Flag> {
    if Unordered(x, y) && (signaling || HasSNaN(x) || HasSNaN(y)) then {Invalid} else {}
  }

  method CheckNaN(x: Bits128, y: Bits128, signaling: bool, st: Status) returns (unordered: bool)
    modifies st
    ensures unordered == Unordered(x, y)
    ensures st.raised == old(st.raised) + NaNFlags(x, y, signaling)
  {
    unordered := HasNaN(x) || HasNaN(y);
    if unordered && (signaling || HasSNaN(x) || HasSNaN(y)) {
      st.Raise({Invalid});
    }
  }

  method QuietEqual(x: Bits128, y: Bits128, st: Status) returns (res: bool)
    modifies st
    ensures res <==> Equal(x, y)
    ensures st.raised == old(st.raised) + NaNFlags(x, y, false)
  {
    hide EqualTree;
    var unordered := CheckNaN(x, y, false, st);
    if unordered {
      return false;
    }
    EqualTreeOrder(x, y);
    res := EqualTree(x, y);
  }

  method QuietGreater(x: Bits128, y: Bits128, st: Status) returns (res: bool)
    modifies st
    ensures res <==> Less(y, x)
    ensures st.raised == old(st.raised) + NaNFlags(x, y, false)
  {
    hide GreaterTree;
    var unordered := CheckNaN(x, y, false, st);
    if unordered {
      return false;
    }
    GreaterTreeOrder(x, y);
    res := GreaterTree(x, y);
  }

  method QuietGreaterEqual(x: Bits128, y: Bits128, st: Status) returns (res: bool)
    modifies st
    ensures res <==> !Unordered(x, y) && !Less(x, y)
    ensures st.raised == old(st.raised) + NaNFlags(x, y, false)
  {
    hide GreaterEqualTree;
    var unordered := CheckNaN(x, y, false, st);
    if unordered {
      return false;
    }
    GreaterEqualTreeOrder(x, y);
    res := GreaterEqualTree(x, y);
  }

  method QuietGreaterUnordered(x: Bits128, y: Bits128, st: Status) returns (res: bool)
    modifies st
    ensures res <==> Unordered(x, y) || Less(y, x)
    ensures st.raised == old(st.raised) + NaNFlags(x, y, false)
  {
    hide GreaterUnorderedTree;
    var unordered := CheckNaN(x, y, false, st);
    if unordered {
      return true;
    }
    GreaterUnorderedTreeOrder(x, y);
    res := GreaterUnorderedTree(x, y);
  }

  method QuietLess(x: Bits128, y: Bits128, st: Status) returns (res: bool)
    modifies st
    ensures res <==> Less(x, y)
    ensures st.raised == old(st.raised) + NaNFlags(x, y, false)
  {
    hide LessTree;
    var unordered := CheckNaN(x, y, false, st);
    if unordered {
      return false;
    }
    LessTreeOrder(x, y);
    res := LessTree(x, y);
  }

  method QuietLessEqual(x: Bits128, y: Bits128, st: Status) returns (res: bool)
    modifies st
    ensures res <==> !Unordered(x, y) && !Less(y, x)
    ensures st.raised == old(st.raised) + NaNFlags(x, y, false)
  {
    hide LessEqualTree;
    var unordered := CheckNaN(x, y, false, st);
    if unordered {
      return false;
    }
    LessEqualTreeOrder(x, y);
    res := LessEqualTree(x, y);
  }

  method QuietLessUnordered(x: Bits128, y: Bits128, st: Status) returns (res: bool)
    modifies st
    ensures res <==> Unordered(x, y) || Less(x, y)
    ensures st.raised == old(st.raised) + NaNFlags(x, y, false)
  {
    hide LessTree;
    var unordered := CheckNaN(x, y, false, st);
    if unordered {
      return true;
    }
    LessTreeOrder(x, y);
    res := LessTree(x, y);
  }

  method QuietNotEqual(x: Bits128, y: Bits128, st: Status) returns (res: bool)
    modifies st
    ensures res <==> !Equal(x, y)
    ensures st.raised == old(st.raised) + NaNFlags(x, y, false)
  {
    hide NotEqualTree;
    var unordered := CheckNaN(x, y, false, st);
    if unordered {
      return true;
    }
    EqualTreeOrder(x, y);
    res := NotEqualTree(x, y);
  }

  method QuietNotGreater(x: Bits128, y: Bits128, st: Status) returns (res: bool)
    modifies st
    ensures res <==> !Less(y, x)
    ensures st.raised == old(st.raised) + NaNFlags(x, y, false)
  {
    hide LessEqualTree;
    var unordered := CheckNaN(x, y, false, st);
    if unordered {
      return true;
    }
    LessEqualTreeOrder(x, y);
    res := LessEqualTree(x, y);
  }

  method QuietNotLess(x: Bits128, y: Bits128, st: Status) returns (res: bool)
    modifies st
    ensures res <==> !Less(x, y)
    ensures st.raised == old(st.raised) + NaNFlags(x, y, false)
  {
    hide GreaterEqualTree;
    var unordered := CheckNaN(x, y, false, st);
    if unordered {
      return true;
    }
    GreaterEqualTreeOrder(x, y);
    res := GreaterEqualTree(x, y);
  }

  method QuietOrdered(x: Bits128, y: Bits128, st: Status) returns (res: bool)
    modifies st
    ensures res <==> !Unordered(x, y)
    ensures st.raised == old(st.raised) + NaNFlags(x, y, false)
  {
    var unordered := CheckNaN(x, y, false, st);
    res := !unordered;
  }

  method QuietUnordered(x: Bits128, y: Bits128, st: Status) returns (res: bool)
    modifies st
    ensures res <==> Unordered(x, y)
    ensures st.raised == old(st.raised) + NaNFlags(x, y, false)
  {
    var unordered := CheckNaN(x, y, false, st);
    res := unordered;
  }

  method SignalingGreater(x: Bits128, y: Bits128, st: Status) returns (res: bool)
    modifies st
    ensures res <==> Less(y, x)
    ensures st.raised == old(st.raised) + NaNFlags(x, y, true)
  {
    hide GreaterTree;
    var unordered := CheckNaN(x, y, true, st);
    if unordered {
      return false;
    }
    GreaterTreeOrder(x, y);
    res := GreaterTree(x, y);
  }

  method SignalingGreaterEqual(x: Bits128, y: Bits128, st: Status) returns (res: bool)
    modifies st
    ensures res <==> !Unordered(x, y) && !Less(x, y)
    ensures st.raised == old(st.raised) + NaNFlags(x, y, true)
  {
    hide GreaterEqualTree;
    var unordered := CheckNaN(x, y, true, st);
    if unordered {
      return false;
    }
    GreaterEqualTreeOrder(x, y);
    res := GreaterEqualTree(x, y);
  }

  method SignalingGreaterUnordered(x: Bits128, y: Bits128, st: Status) returns (res: bool)
    modifies st
    ensures res <==> Unordered(x, y) || Less(y, x)
    ensures st.raised == old(st.raised) + NaNFlags(x, y, true)
  {
    hide GreaterUnorderedTree;
    var unordered := CheckNaN(x, y, true, st);
    if unordered {
      return true;
    }
    GreaterUnorderedTreeOrder(x, y);
    res := GreaterUnorderedTree(x, y);
  }

  method SignalingLess(x: Bits128, y: Bits128, st: Status) returns (res: bool)
    modifies st
    ensures res <==> Less(x, y)
    ensures st.raised == old(st.raised) + NaNFlags(x, y, true)
  {
    hide LessTree;
    var unordered := CheckNaN(x, y, true, st);
    if unordered {
      return false;
    }
    LessTreeOrder(x, y);
    res := LessTree(x, y);
  }

  method SignalingLessEqual(x: Bits128, y: Bits128, st: Status) returns (res: bool)
    modifies st
    ensures res <==> !Unordered(x, y) && !Less(y, x)
    ensures st.raised == old(st.raised) + NaNFlags(x, y, true)
  {
    hide LessEqualTree;
    var unordered := CheckNaN(x, y, true, st);
    if unordered {
      return false;
    }
    LessEqualTreeOrder(x, y);
    res := LessEqualTree(x, y);
  }

  method SignalingLessUnordered(x: Bits128, y: Bits128, st: Status) returns (res: bool)
    modifies st
    ensures res <==> Unordered(x, y) || Less(x, y)
    ensures st.raised == old(st.raised) + NaNFlags(x, y, true)
  {
    hide LessTree;
    var unordered := CheckNaN(x, y, true, st);
    if unordered {
      return true;
    }
    LessTreeOrder(x, y);
    res := LessTree(x, y);
  }

  method SignalingNotGreater(x: Bits128, y: Bits128, st: Status) returns (res: bool)
    modifies st
    ensures res <==> !Less(y, x)
    ensures st.raised == old(st.raised) + NaNFlags(x, y, true)
  {
    hide LessEqualTree;
    var unordered := CheckNaN(x, y, true, st);
    if unordered {
      return true;
    }
    LessEqualTreeOrder(x, y);
    res := LessEqualTree(x, y);
  }

  method SignalingNotLess(x: Bits128, y: Bits128, st: Status) returns (res: bool)
    modifies st
    ensures res <==> !Less(x, y)
    ensures st.raised == old(st.raised) + NaNFlags(x, y, true)
  {
    hide GreaterEqualTree;
    var unordered := CheckNaN(x, y, true, st);
    if unordered {
      return true;
    }
    GreaterEqualTreeOrder(x, y);
    res := GreaterEqualTree(x, y);
  }

  /** The relations the predicates decide: a strict weak order on values, with NaN outside it. */
  lemma OrderLaws(x: Bits128, y: Bits128, z: Bits128)
    ensures !Unordered(x, y) ==>
              (if Less(x, y) then 1 else 0) + (if Equal(x, y) then 1 else 0) + (if Less(y, x) then 1 else 0) == 1
    ensures Unordered(x, y) ==> !Less(x, y) && !Equal(x, y) && !Less(y, x)
    ensures Less(x, y) && Less(y, z) ==> Less(x, z)
    ensures Equal(x, y) ==> (Less(x, z) <==> Less(y, z)) && (Less(z, x) <==> Less(z, y)) && Equal(y, x)
  {
  }

  /** The answers of the eight predicates that come in a quiet and a signaling form. */
  datatype Answers = Answers(greater: bool, greaterEqual: bool, greaterUnordered: bool, less: bool, lessEqual: bool,
                             lessUnordered: bool, notGreater: bool, notLess: bool)

  /**
   All twenty separately coded predicates run on the same operands: they tell the order of the values, each pair of
   negations disagrees, the quiet and the signaling forms agree, and only the flags for a NaN differ.
   */
  method NegationPairs(x: Bits128, y: Bits128)
    returns (q: Answers, s: Answers, equal: bool, notEqual: bool, ordered: bool, unordered: bool,
             quietFlags: set<Flag>, signalingFlags: set<Flag>)
    ensures q == s && equal == !notEqual && ordered == !unordered
    ensures q.greater == !q.notGreater && q.less == !q.notLess
    ensures q.lessEqual == !q.greaterUnordered && q.greaterEqual == !q.lessUnordered
    ensures q.lessEqual == (q.less || equal) && q.greaterEqual == (q.greater || equal)
    ensures ordered ==> (if q.less then 1 else 0) + (if equal then 1 else 0) + (if q.greater then 1 else 0) == 1
    ensures unordered ==> !q.less && !equal && !q.greater
    ensures unordered <==> Decode(x).NaN? || Decode(y).NaN?
    ensures !Decode(x).NaN? && !Decode(y).NaN? ==>
              && (q.less <==> ValueLess(Decode(x), Decode(y)))
              && (q.greater <==> ValueLess(Decode(y), Decode(x)))
              && (equal <==> ValueEqual(Decode(x), Decode(y)))
    ensures signalingFlags == if Decode(x).NaN? || Decode(y).NaN? then {Invalid} else {}
    ensures quietFlags == if Decode(x) == NaN(true) || Decode(y) == NaN(true) then {Invalid} else {}
  {
    if !Decode(x).NaN? && !Decode(y).NaN? {
      ToldByValues(x, y);
    }
    hide Less, Equal, Unordered, Decode;
    OrderLaws(x, y, x);
    SignalingDecoded(x);
    SignalingDecoded(y);
    var st := new Status();
    equal := QuietEqual(x, y, st);
    notEqual := QuietNotEqual(x, y, st);
    ordered := QuietOrdered(x, y, st);
    unordered := QuietUnordered(x, y, st);
    q := QuietAnswers(x, y, st);
    quietFlags := st.raised;
    st := new Status();
    s := SignalingAnswers(x, y, st);
    signalingFlags := st.raised;
  }

  /** What each of the eight has to answer. */
  ghost function RightAnswers(x: Bits128, y: Bits128): Answers {
    var u, l, g := Unordered(x, y), Less(x, y), Less(y, x);
    Answers(g, !u && !l, u || g, l, !u && !g, u || l, !g, !l)
  }

  method QuietAnswers(x: Bits128, y: Bits128, st: Status) returns (q: Answers)
    modifies st
    ensures q == RightAnswers(x, y) && st.raised == old(st.raised) + NaNFlags(x, y, false)
  {
    hide Less, Unordered, NaNFlags;
    var greater := QuietGreater(x, y, st);
    var greaterEqual := QuietGreaterEqual(x, y, st);
    var greaterUnordered := QuietGreaterUnordered(x, y, st);
    var less := QuietLess(x, y, st);
    var lessEqual := QuietLessEqual(x, y, st);
    var lessUnordered := QuietLessUnordered(x, y, st);
    var notGreater := QuietNotGreater(x, y, st);
    var notLess := QuietNotLess(x, y, st);
    q := Answers(greater, greaterEqual, greaterUnordered, less, lessEqual, lessUnordered, notGreater, notLess);
  }

  method SignalingAnswers(x: Bits128, y: Bits128, st: Status) returns (s: Answers)
    modifies st
    ensures s == RightAnswers(x, y) && st.raised == old(st.raised) + NaNFlags(x, y, true)
  {
    hide Less, Unordered, NaNFlags;
    var greater := SignalingGreater(x, y, st);
    var greaterEqual := SignalingGreaterEqual(x, y, st);
    var greaterUnordered := SignalingGreaterUnordered(x, y, st);
    var less := SignalingLess(x, y, st);
    var lessEqual := SignalingLessEqual(x, y, st);
    var lessUnordered := SignalingLessUnordered(x, y, st);
    var notGreater := SignalingNotGreater(x, y, st);
    var notLess := SignalingNotLess(x, y, st);
    s := Answers(greater, greaterEqual, greaterUnordered, less, lessEqual, lessUnordered, notGreater, notLess);
  }

  lemma ToldByValues(x: Bits128, y: Bits128)
    requires !Decode(x).NaN? && !Decode(y).NaN?
    ensures !Unordered(x, y)
    ensures Less(x, y) <==> ValueLess(Decode(x), Decode(y))
    ensures Less(y, x) <==> ValueLess(Decode(y), Decode(x))
    ensures Equal(x, y) <==> ValueEqual(Decode(x), Decode(y))
  {
  }

  lemma SignalingDecoded(x: Bits128)
    ensures HasSNaN(x) <==> Decode(x) == NaN(true)
  {
  }
}
