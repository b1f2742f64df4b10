/** What the paths of bid128_add share: scaling by a power of ten, one-ulp steps and the final assembly. */
module AddCommon {
  import opened Powers
  import opened Encoding
  import opened Words
  import opened Tables
  import opened Rounding
  import opened Reciprocal
  import opened Positions
  import opened Arithmetic

  /** A nonzero coefficient and its digit count. */
  ghost predicate IsOperand(c: nat, q: nat) {
    0 < c < TEN34 && q == Digits(c)
  }

  lemma OperandBounds(c: nat, q: nat)
    requires IsOperand(c, q)
    ensures 1 <= q <= 34 && Pow10(q - 1) <= c < Pow10(q)
  {
    DigitsBounds(c);
    Pow10Values();
    if q > 34 {
      Pow10Mono(34, q - 1);
    }
  }

  /** Scaling by 10^k adds k digits. */
  lemma ScaledDigits(c: nat, q: nat, k: nat)
    requires IsOperand(c, q)
    ensures 1 <= q <= 34
    ensures Pow10(q - 1 + k) <= c * Pow10(k) < Pow10(q + k)
  {
    OperandBounds(c, q);
    Pow10Add(q - 1, k);
    Pow10Add(q, k);
    MulMono(Pow10(q - 1), c, Pow10(k));
    ScaleOrder(c, Pow10(q), Pow10(k));
  }

  lemma FitsWord(c: nat, q: nat)
    requires IsOperand(c, q) && q <= 19
    ensures c < W64
  {
    OperandBounds(c, q);
    Pow10Mono(q, 19);
    Power10TableValue(19);
  }

  lemma Pow10Small(a: nat)
    requires a <= 35
    ensures Pow10(a) <= 10 * TEN34 < W128
    ensures a <= 19 ==> Pow10(a) < W64
  {
    Pow10Values();
    Pow10Mono(a, 35);
    if a <= 19 {
      Pow10Mono(a, 19);
      Power10TableValue(19);
    }
  }

  /** C1 * 10^scale for 0 <= scale, picking the word sizes of the multiplication as the code does. */
  method ScaleBy(c1: Bits128, q1: nat, scale: nat) returns (c: Bits128)
    requires IsOperand(c1, q1) && q1 + scale <= 35
    ensures c == c1 * Pow10(scale)
  {
    ghost var ten := Pow10(scale);
    ScaleFits(c1, q1, scale);
    MulLowExact(c1, ten);
    if scale >= 20 {
      Ten2k128Value(scale - 20);
      c := MulLow128(Lo(c1), Ten2k128(scale - 20));
    } else if scale >= 1 {
      Ten2k64Value(scale);
      if q1 <= 19 {
        c := MulLow128(Lo(c1), Ten2k64(scale));
      } else {
        c := MulLow128(Ten2k64(scale), c1);
      }
    } else {
      c := c1;
    }
  }

  lemma ScaleFits(c1: nat, q1: nat, scale: nat)
    requires IsOperand(c1, q1) && q1 + scale <= 35
    ensures c1 * Pow10(scale) < W128
    ensures q1 + scale <= 19 ==> c1 * Pow10(scale) < W64
    ensures q1 <= 19 ==> c1 < W64
  {
    ScaledDigits(c1, q1, scale);
    Pow10Small(q1 + scale);
    if q1 <= 19 {
      FitsWord(c1, q1);
    }
  }

  /** C1 scaled up to 34 digits; a scale above 19 is applied in two steps that both fit. */
  method ScaleTo34(c1: Bits128, q1: nat) returns (c: Bits128)
    requires IsOperand(c1, q1) && q1 < 34
    ensures c == c1 * Pow10(34 - q1)
    ensures TEN33 <= c < TEN34
  {
    hide Pow10, Ten2k64, MulLow128;
    var scale := 34 - q1;
    ScaledDigits(c1, q1, scale);
    Pow10Values();
    ScaleFits(c1, q1, scale);
    ghost var full := c1 * Pow10(scale);
    if q1 <= 19 && scale > 19 {
      c := ScaleInTwoSteps(c1, q1, scale);
    } else {
      Ten2k64Value(scale);
      MulLowExact(c1, Pow10(scale));
      c := MulLow128(Ten2k64(scale), if q1 <= 19 then Lo(c1) else c1);
    }
  }

  method ScaleInTwoSteps(c1: Bits128, q1: nat, scale: nat) returns (c: Bits128)
    requires IsOperand(c1, q1) && q1 + scale == 34 && scale > 19
    ensures c == c1 * Pow10(scale)
  {
    hide Pow10, Ten2k64, MulLow64, MulLow128;
    ghost var a, b := Pow10(scale - 19), Pow10(19);
    ScaleFits(c1, q1, scale);
    ScaleFits(c1, q1, scale - 19);
    Ten2k64Value(scale - 19);
    Ten2k64Value(19);
    Pow10Add(scale - 19, 19);
    MulAssoc(c1, a, b);
    MulLowExact(c1, a);
    MulLowExact(c1 * a, b);
    var lo := MulLow64(Lo(c1), Ten2k64(scale - 19));
    c := MulLow128(Ten2k64(19), lo);
  }

  /**
   Rounds the smaller operand off by x1 digits before it is added to a or taken from it; a tie goes
   whichever way makes the sum even.
   */
  method RoundSmaller(a: Bits128, c2: Bits128, x1: nat, sameSign: bool) returns (star: Bits128, pos: Position)
    requires x1 <= 33 && c2 < TEN34
    ensures var p := Pow10(x1);
            && -(p as int) <= 2 * (c2 - star * p) <= p
            && Describes(if sameSign then a * p + c2 else a * p - c2, p, if sameSign then a + star else a - star, pos)
  {
    hide Pow10, FractionOf, OperandPosition, Describes;
    star, pos := c2, ON_TARGET;
    if x1 >= 1 {
      var s, f := RoundOff(c2, x1 - 1);
      var odd := f == Midpoint && (a + s) % 2 == 1;
      RoundedTie(a, c2, Pow10(x1), s, f, sameSign);
      pos := OperandPosition(f, odd, sameSign);
      star := if odd then s - 1 else s;
    } else {
      Pow10Zero();
      DescribedExactly(a + c2);
      DescribedExactly(a - c2);
    }
  }

  /** The rounded operand, its tie resolved, within half a unit and with the position it gives the result. */
  lemma RoundedTie(a: nat, c2: nat, p: nat, s: nat, f: Fraction, sameSign: bool)
    requires 0 < p && c2 < TEN34 && FractionOf(c2, p, s, f)
    ensures var odd := f == Midpoint && (a + s) % 2 == 1;
            var t := if odd then s - 1 else s;
            && 0 <= t < W128 && -(p as int) <= 2 * (c2 - t * p) <= p
            && Describes(if sameSign then a * p + c2 else a * p - c2, p, if sameSign then a + t else a - t,
                         OperandPosition(f, odd, sameSign))
  {
    hide FractionOf, OperandPosition, Describes;
    RoundedOperand(a, c2, p, s, f, sameSign);
    RoundedSize(c2, p, s, f, f == Midpoint && (a + s) % 2 == 1);
  }

  lemma DescribedExactly(n: int)
    ensures Describes(n, 1, n, ON_TARGET)
  {
  }

  lemma RoundedSize(c2: nat, p: nat, s: nat, f: Fraction, odd: bool)
    requires 0 < p && c2 < TEN34 && FractionOf(c2, p, s, f) && (odd ==> f == Midpoint)
    ensures var t := if odd then s - 1 else s;
            -(p as int) <= 2 * (c2 - t * p) <= p && 0 <= t < W128
  {
  }

  /** res = sign | exponent | coefficient, fields that do not overlap. */
  function Assemble(neg: bool, e: int, c: nat): Bits128
    requires 0 <= e <= EXP_MAX
    requires c < EXP_UNIT || (e == 0 && c < SIGN_UNIT)
  {
    SignValue(neg) + e * EXP_UNIT + c
  }

  /** An assembled coefficient is the encoding of the placed outcome. */
  lemma AssemblePlaced(neg: bool, coef: nat, e: nat, inexact: bool, mode: Mode)
    requires coef <= TEN34 && Fold(coef, e).1 <= EXP_MAX
    ensures var (c, x) := Fold(coef, e);
            && InFormat(Place(neg, coef, e, inexact, mode).datum)
            && Assemble(neg, x, c) == Encode(Place(neg, coef, e, inexact, mode).datum)
            && Place(neg, coef, e, inexact, mode).flags == if inexact then {Inexact} else {}
  {
  }

  /** Moves the coefficient one ulp up; past the largest exponent the result is an infinity. */
  method UlpUp(neg: bool, c: Bits128, e: int, mode: Mode, st: Status) returns (c1: Bits128, e1: int)
    requires TEN33 <= c < TEN34 && 0 <= e <= EXP_MAX
    requires mode == ToNearest || mode == TiesAway || mode == if neg then Down else Up
    modifies st
    ensures 0 <= e1 <= EXP_MAX && (c1 < EXP_UNIT || (e1 == 0 && c1 < SIGN_UNIT))
    ensures var o := Place(neg, c + 1, e, true, mode);
            InFormat(o.datum) && Assemble(neg, e1, c1) == Encode(o.datum) &&
            st.raised + {Inexact} == old(st.raised) + o.flags
  {
    c1 := IncrementPair(c);
    e1 := e;
    if c1 == TEN34 {
      c1, e1 := TEN33, e1 + 1;
      if e1 == EXP_MAX + 1 {
        c1, e1 := INFINITY_COEF, 0;
        st.Raise({Overflow});
      }
    }
  }

  /** Moves the coefficient one ulp down, into the lower decade when it was 10^33. */
  method UlpDown(c: Bits128, e: int) returns (c1: Bits128, e1: int)
    requires TEN33 <= c < TEN34
    ensures (c1 as int, e1) == if c == TEN33 then (TEN34 - 1, e - 1) else (c - 1, e)
  {
    c1 := DecrementPair(c);
    e1 := e;
    if c1 == TEN33 - 1 {
      c1, e1 := TEN34 - 1, e1 - 1;
    }
  }

  /** |a - b|: subtracts, and negates a difference whose sign bit came out set. */
  method AbsoluteDifference(a: Bits128, b: Bits128) returns (d: Bits128, negative: bool)
    requires a < SIGN_UNIT && b < SIGN_UNIT
    ensures negative <==> a < b
    ensures d == if a < b then b - a else a - b
  {
    d := SubPair(a, b);
    negative := Hi(d) >= 0x8000_0000_0000_0000;
    if negative {
      d := NegatePair(d);
    }
  }
}
