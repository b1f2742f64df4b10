/**
 bid128_add when the operands are at least 34 digits apart (delta >= 34): the larger operand, scaled to
 34 digits, moves by at most one unit in the last place.
 */
module AddFar {
  import opened Powers
  import opened Encoding
  import opened Words
  import opened Tables
  import opened Rounding
  import opened Positions
  import opened Arithmetic
  import opened AddCommon

  /** Two nonzero operands, x at or above the exponent of y, with their digit counts. */
  datatype Operands = Operands(xNeg: bool, xExp: nat, c1: Bits128, q1: nat,
                               yNeg: bool, yExp: nat, c2: Bits128, q2: nat) {
    ghost predicate Valid() {
      && IsOperand(c1, q1) && IsOperand(c2, q2)
      && q1 <= 34 && q2 <= 34
      && yExp <= xExp <= EXP_MAX
    }

    function Delta(): int { q1 + xExp - q2 - yExp }

    function X(): Datum { Finite(xNeg, xExp, c1) }

    function Y(): Datum { Finite(yNeg, yExp, c2) }

    predicate SameSign() { xNeg == yNeg }
  }

  lemma SumOfOperands(o: Operands)
    requires o.Valid()
    ensures ExactSum(o.X(), o.Y()) == Signed(o.xNeg, o.c1 * Pow10(o.xExp - o.yExp)) + Signed(o.yNeg, o.c2)
  {
  }

  /** A sum known as a signed magnitude is that magnitude rounded. */
  lemma FiniteSumOf(o: Operands, neg: bool, n: nat, mode: Mode)
    requires o.Valid() && n > 0 && ExactSum(o.X(), o.Y()) == Signed(neg, n)
    ensures FiniteSum(o.X(), o.Y(), mode) == Round34(neg, n, o.yExp, mode)
  {
  }

  lemma FarBounds(o: Operands, c: nat, s: nat)
    requires o.Valid() && o.Delta() >= 34
    requires c == o.c1 * Pow10(34 - o.q1) && s == o.Delta() + o.q2 - 34
    ensures TEN33 <= c < TEN34
    ensures 1 <= o.q2 <= s && 0 < o.c2 < Pow10(o.q2) <= Pow10(s)
    ensures s + o.yExp == o.xExp - (34 - o.q1) && 0 < s + o.yExp <= EXP_MAX
  {
    OperandBounds(o.c1, o.q1);
    OperandBounds(o.c2, o.q2);
    ScaledDigits(o.c1, o.q1, 34 - o.q1);
    Pow10Values();
    Pow10Mono(o.q2, s);
  }

  /** The exact sum of far-apart operands: the scaled larger operand at distance s, plus or minus the smaller. */
  lemma FarSum(o: Operands, c: nat, s: nat, mode: Mode)
    requires o.Valid() && o.Delta() >= 34
    requires c == o.c1 * Pow10(34 - o.q1) && s == o.Delta() + o.q2 - 34
    ensures c * Pow10(s) > o.c2
    ensures var n := if o.SameSign() then c * Pow10(s) + o.c2 else c * Pow10(s) - o.c2;
            FiniteSum(o.X(), o.Y(), mode) == Round34(o.xNeg, n, o.yExp, mode)
  {
    hide Round34;
    FarBounds(o, c, s);
    SumOfOperands(o);
    Pow10Add(34 - o.q1, s);
    MulAssoc(o.c1, Pow10(34 - o.q1), Pow10(s));
    assert o.c1 * Pow10(o.xExp - o.yExp) == c * Pow10(s);
    MulMono(1, c, Pow10(s));
    FiniteSumOf(o, o.xNeg, if o.SameSign() then c * Pow10(s) + o.c2 else c * Pow10(s) - o.c2, mode);
  }

  /** The rounded far sum of operands of one sign. */
  lemma FarSameSign(neg: bool, e0: nat, mode: Mode, c: nat, s: nat, c2: nat)
    requires TEN33 <= c < TEN34 && 0 < c2 < Pow10(s)
    ensures var up := if RoundsUp(mode, neg, c % 2 == 1, c2, Pow10(s)) then 1 else 0;
            Round34(neg, c * Pow10(s) + c2, e0, mode) == Place(neg, c + up, e0 + s, true, mode)
  {
    hide Round34, Pow10, Place;
    var n := c * Pow10(s) + c2;
    Round34At(neg, n, e0, mode, s, c, c2);
  }

  /** The rounded far difference, the larger coefficient above 10^33. */
  lemma FarOppositeSign(neg: bool, e0: nat, mode: Mode, c: nat, s: nat, c2: nat)
    requires TEN33 < c < TEN34 && 0 < c2 < Pow10(s)
    ensures c * Pow10(s) > c2
    ensures var up := if RoundsUp(mode, neg, c % 2 == 0, Pow10(s) - c2, Pow10(s)) then 1 else 0;
            Round34(neg, c * Pow10(s) - c2, e0, mode) == Place(neg, c - 1 + up, e0 + s, true, mode)
  {
    hide Round34, Pow10, Place;
    var p := Pow10(s);
    MulDistribute(c, 1, p);
    MulMono(1, c, p);
    Round34At(neg, c * p - c2, e0, mode, s, c - 1, p - c2);
  }

  /** The rounded far difference from 10^33: the last place below it is ten times smaller. */
  lemma FarDecade(neg: bool, e0: nat, mode: Mode, s: nat, c2: nat)
    requires s > 0 && 0 < c2 < Pow10(s - 1)
    ensures TEN33 * Pow10(s) > c2
    ensures var up := if RoundsUp(mode, neg, true, Pow10(s - 1) - c2, Pow10(s - 1)) then 1 else 0;
            Round34(neg, TEN33 * Pow10(s) - c2, e0, mode) == Place(neg, TEN34 - 1 + up, e0 + s - 1, true, mode)
  {
    hide Round34;
    var p := Pow10(s - 1);
    assert Pow10(s) == 10 * p;
    assert TEN33 * Pow10(s) == TEN34 * p;
    MulDistribute(TEN34, 1, p);
    Round34At(neg, TEN33 * Pow10(s) - c2, e0, mode, s - 1, TEN34 - 1, p - c2);
  }

  lemma PlaceTenFold(neg: bool, e: nat, mode: Mode)
    requires e > 0
    ensures Place(neg, TEN34, e - 1, true, mode) == Place(neg, TEN33, e, true, mode)
  {
  }

  /** Raises Inexact and assembles a coefficient that did not move. */
  method AssembleInexact(neg: bool, c: Bits128, e: int, st: Status, ghost mode: Mode) returns (res: Bits128)
    requires TEN33 <= c < TEN34 && 0 <= e <= EXP_MAX
    modifies st
    ensures var o := Place(neg, c, e, true, mode);
            && InFormat(o.datum) && res == Encode(o.datum)
            && st.raised == old(st.raised) + o.flags
  {
    AssemblePlaced(neg, c, e, true, mode);
    st.Raise({Inexact});
    res := Assemble(neg, e, c);
  }

  /** A directed mode that moves the result away from zero, for operands that both lie on that side. */
  predicate PushesOut(o: Operands, mode: Mode) {
    (mode == Down && o.xNeg && o.yNeg) || (mode == Up && !o.xNeg && !o.yNeg)
  }

  /** A directed mode that moves the result towards the smaller operand of the other sign. */
  predicate PullsIn(o: Operands, mode: Mode) {
    || (mode == Down && !o.xNeg && o.yNeg)
    || (mode == Up && o.xNeg && !o.yNeg)
    || (mode == ToZero && o.xNeg != o.yNeg)
  }

  /** Where the directed-mode step of the far paths puts a coefficient. */
  function Stepped(o: Operands, c: nat, e: nat, mode: Mode): Outcome
    requires TEN33 <= c < TEN34 && e > 0
  {
    if PushesOut(o, mode) then Place(o.xNeg, c + 1, e, true, mode)
    else if PullsIn(o, mode) then
      if c == TEN33 then Place(o.xNeg, TEN34 - 1, e - 1, true, mode) else Place(o.xNeg, c - 1, e, true, mode)
    else Place(o.xNeg, c, e, true, mode)
  }

  method FinishUp(neg: bool, c: Bits128, e: int, mode: Mode, st: Status) returns (res: Bits128)
    requires TEN33 <= c < TEN34 && 0 <= e <= EXP_MAX
    requires mode == ToNearest || mode == TiesAway || mode == if neg then Down else Up
    modifies st
    ensures var target := Place(neg, c + 1, e, true, mode);
            && InFormat(target.datum) && res == Encode(target.datum)
            && st.raised == old(st.raised) + target.flags
  {
    var c1, e1 := UlpUp(neg, c, e, mode, st);
    st.Raise({Inexact});
    res := Assemble(neg, e1, c1);
  }

  method FinishDown(neg: bool, c: Bits128, e: int, st: Status, ghost mode: Mode) returns (res: Bits128)
    requires TEN33 <= c < TEN34 && 0 < e <= EXP_MAX
    modifies st
    ensures var target := if c == TEN33 then Place(neg, TEN34 - 1, e - 1, true, mode)
                          else Place(neg, c - 1, e, true, mode);
            && InFormat(target.datum) && res == Encode(target.datum)
            && st.raised == old(st.raised) + target.flags
  {
    var c1, e1 := UlpDown(c, e);
    res := AssembleInexact(neg, c1, e1, st, mode);
  }

  /** The directed-mode step of the far paths: one ulp towards the exact value, or none. */
  method DirectedStep(o: Operands, c: Bits128, e: int, mode: Mode, st: Status) returns (res: Bits128)
    requires TEN33 <= c < TEN34 && 0 < e <= EXP_MAX
    modifies st
    ensures var target := Stepped(o, c, e, mode);
            && InFormat(target.datum) && res == Encode(target.datum)
            && st.raised == old(st.raised) + target.flags
  {
    if PushesOut(o, mode) {
      res := FinishUp(o.xNeg, c, e, mode, st);
    } else if PullsIn(o, mode) {
      res := FinishDown(o.xNeg, c, e, st, mode);
    } else {
      res := AssembleInexact(o.xNeg, c, e, st, mode);
    }
  }

  /** The value the table holds for half of 10^q2. */
  function HalfUlp(q2: nat): (h: Bits128)
    requires 1 <= q2 <= 34
    ensures 2 * h == Pow10(q2)
  {
    if q2 <= 19 then
      Midpoint64Value(q2 - 1);
      Midpoint64(q2 - 1)
    else
      Midpoint128Value(q2 - 20);
      Midpoint128(q2 - 20)
  }

  ghost predicate Delivers(o: Operands, mode: Mode, res: Bits128, before: set<Flag>, after: set<Flag>) {
    var target := FiniteSum(o.X(), o.Y(), mode);
    InFormat(target.datum) && res == Encode(target.datum) && after == before + target.flags
  }

  /** What delta >= 35 rounds to, except under a power of ten. */
  lemma VeryFarRegular(o: Operands, mode: Mode, c: nat, s: nat)
    requires o.Valid() && o.Delta() >= 35 && (o.SameSign() || c != TEN33)
    requires c == o.c1 * Pow10(34 - o.q1) && s == o.Delta() + o.q2 - 34
    ensures TEN33 <= c < TEN34 && 0 < o.yExp + s <= EXP_MAX
    ensures FiniteSum(o.X(), o.Y(), mode) == Stepped(o, c, o.yExp + s, mode)
  {
    hide Round34, FiniteSum, Digits, Pow10, Place;
    FarBounds(o, c, s);
    FarSum(o, c, s, mode);
    Pow10Mono(o.q2, s);
    if o.SameSign() {
      FarSameSign(o.xNeg, o.yExp, mode, c, s, o.c2);
    } else {
      FarOppositeSign(o.xNeg, o.yExp, mode, c, s, o.c2);
    }
  }

  /** What delta >= 35 rounds to, opposite signs and a power of ten. */
  lemma VeryFarDecade(o: Operands, mode: Mode, s: nat)
    requires o.Valid() && o.Delta() >= 35 && !o.SameSign()
    requires TEN33 == o.c1 * Pow10(34 - o.q1) && s == o.Delta() + o.q2 - 34
    ensures 1 < o.yExp + s <= EXP_MAX
    ensures FiniteSum(o.X(), o.Y(), mode) ==
            if (mode == ToNearest || mode == TiesAway) && o.Delta() == 35 && 2 * o.c2 > Pow10(o.q2)
            then Place(o.xNeg, TEN34 - 1, o.yExp + s - 1, true, mode)
            else Stepped(o, TEN33, o.yExp + s, mode)
  {
    hide Round34, FiniteSum, Digits, Pow10, Place;
    FarBounds(o, TEN33, s);
    FarSum(o, TEN33, s, mode);
    Pow10Mono(o.q2, s - 1);
    FarDecade(o.xNeg, o.yExp, mode, s, o.c2);
    PlaceTenFold(o.xNeg, o.yExp + s, mode);
    if s - 1 > o.q2 {
      Pow10Mono(o.q2, s - 2);
      Pow10Step(s - 2);
    }
  }

  /** The larger operand scaled to 34 digits, with its exponent. */
  method ScaleLarger(o: Operands) returns (c: Bits128, e: int)
    requires o.Valid() && o.Delta() >= 34
    ensures c == o.c1 * Pow10(34 - o.q1) && e == o.xExp - (34 - o.q1)
  {
    c, e := o.c1, o.xExp;
    if o.q1 < 34 {
      c := ScaleTo34(o.c1, o.q1);
      e := e - (34 - o.q1);
    } else {
      assert Pow10(34 - o.q1) == 1;
    }
  }

  /** delta >= 35: y is below a tenth of an ulp of x, or of the finer ulp under a power of ten. */
  method AddVeryFar(o: Operands, mode: Mode, st: Status) returns (res: Bits128)
    requires o.Valid() && o.Delta() >= 35
    modifies st
    ensures Delivers(o, mode, res, old(st.raised), st.raised)
  {
    hide Round34, FiniteSum, Digits, Pow10, Place;
    OperandBounds(o.c2, o.q2);
    var c, e := ScaleLarger(o);
    ghost var s := o.Delta() + o.q2 - 34;
    if o.SameSign() || c != TEN33 {
      VeryFarRegular(o, mode, c, s);
    } else {
      VeryFarDecade(o, mode, s);
    }
    if (mode == ToNearest || mode == TiesAway) && o.Delta() == 35 && c == TEN33 && o.xNeg != o.yNeg
       && PairGt(o.c2, HalfUlp(o.q2)) {
      c, e := TEN34 - 1, e - 1;
    }
    res := DirectedStep(o, c, e, mode, st);
  }

  /** C1 == 10^(q1 - 1), by the 64-bit or the 128-bit table. */
  function IsPowerOfTen(o: Operands): (r: bool)
    requires 1 <= o.q1 <= 34
    ensures r <==> o.c1 == Pow10(o.q1 - 1)
  {
    if o.q1 <= 20 then
      Ten2k64Value(o.q1 - 1);
      Hi(o.c1) == 0 && Lo(o.c1) == Ten2k64(o.q1 - 1)
    else
      Ten2k128Value(o.q1 - 21);
      o.c1 == Ten2k128(o.q1 - 21)
  }

  /** A coefficient scaled to 34 digits is 10^33 just for a power of ten, and even unless it had 34 digits already. */
  lemma ScaledFacts(o: Operands)
    requires o.Valid() && 1 <= o.q1
    ensures o.c1 * Pow10(34 - o.q1) == TEN33 <==> o.c1 == Pow10(o.q1 - 1)
    ensures o.q1 < 34 ==> o.c1 * Pow10(34 - o.q1) % 2 == 0
    ensures o.q1 == 34 ==> o.c1 * Pow10(34 - o.q1) == o.c1
  {
    hide Digits;
    var k := 34 - o.q1;
    Pow10Add(o.q1 - 1, k);
    Pow10Values();
    ScaleOrder(o.c1, Pow10(o.q1 - 1), Pow10(k));
    if k > 0 {
      EvenMultiple(o.c1, k);
    } else {
      assert Pow10(k) == 1;
    }
  }

  lemma EvenMultiple(c: nat, k: nat)
    requires k > 0
    ensures c * Pow10(k) % 2 == 0
  {
    var h := c * (5 * Pow10(k - 1));
    assert Pow10(k) == 2 * (5 * Pow10(k - 1));
    MulAssoc(c, 2, 5 * Pow10(k - 1));
    assert c * Pow10(k) == 2 * h;
  }

  /** What delta == 34 rounds to, except under a power of ten. */
  lemma OneUlpApart(o: Operands, mode: Mode, c: nat)
    requires o.Valid() && o.Delta() == 34 && (o.SameSign() || c != TEN33)
    requires c == o.c1 * Pow10(34 - o.q1)
    ensures TEN33 <= c < TEN34 && 0 < o.yExp + o.q2 <= EXP_MAX && 0 < o.c2 < Pow10(o.q2)
    ensures var up := if o.SameSign()
                      then if RoundsUp(mode, o.xNeg, c % 2 == 1, o.c2, Pow10(o.q2)) then 1 else 0
                      else if RoundsUp(mode, o.xNeg, c % 2 == 0, Pow10(o.q2) - o.c2, Pow10(o.q2)) then 0 else -1;
            c + up <= TEN34 && FiniteSum(o.X(), o.Y(), mode) == Place(o.xNeg, c + up, o.yExp + o.q2, true, mode)
  {
    hide Round34, FiniteSum, Digits, Pow10, Place;
    FarBounds(o, c, o.q2);
    FarSum(o, c, o.q2, mode);
    if o.SameSign() {
      FarSameSign(o.xNeg, o.yExp, mode, c, o.q2, o.c2);
    } else {
      FarOppositeSign(o.xNeg, o.yExp, mode, c, o.q2, o.c2);
    }
  }

  /**
   delta == 34: the step the code takes after comparing y with half an ulp of x. (It repeats the comparison
   and its three outcomes for q2 <= 19 and for q2 >= 20.)
   */
  function UlpStep(o: Operands, c: Bits128, half: Bits128, mode: Mode): (step: int)
    ensures -1 <= step <= 1
  {
    if PairGt(half, o.c2) then
      if PushesOut(o, mode) then 1 else if PullsIn(o, mode) then -1 else 0
    else if o.c2 == half && (o.q1 < 34 || o.c1 % 2 == 0) then
      if (mode == ToNearest && o.SameSign() && c % 2 == 1) || (mode == TiesAway && o.SameSign()) || PushesOut(o, mode)
      then 1
      else if (mode == ToNearest && !o.SameSign() && c % 2 == 1) || PullsIn(o, mode) then -1
      else 0
    else
      if (mode == ToNearest && !o.SameSign()) || (mode == TiesAway && !o.SameSign() && o.c2 != half) || PullsIn(o, mode)
      then -1
      else if (mode == ToNearest && o.SameSign()) || (mode == TiesAway && o.SameSign()) || PushesOut(o, mode) then 1
      else 0
  }

  /** That step is the correct rounding of the far sum. */
  lemma UlpStepRounds(o: Operands, mode: Mode, c: Bits128, half: Bits128)
    requires o.Valid() && o.Delta() == 34 && (o.SameSign() || c != TEN33)
    requires c == o.c1 * Pow10(34 - o.q1) && 2 * half == Pow10(o.q2)
    ensures TEN33 <= c < TEN34 && 0 < o.yExp + o.q2 <= EXP_MAX
    ensures UlpStep(o, c, half, mode) == 1 ==>
              mode == ToNearest || mode == TiesAway || mode == if o.xNeg then Down else Up
    ensures UlpStep(o, c, half, mode) == -1 ==> c != TEN33
    ensures FiniteSum(o.X(), o.Y(), mode) == Place(o.xNeg, c + UlpStep(o, c, half, mode), o.yExp + o.q2, true, mode)
  {
    hide Round34, FiniteSum, Digits, Pow10, Place;
    OneUlpApart(o, mode, c);
    ScaledFacts(o);
  }

  /** delta == 34, and no power of ten with the signs opposite. */
  method AddOneUlpApart(o: Operands, mode: Mode, st: Status) returns (res: Bits128)
    requires o.Valid() && o.Delta() == 34 && (o.SameSign() || o.c1 != Pow10(o.q1 - 1))
    modifies st
    ensures Delivers(o, mode, res, old(st.raised), st.raised)
  {
    hide Round34, FiniteSum, Digits, Pow10, Place, UlpStep;
    OperandBounds(o.c2, o.q2);
    ScaledFacts(o);
    var c, e := ScaleLarger(o);
    var half := HalfUlp(o.q2);
    UlpStepRounds(o, mode, c, half);
    var step := UlpStep(o, c, half, mode);
    if step == 1 {
      res := FinishUp(o.xNeg, c, e, mode, st);
    } else if step == -1 {
      res := FinishDown(o.xNeg, c, e, st, mode);
    } else {
      res := AssembleInexact(o.xNeg, c, e, st, mode);
    }
  }

  /** The exact difference from a power of ten at delta == 34, on the scale where y has one digit left. */
  lemma DecadeSum(o: Operands, mode: Mode)
    requires o.Valid() && o.Delta() == 34 && !o.SameSign() && o.c1 == Pow10(o.q1 - 1)
    ensures 1 <= o.q2 && Pow10(o.q2 - 1) <= o.c2 < 10 * Pow10(o.q2 - 1)
    ensures o.q1 <= 34 && o.c1 * Pow10(35 - o.q1) == TEN34
    ensures TEN34 * Pow10(o.q2 - 1) > o.c2
    ensures FiniteSum(o.X(), o.Y(), mode) == Round34(o.xNeg, TEN34 * Pow10(o.q2 - 1) - o.c2, o.yExp, mode)
    ensures 0 < o.yExp + o.q2 <= EXP_MAX
  {
    hide Round34, FiniteSum, Digits, Pow10;
    OperandBounds(o.c1, o.q1);
    OperandBounds(o.c2, o.q2);
    ScaledFacts(o);
    FarBounds(o, TEN33, o.q2);
    FarSum(o, TEN33, o.q2, mode);
    Pow10Step(o.q2 - 1);
    assert TEN33 * Pow10(o.q2) == TEN34 * Pow10(o.q2 - 1);
    Pow10Step(34 - o.q1);
    MulAssoc(o.c1, 10, Pow10(34 - o.q1));
  }

  /** A number between p and 10 * p rounded to one digit. */
  lemma OneDigit(c2: nat, p: nat, star: nat)
    requires p > 0 && p <= c2 < 10 * p && -(p as int) <= 2 * (c2 - star * p) <= p
    ensures 1 <= star <= 10
  {
    if star <= 0 {
      MulMono(star, 0, p);
    } else if star > 10 {
      MulMono(11, star, p);
    }
  }

  /** delta == 34 under a power of ten: y is rounded to one digit and taken from 10^34. */
  method AddUnderDecade(o: Operands, mode: Mode, st: Status) returns (res: Bits128)
    requires o.Valid() && o.Delta() == 34 && !o.SameSign() && o.c1 == Pow10(o.q1 - 1)
    modifies st
    ensures Delivers(o, mode, res, old(st.raised), st.raised)
  {
    hide Round34, FiniteSum, Digits, Describes, Pow10;
    DecadeSum(o, mode);
    var x1 := o.q2 - 1;
    var c := ScaleBy(o.c1, o.q1, 35 - o.q1);
    var star, pos := RoundSmaller(c, o.c2, x1, false);
    OneDigit(o.c2, Pow10(x1), star);
    if pos != ON_TARGET {
      st.Raise({Inexact});
    }
    var negative;
    c, negative := AbsoluteDifference(c, star);
    var neg := if negative then o.yNeg else o.xNeg;
    res := FinishCorrected(neg, c, o.yExp + x1, mode, pos, TEN34 * Pow10(x1) - o.c2, o.yExp, x1);
  }

  /** The correction to the asked mode and the assembly of a described coefficient that cannot overflow. */
  method FinishCorrected(neg: bool, c: Bits128, e: nat, mode: Mode, pos: Position,
                         ghost n: nat, ghost e0: nat, ghost k: nat)
    returns (res: Bits128)
    requires Describes(n, Pow10(k), c, pos) && e == e0 + k < EXP_MAX
    requires TEN33 <= c < TEN34 && (c == TEN33 ==> n >= c * Pow10(k))
    ensures n > 0
    ensures var o := Round34(neg, n, e0, mode);
            && InFormat(o.datum) && res == Encode(o.datum)
            && o.flags == if pos == ON_TARGET then {} else {Inexact}
  {
    hide Round34;
    DescribedRounding(neg, n, e0, mode, k, c, pos);
    ghost var rounded := c + Correction(mode, neg, pos);
    AssemblePlaced(neg, rounded, e, pos != ON_TARGET, mode);
    var c1, e1 := CorrectCoefficient(mode, neg, c, e, pos, c, e);
    res := Assemble(neg, e1, c1);
  }
}
