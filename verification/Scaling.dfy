/** bid128_frexp and bid128_ldexp: taking a number apart into a fraction and a power of ten, and back. */
module Scaling {
  import opened Powers
  import opened Encoding
  import opened Words
  import opened DigitCount
  import opened Rounding
  import opened Arithmetic
  import opened Unpacking
  import opened Subnormal
  import opened Pack

  /** A nonzero finite number as a fraction in [1/10, 1) and an exponent; 1 is 10^6176 units. */
  ghost predicate IsFraction(d: Datum) {
    d.Finite? && Pow10(EXP_BIAS - 1) <= Abs(Units(d)) < Pow10(EXP_BIAS)
  }

  // & 0xfdffffffffffffff: clears the bit that tells a signaling NaN
  function ClearSignaling(b: Bits128): (r: Bits128)
    requires HasSNaN(b)
    ensures HasNaN(r) && !HasSNaN(r) && r + 0x200_0000_0000_0000_0000_0000_0000_0000 == b
  {
    SignalingBitCleared(b);
    b - 0x200_0000_0000_0000 * W64
  }

  lemma SignalingBitCleared(b: Bits128)
    requires HasSNaN(b)
    ensures b >= 0x200_0000_0000_0000 * W64
    ensures HasNaN(b - 0x200_0000_0000_0000 * W64) && !HasSNaN(b - 0x200_0000_0000_0000 * W64)
  {
    DivModUnique(b - 0x200_0000_0000_0000 * W64, W64, Hi(b) - 0x200_0000_0000_0000, Lo(b));
  }

  /** A fraction lies between a tenth of the number one and that number. */
  lemma FractionOfOne(d: Datum)
    requires d.Finite?
    ensures Decode(ONE).Finite?
    ensures IsFraction(d) <==> Units(Decode(ONE)) <= 10 * Abs(Units(d)) && Abs(Units(d)) < Units(Decode(ONE))
  {
    KnownPatterns();
    hide Pow10, Decode;
    Pow10Step(6175);
  }

  /** bid128_frexp. */
  method Frexp(x: Bits128) returns (res: Bits128, exp: int)
    ensures HasSpecial(x) ==> exp == 0 && res == if HasSNaN(x) then ClearSignaling(x) else x
    ensures !HasSpecial(x) ==>
              var d := Decode(x);
              && d.Finite? && Decode(res).Finite? && InFormat(Decode(res)) && res == Encode(Decode(res))
              && Decode(res).neg == d.neg && Decode(res).coef == d.coef && Decode(res).exp + exp == d.exp
              && (if d.coef == 0 then exp == 0 else IsFraction(Decode(res)))
  {
    hide Digits, Pow10, CountDigits, Encode, Decode, IsFraction;
    exp := 0;
    if HasSpecial(x) {
      res := if HasSNaN(x) then ClearSignaling(x) else x;
      return;
    }
    var neg, e, c := Unpack(x);
    if c == 0 {
      ZeroPattern(neg, e);
      res := SignValue(neg) + e * EXP_UNIT;
      return;
    }
    var q := CountDigits(c);
    FractionOfDigits(neg, c, q);
    exp := e - EXP_BIAS + q;
    FinitePattern(neg, EXP_BIAS - q, c);
    res := SignValue(neg) + (EXP_BIAS - q) * EXP_UNIT + c;
  }

  /** The number one is 0.1 times ten. */
  method FrexpOfOne(x: Bits128) returns (res: Bits128, exp: int)
    requires x == 0x3040_0000_0000_0000_0000_0000_0000_0001
    ensures res == 0x303e_0000_0000_0000_0000_0000_0000_0001 && exp == 1
  {
    KnownPatterns();
    DecodedFacts(ONE);
    hide Decode, Pow10;
    res, exp := Frexp(x);
    ghost var e := Decode(res).exp;
    if e < 6175 {
      Pow10Mono(e, 6174);
      Pow10Step(6174);
    } else if e > 6175 {
      Pow10Mono(6176, e);
    }
  }

  lemma FractionOfDigits(neg: bool, c: nat, q: nat)
    requires 0 < c < TEN34 && q == Digits(c)
    ensures 1 <= q <= 34 && IsFraction(Finite(neg, EXP_BIAS - q, c))
  {
    hide Pow10, Digits;
    DigitsBounds(c);
    Pow10Values();
    if q > 34 {
      Pow10Mono(34, q - 1);
    }
    var p := Pow10(EXP_BIAS - q);
    Pow10Add(q - 1, EXP_BIAS - q);
    Pow10Add(q, EXP_BIAS - q);
    MulMono(Pow10(q - 1), c, p);
    ScaleOrder(c, Pow10(q), p);
    MulNonNegative(c, p);
  }

  /** The high word below which the loop of bid128_ldexp goes on, as a bound on the coefficient: just under 10^33. */
  const LOOP_BOUND: nat := 0x314d_c644_8d93 * 0x1_0000_0000_0000_0000

  /** What bid128_ldexp delivers for a nonzero coefficient. */
  function LdexpOutcome(neg: bool, c: nat, e: int, mode: Mode): Outcome {
    if e < 0 then SubnormalOutcome(neg, c, 0 - e, mode)
    else if e <= EXP_MAX then Outcome(Finite(neg, e, c), {})
    else if c * Pow10(e - EXP_MAX - 1) < LOOP_BOUND then Outcome(Finite(neg, EXP_MAX, c * Pow10(e - EXP_MAX)), {})
    else Outcome(Overflowed(neg, mode), {Overflow, Inexact})
  }

  /**
   The result should be c * 10^e whenever that is representable. The loop's guard reads only the high word, so the
   code meets this exactly when the coefficient, one zero short, does not fall between its bound and 10^33.
   */
  lemma LdexpExactIff(neg: bool, c: nat, e: int, mode: Mode)
    requires 0 < c < TEN34
    ensures LdexpOutcome(neg, c, e, mode) == PackOutcome(neg, c, e, mode)
            <==> e <= 12287 || !(0x314d_c644_8d93 * 0x1_0000_0000_0000_0000 <= c * Pow10(e - 12288) < TEN33)
  {
    hide Pow10, SubnormalOutcome;
    if e > EXP_MAX {
      NextPower(c, e - EXP_MAX - 1);
    }
  }

  /** The multiply-by-ten loop: the value is kept, the coefficient stays in the format. */
  method ScaleDown(c0: Bits128, e0: nat) returns (c: Bits128, e: nat)
    requires 0 < c0 < TEN34 && e0 > EXP_MAX
    ensures EXP_MAX <= e <= e0 && c == c0 * Pow10(e0 - e) && c < TEN34
    ensures e == EXP_MAX ==> c0 * Pow10(e0 - EXP_MAX - 1) < LOOP_BOUND
    ensures e > EXP_MAX ==> c >= LOOP_BOUND
  {
    hide Pow10;
    c, e := c0, e0;
    Pow10Zero();
    while Hi(c) < 0x314d_c644_8d93 && e > EXP_MAX
      invariant EXP_MAX <= e <= e0 && c == c0 * Pow10(e0 - e) && 0 < c < TEN34
      invariant e == EXP_MAX ==> c0 * Pow10(e0 - EXP_MAX - 1) < LOOP_BOUND
      decreases e
    {
      NextPower(c0, e0 - e);
      var eight, two := 8 * c, 2 * c;
      c := AddPair(two, eight);
      e := e - 1;
    }
  }

  lemma ScaledOutcome(neg: bool, c0: nat, e0: nat, c: nat, e: nat, mode: Mode)
    requires 0 < c0 && EXP_MAX < e0 && EXP_MAX <= e <= e0 && c == c0 * Pow10(e0 - e)
    requires e == EXP_MAX ==> c0 * Pow10(e0 - EXP_MAX - 1) < LOOP_BOUND
    requires e > EXP_MAX ==> c >= LOOP_BOUND
    ensures LdexpOutcome(neg, c0, e0, mode) ==
            if e == EXP_MAX then Outcome(Finite(neg, EXP_MAX, c), {})
            else Outcome(Overflowed(neg, mode), {Overflow, Inexact})
  {
    hide Pow10;
    if e > EXP_MAX {
      Pow10Add(e0 - e, e - EXP_MAX - 1);
      MulAssoc(c0, Pow10(e0 - e), Pow10(e - EXP_MAX - 1));
      MulMono(1, Pow10(e - EXP_MAX - 1), c);
    }
  }

  /** An exponent above the largest one: scaled down by the loop, or an overflow. */
  method PackScaled(neg: bool, c: Bits128, exp64: nat, mode: Mode, st: Status) returns (res: Bits128)
    requires 0 < c < TEN34 && exp64 > EXP_MAX
    modifies st
    ensures var o := LdexpOutcome(neg, c, exp64, mode);
            && InFormat(o.datum) && res == Encode(o.datum) && st.raised == old(st.raised) + o.flags
  {
    hide Encode, Pow10;
    Pow10Zero();
    var c1, e1 := ScaleDown(c, exp64);
    ScaledOutcome(neg, c, exp64, c1, e1, mode);
    if e1 <= EXP_MAX {
      FinitePattern(neg, e1, c1);
      return SignValue(neg) + e1 * EXP_UNIT + c1;
    }
    PositivePower(c, exp64 - e1);
    FarTooLarge(c1, 0x7fff_ffff);
    res := PackResult(neg, 0x7fff_ffff, c1, mode, st);
  }

  /** bid128_ldexp. */
  method Ldexp(x: Bits128, n: int, mode: Mode, st: Status) returns (res: Bits128)
    requires -0x8000_0000 <= n < 0x8000_0000
    modifies st
    ensures var d := Decode(x);
            if HasNaN(x) then
              res == Quieted(x) && st.raised == old(st.raised) + if HasSNaN(x) then {Invalid} else {}
            else if d.Infinite? then res == Encode(d) && st.raised == old(st.raised)
            else if d.coef == 0 then
              InFormat(Finite(d.neg, ClampExponent(d.exp + n), 0))
              && res == Encode(Finite(d.neg, ClampExponent(d.exp + n), 0)) && st.raised == old(st.raised)
            else
              var o := LdexpOutcome(d.neg, d.coef, d.exp + n, mode);
              && InFormat(o.datum) && res == Encode(o.datum)
              && st.raised == old(st.raised) + o.flags + if d.exp + n < 0 then StickyFlags(old(st.raised)) else {}
  {
    hide Encode, Quieted, Pow10;
    DecodedFacts(x);
    SpecialImpliesSteering(x);
    SignalingIsNaN(x);
    if HasSpecial(x) {
      if HasSNaN(x) {
        st.Raise({Invalid});
      }
      InfinityPattern(SignBit(x));
      return if HasNaN(x) then Quieted(x) else SignValue(SignBit(x)) + INFINITY_COEF;
    }
    var neg, e, c := Unpack(x);
    var exp64 := e + n;
    if c == 0 {
      if exp64 < 0 {
        exp64 := 0;
      }
      if exp64 > EXP_MAX {
        exp64 := EXP_MAX;
      }
      ZeroPattern(neg, exp64);
      return SignValue(neg) + exp64 * EXP_UNIT;
    }
    if 0 <= exp64 <= EXP_MAX {
      FinitePattern(neg, exp64, c);
      return SignValue(neg) + exp64 * EXP_UNIT + c;
    }
    if exp64 > EXP_MAX {
      res := PackScaled(neg, c, exp64, mode, st);
      return;
    }
    res := PackResult(neg, exp64, c, mode, st);
  }

  lemma PositivePower(c: nat, k: nat)
    requires c > 0
    ensures c * Pow10(k) > 0
  {
  }

  /** A representable result that overflows: 0x314dc6448d93 * 2^64 at the largest exponent, times ten. */
  method LdexpOverflowsEarly(mode: Mode) returns (res: Bits128, flags: set<Flag>)
    ensures Decode(0x5ffe_314d_c644_8d93_0000_0000_0000_0000) ==
            Finite(false, 12287, 0x314d_c644_8d93_0000_0000_0000_0000)
    ensures 10 * 0x314d_c644_8d93_0000_0000_0000_0000 < TEN34
    ensures res == if mode == ToZero || mode == Down then 0x5fff_ed09_bead_87c0_378d_8e63_ffff_ffff
                   else 0x7800_0000_0000_0000_0000_0000_0000_0000
    ensures flags == {Overflow, Inexact}
  {
    Pow10Zero();
    hide Decode, Pow10;
    FiniteLayout(false, 12287, 0x314d_c644_8d93_0000_0000_0000_0000);
    DecodedFacts(0x5ffe_314d_c644_8d93_0000_0000_0000_0000);
    var st := new Status();
    res := Ldexp(0x5ffe_314d_c644_8d93_0000_0000_0000_0000, 1, mode, st);
    flags := st.raised;
  }

  /** A flag raised before makes an exact result underflow: 10 at the smallest exponent, divided by ten. */
  method LdexpUnderflowsExactly(mode: Mode) returns (res: Bits128, flags: set<Flag>)
    ensures res == Encode(Finite(false, 0, 1)) && flags == {Inexact, Underflow}
  {
    FinitePattern(false, 0, 10);
    assert Pow10(1) == 10;
    hide Encode, Decode, Pow10;
    var st := new Status();
    st.Raise({Inexact});
    res := Ldexp(Encode(Finite(false, 0, 10)), -1, mode, st);
    flags := st.raised;
  }

  /** ldexp undoes frexp, bit for bit up to canonicalisation, and raises nothing. */
  method FrexpThenLdexp(x: Bits128, mode: Mode) returns (y: Bits128, flags: set<Flag>)
    requires !HasSpecial(x)
    ensures InFormat(Decode(x)) && y == Encode(Decode(x)) && flags == {}
  {
    hide Encode, Pow10;
    DecodeInFormat(x);
    var fraction, exp := Frexp(x);
    DecodedFacts(fraction);
    DecodeInFormat(fraction);
    var st := new Status();
    y := Ldexp(fraction, exp, mode, st);
    flags := st.raised;
  }
}
