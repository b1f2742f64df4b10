/**
 The 128-bit binary-integer-decimal interchange encoding: IEEE 754-2008, section 3.5.2.

 An encoding is held as one number below 2^128; its two 64-bit words are Hi (w[1]) and Lo (w[0]).
 A mask test on a word is written as the division and remainder that select the same bits.
 */
module Encoding {
  import opened Powers

  const W64: int := 0x1_0000_0000_0000_0000
  const W128: int := 0x1_0000_0000_0000_0000_0000_0000_0000_0000

  type Bits128 = b: int | 0 <= b < W128

  const EXP_MAX: nat := 12287
  const EXP_BIAS: nat := 6176

  /** 2^113, the weight of the lowest exponent bit, and 2^127, the weight of the sign. */
  const EXP_UNIT: nat := 0x2_0000_0000_0000_0000_0000_0000_0000
  const SIGN_UNIT: nat := 0x8000_0000_0000_0000_0000_0000_0000_0000

  // the bits below the sign of an infinity and of the largest finite number
  const INFINITY_COEF: nat := 0x7800_0000_0000_0000 * 0x1_0000_0000_0000_0000
  const LARGEST_COEF: nat := 0x5fff_ed09_bead_87c0 * 0x1_0000_0000_0000_0000 + 0x378d_8e63_ffff_ffff

  /** The encoding of the number one. */
  const ONE: Bits128 := 0x3040_0000_0000_0000_0000_0000_0000_0001

  function Hi(b: Bits128): (w: int)
    ensures 0 <= w < W64
  {
    b / W64
  }

  function Lo(b: Bits128): (w: int)
    ensures 0 <= w < W64
  {
    b % W64
  }

  function Join(hi: int, lo: int): (b: Bits128)
    requires 0 <= hi < W64 && 0 <= lo < W64
    ensures Hi(b) == hi && Lo(b) == lo
  {
    hi * W64 + lo
  }

  predicate SignBit(b: Bits128) { Hi(b) >= 0x8000_0000_0000_0000 }

  // MASK_SPECIAL / MASK_INF, MASK_NAN / MASK_ANY_INF, MASK_SNAN and the steering bits
  predicate HasSpecial(b: Bits128) { Hi(b) / 0x800_0000_0000_0000 % 16 == 15 }

  predicate HasNaN(b: Bits128) { Hi(b) / 0x400_0000_0000_0000 % 32 == 31 }

  predicate HasSNaN(b: Bits128) { Hi(b) / 0x200_0000_0000_0000 % 64 == 63 }

  predicate HasSteering(b: Bits128) { Hi(b) / 0x2000_0000_0000_0000 % 4 == 3 }

  // (w[1] & MASK_EXP) >> 49 and ((w[1] << 2) & MASK_EXP) >> 49
  function ExpField(b: Bits128): nat { Hi(b) / 0x2_0000_0000_0000 % 0x4000 }

  function ExpFieldShifted(b: Bits128): nat { Hi(b) / 0x8000_0000_0000 % 0x4000 }

  // w[1] & MASK_COEFF with w[0] below it
  function CoefHi(b: Bits128): nat { Hi(b) % 0x2_0000_0000_0000 }

  function CoefField(b: Bits128): (c: nat)
    ensures c < EXP_UNIT
  {
    CoefHi(b) * W64 + Lo(b)
  }

  /** What an encoding stands for. The exponent is the biased one; NaN payloads are dropped. */
  datatype Datum =
    | Finite(neg: bool, exp: nat, coef: nat)
    | Infinite(neg: bool)
    | NaN(signaling: bool)

  function Decode(b: Bits128): Datum {
    if HasNaN(b) then NaN(HasSNaN(b))
    else if HasSpecial(b) then Infinite(SignBit(b))
    else if HasSteering(b) then Finite(SignBit(b), ExpFieldShifted(b), 0)
    else Finite(SignBit(b), ExpField(b), if CoefField(b) < TEN34 then CoefField(b) else 0)
  }

  predicate InFormat(d: Datum) {
    d.Finite? ==> d.exp <= EXP_MAX && d.coef < TEN34
  }

  function SignValue(neg: bool): nat { if neg then SIGN_UNIT else 0 }

  /** The one canonical encoding of a datum; a NaN gets the payload-free pattern. */
  function Encode(d: Datum): Bits128
    requires InFormat(d)
  {
    match d
    case Finite(neg, exp, coef) => SignValue(neg) + exp * EXP_UNIT + coef
    case Infinite(neg) => SignValue(neg) + 0x7800_0000_0000_0000 * W64
    case NaN(signaling) => (if signaling then 0x7e00_0000_0000_0000 else 0x7c00_0000_0000_0000) * W64
  }

  predicate IsCanonical(b: Bits128) {
    DecodeInFormat(b);
    b == Encode(Decode(b))
  }

  /** A 14-bit exponent whose two top bits are not both set is at most EXP_MAX. */
  lemma ExponentBound(e: nat)
    requires e / 0x1000 % 4 != 3
    ensures e % 0x4000 <= EXP_MAX
  {
  }

  lemma MaskOrder(h: nat)
    ensures h / 0x800_0000_0000_0000 == h / 0x400_0000_0000_0000 / 2
    ensures h / 0x2000_0000_0000_0000 == h / 0x800_0000_0000_0000 / 4
    ensures h / 0x800_0000_0000_0000 == h / 0x8000_0000_0000 / 0x1000
    ensures h / 0x2000_0000_0000_0000 == h / 0x2_0000_0000_0000 / 0x1000
  {
  }

  lemma LowBitsSet(n: nat, q: nat)
    ensures n % 32 == 31 ==> n / 2 % 16 == 15
    ensures q % 16 == 15 ==> q / 4 % 4 == 3
    ensures q / 4 % 4 == 3 && q % 16 != 15 ==> q % 4 != 3
  {
  }

  lemma SpecialImpliesSteering(b: Bits128)
    ensures HasNaN(b) ==> HasSpecial(b)
    ensures HasSpecial(b) ==> HasSteering(b)
    ensures HasSteering(b) && !HasSpecial(b) ==> Hi(b) / 0x800_0000_0000_0000 % 4 != 3
  {
    var h := Hi(b);
    MaskOrder(h);
    LowBitsSet(h / 0x400_0000_0000_0000, h / 0x800_0000_0000_0000);
  }

  lemma DecodeInFormat(b: Bits128)
    ensures InFormat(Decode(b))
  {
    var h := Hi(b);
    SpecialImpliesSteering(b);
    MaskOrder(h);
    if !HasSpecial(b) {
      if HasSteering(b) {
        ExponentBound(h / 0x8000_0000_0000);
        assert ExpFieldShifted(b) <= EXP_MAX;
      } else {
        ExponentBound(h / 0x2_0000_0000_0000);
        assert ExpField(b) <= EXP_MAX;
      }
    }
  }

  /** The fields of a word whose sign, exponent and upper coefficient bits are laid side by side. */
  lemma HighWordFields(neg: bool, e: nat, c: nat)
    requires e <= EXP_MAX && c < 0x2_0000_0000_0000
    ensures var h := (if neg then 0x8000_0000_0000_0000 else 0) + e * 0x2_0000_0000_0000 + c;
            && h < W64
            && (h >= 0x8000_0000_0000_0000 <==> neg)
            && h / 0x2_0000_0000_0000 % 0x4000 == e
            && h % 0x2_0000_0000_0000 == c
            && h / 0x2000_0000_0000_0000 % 4 != 3
  {
  }

  /** Packing and unpacking are inverse on every datum of the format. */
  lemma DecodeEncode(d: Datum)
    requires InFormat(d)
    ensures Decode(Encode(d)) == d
    ensures d.Finite? ==> !HasSteering(Encode(d)) && ExpField(Encode(d)) == d.exp && CoefField(Encode(d)) == d.coef
    ensures d.Finite? ==> (SignBit(Encode(d)) <==> d.neg)
  {
    match d
    case Finite(neg, exp, coef) =>
      EncodedWords(neg, exp, coef);
      SpecialImpliesSteering(Encode(d));
    case Infinite(neg) =>
      DecodeHigh(Encode(d), if neg then 0xf800_0000_0000_0000 else 0x7800_0000_0000_0000);
    case NaN(signaling) =>
      DecodeHigh(Encode(d), if signaling then 0x7e00_0000_0000_0000 else 0x7c00_0000_0000_0000);
  }

  /** The patterns with nothing below the special bits. */
  lemma DecodeHigh(b: Bits128, h: nat)
    requires b == h * W64
    requires h in {0x7800_0000_0000_0000, 0xf800_0000_0000_0000, 0x7c00_0000_0000_0000, 0x7e00_0000_0000_0000}
    ensures Decode(b) == if h == 0x7800_0000_0000_0000 then Infinite(false)
                         else if h == 0xf800_0000_0000_0000 then Infinite(true)
                         else NaN(h == 0x7e00_0000_0000_0000)
  {
    DivModUnique(b, W64, h, 0);
  }

  /** The layout: the sign at bit 127, the exponent from bit 113, the coefficient below it. */
  lemma FiniteLayout(neg: bool, e: nat, c: nat)
    requires e <= 12287 && c < TEN34
    ensures var b := (if neg then 0x8000_0000_0000_0000_0000_0000_0000_0000 else 0)
                     + e * 0x2_0000_0000_0000_0000_0000_0000_0000 + c;
            b < W128 && Decode(b) == Finite(neg, e, c)
  {
    hide Decode;
    DecodeEncode(Finite(neg, e, c));
  }

  /** Some patterns and what they stand for. */
  lemma KnownPatterns()
    ensures Decode(0x3040_0000_0000_0000_0000_0000_0000_0001) == Finite(false, 6176, 1)
    ensures Decode(0xb040_0000_0000_0000_0000_0000_0000_0001) == Finite(true, 6176, 1)
    ensures Decode(0x5fff_ed09_bead_87c0_378d_8e63_ffff_ffff) == Finite(false, 12287, TEN34 - 1)
    ensures Decode(0x7800_0000_0000_0000_0000_0000_0000_0000) == Infinite(false)
    ensures Decode(0xf800_0000_0000_0000_0000_0000_0000_0000) == Infinite(true)
    ensures Decode(0x7c00_0000_0000_0000_0000_0000_0000_0000) == NaN(false)
    ensures Decode(0x7e00_0000_0000_0000_0000_0000_0000_0000) == NaN(true)
  {
    hide Decode;
    DecodeEncode(Finite(false, 6176, 1));
    DecodeEncode(Finite(true, 6176, 1));
    DecodeEncode(Finite(false, 12287, TEN34 - 1));
    DecodeHigh(0x7800_0000_0000_0000 * W64, 0x7800_0000_0000_0000);
    DecodeHigh(0xf800_0000_0000_0000 * W64, 0xf800_0000_0000_0000);
    DecodeHigh(0x7c00_0000_0000_0000 * W64, 0x7c00_0000_0000_0000);
    DecodeHigh(0x7e00_0000_0000_0000 * W64, 0x7e00_0000_0000_0000);
  }

  /** A coefficient field of 10^34 or more is a zero at the exponent of the pattern. */
  lemma NonCanonicalCoefficient(neg: bool, e: nat, c: nat)
    requires e <= 12287 && TEN34 <= c < 0x2_0000_0000_0000_0000_0000_0000_0000
    ensures var b := (if neg then 0x8000_0000_0000_0000_0000_0000_0000_0000 else 0)
                     + e * 0x2_0000_0000_0000_0000_0000_0000_0000 + c;
            b < W128 && Decode(b) == Finite(neg, e, 0)
  {
    var ch, cl := Divide(c, W64);
    HighWordFields(neg, e, ch);
    var b := (if neg then SIGN_UNIT else 0) + e * EXP_UNIT + c;
    var h := (if neg then 0x8000_0000_0000_0000 else 0) + e * 0x2_0000_0000_0000 + ch;
    DivModUnique(b, W64, h, cl);
    SpecialImpliesSteering(b);
  }

  /** So is every pattern with the steering bits, whose exponent field lies two bits lower. */
  lemma SteeringPattern(neg: bool, e: nat, c: nat)
    requires e <= 12287 && c < 0x8000_0000_0000_0000_0000_0000_0000
    ensures var b := (if neg then 0x8000_0000_0000_0000_0000_0000_0000_0000 else 0)
                     + 0x6000_0000_0000_0000_0000_0000_0000_0000 + e * 0x8000_0000_0000_0000_0000_0000_0000 + c;
            b < W128 && Decode(b) == Finite(neg, e, 0)
  {
    var ch, cl := Divide(c, W64);
    var h := (if neg then 0x8000_0000_0000_0000 else 0) + 0x6000_0000_0000_0000 + e * 0x8000_0000_0000 + ch;
    SteeringWord(neg, e, ch);
    DivModUnique(h * W64 + cl, W64, h, cl);
    SpecialImpliesSteering(h * W64 + cl);
  }

  lemma SteeringWord(neg: bool, e: nat, c: nat)
    requires e <= 12287 && c < 0x8000_0000_0000
    ensures var h := (if neg then 0x8000_0000_0000_0000 else 0) + 0x6000_0000_0000_0000 + e * 0x8000_0000_0000 + c;
            && h < W64 && (h >= 0x8000_0000_0000_0000 <==> neg)
            && h / 0x2000_0000_0000_0000 % 4 == 3 && h / 0x800_0000_0000_0000 % 16 != 15
            && h / 0x8000_0000_0000 % 0x4000 == e
  {
  }

  /** The ranges of the special patterns below their sign. */
  lemma SpecialRanges(b: Bits128)
    ensures var low := b % 0x8000_0000_0000_0000_0000_0000_0000_0000;
            var neg := b >= 0x8000_0000_0000_0000_0000_0000_0000_0000;
            && (low < 0x7800_0000_0000_0000_0000_0000_0000_0000 <==> Decode(b).Finite?)
            && (0x7800_0000_0000_0000_0000_0000_0000_0000 <= low < 0x7c00_0000_0000_0000_0000_0000_0000_0000
                <==> Decode(b) == Infinite(neg))
            && (0x7c00_0000_0000_0000_0000_0000_0000_0000 <= low < 0x7e00_0000_0000_0000_0000_0000_0000_0000
                <==> Decode(b) == NaN(false))
            && (0x7e00_0000_0000_0000_0000_0000_0000_0000 <= low <==> Decode(b) == NaN(true))
  {
    var h, l := Hi(b), Lo(b);
    var neg := h >= 0x8000_0000_0000_0000;
    var g := if neg then h - 0x8000_0000_0000_0000 else h;
    HighRanges(h, g);
    DivModUnique(b, 0x8000_0000_0000_0000_0000_0000_0000_0000, if neg then 1 else 0, g * W64 + l);
  }

  lemma HighRanges(h: int, g: int)
    requires 0 <= h < W64 && g == if h >= 0x8000_0000_0000_0000 then h - 0x8000_0000_0000_0000 else h
    ensures h / 0x800_0000_0000_0000 % 16 == 15 <==> g >= 0x7800_0000_0000_0000
    ensures h / 0x400_0000_0000_0000 % 32 == 31 <==> g >= 0x7c00_0000_0000_0000
    ensures h / 0x200_0000_0000_0000 % 64 == 63 <==> g >= 0x7e00_0000_0000_0000
  {
  }

  /** The words of a finite encoding. */
  lemma EncodedWords(neg: bool, exp: nat, coef: nat)
    requires exp <= EXP_MAX && coef < TEN34
    ensures var b := Encode(Finite(neg, exp, coef));
            && Hi(b) == (if neg then 0x8000_0000_0000_0000 else 0) + exp * 0x2_0000_0000_0000 + coef / W64
            && Lo(b) == coef % W64
            && CoefHi(b) == coef / W64 && ExpField(b) == exp && !HasSteering(b) && (SignBit(b) <==> neg)
  {
    var ch, cl := Divide(coef, W64);
    HighWordFields(neg, exp, ch);
    DivModUnique(Encode(Finite(neg, exp, coef)), W64,
                 (if neg then 0x8000_0000_0000_0000 else 0) + exp * 0x2_0000_0000_0000 + ch, cl);
  }

  /** Every bit pattern that is not a NaN is some datum, and the canonical ones are exactly Encode's image. */
  lemma CanonicalIff(b: Bits128)
    requires !HasNaN(b)
    ensures IsCanonical(b) <==>
            if HasSpecial(b) then b % (0x800_0000_0000_0000 * W64) == 0
            else !HasSteering(b) && CoefField(b) < TEN34
  {
    DecodeInFormat(b);
    SpecialImpliesSteering(b);
    if HasSpecial(b) {
      CanonicalInfinity(b);
    } else if HasSteering(b) {
      DecodeEncode(Decode(b));
    } else {
      FieldsRejoin(b);
    }
  }

  lemma CanonicalInfinity(b: Bits128)
    requires HasSpecial(b)
    ensures b == SignValue(SignBit(b)) + 0x7800_0000_0000_0000 * W64 <==> b % (0x800_0000_0000_0000 * W64) == 0
  {
  }

  lemma FieldsRejoin(b: Bits128)
    requires !HasSteering(b)
    ensures b == SignValue(SignBit(b)) + ExpField(b) * EXP_UNIT + CoefField(b)
  {
  }

  /** The exact value of a finite datum, counted in units of 10^-6176, so that it is an integer. */
  function Units(d: Datum): int
    requires d.Finite?
  {
    if d.neg then -(d.coef * Pow10(d.exp)) else d.coef * Pow10(d.exp)
  }

  /** A coefficient has at most 113 bits. */
  lemma CoefficientLog2(c: nat)
    requires 0 < c < EXP_UNIT
    ensures FloorLog2(c) < 113
  {
    if FloorLog2(c) >= 113 {
      Pow2WideValues();
      Pow2Mono(113, FloorLog2(c));
    }
  }
}
