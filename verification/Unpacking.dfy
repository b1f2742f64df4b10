/** unpack_BID128_value and the quiet NaN an operation returns for a NaN operand. */
module Unpacking {
  import opened Powers
  import opened Encoding

  /** The quiet NaN returned for a NaN operand: its sign and its payload, unless that is not canonical. */
  function Quieted(b: Bits128): (r: Bits128)
    requires HasNaN(b)
    ensures HasNaN(r) && !HasSNaN(r) && (SignBit(r) <==> SignBit(b))
    ensures Decode(r) == NaN(false)
    ensures var payload := b % (0x4000_0000_0000 * W64);
            r == SignValue(SignBit(b)) + 0x7c00_0000_0000_0000 * W64 + if payload < TEN33 then payload else 0
  {
    var h, l := Hi(b) % 0x4000_0000_0000, Lo(b);
    var (ph, pl) :=
      if h > 0x314d_c644_8d93 || (h == 0x314d_c644_8d93 && l > 0x38c1_5b09_ffff_ffff) then (0, 0) else (h, l);
    var s := if SignBit(b) then 0x8000_0000_0000_0000 else 0;
    QuietFields(s, ph);
    PayloadWords(b, h, l);
    QuietSum(s, ph, pl);
    Join(s + 0x7c00_0000_0000_0000 + ph, pl)
  }

  lemma PayloadWords(b: Bits128, h: nat, l: nat)
    requires h == Hi(b) % 0x4000_0000_0000 && l == Lo(b)
    ensures b % (0x4000_0000_0000 * W64) == h * W64 + l
    ensures h > 0x314d_c644_8d93 || (h == 0x314d_c644_8d93 && l > 0x38c1_5b09_ffff_ffff) <==> h * W64 + l >= TEN33
  {
    DivModUnique(b, 0x4000_0000_0000 * W64, Hi(b) / 0x4000_0000_0000, h * W64 + l);
  }

  lemma QuietSum(s: nat, ph: nat, pl: nat)
    requires s == 0 || s == 0x8000_0000_0000_0000
    ensures (s + 0x7c00_0000_0000_0000 + ph) * W64 + pl ==
            SignValue(s > 0) + 0x7c00_0000_0000_0000 * W64 + (ph * W64 + pl)
  {
  }

  lemma QuietFields(s: nat, p: nat)
    requires (s == 0 || s == 0x8000_0000_0000_0000) && p < 0x4000_0000_0000
    ensures (s + 0x7c00_0000_0000_0000 + p) / 0x400_0000_0000_0000 % 32 == 31
    ensures (s + 0x7c00_0000_0000_0000 + p) / 0x200_0000_0000_0000 % 64 == 62
  {
  }

  lemma SignalingIsNaN(b: Bits128)
    ensures HasSNaN(b) ==> HasNaN(b)
  {
  }

  /** What the special patterns stand for. */
  lemma DecodedFacts(b: Bits128)
    ensures HasNaN(b) <==> Decode(b).NaN?
    ensures HasNaN(b) ==> Decode(b) == NaN(HasSNaN(b))
    ensures !HasNaN(b) && HasSpecial(b) ==> Decode(b) == Infinite(SignBit(b))
  {
  }

  /** Unpacks an encoding that is neither NaN nor infinity; a coefficient out of range is zero. */
  method Unpack(b: Bits128) returns (neg: bool, e: nat, c: Bits128)
    requires !HasSpecial(b)
    ensures Decode(b) == Finite(neg, e, c) && e <= EXP_MAX && c < TEN34
    ensures c != 0 ==> b == Encode(Finite(neg, e, c))
  {
    DecodeInFormat(b);
    SpecialImpliesSteering(b);
    neg := SignBit(b);
    if HasSteering(b) {
      e, c := ExpFieldShifted(b), 0;
    } else {
      e, c := ExpField(b), CoefField(b);
      if CoefHi(b) > 0x1_ed09_bead_87c0 || (CoefHi(b) == 0x1_ed09_bead_87c0 && Lo(b) > 0x378d_8e63_ffff_ffff) {
        c := 0;
      } else {
        CanonicalIff(b);
      }
    }
  }

  /** The infinity of either sign and the default NaN. */
  lemma InfinityPattern(neg: bool)
    ensures Decode(SignValue(neg) + INFINITY_COEF) == Infinite(neg)
    ensures Decode(0x7c00_0000_0000_0000 * W64) == NaN(false)
    ensures SignValue(neg) + INFINITY_COEF == Encode(Infinite(neg))
    ensures 0x7c00_0000_0000_0000 * W64 == Encode(NaN(false))
  {
    DecodeEncode(Infinite(neg));
    DecodeEncode(NaN(false));
  }

  /** The operand whose NaN a two-operand operation passes on, made quiet. */
  function NaNResult(x: Bits128, y: Bits128): Bits128
    requires HasNaN(x) || HasNaN(y)
  {
    if HasNaN(x) then Quieted(x) else Quieted(y)
  }

  /** It is the first operand that is a NaN. */
  lemma FirstNaN(x: Bits128, y: Bits128)
    requires HasNaN(x) || HasNaN(y)
    ensures HasNaN(x) ==> NaNResult(x, y) == Quieted(x)
    ensures !HasNaN(x) ==> NaNResult(x, y) == Quieted(y)
  {
  }

  predicate IsNonzero(d: Datum) { d.Finite? && d.coef != 0 }

  /** Assembled finite results. */
  lemma FinitePattern(neg: bool, e: nat, c: nat)
    requires e <= EXP_MAX && c < TEN34
    ensures SignValue(neg) + e * EXP_UNIT + c == Encode(Finite(neg, e, c))
    ensures Decode(SignValue(neg) + e * EXP_UNIT + c) == Finite(neg, e, c)
  {
    DecodeEncode(Finite(neg, e, c));
  }

  lemma ZeroPattern(neg: bool, e: nat)
    requires e <= EXP_MAX
    ensures SignValue(neg) + e * EXP_UNIT == Encode(Finite(neg, e, 0))
    ensures Decode(SignValue(neg) + e * EXP_UNIT) == Finite(neg, e, 0)
  {
    DecodeEncode(Finite(neg, e, 0));
  }

  /** The exponent of a zero result, kept inside the format. */
  function ClampExponent(e: int): (r: nat)
    ensures r <= 12287 && (e < r ==> r == 0) && (r < e ==> r == 12287)
  {
    if e > EXP_MAX then EXP_MAX else if e < 0 then 0 else e
  }
}
