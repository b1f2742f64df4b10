/**
 The two-word idioms of the kernel: carries, borrows, negation and shifts on a pair of 64-bit words,
 and what each computes on the 128-bit value the pair stands for.
 */
module Words {
  import opened Powers
  import opened Encoding

  /** Unsigned 64-bit wrap-around. */
  function Wrap(x: int): (w: int)
    ensures 0 <= w < W64
  {
    x % W64
  }

  // __unsigned_compare_gt_128 and __unsigned_compare_ge_128, also written out in many places
  function PairGt(a: Bits128, b: Bits128): (r: bool)
    ensures r <==> a > b
  {
    Hi(a) > Hi(b) || (Hi(a) == Hi(b) && Lo(a) > Lo(b))
  }

  function PairGe(a: Bits128, b: Bits128): (r: bool)
    ensures r <==> a >= b
  {
    Hi(a) > Hi(b) || (Hi(a) == Hi(b) && Lo(a) >= Lo(b))
  }

  lemma WrapCases(x: int)
    requires -W64 <= x < 2 * W64
    ensures Wrap(x) == if x < 0 then x + W64 else if x < W64 then x else x - W64
  {
  }

  lemma JoinWrap(h: int, l: int)
    requires 0 <= l < W64
    ensures Join(Wrap(h), l) == (h * W64 + l) % W128
  {
  }

  // __mul_128x64_to_128, __mul_64x128_short and __mul_128x128_low keep the low 128 bits of the product
  function MulLow128(a: nat, b: nat): Bits128 { a * b % W128 }

  function MulLow64(a: nat, b: nat): nat { a * b % W64 }

  lemma MulLowExact(a: nat, b: nat)
    ensures a * b < W128 ==> MulLow128(a, b) == a * b && MulLow128(b, a) == a * b
    ensures a * b < W64 ==> MulLow64(a, b) == a * b
  {
  }

  /** A wrapped sum or difference shows by its size whether it wrapped. */
  lemma AddWraps(x: int, y: int)
    requires 0 <= x < W64 && 0 <= y < W64
    ensures Wrap(x + y) == if Wrap(x + y) < x then x + y - W64 else x + y
    ensures Wrap(x + y) == if Wrap(x + y) < y then x + y - W64 else x + y
  {
  }

  lemma SubWraps(x: int, y: int)
    requires 0 <= x < W64 && 0 <= y < W64
    ensures Wrap(x - y) == if Wrap(x - y) > x then x - y + W64 else x - y
  {
  }

  /** Carrying into a word that wrapped is wrapping the carried sum. */
  lemma CarryWraps(x: int, c: int)
    requires -1 <= c <= 1
    ensures Wrap(Wrap(x) + c) == Wrap(x + c)
  {
  }

  /** Adds the low words, then the high words, and carries when the low sum wrapped below an operand. */
  method AddPair(a: Bits128, b: Bits128) returns (r: Bits128)
    ensures r == (a + b) % W128
    ensures a + b < W128 ==> r == a + b
  {
    hide Wrap;
    var lo := Wrap(Lo(a) + Lo(b));
    var hi := Wrap(Hi(a) + Hi(b));
    AddWraps(Lo(a), Lo(b));
    CarryWraps(Hi(a) + Hi(b), 1);
    JoinWrap(Hi(a) + Hi(b) + (if lo < Lo(a) then 1 else 0), lo);
    if lo < Lo(a) {
      hi := Wrap(hi + 1);
    }
    r := Join(hi, lo);
  }

  /** Subtracts word by word and borrows when the low difference wrapped above the operand. */
  method SubPair(a: Bits128, b: Bits128) returns (r: Bits128)
    ensures r == (a - b) % W128
    ensures a >= b ==> r == a - b
    ensures a < b ==> r == a - b + W128
  {
    hide Wrap;
    var lo := Wrap(Lo(a) - Lo(b));
    var hi := Wrap(Hi(a) - Hi(b));
    SubWraps(Lo(a), Lo(b));
    CarryWraps(Hi(a) - Hi(b), -1);
    JoinWrap(Hi(a) - Hi(b) - (if lo > Lo(a) then 1 else 0), lo);
    if lo > Lo(a) {
      hi := Wrap(hi - 1);
    }
    r := Join(hi, lo);
  }

  /** Two's complement: complement both words, add one below, carry when the low word became zero. */
  method NegatePair(a: Bits128) returns (r: Bits128)
    ensures r == (W128 - a) % W128
    ensures a > 0 ==> r == W128 - a
  {
    var lo := Wrap(W64 - 1 - Lo(a) + 1);
    var hi := W64 - 1 - Hi(a);
    WrapCases(W64 - Lo(a));
    if lo == 0 {
      hi := Wrap(hi + 1);
    }
    r := Join(hi, lo);
    JoinWrap(W64 - 1 - Hi(a) + if Lo(a) == 0 then 1 else 0, lo);
  }

  method IncrementPair(a: Bits128) returns (r: Bits128)
    requires a < W128 - 1
    ensures r == a + 1
  {
    var lo, hi := Wrap(Lo(a) + 1), Hi(a);
    WrapCases(Lo(a) + 1);
    if lo == 0 {
      hi := Wrap(hi + 1);
      WrapCases(Hi(a) + 1);
    }
    r := Join(hi, lo);
  }

  method DecrementPair(a: Bits128) returns (r: Bits128)
    requires a > 0
    ensures r == a - 1
  {
    var lo, hi := Wrap(Lo(a) - 1), Hi(a);
    WrapCases(Lo(a) - 1);
    if lo == 0xffff_ffff_ffff_ffff {
      hi := Wrap(hi - 1);
      WrapCases(Hi(a) - 1);
    }
    r := Join(hi, lo);
  }

  /** Adds 5, testing for the carry before adding. */
  method AddFive(a: Bits128) returns (r: Bits128)
    requires a < W128 - 5
    ensures r == a + 5
  {
    var lo, hi := Lo(a), Hi(a);
    if lo >= 0xffff_ffff_ffff_fffb {
      WrapCases(lo + 5);
      WrapCases(hi + 1);
      lo := Wrap(lo + 5);
      hi := Wrap(hi + 1);
    } else {
      lo := lo + 5;
    }
    r := Join(hi, lo);
  }

  /** Ten times a pair: shifted by three and by one, with the bits and the carry that cross the words. */
  method TimesTen(a: Bits128) returns (r: Bits128)
    requires 10 * a < W128
    ensures r == 10 * a
  {
    hide Wrap;
    var h, l := Hi(a), Lo(a);
    var up3, up1 := l / 0x2000_0000_0000_0000, l / 0x8000_0000_0000_0000;
    var hi := Wrap(h * 8 + h * 2 + up3 + up1);
    var eight := Wrap(l * 8);
    var lo := Wrap(Wrap(l * 2) + eight);
    ShiftedOut(l, up3, 8, 0x2000_0000_0000_0000);
    ShiftedOut(l, up1, 2, 0x8000_0000_0000_0000);
    assert a == h * W64 + l;
    AddWraps(Wrap(l * 2), eight);
    WrapInside(h * 8 + h * 2 + up3 + up1);
    if lo < eight {
      WrapInside(hi + 1);
      hi := Wrap(hi + 1);
    }
    r := Join(hi, lo);
  }

  lemma WrapInside(x: int)
    requires 0 <= x < W64
    ensures Wrap(x) == x
  {
  }

  /** A left shift loses the bits the complementary right shift shows. */
  lemma ShiftedOut(l: int, up: int, m: int, d: int)
    requires 0 <= l < W64 && (m, d) in {(8, 0x2000_0000_0000_0000), (2, 0x8000_0000_0000_0000)} && up == l / d
    ensures Wrap(l * m) == l * m - up * W64 && up >= 0
  {
  }

  /** The shift of a word pair by fewer than 64 bits is the shift of the value. */
  lemma ShiftPairValue(w3: nat, w2: nat, s: nat)
    requires w3 < W64 && w2 < W64 && 0 < s < 64
    ensures Pow2(s) * Pow2(64 - s) == W64
    ensures w3 % Pow2(s) * Pow2(64 - s) + w2 / Pow2(s) < W64
    ensures (w3 * W64 + w2) / Pow2(s) == w3 / Pow2(s) * W64 + (w3 % Pow2(s) * Pow2(64 - s) + w2 / Pow2(s))
  {
    hide Pow2;
    Pow2Values();
    Pow2Add(s, 64 - s);
    SplitShift(w3, w2, Pow2(s), Pow2(64 - s));
  }

  /** __shr_128_long: the pair shifted right. */
  function ShiftRight(a: Bits128, k: nat): (r: Bits128)
    requires 0 < k < 128 && k != 64
    ensures r == a / Pow2(k)
  {
    if k < 64 then
      ShiftShortValue(a, k);
      Join(Hi(a) / Pow2(k), Hi(a) % Pow2(k) * Pow2(64 - k) + Lo(a) / Pow2(k))
    else
      ShiftLongValue(a, k);
      Hi(a) / Pow2(k - 64)
  }

  lemma ShiftedWord(w: nat, p: nat)
    requires p >= 1
    ensures 0 <= w / p <= w
  {
  }

  lemma ShiftShortValue(a: Bits128, k: nat)
    requires 0 < k < 64
    ensures 0 <= Hi(a) / Pow2(k) < W64
    ensures 0 <= Hi(a) % Pow2(k) * Pow2(64 - k) + Lo(a) / Pow2(k) < W64
    ensures Hi(a) / Pow2(k) * W64 + (Hi(a) % Pow2(k) * Pow2(64 - k) + Lo(a) / Pow2(k)) == a / Pow2(k)
  {
    hide Pow2;
    ShiftPairValue(Hi(a), Lo(a), k);
    ShiftedWord(Hi(a), Pow2(k));
    ShiftedWord(Lo(a), Pow2(k));
    MulNonNegative(Hi(a) % Pow2(k), Pow2(64 - k));
  }

  lemma ShiftLongValue(a: Bits128, k: nat)
    requires 64 < k < 128
    ensures Hi(a) / Pow2(k - 64) == a / Pow2(k)
    ensures 0 <= Hi(a) / Pow2(k - 64) <= Hi(a)
  {
    hide Pow2;
    var u := Pow2(k - 64);
    Pow2Values();
    Pow2Add(64, k - 64);
    var q, r := Divide(Hi(a), u);
    ShiftedWord(Hi(a), u);
    MulAssoc(q, u, W64);
    MulMono(r, u - 1, W64);
    MulDistribute(u, 1, W64);
    assert a == q * (W64 * u) + (r * W64 + Lo(a));
    DivModUnique(a, Pow2(k), q, r * W64 + Lo(a));
  }

  /** __shl_128_long: the pair shifted left, what leaves the upper word being lost. */
  function ShiftLeft(a: Bits128, k: nat): (r: Bits128)
    requires 0 < k < 128 && k != 64
    ensures r == a % Pow2(128 - k) * Pow2(k)
  {
    if k < 64 then
      LeftShortValue(a, k);
      Join(Wrap(Hi(a) * Pow2(k)) + Lo(a) / Pow2(64 - k), Wrap(Lo(a) * Pow2(k)))
    else
      LeftLongValue(a, k);
      Join(Wrap(Lo(a) * Pow2(k - 64)), 0)
  }

  /** A word shifted left: the part that wraps away and the part that stays. */
  lemma LeftWord(w: nat, k: nat)
    requires w < W64 && 0 < k < 64
    ensures Wrap(w * Pow2(k)) == w % Pow2(64 - k) * Pow2(k)
    ensures w * Pow2(k) == w / Pow2(64 - k) * W64 + w % Pow2(64 - k) * Pow2(k)
    ensures 0 <= w / Pow2(64 - k) < Pow2(k)
  {
    hide Pow2;
    var p, u := Pow2(k), Pow2(64 - k);
    Pow2Values();
    Pow2Add(64 - k, k);
    var q, r := Divide(w, u);
    MulDistribute(q * u, r, p);
    MulAssoc(q, u, p);
    MulMono(r, u - 1, p);
    MulDistribute(u, 1, p);
    MulNonNegative(r, p);
    DivModUnique(w * p, W64, q, r * p);
    if q >= p {
      MulMono(p, q, u);
    }
  }

  lemma LeftShortValue(a: Bits128, k: nat)
    requires 0 < k < 64
    ensures 0 <= Lo(a) / Pow2(64 - k) && Wrap(Hi(a) * Pow2(k)) + Lo(a) / Pow2(64 - k) < W64
    ensures (Wrap(Hi(a) * Pow2(k)) + Lo(a) / Pow2(64 - k)) * W64 + Wrap(Lo(a) * Pow2(k)) == a % Pow2(128 - k) * Pow2(k)
  {
    hide Pow2, Wrap, Lo, Hi;
    var p, u := Pow2(k), Pow2(64 - k);
    LeftWord(Hi(a), k);
    LeftWord(Lo(a), k);
    Pow2Values();
    Pow2Add(64, 64 - k);
    Pow2Add(64 - k, k);
    HighBitsLost(Hi(a), Lo(a), p, u);
    WordsOf(a);
  }

  lemma WordsOf(a: Bits128)
    ensures a == Hi(a) * W64 + Lo(a)
  {
  }

  /** Of a pair shifted left, the bits of the upper word that stay, and the lower word. */
  lemma HighBitsLost(h: nat, l: nat, p: nat, u: nat)
    requires l < W64 && u * p == W64 && u > 0
    ensures h % u * p + l / u < W64
    ensures (h % u * p + l / u) * W64 + l % u * p == (h * W64 + l) % (W64 * u) * p
  {
    var q, r := Divide(h, u);
    var m, n := Divide(l, u);
    MulMono(r + 1, u, p);
    MulDistribute(r, 1, p);
    if m >= p {
      MulMono(p, m, u);
    }
    MulMono(r + 1, u, W64);
    MulDistribute(r, 1, W64);
    MulAssoc(q, u, W64);
    DivModUnique(h * W64 + l, W64 * u, q, r * W64 + l);
    MulDistribute(r * W64, l, p);
    MulAssoc(r, W64, p);
    MulDistribute(m * u, n, p);
    MulAssoc(m, u, p);
    MulDistribute(r * p, m, W64);
  }

  lemma LeftLongValue(a: Bits128, k: nat)
    requires 64 < k < 128
    ensures Wrap(Lo(a) * Pow2(k - 64)) * W64 == a % Pow2(128 - k) * Pow2(k)
  {
    hide Pow2, Wrap;
    var u := Pow2(128 - k);
    LeftWord(Lo(a), k - 64);
    Pow2Values();
    Pow2Add(64, k - 64);
    Pow2Add(128 - k, k - 64);
    var q, r := Divide(Lo(a), u);
    MulAssoc(Hi(a), Pow2(k - 64), u);
    MulDistribute(Hi(a) * Pow2(k - 64), q, u);
    DivModUnique(a, u, Hi(a) * Pow2(k - 64) + q, r);
    MulAssoc(r, Pow2(k - 64), W64);
  }

  lemma SplitShift(w3: nat, w2: nat, t: nat, u: nat)
    requires t > 0 && u > 0 && w2 < t * u
    ensures w3 % t * u + w2 / t < t * u
    ensures (w3 * (t * u) + w2) / t == w3 / t * (t * u) + (w3 % t * u + w2 / t)
  {
    DivModEquation(w3, t);
    DivModEquation(w2, t);
    DivNonNegative(w2, t);
    var q, a, b, r := w3 / t, w3 % t, w2 / t, w2 % t;
    assert u * t == t * u;
    if b >= u {
      MulMono(u, b, t);
    }
    MulMono(a, t - 1, u);
    MulDistribute(t, 1, u);
    Regroup(q, a, b, r, t, u);
    DivModUnique(w3 * (t * u) + w2, t, q * (t * u) + (a * u + b), r);
  }

  lemma Regroup(q: int, a: int, b: int, r: int, t: int, u: int)
    ensures (q * t + a) * (t * u) + (b * t + r) == (q * (t * u) + (a * u + b)) * t + r
  {
  }
}
