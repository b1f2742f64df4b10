/**
 Rounding off decimal digits with one multiplication: a coefficient plus half of 10^k is multiplied
 by a scaled reciprocal of 10^k, and the fraction bits of the product tell how it was rounded.
 */
module Reciprocal {
  import opened Powers
  import opened Encoding
  import opened Words
  import opened Tables

  /** Where a number lies relative to the multiple of 10^k that its midpoint-shifted quotient names. */
  datatype Fraction = Exact | Midpoint | Above | Below

  /** c less star * p is zero, minus half of p, between zero and half, or between minus half and zero. */
  ghost predicate FractionOf(c: nat, p: nat, star: nat, f: Fraction) {
    var d := 2 * (c - star * p);
    match f
    case Exact => d == 0
    case Midpoint => d + p == 0
    case Above => 0 < d < p
    case Below => 0 < d + p < p
  }

  /**
   With recip * p == two + d, the product of n and recip splits at two into the quotient of n by p
   and a fraction that carries the remainder, blurred by less than one p-th.
   */
  lemma ProductSplit(n: nat, p: nat, two: nat, d: nat, recip: nat, q: nat, r: nat, star: nat, fr: nat)
    requires recip * p == two + d && n * d < two
    requires n == q * p + r && r < p
    requires n * recip == star * two + fr && fr < two
    ensures star == q
    ensures fr * p == r * two + n * d
  {
    var g := n * recip - q * two;
    ScaledFraction(n, p, two, d, recip, q, r);
    MulNonNegative(r, two);
    MulNonNegative(n, d);
    MulMono(r, p - 1, two);
    MulDistribute(p, 1, two);
    if g < 0 {
      MulMono(g, -1, p);
    } else if g >= two {
      MulMono(two, g, p);
    }
    SameQuotient(two, star, fr, q, g);
  }

  lemma ScaledFraction(n: nat, p: nat, two: nat, d: nat, recip: nat, q: nat, r: nat)
    requires recip * p == two + d && n == q * p + r
    ensures (n * recip - q * two) * p == r * two + n * d
  {
  }

  lemma SameQuotient(d: nat, q: int, r: int, q': int, r': int)
    requires q * d + r == q' * d + r' && 0 <= r < d && 0 <= r' < d
    ensures q == q' && r == r'
  {
    DivModUnique(q * d + r, d, q, r);
    DivModUnique(q * d + r, d, q', r');
  }

  /** Comparing the fraction with trunc and with one half decides the four cases of the remainder. */
  lemma FractionDecides(fr: nat, r: nat, e: nat, p: nat, two: nat, trunc: nat)
    requires p % 2 == 0 && two % 2 == 0
    requires fr * p == r * two + e && 0 < e < trunc * p
    requires trunc * p < two < trunc * p + p
    ensures 0 < fr
    ensures fr <= trunc <==> r == 0
    ensures fr != two / 2
    ensures fr > two / 2 <==> 2 * r >= p
    ensures 2 * r >= p ==> (fr - two / 2 > trunc <==> 2 * r > p)
    ensures 2 * r >= p ==> (fr - two / 2 >= trunc <==> 2 * r > p)
  {
    MulNonNegative(r, two);
    MulDistribute(trunc, 1, p);
    if fr <= 0 {
      MulMono(fr, 0, p);
    }
    if r == 0 {
      if fr > trunc {
        MulMono(trunc, fr, p);
      }
    } else {
      MulMono(1, r, two);
      if fr <= trunc {
        MulMono(fr, trunc, p);
      }
    }
    HalfDecides(fr, r, e, p, two, trunc, p / 2, two / 2);
  }

  lemma HalfDecides(fr: nat, r: nat, e: nat, p: nat, two: nat, trunc: nat, h: nat, half: nat)
    requires p == 2 * h && two == 2 * half
    requires fr * p == r * two + e && 0 < e < trunc * p
    requires trunc * p < two
    ensures fr != half
    ensures fr > half <==> r >= h
    ensures r >= h ==> (fr - half > trunc <==> r > h)
    ensures r >= h ==> (fr - half >= trunc <==> r > h)
  {
    var g := fr - half;
    MulDistribute(fr, half, p);
    MulDistribute(r, h, two);
    MulAssoc(half, 2, h);
    assert g * p == (r - h) * two + e;
    if r < h {
      MulMono(r - h, -1, two);
      if g > 0 {
        MulMono(1, g, p);
      }
    } else {
      MulNonNegative(r - h, two);
      if g <= 0 {
        MulMono(g, 0, p);
      }
      if r == h {
        if g >= trunc {
          MulMono(trunc, g, p);
        }
      } else {
        MulMono(1, r - h, two);
        if g <= trunc {
          MulMono(g, trunc, p);
        }
      }
    }
  }

  /** The four words of a 256-bit product. */
  datatype Words256 = Words256(w3: nat, w2: nat, w1: nat, w0: nat) {
    ghost predicate Valid() { w3 < W64 && w2 < W64 && w1 < W64 && w0 < W64 }

    ghost function Value(): int { (w3 * W64 + w2) * W128 + (w1 * W64 + w0) }
  }

  function SplitProduct(prod: nat): (w: Words256)
    requires prod < W128 * W128
    ensures w.Valid() && w.Value() == prod
  {
    var top, low := prod / W128, prod % W128;
    Words256(top / W64, top % W64, low / W64, low % W64)
  }

  /** Shifting the two upper words right by fewer than 64 bits and masking what falls off the lower one. */
  lemma ShortShift(w: Words256, s: nat, star: int, high: int)
    requires w.Valid() && 0 < s < 64
    requires high == w.w2 % Pow2(s)
    requires star == w.w3 / Pow2(s) * W64 + (w.w3 % Pow2(s) * Pow2(64 - s) + w.w2 / Pow2(s))
    ensures w.w3 * W64 + w.w2 == star * Pow2(s) + high && 0 <= high < Pow2(s)
    ensures w.w3 % Pow2(s) * Pow2(64 - s) + w.w2 / Pow2(s) < W64
  {
    ShiftPairValue(w.w3, w.w2, s);
    var t, u := Pow2(s), Pow2(64 - s);
    var q, a := Divide(w.w3, t);
    var b, r := Divide(w.w2, t);
    Regroup(q, a, b, r, t, u);
  }

  /** The same for a shift past the lower word. */
  lemma LongShift(w: Words256, s: nat, star: int, high: int)
    requires w.Valid() && s > 64
    requires star == w.w3 / Pow2(s - 64) && high == w.w3 % Pow2(s - 64)
    ensures w.w3 * W64 + w.w2 == star * Pow2(s) + (high * W64 + w.w2)
    ensures 0 <= high < Pow2(s - 64) && high * W64 + w.w2 < Pow2(s) && star >= 0
  {
    hide Pow2;
    var u := Pow2(s - 64);
    Pow2Values();
    Pow2Add(64, s - 64);
    var q, r := Divide(w.w3, u);
    MulAssoc(q, u, W64);
  }

  /** The tests on the fraction words place the fraction f* == fr, given one half and the truncated reciprocal. */
  ghost predicate Inspected(fr: int, half: int, trunc: int, f: Fraction) {
    && (f.Midpoint? <==> 0 < fr <= trunc)
    && (!f.Midpoint? ==> (f.Below? <==> fr <= half))
    && (f.Exact? ==> fr > half && fr - half <= trunc)
    && (f.Above? ==> fr > half && fr - half >= trunc)
  }

  function NameFraction(aboveHalf: bool, pastTrunc: bool, midpoint: bool): Fraction {
    if midpoint then Midpoint else if !aboveHalf then Below else if pastTrunc then Above else Exact
  }

  /** ind <= 2: the fraction is the low 128 bits. */
  method InspectLow(w: Words256, trunc: Bits128) returns (f: Fraction)
    requires w.Valid() && trunc < W128 / 2
    ensures Inspected(w.w1 * W64 + w.w0, W128 / 2, trunc, f)
  {
    var low := Join(w.w1, w.w0);
    var aboveHalf := w.w1 > 0x8000_0000_0000_0000 || (w.w1 == 0x8000_0000_0000_0000 && w.w0 > 0);
    var pastTrunc := false;
    if aboveHalf {
      pastTrunc := PairGe(low - W128 / 2, trunc);
    }
    f := NameFraction(aboveHalf, pastTrunc, (w.w1 != 0 || w.w0 != 0) && PairGe(trunc, low));
  }

  /** 3 <= ind <= 21: the fraction is the masked word w2 over the low 128 bits. */
  method InspectMiddle(w: Words256, high: nat, oneHalf: nat, trunc: Bits128) returns (f: Fraction)
    requires w.Valid() && oneHalf > 0
    ensures Inspected(high * W128 + (w.w1 * W64 + w.w0), oneHalf * W128, trunc, f)
  {
    var low := Join(w.w1, w.w0);
    var aboveHalf := high > oneHalf || (high == oneHalf && (w.w1 != 0 || w.w0 != 0));
    var pastTrunc := aboveHalf && (high - oneHalf != 0 || PairGt(low, trunc));
    f := NameFraction(aboveHalf, pastTrunc, (w.w1 != 0 || w.w0 != 0) && high == 0 && PairGe(trunc, low));
  }

  /** 22 <= ind: the fraction is the masked word w3 over the three other words. */
  method InspectHigh(w: Words256, high: nat, oneHalf: nat, trunc: Bits128) returns (f: Fraction)
    requires w.Valid() && oneHalf > 0
    ensures Inspected((high * W64 + w.w2) * W128 + (w.w1 * W64 + w.w0), oneHalf * W64 * W128, trunc, f)
  {
    var low := Join(w.w1, w.w0);
    var aboveHalf := high > oneHalf || (high == oneHalf && (w.w2 != 0 || w.w1 != 0 || w.w0 != 0));
    var pastTrunc := aboveHalf && (high - oneHalf != 0 || w.w2 != 0 || PairGt(low, trunc));
    f := NameFraction(aboveHalf, pastTrunc,
                      (w.w1 != 0 || w.w0 != 0) && high == 0 && w.w2 == 0 && PairGe(trunc, low));
  }

  /** A quotient and a high fraction part of the upper words, put over the low words. */
  lemma PutTogether(w: Words256, star: int, high: int, t: nat)
    requires w.Valid() && w.w3 * W64 + w.w2 == star * t + high && 0 <= high < t
    ensures w.Value() == star * (W128 * t) + (high * W128 + (w.w1 * W64 + w.w0))
    ensures 0 <= high * W128 + (w.w1 * W64 + w.w0) < W128 * t
  {
  }

  method SplitMiddle(w: Words256, s: nat, oneHalf: nat, trunc: Bits128) returns (star: nat, f: Fraction, ghost fr: nat)
    requires w.Valid() && 0 < s < 64 && oneHalf == Pow2(s - 1)
    ensures w.Value() == star * (W128 * Pow2(s)) + fr && fr < W128 * Pow2(s)
    ensures Inspected(fr, W128 * Pow2(s) / 2, trunc, f)
  {
    var high := w.w2 % Pow2(s);
    var q := w.w3 / Pow2(s) * W64 + (w.w3 % Pow2(s) * Pow2(64 - s) + w.w2 / Pow2(s));
    ShortShift(w, s, q, high);
    QuotientNonNegative(q, Pow2(s), high);
    star := q;
    f := InspectMiddle(w, high, oneHalf, trunc);
    fr := high * W128 + (w.w1 * W64 + w.w0);
    PutTogether(w, star, high, Pow2(s));
    HalfOfScale(s);
  }

  lemma QuotientNonNegative(q: int, d: nat, r: int)
    requires q * d + r >= 0 && r < d
    ensures q >= 0
  {
  }

  method SplitHigh(w: Words256, s: nat, oneHalf: nat, trunc: Bits128) returns (star: nat, f: Fraction, ghost fr: nat)
    requires w.Valid() && s > 64 && oneHalf == Pow2(s - 65)
    ensures w.Value() == star * (W128 * Pow2(s)) + fr && fr < W128 * Pow2(s)
    ensures Inspected(fr, W128 * Pow2(s) / 2, trunc, f)
  {
    var high := w.w3 % Pow2(s - 64);
    var q := w.w3 / Pow2(s - 64);
    LongShift(w, s, q, high);
    star := q;
    f := InspectHigh(w, high, oneHalf, trunc);
    fr := (high * W64 + w.w2) * W128 + (w.w1 * W64 + w.w0);
    PutTogether(w, star, high * W64 + w.w2, Pow2(s));
    HalfOfScale(s);
  }

  /** Masks, shifts and inspects the product words according to the row ind of the tables. */
  method InspectProduct(prod: nat, ind: nat, s: nat, oneHalf: nat, trunc: Bits128)
    returns (star: nat, f: Fraction, ghost fr: nat)
    requires prod < W128 * W128 && trunc < W128 / 2
    requires ind <= 2 ==> s == 0
    requires 3 <= ind <= 21 ==> 0 < s < 64 && oneHalf == Pow2(s - 1)
    requires 22 <= ind ==> s > 64 && oneHalf == Pow2(s - 65)
    ensures prod == star * (W128 * Pow2(s)) + fr && fr < W128 * Pow2(s)
    ensures Inspected(fr, W128 * Pow2(s) / 2, trunc, f)
  {
    var w := SplitProduct(prod);
    if ind <= 2 {
      star := Join(w.w3, w.w2);
      f := InspectLow(w, trunc);
      fr := w.w1 * W64 + w.w0;
    } else if ind <= 21 {
      star, f, fr := SplitMiddle(w, s, oneHalf, trunc);
    } else {
      star, f, fr := SplitHigh(w, s, oneHalf, trunc);
    }
  }

  lemma HalfOfScale(s: nat)
    requires s > 0
    ensures W128 * Pow2(s) / 2 == Pow2(s - 1) * W128
    ensures s > 64 ==> Pow2(s - 1) == Pow2(s - 65) * W64
  {
    assert Pow2(s) == 2 * Pow2(s - 1);
    if s > 64 {
      Pow2Values();
      Pow2Add(64, s - 65);
    }
  }

  /** Adds half of 10^(ind + 1), from the 64-bit or the 128-bit midpoint table. */
  method AddMidpoint(c: Bits128, ind: nat) returns (shifted: Bits128)
    requires c < TEN34 && ind <= 32
    ensures shifted == c + Pow10(ind + 1) / 2
    ensures 0 < shifted < 2 * TEN34
  {
    hide Pow10, Midpoint64, Midpoint128;
    Pow10Even(ind + 1);
    Pow10Values();
    Pow10Mono(ind + 1, 33);
    if ind <= 18 {
      Midpoint64Value(ind);
      shifted := AddPair(c, Midpoint64(ind));
    } else {
      Midpoint128Value(ind - 19);
      shifted := AddPair(c, Midpoint128(ind - 19));
    }
  }

  /**
   Rounds c off by ind + 1 digits (smilelib/decimal/bid128_add.c, at roundC2 and in the delta == 34
   case): star is the nearest multiple, ties upwards, and f says on which side of it c lies.
   */
  method RoundOff(c: Bits128, ind: nat) returns (star: nat, f: Fraction)
    requires c < TEN34 && ind <= 32
    ensures FractionOf(c, Pow10(ind + 1), star, f)
  {
    hide Pow10, Pow2, Ten2mk128, Ten2mk128Trunc, ShiftRight128, OneHalf128, FractionOf, Inspected;
    var shifted := AddMidpoint(c, ind);
    ReciprocalRow(ind);
    FractionRow(ind);
    ProductFits(shifted, Ten2mk128(ind));
    ghost var fr;
    var product := shifted * Ten2mk128(ind);
    star, f, fr := InspectProduct(product, ind, ShiftRight128(ind), OneHalf128(ind), Ten2mk128Trunc(ind));
    RoundOffDecides(c, ind, shifted, star, fr, f);
  }

  lemma ProductFits(a: nat, b: nat)
    requires a < 2 * TEN34 && b < W128
    ensures 0 <= a * b < W128 * W128
  {
    MulMono(a, 2 * TEN34, b);
    MulNonNegative(a, b);
  }

  lemma EvenScale(t: nat)
    ensures W128 * t % 2 == 0
  {
  }

  lemma RoundOffDecides(c: nat, ind: nat, shifted: nat, star: nat, fr: nat, f: Fraction)
    requires ind <= 32 && 0 < shifted < 2 * TEN34 && shifted == c + Pow10(ind + 1) / 2
    requires var two := W128 * Pow2(ShiftRight128(ind));
             && shifted * Ten2mk128(ind) == star * two + fr && fr < two
             && Inspected(fr, two / 2, Ten2mk128Trunc(ind), f)
    ensures FractionOf(c, Pow10(ind + 1), star, f)
  {
    hide Pow10, Pow2, Ten2mk128, Ten2mk128Trunc, ShiftRight128, FractionOf, Inspected;
    ReciprocalRow(ind);
    Pow10Even(ind + 1);
    EvenScale(Pow2(ShiftRight128(ind)));
    var p, two, recip := Pow10(ind + 1), W128 * Pow2(ShiftRight128(ind)), Ten2mk128(ind);
    var e := recip * p - two;
    RoundOffBounds(shifted, p, two, e, recip, Ten2mk128Trunc(ind));
    InspectedPosition(c, shifted, p, two, e, recip, Ten2mk128Trunc(ind), star, fr, f);
  }

  /** What the inspected fraction of the shifted product says about c. */
  lemma InspectedPosition(c: nat, shifted: nat, p: nat, two: nat, e: nat, recip: nat, trunc: nat,
                          star: nat, fr: nat, f: Fraction)
    requires p > 0 && p % 2 == 0 && two % 2 == 0
    requires shifted == c + p / 2
    requires recip * p == two + e && 0 < shifted * e < trunc * p
    requires trunc * p < two < trunc * p + p
    requires shifted * recip == star * two + fr && fr < two
    requires Inspected(fr, two / 2, trunc, f)
    ensures FractionOf(c, p, star, f)
    ensures fr != two / 2
  {
    var q, r := Divide(shifted, p);
    ProductSplit(shifted, p, two, e, recip, q, r, star, fr);
    FractionDecides(fr, r, shifted * e, p, two, trunc);
  }

  lemma RoundOffBounds(shifted: nat, p: nat, two: nat, e: nat, recip: nat, trunc: nat)
    requires 0 < shifted < 3 * TEN34
    requires p > 0 && two == recip * p - e && 0 < e < p
    requires trunc == recip - 1 && 3 * TEN34 * p < two
    ensures 0 < shifted * e < trunc * p
    ensures trunc * p < two < trunc * p + p
  {
  }
}
