/** bid128_div for finite nonzero operands: scaling, the quotient and its rounding, and zero removal. */
module DivSteps {
  import opened Powers
  import opened Encoding
  import opened Words
  import opened Tables
  import opened DivTables
  import opened Rounding
  import opened Estimate
  import opened Zeros

  // bid___div_128_by_128 and bid___div_256_by_128 (smilelib/decimal/bid_div_macros.h) as exact division

  /** cq is cx * 10^k / cy cut off, rem what remains. */
  ghost predicate CutQuotient(cx: nat, cy: nat, k: nat, cq: nat, rem: nat) {
    cx * Pow10(k) == cq * cy + rem && rem < cy
  }

  /** A dividend between 10^33 and 10^34 times the divisor has a 34-digit quotient. */
  lemma QuotientSize(n: nat, cy: nat, cq: nat, rem: nat)
    requires cy > 0 && n == cq * cy + rem && rem < cy && TEN33 * cy <= n < TEN34 * cy
    ensures TEN33 <= cq < TEN34
  {
    MulDistribute(cq, 1, cy);
    if cq < TEN33 {
      MulMono(cq + 1, TEN33, cy);
    } else if cq >= TEN34 {
      MulMono(TEN34, cq, cy);
    }
  }

  lemma ScaledDividend(ca: nat, cy: nat)
    requires ca < 10 * cy && cy < 10 * ca
    ensures cy <= ca ==> TEN33 * cy <= ca * TEN33 < TEN34 * cy
    ensures ca < cy ==> TEN33 * cy <= ca * TEN34 < TEN34 * cy
  {
  }

  /** CX * 10^d from the estimated exponent, in the word sizes the code picks. */
  method ScaleSmaller(cx: Bits128, cy: Bits128) returns (ca: Bits128, d: nat)
    requires 0 < cx < cy < TEN34
    ensures ca == cx * Pow10(d) && d <= 35
    ensures ca < 10 * cy && cy < 10 * ca
  {
    hide Power10Index, EstimateDigits, Pow10, Pow2, MulLow128;
    var b := FloatQuotientExponent(cx, cy);
    QuotientScaled(cx, cy, b);
    d := EstimateDigits(b);
    var ten := Power10Index(b);
    ScaledExactly(cx, cy, ten);
    ca := if Hi(cx) != 0 then MulLow128(ten % W64, cx) else MulLow128(Lo(cx), ten);
  }

  lemma ScaledExactly(cx: Bits128, cy: Bits128, ten: nat)
    requires 0 < cx < cy < TEN34 && cx * ten < 10 * cy
    ensures Hi(cx) != 0 ==> MulLow128(ten % W64, cx) == cx * ten
    ensures Hi(cx) == 0 ==> MulLow128(Lo(cx), ten) == cx * ten
  {
    MulLowExact(cx, ten);
    if Hi(cx) != 0 {
      IndexFitsWord(cx, ten);
    }
  }

  lemma IndexFitsWord(cx: nat, ten: nat)
    requires cx >= W64 && cx * ten < 10 * TEN34
    ensures ten < W64
  {
  }

  /** CX < CY: one scaling brings the quotient to 34 digits. */
  method DivideSmaller(cx: Bits128, cy: Bits128) returns (cq: Bits128, ca4: Bits128, ed2: nat)
    requires 0 < cx < cy < TEN34
    ensures CutQuotient(cx, cy, ed2, cq, ca4) && TEN33 <= cq < TEN34
    ensures ed2 >= 33
  {
    hide Pow10;
    Pow10Values();
    var ca, d := ScaleSmaller(cx, cy);
    ed2 := 33;
    if PairGt(cy, ca) {
      ed2 := ed2 + 1;
    }
    Power10TableValue(ed2);
    var product := ca * Power10Table128(ed2);
    MulNonNegative(ca, Pow10(ed2));
    ghost var q, r := Divide(product, cy);
    ScaledDividend(ca, cy);
    QuotientSize(product, cy, q, r);
    Pow10Add(d, ed2);
    MulAssoc(cx, Pow10(d), Pow10(ed2));
    cq, ca4 := product / cy, product % cy;
    ed2 := ed2 + d;
  }

  /** CX >= CY with a remainder: the integer quotient is extended to 34 digits. */
  method ExtendQuotient(cx: Bits128, cy: Bits128, cq0: Bits128, cr: Bits128)
    returns (cq: Bits128, ca4: Bits128, ed2: nat)
    requires 0 < cy <= cx < TEN34 && cx == cq0 * cy + cr && 0 < cr < cy
    ensures CutQuotient(cx, cy, ed2, cq, ca4) && TEN33 <= cq < TEN34
    ensures cx <= 1024 ==> ed2 >= 30
  {
    hide Pow10, Digits, Power10Index, EstimateDigits;
    IntegerQuotientBounds(cx, cy, cq0, cr);
    var b := FloatExponent(cq0);
    var digits := DigitsFromExponent(cq0, b);
    DigitsBounds(cq0);
    QuotientDigits(cq0, digits);
    ed2 := 34 - digits;
    Power10TableValue(ed2);
    ghost var ten := Pow10(ed2);
    var product := cr * Power10Table128(ed2);
    MulNonNegative(cr, ten);
    ghost var q, r := Divide(product, cy);
    MulDistribute(cq0 * cy, cr, ten);
    MulDistribute(cq0 * ten, q, cy);
    assert cq0 * cy * ten == cq0 * ten * cy by { MulAssoc(cq0, cy, ten); }
    ExtendedSize(cq0, digits, cr, cy, q, r);
    MulLowExact(cq0, ten);
    cq, ca4 := MulLow128(cq0, Power10Table128(ed2)) + product / cy, product % cy;
  }

  lemma IntegerQuotientBounds(cx: nat, cy: nat, cq0: nat, cr: nat)
    requires 0 < cy <= cx < TEN34 && cx == cq0 * cy + cr && cr < cy
    ensures 0 < cq0 <= cx
  {
  }

  lemma QuotientDigits(cq0: nat, digits: nat)
    requires digits >= 1 && 0 < cq0 < TEN34 && Pow10(digits - 1) <= cq0 < Pow10(digits)
    ensures digits <= 34 && (cq0 <= 1024 ==> digits <= 4)
  {
    if digits > 34 {
      Pow10Values();
      Pow10Mono(34, digits - 1);
    }
    if digits > 4 {
      Pow10Groups();
      Pow10Mono(4, digits - 1);
    }
  }

  lemma ExtendedSize(cq0: nat, digits: nat, cr: nat, cy: nat, q: nat, r: nat)
    requires 1 <= digits <= 34 && Pow10(digits - 1) <= cq0 < Pow10(digits) && cr < cy
    requires cr * Pow10(34 - digits) == q * cy + r
    ensures TEN33 <= cq0 * Pow10(34 - digits) <= cq0 * Pow10(34 - digits) + q < TEN34
  {
    hide Pow10;
    var ten := Pow10(34 - digits);
    Pow10Values();
    Pow10Add(digits - 1, 34 - digits);
    Pow10Add(digits, 34 - digits);
    MulMono(Pow10(digits - 1), cq0, ten);
    MulMono(cq0 + 1, Pow10(digits), ten);
    MulDistribute(cq0, 1, ten);
    if q >= ten {
      MulMono(ten, q, cy);
      ScaleOrder(cr, cy, ten);
    }
  }

  /** One more when the remainder says so: the sign of 2 * CA4 - CY and the parity of CQ decide to nearest. */
  method RoundQuotient(cq: Bits128, ca4: Bits128, cy: Bits128, neg: bool, mode: Mode) returns (c: Bits128)
    requires cq < TEN34 && 0 < ca4 < cy < TEN34
    ensures c == if RoundsUp(mode, neg, cq % 2 == 1, ca4, cy) then cq + 1 else cq
  {
    c := cq;
    match MagnitudeMode(mode, neg)
    case ToNearest =>
      var d := SubPair(2 * ca4, cy);
      if Hi(d) < 0x8000_0000_0000_0000 && (cq % 2 == 1 || d != 0) {
        c := IncrementPair(c);
      }
    case TiesAway =>
      var d := SubPair(2 * ca4, cy);
      if Hi(d) < 0x8000_0000_0000_0000 || d == 0 {
        c := IncrementPair(c);
      }
    case Down =>
    case ToZero =>
    case Up =>
      c := IncrementPair(c);
  }

  /** ceil(2^172 / 10^17), the reciprocal that splits off the upper 17 digits. */
  const RECIP17: nat := 0xb_877a_a323_6a4b * 0x1_0000_0000_0000_0000 + 0x4490_9bef_eb9f_ad49
  const SHIFT17: nat := 0x1000_0000_0000

  method SplitDigits(cq: Bits128) returns (high: nat, low: nat)
    requires cq < TEN34
    ensures cq == high * TEN17 + low && low < TEN17 && high < TEN17
  {
    ghost var q, r := Divide(cq, TEN17);
    SplitReciprocal(cq, q, r);
    DivideTwice(cq * RECIP17, W128, SHIFT17);
    high := cq * RECIP17 / W128 / SHIFT17;
    assert q < TEN17;
    low := (Lo(cq) - high * TEN17) % W64;
    LowWord(cq, high, r);
  }

  lemma LowWord(cq: Bits128, high: nat, r: nat)
    requires cq == high * TEN17 + r && r < TEN17
    ensures (Lo(cq) - high * TEN17) % W64 == r
  {
    DivModUnique(Lo(cq) - high * TEN17, W64, 0 - Hi(cq), r);
  }

  lemma SplitReciprocal(cq: nat, q: nat, r: nat)
    requires cq < TEN34 && cq == q * TEN17 + r && r < TEN17
    ensures cq * RECIP17 / (W128 * SHIFT17) == q
  {
  }

  lemma MultiplicityBound(n: nat, p: nat)
    requires 0 < n <= 1024 && p >= 2
    ensures Multiplicity(n, p) <= 10
  {
    PowerDivides(n, p);
    TwoToThe11();
    if Multiplicity(n, p) > 10 {
      Pow2Mono(11, Multiplicity(n, p));
    }
  }

  lemma TwoToThe11()
    ensures Pow2(11) == 2048
  {
  }

  lemma {:induction false} PowerDivides(n: nat, p: nat)
    requires n > 0 && p >= 2
    ensures Pow2(Multiplicity(n, p)) <= n
  {
    if n % p == 0 {
      SmallerQuotient(n, p);
      PowerDivides(n / p, p);
      DivModEquation(n, p);
      MulMono(2, p, n / p);
    }
  }

  // bid_factors[n - 1]: how often 2 and 5 divide n, for n up to 1024
  function Factors(n: nat): (int, int)
    requires 0 < n <= 1024
  {
    (Multiplicity(n, 2), Multiplicity(n, 5))
  }

  /** An exact quotient without its trailing zeros, and how many there were. */
  method StripZeros(cx: Bits128, cy: Bits128, cq: Bits128, ed2: nat) returns (c: Bits128, nzeros: nat)
    requires 0 < cx < TEN34 && 0 < cy < TEN34 && TEN33 <= cq < TEN34
    requires cq * cy == cx * Pow10(ed2) && (cx <= 1024 && cy <= 1024 ==> ed2 >= 30)
    ensures cq == c * Pow10(nzeros) && c > 0 && c % 10 != 0
  {
    hide Multiplicity, Pow10;
    Pow10Values();
    ZerosBound(cq, 34);
    ghost var bare := ZerosSplit(cq);
    if Hi(cx) == 0 && Hi(cy) == 0 && Lo(cx) <= 1024 && Lo(cy) <= 1024 {
      ZerosFromFactors(cq, cy, cx, ed2);
      MultiplicityBound(cy, 2);
      MultiplicityBound(cy, 5);
      var fy, fx := Factors(Lo(cy)), Factors(Lo(cx));
      var n2 := ed2 - fy.0 + fx.0;
      var n5 := ed2 - fy.1 + fx.1;
      nzeros := if n5 < n2 then n5 else n2;
      c := StripWide(cq, nzeros);
    } else {
      var high, low := SplitDigits(cq);
      if low == 0 {
        ZerosShift(high, 17);
        nzeros := CountZeros(high);
        c := high;
        if nzeros != 0 {
          ZerosBound(high, 17);
          c := StripShort(high, nzeros);
        } else {
          Pow10Zero();
        }
        Pow10Add(nzeros, 17);
        MulAssoc(c, Pow10(nzeros), Pow10(17));
        nzeros := 17 + nzeros;
      } else {
        ZerosOfLowPart(high, 17, low);
        nzeros := CountZeros(low);
        c := cq;
        if nzeros != 0 {
          c := StripWide(cq, nzeros);
        } else {
          Pow10Zero();
        }
      }
    }
    ScaleOrder(c, bare, Pow10(nzeros));
  }
}
