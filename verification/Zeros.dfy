/**
 Trailing zeros: counting them from the factors of the operands or from groups of decimal digits, and stripping
 them with an exact reciprocal.
 */
module Zeros {
  import opened Powers
  import opened Encoding
  import opened DivTables

  /** How often p divides n. */
  function Multiplicity(n: nat, p: nat): nat
    requires n > 0 && p >= 2
  {
    DivModEquation(n, p);
    if n % p == 0 then
      SmallerQuotient(n, p);
      1 + Multiplicity(n / p, p)
    else 0
  }

  lemma SmallerQuotient(n: nat, p: nat)
    requires n > 0 && p >= 2 && n % p == 0
    ensures 0 < n / p < n
  {
  }

  function TrailingZeros(n: nat): nat
    requires n > 0
  {
    Multiplicity(n, 10)
  }

  lemma MultiplicityStep(n: nat, p: nat)
    requires n > 0 && p >= 2
    ensures n * p > 0 && Multiplicity(n * p, p) == 1 + Multiplicity(n, p)
  {
    MulMono(1, n, p);
    DivModUnique(n * p, p, n, 0);
  }

  lemma SmallUnits(r: nat, t: nat, p: nat)
    requires (p == 2 || p == 5) && 0 < r < p && 0 < t < p
    ensures r * t >= 0 && r * t % p != 0
  {
  }

  lemma ProductOfUnits(a: nat, b: nat, p: nat)
    requires (p == 2 || p == 5) && a % p != 0 && b % p != 0
    ensures a * b % p != 0
  {
    var q, r := Divide(a, p);
    var s, t := Divide(b, p);
    MulDistribute(q * p, r, b);
    MulAssoc(q, p, b);
    assert r * b == r * (s * p) + r * t;
    MulAssoc(r, s, p);
    MulDistribute(q * b, r * s, p);
    SmallUnits(r, t, p);
    var u, v := Divide(r * t, p);
    assert a * b == (q * b + r * s) * p + (u * p + v);
    MulDistribute(q * b + r * s, u, p);
    DivModUnique(a * b, p, q * b + r * s + u, v);
  }

  /** For the primes 2 and 5 multiplicities add up. */
  lemma {:induction false} MultiplicityOfProduct(a: nat, b: nat, p: nat)
    requires a > 0 && b > 0 && (p == 2 || p == 5)
    ensures a * b > 0 && Multiplicity(a * b, p) == Multiplicity(a, p) + Multiplicity(b, p)
    decreases a + b
  {
    MulMono(1, a, b);
    if a % p == 0 {
      SmallerQuotient(a, p);
      var c := a / p;
      MultiplicityOfProduct(c, b, p);
      MulAssoc(c, b, p);
      MultiplicityStep(c * b, p);
      assert a == c * p;
      assert a * b == c * b * p;
    } else if b % p == 0 {
      SmallerQuotient(b, p);
      var c := b / p;
      MultiplicityOfProduct(a, c, p);
      MulAssoc(a, c, p);
      MultiplicityStep(a * c, p);
      assert a * b == a * c * p;
    } else {
      ProductOfUnits(a, b, p);
    }
  }

  lemma {:induction false} MultiplicityOfPow10(k: nat, p: nat)
    requires p == 2 || p == 5
    ensures Multiplicity(Pow10(k), p) == k
  {
    if k > 0 {
      MultiplicityOfPow10(k - 1, p);
      MultiplicityOfProduct(10, Pow10(k - 1), p);
      TenHasOneOfEach();
    } else {
      assert Pow10(k) == 1;
    }
  }

  lemma TenHasOneOfEach()
    ensures Multiplicity(10, 2) == 1 && Multiplicity(10, 5) == 1
  {
  }

  /** As many zeros as there are factors of both primes. */
  lemma {:induction false} ZerosArePairs(n: nat)
    requires n > 0
    ensures var m2, m5 := Multiplicity(n, 2), Multiplicity(n, 5);
            TrailingZeros(n) == if m2 <= m5 then m2 else m5
  {
    if n % 10 == 0 {
      SmallerQuotient(n, 10);
      ZerosArePairs(n / 10);
      MultiplicityOfProduct(10, n / 10, 2);
      MultiplicityOfProduct(10, n / 10, 5);
      TenHasOneOfEach();
      assert 10 * (n / 10) == n;
    } else {
      assert n % 2 != 0 || n % 5 != 0;
    }
  }

  /** Multiplying by 10^k adds k zeros. */
  lemma {:induction false} ZerosShift(n: nat, k: nat)
    requires n > 0
    ensures n * Pow10(k) > 0 && TrailingZeros(n * Pow10(k)) == k + TrailingZeros(n)
  {
    if k > 0 {
      ZerosShift(n, k - 1);
      MulAssoc(n, Pow10(k - 1), 10);
      MultiplicityStep(n * Pow10(k - 1), 10);
      assert n * Pow10(k) == n * Pow10(k - 1) * 10;
    } else {
      assert Pow10(k) == 1;
    }
  }

  /** Only the lowest nonzero group of digits matters. */
  lemma {:induction false} ZerosOfLowPart(a: nat, k: nat, low: nat)
    requires 0 < low < Pow10(k)
    ensures a * Pow10(k) + low > 0 && TrailingZeros(a * Pow10(k) + low) == TrailingZeros(low)
  {
    MulNonNegative(a, Pow10(k));
    var n := a * Pow10(k) + low;
    assert k > 0;
    MulAssoc(a, Pow10(k - 1), 10);
    assert a * Pow10(k) == a * Pow10(k - 1) * 10;
    if low % 10 == 0 {
      var l := low / 10;
      ZerosOfLowPart(a, k - 1, l);
      DivModUnique(n, 10, a * Pow10(k - 1) + l, 0);
    } else {
      var q, r := Divide(low, 10);
      DivModUnique(n, 10, a * Pow10(k - 1) + q, r);
    }
  }

  /** What is left without its trailing zeros does not end in a zero. */
  lemma {:induction false} ZerosSplit(n: nat) returns (c: nat)
    requires n > 0
    ensures c > 0 && c % 10 != 0 && n == c * Pow10(TrailingZeros(n))
  {
    if n % 10 == 0 {
      SmallerQuotient(n, 10);
      c := ZerosSplit(n / 10);
      var k := TrailingZeros(n / 10);
      assert Pow10(k + 1) == 10 * Pow10(k);
      MulAssoc(c, Pow10(k), 10);
    } else {
      c := n;
      assert Pow10(0) == 1;
    }
  }

  /** A number below 10^k has fewer than k zeros. */
  lemma ZerosBound(n: nat, k: nat)
    requires 0 < n < Pow10(k)
    ensures TrailingZeros(n) < k
  {
    var c := ZerosSplit(n);
    var z := TrailingZeros(n);
    MulMono(1, c, Pow10(z));
    if z >= k {
      Pow10Mono(k, z);
    }
  }

  /**
   The short-operand rule: with cq * cy == cx * 10^ed exactly, the number of zeros of cq follows from the factors
   2 and 5 of the operands.
   */
  lemma ZerosFromFactors(cq: nat, cy: nat, cx: nat, ed: nat)
    requires cq > 0 && cy > 0 && cx > 0 && cq * cy == cx * Pow10(ed)
    ensures var n2 := ed - Multiplicity(cy, 2) + Multiplicity(cx, 2);
            var n5 := ed - Multiplicity(cy, 5) + Multiplicity(cx, 5);
            TrailingZeros(cq) == if n5 < n2 then n5 else n2
  {
    MultiplicityOfProduct(cq, cy, 2);
    MultiplicityOfProduct(cq, cy, 5);
    MultiplicityOfProduct(cx, Pow10(ed), 2);
    MultiplicityOfProduct(cx, Pow10(ed), 5);
    MultiplicityOfPow10(ed, 2);
    MultiplicityOfPow10(ed, 5);
    ZerosArePairs(cq);
  }

  const TEN8: nat := 100000000
  const TEN16: nat := 10000000000000000

  /** 2^(26 + 7 * j). */
  function GroupWeight(j: nat): nat
    requires j <= 5
  {
    if j == 0 then 0x400_0000 else if j == 1 then 0x2_0000_0000 else if j == 2 then 0x100_0000_0000
    else if j == 3 then 0x8000_0000_0000 else if j == 4 then 0x40_0000_0000_0000 else 0x2000_0000_0000_0000
  }

  // bid_convert_table[j][k][i]: digit i, base 10^8, of k * 2^(26 + 7 * j), as the comment of the table has it
  function ConvertLow(j: nat, k: nat): (d: nat)
    requires j < 5 && k < 128
    ensures d < TEN8
  {
    k * GroupWeight(j) % TEN8
  }

  function ConvertHigh(j: nat, k: nat): (d: nat)
    requires j < 5 && k < 128
    ensures d < TEN8
  {
    k * GroupWeight(j) / TEN8 % TEN8
  }

  /** Room for the upper digit after j groups. */
  function UpperRoom(j: nat): nat
    requires j <= 5
  {
    if j == 0 then 0 else if j == 1 then 100 else if j == 2 then 20_000 else if j == 3 then 1_500_000
    else if j == 4 then 101_500_001 else 201_500_002
  }

  /** Room for the bits above the first 26 + 7 * j of a number below 10^17. */
  function GroupRoom(j: nat): nat
    requires j <= 5
  {
    if j == 0 then 0x8000_0000 else if j == 1 then 0x100_0000 else if j == 2 then 0x2_0000
    else if j == 3 then 0x400 else if j == 4 then 8 else 1
  }

  /** The two base-10^8 digits of q below 10^16: 26 bits first, then seven bits at a time from the table. */
  method LowDigits(q: nat) returns (low: nat, high: nat)
    requires q < TEN17
    ensures low < TEN8 && high < TEN8 && low + TEN8 * high == q % TEN16
  {
    hide GroupWeight, UpperRoom, GroupRoom, ConvertLow, ConvertHigh;
    low, high := q % 0x400_0000, 0;
    var qx, j := q / 0x400_0000, 0;
    ghost var part: int, carried: int := low, 0;
    FirstGroup(q);
    while qx != 0
      invariant 0 <= qx && 0 <= j <= 5 && qx * GroupWeight(j) + part == q
      invariant low < TEN8 && high <= UpperRoom(j)
      invariant low + TEN8 * high + carried * TEN16 == part
      invariant qx < GroupRoom(j)
      decreases qx
    {
      NextGroup(j, qx);
      var k := qx % 128;
      var l, h := ConvertLow(j, k), ConvertHigh(j, k);
      ghost var over := TableEntry(j, k);
      low := low + l;
      high := high + h;
      carried := carried + over;
      part := part + k * GroupWeight(j);
      if low >= TEN8 {
        low := low - TEN8;
        high := high + 1;
      }
      j, qx := j + 1, qx / 128;
    }
    RoomBound(j);
    if high >= TEN8 {
      high := high - TEN8;
      carried := carried + 1;
      if high >= TEN8 {
        high := high - TEN8;
        carried := carried + 1;
      }
    }
    DivModUnique(q, TEN16, carried, low + TEN8 * high);
  }

  lemma FirstGroup(q: nat)
    requires q < TEN17
    ensures q / 0x400_0000 * GroupWeight(0) + q % 0x400_0000 == q && q / 0x400_0000 < GroupRoom(0)
    ensures UpperRoom(0) == 0
  {
  }

  lemma RoomBound(j: nat)
    requires j <= 5
    ensures UpperRoom(j) < 3 * TEN8
  {
  }

  lemma TableEntry(j: nat, k: nat) returns (over: nat)
    requires j < 5 && k < 128
    ensures ConvertLow(j, k) + TEN8 * ConvertHigh(j, k) + over * TEN16 == k * GroupWeight(j)
    ensures UpperRoom(j) + ConvertHigh(j, k) + 1 <= UpperRoom(j + 1)
  {
    over := k * GroupWeight(j) / TEN8 / TEN8;
  }

  lemma NextGroup(j: nat, qx: nat)
    requires j <= 5 && 0 < qx < GroupRoom(j)
    ensures j < 5 && 0 <= qx / 128 < GroupRoom(j + 1) && qx / 128 < qx && 0 <= qx % 128 < 128
    ensures qx / 128 * GroupWeight(j + 1) + qx % 128 * GroupWeight(j) == qx * GroupWeight(j)
  {
  }

  /** digit / 10000 by one multiplication. */
  function DivideBy10000(digit: nat): (h: nat)
    requires digit < TEN8
    ensures h == digit / 10000
  {
    digit * 0x68d_b8bb / 0x100_0000_0000
  }

  // for even k: (bid_packed_10000_zeros[k >> 3] >> (k & 7)) & 3, the greatest i with 10^i dividing k
  function PackedZeros(k: nat): nat
    requires 0 < k < 10000
  {
    TrailingZeros(k)
  }

  /** The zero count of a number below 10^17: 16, 8, 4 at a time, then from the packed table. */
  method CountZeros(q: nat) returns (nzeros: nat)
    requires 0 < q < TEN17
    ensures nzeros == TrailingZeros(q)
  {
    var low, high := LowDigits(q);
    nzeros := 0;
    var digit := low;
    DigitGroups(q, low, high);
    if digit == 0 && high == 0 {
      nzeros := nzeros + 16;
    } else {
      if digit == 0 {
        nzeros := nzeros + 8;
        digit := high;
      }
      var digitHigh := DivideBy10000(digit);
      var digitLow := digit - digitHigh * 10000;
      HalfGroups(digit);
      if digitLow == 0 {
        nzeros := nzeros + 4;
      } else {
        digitHigh := digitLow;
      }
      if digitHigh % 2 == 0 {
        nzeros := nzeros + PackedZeros(digitHigh);
      } else {
        OddHasNone(digitHigh);
      }
    }
  }

  lemma OddHasNone(n: nat)
    requires n % 2 == 1
    ensures TrailingZeros(n) == 0
  {
  }

  lemma DigitGroups(q: nat, low: nat, high: nat)
    requires 0 < q < TEN17 && low < TEN8 && high < TEN8 && low + TEN8 * high == q % TEN16
    ensures low > 0 ==> TrailingZeros(q) == TrailingZeros(low)
    ensures low == 0 && high > 0 ==> TrailingZeros(q) == 8 + TrailingZeros(high)
    ensures low == 0 && high == 0 ==> TrailingZeros(q) == 16
  {
    hide Multiplicity;
    var a := q / TEN16;
    assert q == a * TEN16 + q % TEN16;
    Pow10Groups();
    if low > 0 {
      ZerosOfLowPart(a * TEN8 + high, 8, low);
    } else if high > 0 {
      ZerosOfLowPart(a, 8, high);
      ZerosShift(a * TEN8 + high, 8);
    } else {
      SingleDigit(a);
      ZerosShift(a, 16);
    }
  }

  lemma SingleDigit(a: nat)
    requires 0 < a < 10
    ensures TrailingZeros(a) == 0
  {
  }

  lemma Pow10Groups()
    ensures Pow10(4) == 10000 && Pow10(8) == TEN8 && Pow10(16) == TEN16
  {
  }

  lemma HalfGroups(digit: nat)
    requires 0 < digit < TEN8
    ensures var h, l := digit / 10000, digit % 10000;
            && l == digit - h * 10000 && h < 10000
            && (l > 0 ==> TrailingZeros(digit) == TrailingZeros(l))
            && (l == 0 ==> h > 0 && TrailingZeros(digit) == 4 + TrailingZeros(h))
  {
    hide Multiplicity;
    var h, l := digit / 10000, digit % 10000;
    Pow10Groups();
    if l > 0 {
      ZerosOfLowPart(h, 4, l);
    } else {
      ZerosShift(h, 4);
    }
  }

  /** A reciprocal rounded up divides a multiple of 10^k exactly. */
  lemma ExactReciprocal(c: nat, a: nat, ten: nat, recip: nat, two: nat)
    requires c == a * ten && ten > 0 && two > 0
    requires two < recip * ten <= two + ten && c < two
    ensures c * recip / two == a
  {
    var e := recip * ten - two;
    MulAssoc(a, ten, recip);
    MulDistribute(two, e, a);
    MulMono(e, ten, a);
    MulNonNegative(a, e);
    assert c * recip == a * two + a * e;
    DivModUnique(c * recip, two, a, a * e);
  }

  /** Shifting twice is dividing by the product. */
  lemma DivideTwice(n: nat, a: nat, b: nat)
    requires a > 0 && b > 0
    ensures a * b > 0 && n / a >= 0 && n / a / b == n / (a * b)
  {
    var q, r := Divide(n, a);
    var s, t := Divide(q, b);
    MulMono(1, a, b);
    MulAssoc(s, b, a);
    MulDistribute(s * b, t, a);
    MulMono(t, b - 1, a);
    MulDistribute(b, 1, a);
    MulNonNegative(t, a);
    assert n == s * (a * b) + (t * a + r);
    DivModUnique(n, a * b, s, t * a + r);
  }

  /** CQ / 10^nzeros through the 128-bit reciprocal and its shift. */
  method StripWide(cq: Bits128, nzeros: nat) returns (c: Bits128)
    requires 0 < nzeros < 34 && 0 < cq < TEN34 && nzeros <= TrailingZeros(cq)
    ensures cq == c * Pow10(nzeros)
  {
    hide Multiplicity, Pow2, Pow10, Reciprocal10Wide, RecipScale;
    StripRow(nzeros);
    ghost var a := ZerosPrefix(cq, nzeros);
    var product := cq * Reciprocal10Wide(nzeros);
    ghost var scale := Pow2(RecipScale(nzeros));
    MulMono(1, scale, W128);
    ExactReciprocal(cq, a, Pow10(nzeros), Reciprocal10Wide(nzeros), W128 * scale);
    MulNonNegative(cq, Reciprocal10Wide(nzeros));
    DivideTwice(product, W128, scale);
    MulMono(1, Pow10(nzeros), a);
    c := product / W128 / Pow2(RecipScale(nzeros));
  }

  /** The same for one word, through the 64-bit reciprocal. */
  method StripShort(q: nat, nzeros: nat) returns (c: nat)
    requires 0 < nzeros < 18 && 0 < q < TEN17 && nzeros <= TrailingZeros(q)
    ensures q == c * Pow10(nzeros)
  {
    hide Multiplicity, Pow2, Pow10, Reciprocal10Short, ShortRecipScale;
    ShortStripRow(nzeros);
    ghost var a := ZerosPrefix(q, nzeros);
    var product := q * Reciprocal10Short(nzeros);
    ghost var scale := Pow2(ShortRecipScale(nzeros));
    MulMono(1, scale, W64);
    ExactReciprocal(q, a, Pow10(nzeros), Reciprocal10Short(nzeros), W64 * scale);
    MulNonNegative(q, Reciprocal10Short(nzeros));
    DivideTwice(product, W64, scale);
    c := product / W64 / Pow2(ShortRecipScale(nzeros));
  }

  lemma ZerosPrefix(n: nat, k: nat) returns (a: nat)
    requires n > 0 && k <= TrailingZeros(n)
    ensures n == a * Pow10(k)
  {
    var c := ZerosSplit(n);
    var z := TrailingZeros(n);
    Pow10Add(z - k, k);
    a := c * Pow10(z - k);
    MulAssoc(c, Pow10(z - k), Pow10(k));
  }
}
