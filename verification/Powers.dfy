/** Powers of ten and of two, and the number of decimal digits of a natural number. */
module Powers {

  function Pow10(k: nat): (p: nat)
    ensures p >= 1
  {
    if k == 0 then 1 else 10 * Pow10(k - 1)
  }

  function Pow2(k: nat): (p: nat)
    ensures p >= 1
  {
    if k == 0 then 1 else 2 * Pow2(k - 1)
  }

  const TEN17: nat := 100000000000000000
  const TEN18: nat := 1000000000000000000
  const TEN33: nat := 0x314dc6448d9338c15b0a00000000
  const TEN34: nat := 0x1ed09bead87c0378d8e6400000000

  lemma {:induction false} Pow10Add(a: nat, b: nat)
    ensures Pow10(a + b) == Pow10(a) * Pow10(b)
  {
    if a > 0 {
      Pow10Add(a - 1, b);
    }
  }

  lemma {:induction false} Pow2Add(a: nat, b: nat)
    ensures Pow2(a + b) == Pow2(a) * Pow2(b)
  {
    if a > 0 {
      Pow2Add(a - 1, b);
    }
  }

  lemma {:induction false} Pow10Mono(a: nat, b: nat)
    requires a <= b
    ensures Pow10(a) <= Pow10(b)
    ensures a < b ==> 10 * Pow10(a) <= Pow10(b)
    decreases b - a
  {
    if a < b {
      Pow10Mono(a, b - 1);
    }
  }

  lemma {:induction false} Pow2Mono(a: nat, b: nat)
    requires a <= b
    ensures Pow2(a) <= Pow2(b)
    ensures a < b ==> 2 * Pow2(a) <= Pow2(b)
    decreases b - a
  {
    if a < b {
      Pow2Mono(a, b - 1);
    }
  }

  lemma Pow10Zero()
    ensures Pow10(0) == 1
  {
  }

  lemma Pow10One()
    ensures Pow10(1) == 10
  {
  }

  lemma Pow10Step(k: nat)
    ensures Pow10(k + 1) == 10 * Pow10(k)
  {
  }

  lemma Pow10Even(k: nat)
    requires k > 0
    ensures Pow10(k) % 2 == 0
    ensures Pow10(k) / 2 == 5 * Pow10(k - 1)
  {
  }

  /** The values the constants stand for. */
  lemma Pow10Values()
    ensures Pow10(17) == TEN17
    ensures Pow10(18) == TEN18
    ensures Pow10(33) == TEN33
    ensures Pow10(34) == TEN34
    ensures Pow10(35) == 10 * TEN34
  {
    assert Pow10(8) == 100000000;
    assert Pow10(16) == 10000000000000000;
    assert Pow10(24) == 1000000000000000000000000;
    assert Pow10(32) == 100000000000000000000000000000000;
  }

  lemma Pow10Shifted(k: nat)
    ensures Pow10(33 + k) == TEN33 * Pow10(k)
    ensures Pow10(34 + k) == TEN34 * Pow10(k)
  {
    Pow10Values();
    Pow10Add(33, k);
    Pow10Add(34, k);
  }

  lemma Pow2Step(k: nat)
    ensures Pow2(k + 8) == 0x100 * Pow2(k)
  {
    Pow2Add(k, 8);
    assert Pow2(8) == 0x100;
  }

  lemma Pow2Zero()
    ensures Pow2(0) == 1
  {
  }

  lemma Pow2One()
    ensures Pow2(1) == 2
  {
  }

  lemma Pow2Double(k: nat)
    ensures Pow2(k + 1) == 2 * Pow2(k)
  {
  }

  lemma Pow2Values()
    ensures Pow2(16) == 0x1_0000
    ensures Pow2(32) == 0x1_0000_0000
    ensures Pow2(48) == 0x1_0000_0000_0000
    ensures Pow2(64) == 0x1_0000_0000_0000_0000
  {
    Pow2Zero();
    hide Pow2;
    Pow2Step(0);
    Pow2Step(8);
    Pow2Step(16);
    Pow2Step(24);
    Pow2Step(32);
    Pow2Step(40);
    Pow2Step(48);
    Pow2Step(56);
  }

  lemma Pow2WideValues()
    ensures Pow2(64) == 0x1_0000_0000_0000_0000
    ensures Pow2(113) == 0x2_0000_0000_0000_0000_0000_0000_0000
    ensures Pow2(128) == 0x1_0000_0000_0000_0000_0000_0000_0000_0000
  {
    Pow2Values();
    Pow2Add(64, 48);
    Pow2Add(112, 1);
    Pow2Add(112, 16);
    assert Pow2(1) == 2;
  }

  /** The number of decimal digits of a positive number (1 for zero). */
  function Digits(n: nat): (d: nat)
    ensures d >= 1
  {
    if n < 10 then 1 else 1 + Digits(n / 10)
  }

  lemma {:induction false} DigitsBounds(n: nat)
    requires n > 0
    ensures Pow10(Digits(n) - 1) <= n < Pow10(Digits(n))
  {
    if n >= 10 {
      DigitsBounds(n / 10);
      var d := Digits(n / 10);
      assert Pow10(d) == 10 * Pow10(d - 1);
      assert Pow10(d + 1) == 10 * Pow10(d);
    }
  }

  /** A number between two neighbouring powers of ten has that many digits, and no other count. */
  lemma DigitsUnique(n: nat, d: nat)
    requires d > 0 && Pow10(d - 1) <= n < Pow10(d)
    ensures Digits(n) == d
  {
    DigitsBounds(n);
    var g := Digits(n);
    if g < d {
      Pow10Mono(g, d - 1);
    } else if d < g {
      Pow10Mono(d, g - 1);
    }
  }

  /** floor(log2 n), the exponent a double conversion of n exposes. */
  function FloorLog2(n: nat): (b: nat)
    requires n > 0
    ensures Pow2(b) <= n < Pow2(b + 1)
  {
    if n == 1 then 0
    else
      var h := FloorLog2(n / 2);
      assert Pow2(h + 1) == 2 * Pow2(h);
      assert Pow2(h + 2) == 2 * Pow2(h + 1);
      1 + h
  }

  lemma FloorLog2Unique(n: nat, b: nat)
    requires n > 0 && Pow2(b) <= n < Pow2(b + 1)
    ensures FloorLog2(n) == b
  {
    var h := FloorLog2(n);
    if h < b {
      Pow2Mono(h + 1, b);
    } else if b < h {
      Pow2Mono(b + 1, h);
    }
  }

  function Min(a: nat, b: nat): nat { if a <= b then a else b }

  lemma MulMono(a: int, b: int, p: int)
    requires a <= b && p >= 0
    ensures a * p <= b * p
  {
  }

  lemma MulDistribute(a: int, b: int, p: int)
    ensures (a - b) * p == a * p - b * p
    ensures (a + b) * p == a * p + b * p
  {
  }

  lemma MulAssoc(a: int, b: int, c: int)
    ensures a * b * c == a * (b * c)
    ensures a * b * c == a * c * b
  {
  }

  lemma MulNonNegative(a: int, b: int)
    requires a >= 0 && b >= 0
    ensures a * b >= 0
  {
  }

  /** Scaling two numbers by the same positive factor keeps their order. */
  lemma ScaleOrder(a: int, b: int, p: int)
    requires p > 0
    ensures a < b <==> a * p < b * p
    ensures a == b <==> a * p == b * p
  {
  }

  /** Quotient and remainder are determined by the division equation. */
  lemma DivModUnique(n: int, d: int, q: int, r: int)
    requires d > 0 && n == q * d + r && 0 <= r < d
    ensures n / d == q && n % d == r
  {
    var a := n / d;
    DivModEquation(n, d);
    MulDistribute(a, 1, d);
    MulDistribute(q, 1, d);
    if a < q {
      MulMono(a, q - 1, d);
    } else if q < a {
      MulMono(q, a - 1, d);
    }
  }

  lemma DivModEquation(n: int, d: int)
    requires d > 0
    ensures n == (n / d) * d + n % d
    ensures 0 <= n % d < d
  {
  }

  /** Division with remainder, as two numbers instead of two operators. */
  lemma Divide(n: nat, d: nat) returns (q: nat, r: nat)
    requires d > 0
    ensures n == q * d + r && r < d
    ensures q == n / d && r == n % d
  {
    DivModEquation(n, d);
    DivNonNegative(n, d);
    q, r := n / d, n % d;
  }

  lemma DivNonNegative(n: nat, d: nat)
    requires d > 0
    ensures n / d >= 0
  {
  }
}
