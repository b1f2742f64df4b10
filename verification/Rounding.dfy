/**
 What a correctly rounded result is: IEEE 754-2008, sections 4.3, 5.2 and 7.4.

 A magnitude is a positive integer n counted in units of 10^e0, where e0 is the preferred exponent.
 */
module Rounding {
  import opened Powers
  import opened Encoding

  datatype Mode = ToNearest | Down | Up | ToZero | TiesAway

  datatype Flag = Invalid | ZeroDivide | Overflow | Underflow | Inexact

  datatype Outcome = Outcome(datum: Datum, flags: set<Flag>)

  /** Whether a remainder r of p, left below a coefficient of the given parity, rounds the magnitude up. */
  predicate RoundsUp(mode: Mode, neg: bool, odd: bool, r: nat, p: nat) {
    && r > 0
    && match mode
       case ToNearest => 2 * r > p || (2 * r == p && odd)
       case TiesAway => 2 * r >= p
       case Down => neg
       case Up => !neg
       case ToZero => false
  }

  /** The unsigned mode for the magnitude: for a negative result Down and Up are exchanged. */
  function MagnitudeMode(mode: Mode, neg: bool): Mode {
    if neg && mode == Down then Up else if neg && mode == Up then Down else mode
  }

  /** A coefficient of 10^34 becomes 10^33 one decade up. */
  function Fold(c: int, e: int): (int, int) { if c == TEN34 then (TEN33, e + 1) else (c, e) }

  /** The result of an overflow: an infinity, or the largest finite number when rounding towards it. */
  function Overflowed(neg: bool, mode: Mode): Datum {
    if mode == ToZero || (neg && mode == Up) || (!neg && mode == Down)
    then Finite(neg, EXP_MAX, TEN34 - 1)
    else Infinite(neg)
  }

  /** n divided by 10^k and rounded to an integer. */
  function RoundedQuotient(neg: bool, n: nat, k: nat, mode: Mode): nat {
    var p := Pow10(k);
    DivNonNegative(n, p);
    var q, r := n / p, n % p;
    if RoundsUp(mode, neg, q % 2 == 1, r, p) then q + 1 else q
  }

  /** Places a coefficient of at most 10^34 at an exponent; 10^34 itself moves one decade up. */
  function Place(neg: bool, coef: nat, e: nat, inexact: bool, mode: Mode): Outcome
    requires coef <= TEN34
  {
    var (c, x) := Fold(coef, e);
    if x > EXP_MAX then Outcome(Overflowed(neg, mode), {Overflow, Inexact})
    else Outcome(Finite(neg, x, c), if inexact then {Inexact} else {})
  }

  /** How many low digits do not fit in 34. */
  function ExtraDigits(n: nat): nat { if Digits(n) <= 34 then 0 else Digits(n) - 34 }

  lemma ExtraDigitsNone(n: nat)
    requires n < TEN34
    ensures ExtraDigits(n) == 0
  {
    if n > 0 {
      Pow10Values();
      DigitsBounds(n);
      if Digits(n) > 34 {
        Pow10Mono(34, Digits(n) - 1);
      }
    }
  }

  lemma ExtraDigitsBounds(n: nat)
    requires n >= TEN34
    ensures ExtraDigits(n) > 0
    ensures TEN33 * Pow10(ExtraDigits(n)) <= n < TEN34 * Pow10(ExtraDigits(n))
  {
    hide Digits, Pow10;
    DigitsBounds(n);
    var d := Digits(n);
    if d <= 34 {
      Pow10Values();
      Pow10Mono(d, 34);
    }
    Pow10Shifted(d - 34);
  }

  lemma QuotientBounds(n: nat, p: nat, lo: nat, hi: nat)
    requires p > 0 && lo * p <= n < hi * p
    ensures lo <= n / p < hi
  {
    DivModEquation(n, p);
    MulDistribute(n / p, 1, p);
    if n / p < lo {
      MulMono(n / p + 1, lo, p);
    } else if n / p >= hi {
      MulMono(hi, n / p, p);
    }
  }

  lemma RoundedQuotientBound(neg: bool, n: nat, mode: Mode)
    ensures RoundedQuotient(neg, n, ExtraDigits(n), mode) <= TEN34
  {
    var k := ExtraDigits(n);
    if n >= TEN34 {
      ExtraDigitsBounds(n);
      QuotientBounds(n, Pow10(k), TEN33, TEN34);
    } else {
      ExtraDigitsNone(n);
    }
  }

  /** The magnitude n * 10^e0 rounded once to 34 digits, kept at the preferred exponent when it fits. */
  function Round34(neg: bool, n: nat, e0: nat, mode: Mode): (o: Outcome)
    requires n > 0
  {
    var k := ExtraDigits(n);
    RoundedQuotientBound(neg, n, mode);
    Place(neg, RoundedQuotient(neg, n, k, mode), e0 + k, n % Pow10(k) != 0, mode)
  }

  /**
   Any split n == q * 10^k + r with a 34-digit q gives the rounded result; q may also be
   10^34 when nothing remains below it.
   */
  lemma Round34At(neg: bool, n: nat, e0: nat, mode: Mode, k: nat, q: nat, r: nat)
    requires n == q * Pow10(k) + r && r < Pow10(k)
    requires TEN33 <= q < TEN34 || (q == TEN34 && r == 0)
    requires k > 0 || q < TEN34
    ensures var c := if RoundsUp(mode, neg, q % 2 == 1, r, Pow10(k)) then q + 1 else q;
            n > 0 && c <= TEN34 && Round34(neg, n, e0, mode) == Place(neg, c, e0 + k, r != 0, mode)
  {
    var p := Pow10(k);
    DivModUnique(n, p, q, r);
    MulMono(TEN33, q, p);
    MulMono(1, TEN33, p);
    if q == TEN34 {
      TenFold(n, k);
    } else {
      MulMono(q, TEN34 - 1, p);
      MulDistribute(TEN34, 1, p);
      ExtraDigitsAt(n, k);
    }
  }

  lemma ExtraDigitsAt(n: nat, k: nat)
    requires TEN33 * Pow10(k) <= n < TEN34 * Pow10(k)
    ensures ExtraDigits(n) == k
  {
    Pow10Shifted(k);
    if k > 0 {
      assert Pow10(k) == 10 * Pow10(k - 1);
      MulMono(1, Pow10(k - 1), TEN34);
      assert TEN33 * Pow10(k) == TEN34 * Pow10(k - 1);
      DigitsUnique(n, 34 + k);
    } else {
      ExtraDigitsNone(n);
    }
  }

  /** 10^34 times a power of ten has one digit more than fits. */
  lemma TenFold(n: nat, k: nat)
    requires n == TEN34 * Pow10(k)
    ensures ExtraDigits(n) == k + 1
    ensures n / Pow10(k + 1) == TEN33 && n % Pow10(k + 1) == 0
  {
    assert Pow10(k + 1) == 10 * Pow10(k);
    assert n == TEN33 * Pow10(k + 1);
    assert TEN33 * Pow10(k + 1) < TEN34 * Pow10(k + 1) by { ScaleOrder(TEN33, TEN34, Pow10(k + 1)); }
    ExtraDigitsAt(n, k + 1);
    DivModUnique(n, Pow10(k + 1), TEN33, 0);
  }
}
