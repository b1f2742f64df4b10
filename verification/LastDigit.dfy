/** Taking one digit off a 35-digit sum: once for an exact sum, once for a sum that was already rounded. */
module LastDigit {
  import opened Powers
  import opened Encoding
  import opened Words
  import opened Tables
  import opened Reciprocal
  import opened Positions

  const HALF64: nat := 0x8000_0000_0000_0000

  /**
   The fraction f* of the product with a tenth. The exact-sum code tests f* - 1/2 >= T* for inexactness,
   the second rounding tests f* - 1/2 > T*; no product can make them differ.
   */
  function NameTenth(w: Words256, trunc: Bits128, strict: bool): (f: Fraction)
    requires w.Valid() && trunc < W128 / 2
    ensures Inspected(w.w1 * W64 + w.w0, W128 / 2, trunc, f)
  {
    var low := Join(w.w1, w.w0);
    if (w.w1 != 0 || w.w0 != 0) && PairGe(trunc, low) then Midpoint
    else if w.w1 > HALF64 || (w.w1 == HALF64 && w.w0 > 0) then
      if (if strict then PairGt(low - W128 / 2, trunc) else PairGe(low - W128 / 2, trunc)) then Above else Exact
    else Below
  }

  /** Multiplies sum + 5 by a reciprocal of ten and names the fraction. */
  method MultiplyByTenth(sum: Bits128, recip: nat, trunc: Bits128, strict: bool) returns (w: Words256, f: Fraction)
    requires sum <= 2 * TEN34
    requires W128 < recip * 10 <= W128 + 0x400
    requires trunc == 0x1999_9999_9999_9999_9999_9999_9999_9999
    ensures w.Valid() && f == NameTenth(w, trunc, strict)
    ensures FractionOf(sum, 10, w.w3 * W64 + w.w2, f)
    ensures w.w1 * W64 + w.w0 != W128 / 2
  {
    var shifted := AddFive(sum);
    ghost var e := recip * 10 - W128;
    MulMono(shifted, 2 * TEN34 + 5, recip);
    MulMono(shifted, 2 * TEN34 + 5, e);
    MulMono(1, shifted, e);
    w := SplitProduct(shifted * recip);
    f := NameTenth(w, trunc, strict);
    InspectedPosition(sum, shifted, 10, W128, e, recip, trunc, w.w3 * W64 + w.w2, w.w1 * W64 + w.w0, f);
  }

  /** The inexactness of the exact sum relative to its midpoint-shifted tenth, as the fraction words tell it. */
  function TenthPosition(w: Words256, midpoint: bool, inexact: bool): Position {
    if midpoint then if w.w2 % 2 == 1 then ON_TARGET.(midGtEven := true) else ON_TARGET.(midLtEven := true)
    else ON_TARGET.(inexLtMid := inexact && w.w1 >= HALF64, inexGtMid := inexact && w.w1 < HALF64)
  }

  lemma TenthPositionIs(w: Words256, f: Fraction, trunc: Bits128)
    requires w.Valid() && trunc < W128 / 2 && f == NameTenth(w, trunc, false) && w.w1 * W64 + w.w0 != W128 / 2
    ensures TenthPosition(w, f == Midpoint, f != Exact) == SecondRounding(Join(w.w3, w.w2), f, ON_TARGET).1
    ensures w.w2 % 2 == Join(w.w3, w.w2) % 2
  {
  }

  lemma TenthSize(sum: nat, c: nat, f: Fraction)
    requires TEN34 <= sum < 2 * TEN34 && FractionOf(sum, 10, c, f)
    ensures TEN33 <= c <= 2 * TEN33 && (c == TEN33 ==> sum >= c * 10)
    ensures f == Midpoint && c % 2 == 1 ==> TEN33 < c
  {
  }

  lemma ExactOnTarget(sum: nat)
    ensures Describes(sum, 1, sum, ON_TARGET)
  {
  }

  /**
   The exact 35-digit sum rounded to 34 digits with the 118-bit reciprocal of ten
   (smilelib/decimal/bid128_add.c, the cases delta == 34 - q2 and delta < 0).
   */
  method RoundExactSum(sum: Bits128) returns (c: Bits128, pos: Position, inexact: bool)
    requires TEN34 <= sum < 2 * TEN34
    ensures Describes(sum, 10, c, pos)
    ensures inexact == (pos != ON_TARGET)
    ensures TEN33 <= c < TEN34 && (c == TEN33 ==> sum >= c * 10)
  {
    var w, f := MultiplyByTenth(sum, 0x1999_9999_9999_9999_9999_9999_9999_9a00,
                                0x1999_9999_9999_9999_9999_9999_9999_9999, false);
    hide NameTenth, TenthPosition, Describes, FractionOf;
    inexact := f != Exact;
    pos := TenthPosition(w, f == Midpoint, inexact);
    c := Join(w.w3, w.w2);
    TenthPositionIs(w, f, 0x1999_9999_9999_9999_9999_9999_9999_9999);
    TenthSize(sum, c, f);
    ExactOnTarget(sum);
    SecondRoundingDescribes(sum, 1, sum, ON_TARGET, c, f);
    if f == Midpoint && w.w2 % 2 == 1 {
      c := DecrementPair(c);
    }
  }

  /**
   The double-rounding logic: the quotient star of the sum by ten and the new indicators, given how
   the sum lies between two tenths and how it was itself rounded.
   */
  function SecondRounding(star: int, f: Fraction, pos: Position): (int, Position) {
    match f
    case Midpoint =>
      if pos.inexLtMid then (star, ON_TARGET.(inexGtMid := true))
      else if pos.inexGtMid then (star - 1, ON_TARGET.(inexLtMid := true))
      else if pos.midGtEven then (star, ON_TARGET.(inexLtMid := true))
      else if star % 2 == 1 then (star - 1, ON_TARGET.(midGtEven := true))
      else (star, ON_TARGET.(midLtEven := true))
    case Above => (star, ON_TARGET.(inexLtMid := true))
    case Below => (star, ON_TARGET.(inexGtMid := true))
    case Exact =>
      // a tie of the first rounding is no tie any more
      if pos.midLtEven then (star, pos.(inexGtMid := true, midLtEven := false))
      else if pos.midGtEven then (star, pos.(inexLtMid := true, midGtEven := false))
      else (star, pos)
  }

  /**
   Nothing is rounded twice: the second rounding describes the exact value, not the rounded sum.
   A tie of the first rounding left an even sum, so it never meets a tie here.
   */
  lemma SecondRoundingDescribes(n: int, p: nat, sum: nat, pos: Position, star: nat, f: Fraction)
    requires p > 0 && Describes(n, p, sum, pos) && FractionOf(sum, 10, star, f)
    ensures var (c, pos1) := SecondRounding(star, f, pos); Describes(n, 10 * p, c, pos1)
    ensures f == Midpoint ==> !pos.midGtEven && !pos.midLtEven
  {
    var (c, pos1) := SecondRounding(star, f, pos);
    var t := sum - 10 * c;
    var x := n - sum * p;
    MulDistribute(10 * c, t, p);
    MulAssoc(c, 10, p);
    TenthBand(x, p, t, n - c * (10 * p));
  }

  /** Half a unit of error and t units of distance stay within a tenth of the next decade's unit. */
  lemma TenthBand(x: int, p: nat, t: int, u: int)
    requires p > 0 && u == x + t * p && 0 <= 2 * x + p && 2 * x <= p
    ensures 1 <= t <= 4 ==> 0 < 2 * u < 10 * p
    ensures -4 <= t <= -1 ==> 0 < 2 * u + 10 * p < 10 * p
    ensures t == 0 ==> u == x
    ensures t == 5 ==> 2 * u == 2 * x + 10 * p
    ensures t == -5 ==> 2 * u + 10 * p == 2 * x
  {
  }

  /** The second rounding of a described 35-digit sum (smilelib/decimal/bid128_add.c, after roundC2). */
  method RoundRoundedSum(sum: Bits128, pos: Position, rounded: bool, ghost n: int, ghost p: nat)
    returns (c: Bits128, pos1: Position, inexact: bool)
    requires TEN34 <= sum <= 2 * TEN34
    requires p > 0 && Describes(n, p, sum, pos) && rounded == (pos != ON_TARGET)
    ensures Describes(n, 10 * p, c, pos1) && TEN33 <= c < TEN34
    ensures inexact == (pos1 != ON_TARGET)
    ensures if sum == TEN34 && n <= sum * p
            then c == TEN33 && pos1 == ON_TARGET.(inexGtMid := pos.inexGtMid || pos.midLtEven)
            else c == TEN33 ==> n >= c * (10 * p)
  {
    var w, f := MultiplyByTenth(sum, Ten2mk128(0), Ten2mk128Trunc(0), true);
    var star := Join(w.w3, w.w2);
    SecondRoundingDescribes(n, p, sum, pos, star, f);
    var (q, position) := SecondRounding(star, f, pos);
    c, pos1 := q, position;
    inexact := rounded || f != Exact;
    if c == TEN33 && sum > TEN34 {
      MulMono(TEN34 + 1, sum, p);
    }
  }
}
