/** The sum of two data as IEEE 754-2008 defines it, and the sticky status flags. */
module Arithmetic {
  import opened Powers
  import opened Encoding
  import opened Rounding

  /** The status word behind pfpsf: operations only ever raise flags in it. */
  class Status {
    var raised: set<Flag>

    constructor ()
      ensures raised == {}
    {
      raised := {};
    }

    method Raise(flags: set<Flag>)
      modifies this
      ensures raised == old(raised) + flags
    {
      raised := raised + flags;
    }
  }

  function Abs(a: int): nat { if a < 0 then 0 - a else a }

  lemma AbsUnits(d: Datum)
    requires d.Finite?
    ensures Abs(Units(d)) == d.coef * Pow10(d.exp)
  {
  }

  function Signed(neg: bool, n: nat): int { if neg then 0 - n else n }

  /** A finite datum counted in units of 10^e0. */
  function InUnitsOf(d: Datum, e0: nat): int
    requires d.Finite? && e0 <= d.exp
  {
    Signed(d.neg, d.coef * Pow10(d.exp - e0))
  }

  /** The exact sum of two finite data, in units of the smaller exponent. */
  function ExactSum(x: Datum, y: Datum): int
    requires x.Finite? && y.Finite?
  {
    var e0 := Min(x.exp, y.exp);
    InUnitsOf(x, e0) + InUnitsOf(y, e0)
  }

  /** The sign of an exact zero sum: section 6.3. */
  predicate ZeroSumIsNegative(x: Datum, y: Datum, mode: Mode)
    requires x.Finite? && y.Finite?
  {
    if x.neg == y.neg then x.neg else mode == Down
  }

  /** The exact sum of two finite data, rounded once. */
  function FiniteSum(x: Datum, y: Datum, mode: Mode): Outcome
    requires x.Finite? && y.Finite?
  {
    var s := ExactSum(x, y);
    var e0 := Min(x.exp, y.exp);
    if s == 0 then Outcome(Finite(ZeroSumIsNegative(x, y, mode), e0, 0), {})
    else Round34(s < 0, Abs(s), e0, mode)
  }

  /** The sum of any two data; a NaN operand gives a quiet NaN and a signaling one raises Invalid. */
  function Sum(x: Datum, y: Datum, mode: Mode): Outcome {
    if x.NaN? || y.NaN? then
      Outcome(NaN(false), if (x.NaN? && x.signaling) || (y.NaN? && y.signaling) then {Invalid} else {})
    else if x.Infinite? && y.Infinite? && x.neg != y.neg then Outcome(NaN(false), {Invalid})
    else if x.Infinite? then Outcome(x, {})
    else if y.Infinite? then Outcome(y, {})
    else FiniteSum(x, y, mode)
  }

  /** Addition commutes. */
  lemma SumCommutes(x: Datum, y: Datum, mode: Mode)
    ensures Sum(x, y, mode) == Sum(y, x, mode)
  {
  }
}
