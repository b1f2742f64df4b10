/** bid_get_BID128: packing a coefficient at an exponent that may lie above or below the format's range. */
module Pack {
  import opened Powers
  import opened Encoding
  import opened Words
  import opened Rounding
  import opened RoundingMeaning
  import opened Arithmetic
  import opened Subnormal

  /** c * 10^x delivered: at its exponent, else with zeros appended at the largest one, else an overflow. */
  function Delivered(neg: bool, c: nat, x: nat, inexact: bool, mode: Mode): Outcome {
    var flags := if inexact then {Inexact} else {};
    if x <= EXP_MAX then Outcome(Finite(neg, x, c), flags)
    else if c * Pow10(x - EXP_MAX) < TEN34 then Outcome(Finite(neg, EXP_MAX, c * Pow10(x - EXP_MAX)), flags)
    else Outcome(Overflowed(neg, mode), {Overflow, Inexact})
  }

  /**
   It overflows exactly when c * 10^x lies beyond the largest number; otherwise the datum has that very value, at
   the exponent nearest to x.
   */
  lemma DeliveredMeaning(neg: bool, c: nat, x: nat, inexact: bool, mode: Mode)
    requires c < TEN34
    ensures var o := Delivered(neg, c, x, inexact, mode);
            if Value(c, x) > Value(TEN34 - 1, EXP_MAX) then o == Outcome(Overflowed(neg, mode), {Overflow, Inexact})
            else
              && o.datum.Finite? && o.datum.neg == neg && o.datum.coef < TEN34 && o.datum.exp == Min(x, EXP_MAX)
              && Value(o.datum.coef, o.datum.exp) == Value(c, x)
              && o.flags == if inexact then {Inexact} else {}
  {
    hide Pow10, Overflowed;
    if x <= EXP_MAX {
      Pow10Mono(x, EXP_MAX);
      MulMono(c, TEN34 - 1, Pow10(x));
      MulMono(Pow10(x), Pow10(EXP_MAX), TEN34 - 1);
    } else {
      Pow10Add(x - EXP_MAX, EXP_MAX);
      MulAssoc(c, Pow10(x - EXP_MAX), Pow10(EXP_MAX));
      ScaleOrder(TEN34 - 1, c * Pow10(x - EXP_MAX), Pow10(EXP_MAX));
    }
  }

  /** c * 10^x packed: below the smallest exponent it is rounded there. */
  function PackOutcome(neg: bool, c: nat, x: int, mode: Mode): Outcome {
    if x < 0 then SubnormalOutcome(neg, Counted(c, x), 0 - x, mode) else Delivered(neg, c, x, false, mode)
  }

  lemma DeliveredInFormat(neg: bool, c: nat, x: nat, inexact: bool, mode: Mode)
    requires c < TEN34
    ensures InFormat(Delivered(neg, c, x, inexact, mode).datum)
  {
  }

  /** Appends zeros while the coefficient is short and the exponent too large. */
  method AppendZeros(coeff: Bits128, expon: nat) returns (c: Bits128, e: nat)
    requires 0 < coeff < TEN34 && EXP_MAX < expon
    ensures EXP_MAX <= e <= expon && c == coeff * Pow10(expon - e) && c < TEN34
    ensures e == EXP_MAX || TEN33 <= c
  {
    hide Pow10;
    c, e := coeff, expon;
    Pow10Zero();
    while PairGt(TEN33, c) && e > EXP_MAX
      invariant EXP_MAX <= e <= expon && c == coeff * Pow10(expon - e) && 0 < c < TEN34
      decreases e
    {
      NextPower(coeff, expon - e);
      c := TimesTen(c);
      e := e - 1;
    }
  }

  lemma NextPower(c: nat, k: nat)
    ensures c * Pow10(k + 1) == 10 * (c * Pow10(k))
  {
  }

  /** Packs coeff * 10^expon; 10^34 is first moved one decade up. */
  method PackResult(neg: bool, expon: int, coeff: Bits128, mode: Mode, st: Status) returns (res: Bits128)
    requires coeff <= TEN34
    modifies st
    ensures var (c, x) := Fold(coeff, expon);
            var target := PackOutcome(neg, c, x, mode);
            && InFormat(target.datum) && res == Encode(target.datum)
            && st.raised == old(st.raised) + target.flags + if x < 0 then StickyFlags(old(st.raised)) else {}
  {
    hide Pow10, RoundedQuotient;
    var c, e := coeff, expon;
    if c == TEN34 {
      c, e := TEN33, e + 1;
    }
    if e < 0 {
      res := HandleUnderflow(neg, e, c, mode, st);
      return;
    }
    DeliveredInFormat(neg, c, e, false, mode);
    ghost var c0, e0 := c, e;
    if e > EXP_MAX {
      if c == 0 {
        // the loop runs, but ten times zero is zero
        e := EXP_MAX;
      } else if e - 34 <= EXP_MAX {
        c, e := AppendZeros(c, e);
        AppendedValue(c0, e0, c, e);
      } else {
        FarTooLarge(c, e);
      }
      if e > EXP_MAX {
        st.Raise({Overflow, Inexact});
        res := SignValue(neg) + if mode == ToZero || (neg && mode == Up) || (!neg && mode == Down)
                                then LARGEST_COEF else INFINITY_COEF;
        return;
      }
    }
    res := SignValue(neg) + e * EXP_UNIT + c;
  }

  lemma AppendedValue(c0: nat, e0: nat, c: nat, e: nat)
    requires EXP_MAX <= e <= e0 && c == c0 * Pow10(e0 - e) && (e == EXP_MAX || TEN33 <= c)
    ensures e == EXP_MAX ==> c0 * Pow10(e0 - EXP_MAX) == c
    ensures e > EXP_MAX ==> c0 * Pow10(e0 - EXP_MAX) >= TEN34
  {
    hide Pow10;
    if e > EXP_MAX {
      Pow10Add(e0 - e, e - EXP_MAX);
      MulAssoc(c0, Pow10(e0 - e), Pow10(e - EXP_MAX));
      Pow10Mono(1, e - EXP_MAX);
      NextPower(1, 0);
      Pow10Zero();
      MulMono(10, Pow10(e - EXP_MAX), c);
    }
  }

  lemma FarTooLarge(c: nat, e: nat)
    requires c > 0 && e > EXP_MAX + 34
    ensures c * Pow10(e - EXP_MAX) >= TEN34
  {
    hide Pow10;
    Pow10Values();
    Pow10Mono(34, e - EXP_MAX);
    MulMono(1, c, Pow10(e - EXP_MAX));
  }
}
