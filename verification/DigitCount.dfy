/** Counting the decimal digits of a coefficient through its bit length and bid_nr_digits. */
module DigitCount {
  import opened Powers
  import opened Encoding
  import opened Tables

  /**
   The bit length less one, read off the exponent of an exact double: a high word, the upper half of
   a low word of at least 2^53, or a smaller low word converts without rounding.
   */
  function BitIndex(c: Bits128): (b: nat)
    requires c > 0
    ensures b == FloorLog2(c)
  {
    BitIndexParts(c);
    if Hi(c) == 0 then
      if Lo(c) >= 0x20_0000_0000_0000 then 32 + FloorLog2(Lo(c) / 0x1_0000_0000)
      else FloorLog2(Lo(c))
    else 64 + FloorLog2(Hi(c))
  }

  lemma BitIndexParts(c: Bits128)
    requires c > 0
    ensures Hi(c) == 0 ==> Lo(c) == c
    ensures Hi(c) == 0 && Lo(c) >= 0x20_0000_0000_0000 ==>
              Lo(c) / 0x1_0000_0000 > 0 && FloorLog2(c) == 32 + FloorLog2(Lo(c) / 0x1_0000_0000)
    ensures Hi(c) != 0 ==> FloorLog2(c) == 64 + FloorLog2(Hi(c))
  {
    Pow2Values();
    if Hi(c) != 0 {
      HighPartLog2(c, 64);
    } else if Lo(c) >= 0x20_0000_0000_0000 {
      HighPartLog2(Lo(c), 32);
    }
  }

  lemma HighPartLog2(c: nat, s: nat)
    requires c / Pow2(s) > 0
    ensures c > 0 && FloorLog2(c) == s + FloorLog2(c / Pow2(s))
  {
    var t := Pow2(s);
    var h := c / t;
    DivModEquation(c, t);
    MulMono(1, h, t);
    var b := FloorLog2(h);
    Pow2Add(b, s);
    Pow2Add(b + 1, s);
    MulMono(Pow2(b), h, t);
    MulMono(h, Pow2(b + 1) - 1, t);
    MulDistribute(Pow2(b + 1), 1, t);
    FloorLog2Unique(c, s + b);
  }

  /** The table lookup counts digits exactly, for every coefficient of at most 113 bits. */
  function CountDigits(c: Bits128): (q: nat)
    requires 0 < c < EXP_UNIT
    ensures q == Digits(c)
  {
    var b := BitIndex(c);
    CoefficientLog2(c);
    NrDigitsRow(b);
    var row := NrDigits(b);
    TableDigits(c, b, row);
    if row.digits != 0 then row.digits
    else if Hi(c) > row.threshold / W64 || (Hi(c) == row.threshold / W64 && Lo(c) >= row.threshold % W64)
    then row.digits1 + 1
    else row.digits1
  }

  lemma TableDigits(c: nat, b: nat, row: DigitRow)
    requires c > 0 && b == FloorLog2(c) < 113 && row == NrDigits(b)
    ensures Digits(c) == if row.digits != 0 then row.digits
                         else if c >= row.threshold then row.digits1 + 1 else row.digits1
  {
    NrDigitsRow(b);
    if row.digits != 0 {
      DigitsUnique(c, row.digits);
    } else if c >= row.threshold {
      DigitsUnique(c, row.digits1 + 1);
    } else {
      DigitsUnique(c, row.digits1);
    }
  }
}
