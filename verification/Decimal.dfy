/** Decimal text: what a string of digits stands for, and the one text without leading zeros of each number. */
module Decimal {
  import opened Powers

  predicate IsDigit(c: char) { '0' <= c <= '9' }

  predicate IsDecimal(s: string) { forall i :: 0 <= i < |s| ==> IsDigit(s[i]) }

  function DigitChar(d: nat): (c: char)
    requires d < 10
    ensures IsDigit(c) && DigitValue(c) == d
  {
    '0' + d as char
  }

  function DigitValue(c: char): (d: nat)
    requires IsDigit(c)
    ensures d < 10
  {
    (c - '0') as nat
  }

  lemma DigitsWritten(d: nat)
    requires d < 10
    ensures DigitChar(d) == "0123456789"[d]
  {
  }

  function Parse(s: string): nat
    requires IsDecimal(s)
  {
    if s == "" then 0 else 10 * Parse(s[..|s| - 1]) + DigitValue(s[|s| - 1])
  }

  lemma ParseAppend(s: string, d: nat)
    requires IsDecimal(s) && d < 10
    ensures IsDecimal(s + [DigitChar(d)]) && Parse(s + [DigitChar(d)]) == 10 * Parse(s) + d
  {
  }

  lemma ParseEmpty()
    ensures Parse("") == 0
  {
  }

  /** The decimal text of a number. */
  function DecimalText(n: nat): (s: string)
    ensures IsDecimal(s) && s != "" && Parse(s) == n
    ensures n > 0 ==> s[0] != '0'
  {
    if n < 10 then
      assert [DigitChar(n)][..0] == "";
      [DigitChar(n)]
    else
      ParseAppend(DecimalText(n / 10), n % 10);
      DecimalText(n / 10) + [DigitChar(n % 10)]
  }

  lemma TextSplit(n: nat)
    ensures n >= 10 ==> DecimalText(n) == DecimalText(n / 10) + [DigitChar(n % 10)]
    ensures n < 10 ==> DecimalText(n) == [DigitChar(n)]
  {
  }

  /** A text without leading zeros is the text of its value. */
  lemma {:induction false} TextUnique(s: string)
    requires IsDecimal(s) && s != "" && (s[0] != '0' || |s| == 1)
    ensures s == DecimalText(Parse(s))
  {
    hide DecimalText, Parse;
    var init, last := s[..|s| - 1], s[|s| - 1];
    assert s == init + [last];
    assert DigitChar(DigitValue(last)) == last;
    ParseAppend(init, DigitValue(last));
    if init == "" {
      ParseEmpty();
      TextSplit(Parse(s));
    } else {
      TextUnique(init);
      LeadingDigit(init);
      TextSplit(Parse(s));
    }
  }

  lemma {:induction false} LeadingDigit(s: string)
    requires IsDecimal(s) && s != "" && s[0] != '0'
    ensures Parse(s) > 0
  {
    if |s| == 1 {
      assert s[..0] == "";
    } else {
      LeadingDigit(s[..|s| - 1]);
    }
  }

  /** Its length is the number of digits. */
  lemma {:induction false} TextLength(n: nat)
    ensures |DecimalText(n)| == Digits(n)
  {
    if n >= 10 {
      TextLength(n / 10);
    }
    TextSplit(n);
  }
}
