/**
 smilelib/decimal/bid128_2_str_macros.h and bid128_to_string: a coefficient is re-based to base 10^18, split into
 base-1000 digits by multiplications and shifts, and written out. The pointers the macros advance are sequences
 that grow.
 */
module Print {
  import opened Powers
  import opened Encoding
  import opened PrintTables
  import opened Decimal

  /** Carries from the low 18 digits, testing bit 60 of the sum with 2^60 - 10^18. */
  method Normalize10To18(hi: nat, lo: nat) returns (h: nat, l: nat)
    requires lo < 2 * TEN18
    ensures h * TEN18 + l == hi * TEN18 + lo && l < TEN18
  {
    h, l := hi, lo;
    var tmp := lo + TWO60_LESS_TEN18;
    if tmp / TWO60 % 2 == 1 {
      h, l := hi + 1, tmp % TWO60;
    }
  }

  /** The value of base-1000 digits. */
  function Fold1000(m: seq<nat>): nat {
    if m == [] then 0 else 1000 * Fold1000(m[..|m| - 1]) + m[|m| - 1]
  }

  predicate AreMidis(m: seq<nat>) { forall i :: 0 <= i < |m| ==> m[i] < 1000 }

  lemma FoldAppend(m: seq<nat>, a: nat)
    ensures Fold1000(m + [a]) == 1000 * Fold1000(m) + a
  {
  }

  /** x / 1000 and x % 1000 below 10^6: twice 24 for every 1024, and one correction. */
  lemma SplitThousand(x: nat) returns (head: nat, tail: nat)
    requires x < TEN6
    ensures var h0 := x / 1024;
            var t0 := x % 1024 + h0 * 32 - h0 * 8;
            var h1, t1 := h0 + t0 / 1024, t0 % 1024 + t0 / 1024 * 32 - t0 / 1024 * 8;
            && t1 < 2000 && head == (if t1 > 999 then h1 + 1 else h1) && tail == (if t1 > 999 then t1 - 1000 else t1)
    ensures x == 1000 * head + tail && tail < 1000 && head < 1000
  {
    var h0 := x / 1024;
    var t0 := x % 1024 + h0 * 32 - h0 * 8;
    var u := t0 / 1024;
    var h1, t1 := h0 + u, t0 % 1024 + u * 32 - u * 8;
    assert h0 <= 976 && t0 <= 24447 && u <= 23;
    head, tail := if t1 > 999 then h1 + 1 else h1, if t1 > 999 then t1 - 1000 else t1;
  }

  method SplitMiDi2(x: nat, midis: seq<nat>) returns (m: seq<nat>)
    requires x < TEN6
    ensures m == midis + [x / 1000, x % 1000]
  {
    ghost var h, t := SplitThousand(x);
    DivModUnique(x, 1000, h, t);
    var head := x / 1024;
    var tail := x % 1024 + head * 32 - head * 8;
    var tmp := tail / 1024;
    head := head + tmp;
    tail := tail % 1024 + tmp * 32 - tmp * 8;
    if tail > 999 {
      tail := tail - 1000;
      head := head + 1;
    }
    m := midis + [head, tail];
  }

  /** The reciprocal of 10^6 fits its word and is low by at most one. */
  lemma MillionReciprocal(x: nat)
    requires x < TEN9
    ensures x / 0x2_0000 * 34359 < 0x1_0000_0000
    ensures var h := x / 0x2_0000 * 34359 / 0x4_0000; h * TEN6 <= x < (h + 2) * TEN6
  {
  }

  method SplitMiDi3(x: nat, midis: seq<nat>) returns (m: seq<nat>)
    requires x < TEN9
    ensures m == midis + [x / TEN6, x / 1000 % 1000, x % 1000]
  {
    MillionReciprocal(x);
    var rest := x;
    var head := rest / 0x2_0000 * 34359 / 0x4_0000;
    rest := rest - head * TEN6;
    if rest >= TEN6 {
      rest := rest - TEN6;
      head := head + 1;
    }
    ghost var h, t := SplitThousand(rest);
    var mid := rest / 1024;
    var tail := rest % 1024 + mid * 32 - mid * 8;
    var tmp := tail / 1024;
    mid := mid + tmp;
    tail := tail % 1024 + tmp * 32 - tmp * 8;
    if tail > 999 {
      tail := tail - 1000;
      mid := mid + 1;
    }
    ThreeGroups(x, head, mid, tail);
    m := midis + [head, mid, tail];
  }

  lemma ThreeGroups(x: nat, head: nat, mid: nat, tail: nat)
    requires x == head * TEN6 + mid * 1000 + tail && mid < 1000 && tail < 1000
    ensures head == x / TEN6 && mid == x / 1000 % 1000 && tail == x % 1000
  {
  }

  /** The reciprocal of 10^9 fits its word and is low by at most one. */
  lemma BillionReciprocal(x: nat)
    requires x < TEN18
    ensures x / 0x1000_0000 * INV_TEN9 < 0x1_0000_0000_0000_0000
    ensures var h := x / 0x1000_0000 * INV_TEN9 / 0x2_0000_0000; h * TEN9 <= x < (h + 2) * TEN9
  {
  }

  method DivideByBillion(x: nat) returns (hi: nat, lo: nat)
    requires x < TEN18
    ensures hi == x / TEN9 && lo == x % TEN9
  {
    BillionReciprocal(x);
    hi := x / 0x1000_0000 * INV_TEN9 / 0x2_0000_0000;
    lo := x - hi * TEN9;
    if lo >= TEN9 {
      lo := lo - TEN9;
      hi := hi + 1;
    }
  }

  /** All 18 digits as six groups. */
  method SplitMiDi6(x: nat, midis: seq<nat>) returns (m: seq<nat>)
    requires x < TEN18 && AreMidis(midis)
    ensures AreMidis(m) && |m| == |midis| + 6 && m[..|midis|] == midis
    ensures Fold1000(m) == Fold1000(midis) * TEN18 + x
  {
    var hi, lo := DivideByBillion(x);
    m := SplitMiDi3(hi, midis);
    FoldThree(midis, hi);
    ghost var first := m;
    m := SplitMiDi3(lo, m);
    FoldThree(first, lo);
  }

  lemma FoldThree(m: seq<nat>, x: nat)
    requires x < TEN9 && AreMidis(m)
    ensures AreMidis(m + [x / TEN6, x / 1000 % 1000, x % 1000])
    ensures Fold1000(m + [x / TEN6, x / 1000 % 1000, x % 1000]) == Fold1000(m) * TEN9 + x
  {
    hide Fold1000;
    var a, b, c := x / TEN6, x / 1000 % 1000, x % 1000;
    FoldAppend(m, a);
    FoldAppend(m + [a], b);
    FoldAppend(m + [a] + [b], c);
    assert m + [a] + [b] + [c] == m + [a, b, c];
    assert x == a * TEN6 + b * 1000 + c;
  }

  lemma FoldTwo(m: seq<nat>, x: nat)
    requires x < TEN6 && AreMidis(m)
    ensures AreMidis(m + [x / 1000, x % 1000])
    ensures Fold1000(m + [x / 1000, x % 1000]) == Fold1000(m) * TEN6 + x
  {
    var a, b := x / 1000, x % 1000;
    FoldAppend(m, a);
    FoldAppend(m + [a], b);
    assert m + [a] + [b] == m + [a, b];
  }

  lemma FoldOne(x: nat)
    ensures Fold1000([x]) == x
  {
  }

  /** The leading groups: no zero group in front, except for zero itself. */
  method SplitMiDi6Lead(x: nat) returns (m: seq<nat>)
    requires x < TEN18
    ensures AreMidis(m) && 1 <= |m| <= 6 && Fold1000(m) == x
    ensures x > 0 ==> m[0] != 0
    ensures x == 0 ==> m == [0]
  {
    m := [];
    if x >= TEN9 {
      var hi, lo := DivideByBillion(x);
      m := LeadingGroups(hi);
      ghost var first := m;
      m := SplitMiDi3(lo, m);
      FoldThree(first, lo);
    } else {
      m := LeadingGroups(x);
    }
  }

  method LeadingGroups(x: nat) returns (m: seq<nat>)
    requires x < TEN9
    ensures AreMidis(m) && 1 <= |m| <= 3 && Fold1000(m) == x
    ensures x > 0 ==> m[0] != 0
    ensures x == 0 ==> m == [0]
  {
    m := [];
    if x >= TEN6 {
      m := SplitMiDi3(x, m);
      FoldThree([], x);
    } else if x >= TEN3 {
      m := SplitMiDi2(x, m);
      FoldTwo([], x);
    } else {
      m := m + [x];
      FoldOne(x);
    }
  }

  // bid_midi_tbl[x]: the three digits of x
  function MidiText(x: nat): (s: string)
    requires x < 1000
    ensures |s| == 3 && IsDecimal(s)
  {
    [DigitChar(x / 100), DigitChar(x / 10 % 10), DigitChar(x % 10)]
  }

  /** The first group without leading zeros. */
  function LeadText(x: nat): (s: string)
    requires x < 1000
    ensures s == DecimalText(x)
  {
    LeadTextIs(x);
    if x >= 100 then MidiText(x)
    else if x >= 10 then MidiText(x)[1..]
    else MidiText(x)[2..]
  }

  lemma LeadTextIs(x: nat)
    requires x < 1000
    ensures DecimalText(x) == if x >= 100 then MidiText(x) else if x >= 10 then MidiText(x)[1..] else MidiText(x)[2..]
  {
    hide DecimalText, DigitChar;
    TextSplit(x);
    if x >= 100 {
      HundredsDigit(x);
      TextSplit(x / 10);
      TextSplit(x / 100);
      assert [DigitChar(x / 100)] + [DigitChar(x / 10 % 10)] + [DigitChar(x % 10)] == MidiText(x);
    } else if x >= 10 {
      TextSplit(x / 10);
      assert [DigitChar(x / 10)] + [DigitChar(x % 10)] == MidiText(x)[1..];
    }
  }

  lemma HundredsDigit(x: nat)
    requires 100 <= x < 1000
    ensures x / 10 >= 10 && x / 10 / 10 == x / 100 < 10
  {
  }

  /** Appending the text of one group multiplies by 1000. */
  lemma ParseMidi(s: string, x: nat)
    requires IsDecimal(s) && x < 1000
    ensures IsDecimal(s + MidiText(x)) && Parse(s + MidiText(x)) == 1000 * Parse(s) + x
  {
    hide Parse;
    var a, b, c := x / 100, x / 10 % 10, x % 10;
    ParseAppend(s, a);
    ParseAppend(s + [DigitChar(a)], b);
    ParseAppend(s + [DigitChar(a)] + [DigitChar(b)], c);
    assert s + [DigitChar(a)] + [DigitChar(b)] + [DigitChar(c)] == s + MidiText(x);
  }

  lemma NextMidi(text: string, m: seq<nat>, k: nat)
    requires AreMidis(m) && k < |m| && IsDecimal(text) && Parse(text) == Fold1000(m[..k])
    ensures IsDecimal(text + MidiText(m[k])) && Parse(text + MidiText(m[k])) == Fold1000(m[..k + 1])
  {
    hide Parse, Fold1000;
    ParseMidi(text, m[k]);
    FoldAppend(m[..k], m[k]);
    assert m[..k] + [m[k]] == m[..k + 1];
  }

  /** The groups written out, the first without its leading zeros. */
  method WriteMidis(m: seq<nat>) returns (text: string)
    requires AreMidis(m) && |m| > 0 && (m[0] != 0 || |m| == 1)
    ensures text == DecimalText(Fold1000(m))
  {
    hide DecimalText, Parse, Fold1000;
    text := LeadText(m[0]);
    FoldOne(m[0]);
    assert m[..1] == [m[0]];
    for k := 1 to |m|
      invariant IsDecimal(text) && text != "" && Parse(text) == Fold1000(m[..k])
      invariant k > 1 ==> text[0] != '0'
      invariant k == 1 ==> text == DecimalText(m[0])
    {
      NextMidi(text, m, k);
      text := text + MidiText(m[k]);
    }
    assert m[..|m|] == m;
    TextUnique(text);
  }

  /** Splits a coefficient into 18-digit halves: its low 59 bits, then six bits at a time through the table. */
  method SplitCoefficient(c: Bits128) returns (hi: nat, lo: nat)
    requires c < EXP_UNIT
    ensures hi * TEN18 + lo == c && lo < TEN18
  {
    hide GroupUnit, Mod10Entry;
    var tmp := Lo(c) / 0x800_0000_0000_0000 + Hi(c) * 32;
    hi, lo := 0, Lo(c) % 0x800_0000_0000_0000;
    var k := 0;
    FirstUnit(c);
    while tmp != 0
      invariant 0 <= tmp && 0 <= k <= 9 && tmp * GroupUnit(k) + hi * TEN18 + lo == c
      invariant 0 <= hi && 0 <= lo < TEN18
      decreases tmp
    {
      NextUnit(k, tmp, c);
      var row := Mod10Entry(k, tmp % 64);
      Mod10EntryValue(k, tmp % 64);
      hi, lo := Normalize10To18(hi + row.0, lo + row.1);
      tmp, k := tmp / 64, k + 1;
    }
  }

  lemma FirstUnit(c: Bits128)
    ensures (Lo(c) / 0x800_0000_0000_0000 + Hi(c) * 32) * GroupUnit(0) + Lo(c) % 0x800_0000_0000_0000 == c
  {
  }

  lemma NextUnit(k: nat, tmp: nat, c: nat)
    requires k <= 9 && tmp > 0 && tmp * GroupUnit(k) <= c < EXP_UNIT
    ensures k < 9 && 0 <= tmp % 64 < 64 && 0 <= tmp / 64 < tmp
    ensures tmp / 64 * GroupUnit(k + 1) + tmp % 64 * GroupUnit(k) == tmp * GroupUnit(k)
  {
  }

  /** The coefficient's decimal text. */
  method CoefficientText(c: Bits128) returns (text: string)
    requires 0 < c < TEN34
    ensures text == DecimalText(c) && |text| == Digits(c)
  {
    TextLength(c);
    var hi, lo := SplitCoefficient(c);
    var m;
    if hi == 0 {
      m := SplitMiDi6Lead(lo);
    } else {
      m := SplitMiDi6Lead(hi);
      m := SplitMiDi6(lo, m);
    }
    text := WriteMidis(m);
  }

  /** exp / 1000 by one multiplication. */
  lemma ThousandReciprocal(e: nat)
    requires e <= 6176
    ensures e * 0x418a < 0x1_0000_0000 && e * 0x418a / 0x100_0000 == e / 1000
  {
  }

  /** The exponent's decimal text: up to four digits, from the two-digit and three-digit tables. */
  method ExponentText(e: nat) returns (text: string)
    requires e <= 6176
    ensures text == DecimalText(e)
  {
    ThousandReciprocal(e);
    var d0 := e * 0x418a / 0x100_0000;
    var d123 := e - 1000 * d0;
    if d0 != 0 {
      text := [DigitChar(d0)];
      TextSplit(d0);
      ParseMidi(text, d123);
      text := text + MidiText(d123);
      TextUnique(text);
    } else {
      LeadTextIs(d123);
      if d123 < 10 {
        text := [DigitChar(d123)];
      } else if d123 < 100 {
        text := [DigitChar(d123 / 10), DigitChar(d123 % 10)];
      } else {
        text := MidiText(d123);
      }
    }
  }

  function SignText(neg: bool): string { if neg then "-" else "+" }

  function Distance(e: nat): nat { if e >= EXP_BIAS then e - EXP_BIAS else EXP_BIAS - e }

  /** What a datum is printed as. */
  function TextOf(d: Datum, neg: bool): string {
    match d
    case NaN(signaling) => SignText(neg) + if signaling then "SNaN" else "NaN"
    case Infinite(n) => SignText(n) + "Inf"
    case Finite(n, exp, coef) =>
      SignText(n) + DecimalText(coef) + "E" + SignText(exp < EXP_BIAS) + DecimalText(Distance(exp))
  }

  /** s read as a number: a sign, a coefficient up to position k, an E, and the exponent with its own sign. */
  ghost predicate ReadsAs(s: string, d: Datum, k: nat)
    requires d.Finite?
  {
    && 2 <= k < |s| - 2
    && s[0] == (if d.neg then '-' else '+')
    && IsDecimal(s[1..k]) && Parse(s[1..k]) == d.coef && (s[1] != '0' || k == 2)
    && s[k] == 'E' && (s[k + 1] == '-' || s[k + 1] == '+')
    && IsDecimal(s[k + 2..]) && (s[k + 2] != '0' || k + 3 == |s|)
    && d.exp == (if s[k + 1] == '-' then 6176 - Parse(s[k + 2..]) else 6176 + Parse(s[k + 2..]))
    && (d.exp == 6176 ==> s[k + 1] == '+')
  }

  /** The text of a finite datum reads back as that datum. */
  lemma TextReadsBack(d: Datum) returns (k: nat)
    requires d.Finite?
    ensures ReadsAs(TextOf(d, d.neg), d, k)
  {
    hide DecimalText, Parse;
    TextParts(d);
    var c, e := DecimalText(d.coef), DecimalText(Distance(d.exp));
    k := 1 + |c|;
    var s := TextOf(d, d.neg);
    assert s[1..k] == c && s[1] == c[0];
    assert s[k + 2..] == e && s[k + 2] == e[0];
    ZeroText();
    OnlyZeroStartsWithZero(d.coef);
    OnlyZeroStartsWithZero(Distance(d.exp));
  }

  lemma OnlyZeroStartsWithZero(n: nat)
    ensures DecimalText(n)[0] != '0' || |DecimalText(n)| == 1
  {
  }

  /** bid128_to_string. (The exponent of a zero is printed by sprintf, here DecimalText.) */
  method ToString(x: Bits128) returns (str: string)
    ensures str == TextOf(Decode(x), SignBit(x))
    ensures HasNaN(x) ==>
              str == (if SignBit(x) then "-" else "+") + if Decode(x) == NaN(true) then "SNaN" else "NaN"
    ensures Decode(x).Infinite? ==> str == if SignBit(x) then "-Inf" else "+Inf"
    ensures Decode(x).Finite? ==> exists k: nat :: ReadsAs(str, Decode(x), k)
  {
    hide DecimalText, ReadsAs;
    SpecialImpliesSteering(x);
    DecodeInFormat(x);
    if Decode(x).Finite? {
      assert Decode(x).neg == SignBit(x);
      ghost var k := TextReadsBack(Decode(x));
    }
    if HasSpecial(x) {
      if HasNaN(x) {
        str := SignText(SignBit(x)) + if HasSNaN(x) then "SNaN" else "NaN";
      } else {
        str := SignText(SignBit(x)) + "Inf";
      }
      return;
    }
    str := SignText(SignBit(x));
    if CoefHi(x) == 0 && Lo(x) == 0 {
      var e := ExpField(x);
      SteeringExponent(x);
      if e > 0x5ffe / 2 {
        e := ExpFieldShifted(x);
      }
      ZeroText();
      str := str + "0" + "E";
      str := str + SignText(e < EXP_BIAS) + DecimalText(Distance(e));
      return;
    }
    var e := if HasSteering(x) then ExpFieldShifted(x) else ExpField(x);
    if CoefHi(x) > 0x1_ed09_bead_87c0 || (CoefHi(x) == 0x1_ed09_bead_87c0 && Lo(x) > 0x378d_8e63_ffff_ffff)
       || HasSteering(x) {
      ZeroText();
      str := str + "0";
    } else {
      var digits := CoefficientText(CoefField(x));
      str := str + digits;
    }
    str := str + "E" + SignText(e < EXP_BIAS);
    var text := ExponentText(Distance(e));
    str := str + text;
  }

  /** The number one. */
  method OneText(x: Bits128) returns (str: string)
    requires x == 0x3040_0000_0000_0000_0000_0000_0000_0001
    ensures str == "+1E+0"
  {
    KnownPatterns();
    OneDigitText();
    hide Decode, DecimalText, ReadsAs;
    str := ToString(x);
    OneSigned();
  }

  lemma OneSigned()
    ensures !SignBit(ONE)
  {
  }

  lemma OneDigitText()
    ensures DecimalText(0) == "0" && DecimalText(1) == "1"
  {
  }

  lemma ZeroText()
    ensures DecimalText(0) == "0"
  {
  }

  /** The steering bits are set just when the exponent field is past the largest exponent. */
  lemma SteeringExponent(x: Bits128)
    ensures HasSteering(x) <==> ExpField(x) > 0x5ffe / 2
  {
  }

  /** Printing keeps everything: two finite data with one text are one datum. */
  lemma TextInjective(a: Datum, b: Datum)
    requires a.Finite? && b.Finite? && TextOf(a, a.neg) == TextOf(b, b.neg)
    ensures a == b
  {
    hide DecimalText;
    var s, t := TextOf(a, a.neg), TextOf(b, b.neg);
    var da, db := DecimalText(a.coef), DecimalText(b.coef);
    TextParts(a);
    TextParts(b);
    assert a.neg == b.neg;
    if |da| < |db| {
      LongerDiffers(a, b);
    } else if |db| < |da| {
      LongerDiffers(b, a);
    }
    assert s[1..1 + |da|] == t[1..1 + |db|];
    assert s[3 + |da|..] == t[3 + |db|..];
  }

  /** Where the shorter coefficient is followed by E, the longer one still has a digit. */
  lemma LongerDiffers(a: Datum, b: Datum)
    requires a.Finite? && b.Finite? && |DecimalText(a.coef)| < |DecimalText(b.coef)|
    ensures TextOf(a, a.neg) != TextOf(b, b.neg)
  {
    hide DecimalText;
    TextParts(a);
    TextParts(b);
    var k := |DecimalText(a.coef)|;
    assert TextOf(b, b.neg)[1 + k] == DecimalText(b.coef)[k];
    assert IsDigit(DecimalText(b.coef)[k]) && !IsDigit('E');
  }

  lemma TextParts(d: Datum)
    requires d.Finite?
    ensures var s, c := TextOf(d, d.neg), DecimalText(d.coef);
            && |s| > 3 + |c| && s[0] == (if d.neg then '-' else '+') && s[1..1 + |c|] == c
            && s[1 + |c|] == 'E' && s[2 + |c|] == (if d.exp < EXP_BIAS then '-' else '+')
            && s[3 + |c|..] == DecimalText(Distance(d.exp))
            && (forall i :: 0 <= i < |c| ==> s[1 + i] == c[i])
  {
    hide DecimalText;
  }
}
