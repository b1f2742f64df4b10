/**
 smilelibtests/testlib.c, WildcardMatch: what the matcher decides, and for exactly which patterns that is the
 usual glob relation.
 */
module Wildcard {
  type Byte = b: int | 0 <= b < 256

  const STAR: Byte := 42
  const QUESTION: Byte := 63

  /** Lower case for an ASCII letter. */
  function CaseFold(b: Byte): (c: Byte)
    ensures c == STAR <==> b == STAR
    ensures c == QUESTION <==> b == QUESTION
  {
    if 65 <= b <= 90 then b + 32 else b
  }

  predicate IsWild(b: Byte) { b == STAR || b == QUESTION }

  predicate MatchesOne(pattern: Byte, b: Byte) { pattern == QUESTION || CaseFold(pattern) == CaseFold(b) }

  /** The wildcards are these two characters. */
  lemma WildBytes(b: Byte)
    ensures IsWild(b) <==> b == '*' as int || b == '?' as int
    ensures STAR == '*' as int && QUESTION == '?' as int
  {
  }

  /** One ASCII letter in its two cases. */
  predicate OtherCase(a: Byte, b: Byte) {
    || ('A' as int <= a <= 'Z' as int && b == a + 32)
    || ('A' as int <= b <= 'Z' as int && a == b + 32)
  }

  /** A literal takes its own byte and, if it is a letter, the same letter in the other case; nothing else. */
  lemma MatchesOneIff(p: Byte, b: Byte)
    ensures p != '*' as int && p != '?' as int ==> (MatchesOne(p, b) <==> p == b || OtherCase(p, b))
    ensures p == '?' as int ==> MatchesOne(p, b)
  {
  }

  predicate SameButCase(t: seq<Byte>, u: seq<Byte>) {
    |t| == |u| && forall i :: 0 <= i < |t| ==> t[i] == u[i] || OtherCase(t[i], u[i])
  }

  /** Changing the case of letters of the text changes neither relation. */
  lemma {:induction false} GlobIgnoresCase(p: seq<Byte>, t: seq<Byte>, u: seq<Byte>)
    requires SameButCase(t, u)
    ensures Glob(p, t) <==> Glob(p, u)
    decreases |p| + |t|
  {
    if p != [] {
      if p[0] == STAR {
        GlobIgnoresCase(p[1..], t, u);
        if t != [] {
          GlobIgnoresCase(p, t[1..], u[1..]);
        }
      } else if t != [] {
        GlobIgnoresCase(p[1..], t[1..], u[1..]);
      }
    }
  }

  lemma {:induction false} MatchesIgnoresCase(p: seq<Byte>, t: seq<Byte>, u: seq<Byte>)
    requires SameButCase(t, u)
    ensures Matches(p, t) <==> Matches(p, u)
    decreases |p|
  {
    if p != [] {
      if p[0] == STAR {
        var m := RunLength(p[1..]);
        forall k | m <= k <= |t| && 1 + m < |p|
          ensures Matches(p[1 + m..], t[k..]) <==> Matches(p[1 + m..], u[k..])
        {
          MatchesIgnoresCase(p[1 + m..], t[k..], u[k..]);
        }
      } else if t != [] {
        MatchesIgnoresCase(p[1..], t[1..], u[1..]);
      }
    }
  }

  /** The glob relation: a star stands for any text, a question mark for any one character. */
  predicate Glob(p: seq<Byte>, t: seq<Byte>)
    decreases |p| + |t|
  {
    if p == [] then t == []
    else if p[0] == STAR then Glob(p[1..], t) || (t != [] && Glob(p, t[1..]))
    else t != [] && MatchesOne(p[0], t[0]) && Glob(p[1..], t[1..])
  }

  /** How many wildcards p begins with. */
  function RunLength(p: seq<Byte>): (m: nat)
    ensures m <= |p| && forall i :: 0 <= i < m ==> IsWild(p[i])
    ensures m < |p| ==> !IsWild(p[m])
  {
    if p == [] || !IsWild(p[0]) then 0 else 1 + RunLength(p[1..])
  }

  /**
   What WildcardMatch decides. After a star it steps over one character of the text for every further wildcard, a
   star included; at the end of the pattern it has then failed only if a question mark met the very end of the text.
   */
  predicate Matches(p: seq<Byte>, t: seq<Byte>)
    decreases |p|
  {
    if p == [] then t == []
    else if p[0] == STAR then
      var m := RunLength(p[1..]);
      if 1 + m == |p| then |t| >= m || p[1 + |t|] == STAR
      else exists k :: m <= k <= |t| && Matches(p[1 + m..], t[k..])
    else t != [] && MatchesOne(p[0], t[0]) && Matches(p[1..], t[1..])
  }

  /** One position of the pattern other than a star. */
  lemma MatchesStep(p: seq<Byte>, pi: nat, t: seq<Byte>, ti: nat)
    requires pi < |p| && ti <= |t| && p[pi] != STAR
    ensures Matches(p[pi..], t[ti..]) <==>
            ti < |t| && MatchesOne(p[pi], t[ti]) && Matches(p[pi + 1..], t[ti + 1..])
  {
  }

  /** The matcher on p from position pi0 and t from position ti0. */
  method WildcardMatch(p: seq<Byte>, pi0: nat, t: seq<Byte>, ti0: nat) returns (r: bool)
    requires pi0 <= |p| && ti0 <= |t|
    ensures r == Matches(p[pi0..], t[ti0..])
    decreases |p| - pi0, 0
  {
    hide Matches;
    var pi, ti := pi0, ti0;
    while pi < |p|
      invariant pi0 <= pi <= |p| && 0 <= ti <= |t|
      invariant Matches(p[pi0..], t[ti0..]) == Matches(p[pi..], t[ti..])
    {
      var patternChar := CaseFold(p[pi]);
      if p[pi] != STAR {
        MatchesStep(p, pi, t, ti);
      }
      pi := pi + 1;
      if patternChar == QUESTION {
        if ti == |t| {
          return false;
        }
        ti := ti + 1;
      } else if patternChar == STAR {
        r := MatchStar(p, pi, t, ti);
        return;
      } else {
        if ti == |t| {
          return false;
        }
        var textChar := CaseFold(t[ti]);
        ti := ti + 1;
        if patternChar != textChar {
          return false;
        }
      }
    }
    assert p[pi..] == [];
    MatchesEmpty(t[ti..]);
    r := ti == |t|;
  }

  lemma MatchesEmpty(t: seq<Byte>)
    ensures Matches([], t) <==> t == []
  {
  }

  lemma {:induction false} MatchesStar(p: seq<Byte>, t: seq<Byte>)
    requires p != [] && p[0] == STAR
    ensures var m := RunLength(p[1..]);
            Matches(p, t) <==> if 1 + m == |p| then |t| >= m || p[1 + |t|] == STAR
                               else exists k :: m <= k <= |t| && Matches(p[1 + m..], t[k..])
  {
  }

  /** The arm for a star that stands before position start. */
  method MatchStar(p: seq<Byte>, start: nat, t: seq<Byte>, ti0: nat) returns (r: bool)
    requires 0 < start <= |p| && ti0 <= |t| && p[start - 1] == STAR
    ensures r == Matches(p[start - 1..], t[ti0..])
    decreases |p| - start, 1
  {
    hide Matches;
    var pi, ti := start, ti0;
    ghost var q, u := p[start - 1..], t[ti0..];
    ghost var m := RunLength(q[1..]);
    MatchesStar(q, u);
    while pi < |p| && IsWild(CaseFold(p[pi]))
      invariant start <= pi <= start + m && ti == ti0 + (pi - start)
      invariant |u| < pi - start ==> q[1 + |u|] == STAR
    {
      assert q[1..][pi - start] == p[pi];
      if CaseFold(p[pi]) == QUESTION && ti == |t| {
        return false;
      }
      pi := pi + 1;
      ti := ti + 1;
    }
    RunEnds(p, start, pi, m);
    if pi == |p| {
      return true;
    }
    var nextPatternChar := CaseFold(p[pi]);
    assert q[1 + m..] == p[pi..];
    while ti < |t|
      invariant ti0 + m <= ti && (ti <= |t| || ti == ti0 + m)
      invariant forall k :: m <= k <= |u| && k < ti - ti0 ==> !Matches(q[1 + m..], u[k..])
    {
      var textChar := CaseFold(t[ti]);
      assert u[ti - ti0..] == t[ti..];
      MatchesStep(p, pi, t, ti);
      if textChar == nextPatternChar {
        var found := WildcardMatch(p, pi, t, ti);
        if found {
          return true;
        }
      }
      ti := ti + 1;
    }
    if ti == |t| {
      assert u[|u|..] == t[ti..];
      MatchesStep(p, pi, t, ti);
    }
    return false;
  }

  lemma RunEnds(p: seq<Byte>, start: nat, pi: nat, m: nat)
    requires 0 < start <= pi <= |p| && m == RunLength(p[start - 1..][1..]) && pi <= start + m
    requires pi == |p| || !IsWild(p[pi])
    ensures pi == start + m
  {
  }

  // When this is the glob relation.

  /** Stars only at the end of the sequence. */
  predicate QuestionsFirst(run: seq<Byte>) {
    forall i, j :: 0 <= i < j < |run| && run[i] == STAR ==> run[j] != QUESTION
  }

  /**
   A pattern on which nothing goes wrong: no second star in a run of wildcards that a literal follows, and in the
   run that ends the pattern no question mark after a second star.
   */
  predicate Benign(p: seq<Byte>) {
    if p == [] then true
    else if p[0] == STAR then
      var m := RunLength(p[1..]);
      var run, rest := p[1..1 + m], p[1 + m..];
      (if rest == [] then QuestionsFirst(run) else STAR !in run) && Benign(rest)
    else Benign(p[1..])
  }

  function CountQuestions(run: seq<Byte>): (q: nat)
    ensures q <= |run|
  {
    if run == [] then 0 else (if run[0] == QUESTION then 1 else 0) + CountQuestions(run[1..])
  }

  /** A star skips any prefix of the text. */
  lemma {:induction false} GlobStar(rest: seq<Byte>, t: seq<Byte>)
    ensures Glob([STAR] + rest, t) <==> exists k :: 0 <= k <= |t| && Glob(rest, t[k..])
    decreases |t|
  {
    var p := [STAR] + rest;
    assert p[1..] == rest;
    assert t[0..] == t;
    if t != [] {
      GlobStar(rest, t[1..]);
      if Glob(p, t[1..]) {
        var k :| 0 <= k <= |t| - 1 && Glob(rest, t[1..][k..]);
        assert t[1..][k..] == t[k + 1..];
      }
      forall k | 0 < k <= |t| && Glob(rest, t[k..])
        ensures Glob(p, t[1..])
      {
        assert t[1..][k - 1..] == t[k..];
      }
    } else {
      assert forall k :: 0 <= k <= |t| ==> t[k..] == t;
    }
  }

  /** A star and a run of further wildcards skip at least as many characters as there are question marks. */
  lemma {:induction false} GlobRun(run: seq<Byte>, rest: seq<Byte>, t: seq<Byte>)
    requires forall i :: 0 <= i < |run| ==> IsWild(run[i])
    ensures Glob([STAR] + run + rest, t) <==> exists k :: CountQuestions(run) <= k <= |t| && Glob(rest, t[k..])
    decreases |run|, 0
  {
    if run == [] {
      assert [STAR] + run + rest == [STAR] + rest;
      GlobStar(rest, t);
    } else {
      var tail := run[1..];
      assert [STAR] + run + rest == [STAR] + ([run[0]] + tail + rest);
      GlobStar([run[0]] + tail + rest, t);
      if run[0] == STAR {
        SecondStar(tail, rest, t);
      } else {
        QuestionAfterStar(tail, rest, t);
      }
    }
  }

  lemma SecondStar(tail: seq<Byte>, rest: seq<Byte>, t: seq<Byte>)
    requires forall i :: 0 <= i < |tail| ==> IsWild(tail[i])
    ensures (exists k :: 0 <= k <= |t| && Glob([STAR] + tail + rest, t[k..]))
            <==> exists k :: CountQuestions(tail) <= k <= |t| && Glob(rest, t[k..])
    decreases |tail|, 1
  {
    var q := CountQuestions(tail);
    forall k | 0 <= k <= |t| && Glob([STAR] + tail + rest, t[k..])
      ensures exists j :: q <= j <= |t| && Glob(rest, t[j..])
    {
      GlobRun(tail, rest, t[k..]);
      var i :| q <= i <= |t[k..]| && Glob(rest, t[k..][i..]);
      assert t[k..][i..] == t[k + i..];
    }
    GlobRun(tail, rest, t);
    assert t[0..] == t;
  }

  lemma QuestionAfterStar(tail: seq<Byte>, rest: seq<Byte>, t: seq<Byte>)
    requires forall i :: 0 <= i < |tail| ==> IsWild(tail[i])
    ensures (exists k :: 0 <= k <= |t| && Glob([QUESTION] + tail + rest, t[k..]))
            <==> exists k :: CountQuestions(tail) + 1 <= k <= |t| && Glob(rest, t[k..])
    decreases |tail|, 1
  {
    var p, q := [QUESTION] + tail + rest, CountQuestions(tail);
    assert p[1..] == tail + rest;
    if t == [] {
      assert forall k :: 0 <= k <= |t| ==> t[k..] == [];
    } else {
      forall k | 0 <= k < |t|
        ensures Glob(p, t[k..]) <==> Glob(tail + rest, t[1..][k..])
      {
        assert t[k..][1..] == t[1..][k..];
      }
      assert t[|t|..] == [];
      assert [STAR] + tail + rest == [STAR] + (tail + rest);
      GlobStar(tail + rest, t[1..]);
      GlobRun(tail, rest, t[1..]);
      forall k | q <= k <= |t[1..]|
        ensures t[1..][k..] == t[k + 1..]
      {
      }
      forall k | q + 1 <= k <= |t| && Glob(rest, t[k..])
        ensures exists j :: q <= j <= |t[1..]| && Glob(rest, t[1..][j..])
      {
        assert t[1..][k - 1..] == t[k..];
      }
    }
  }

  /** At the end of the pattern, the length of the text decides. */
  lemma GlobFinal(run: seq<Byte>, t: seq<Byte>)
    requires forall i :: 0 <= i < |run| ==> IsWild(run[i])
    ensures Glob([STAR] + run, t) <==> |t| >= CountQuestions(run)
  {
    assert [STAR] + run + [] == [STAR] + run;
    GlobRun(run, [], t);
    assert t[|t|..] == [];
  }

  lemma {:induction false} CountWithoutStars(run: seq<Byte>)
    requires forall i :: 0 <= i < |run| ==> IsWild(run[i])
    ensures CountQuestions(run) == |run| <==> STAR !in run
  {
    if run != [] {
      CountWithoutStars(run[1..]);
      assert run == [run[0]] + run[1..];
    }
  }

  lemma {:induction false} CountOfStars(run: seq<Byte>)
    requires forall i :: 0 <= i < |run| ==> run[i] != QUESTION
    ensures CountQuestions(run) == 0
  {
    if run != [] {
      CountOfStars(run[1..]);
    }
  }

  lemma QuestionsFirstTail(run: seq<Byte>)
    requires run != [] && run[0] != STAR
    ensures QuestionsFirst(run) <==> QuestionsFirst(run[1..])
  {
  }

  /** Question marks first: exactly the positions from their number on hold stars. */
  lemma {:induction false} QuestionsFirstAt(run: seq<Byte>, l: nat)
    requires forall i :: 0 <= i < |run| ==> IsWild(run[i])
    requires QuestionsFirst(run) && l < |run|
    ensures l >= CountQuestions(run) <==> run[l] == STAR
  {
    if run[0] == STAR {
      CountOfStars(run);
    } else if l > 0 {
      QuestionsFirstTail(run);
      QuestionsFirstAt(run[1..], l - 1);
    }
  }

  /** A pattern that begins with a star, taken apart. */
  lemma StarParts(p: seq<Byte>)
    requires p != [] && p[0] == STAR
    ensures var m := RunLength(p[1..]);
            var run, rest := p[1..1 + m], p[1 + m..];
            && p == [STAR] + run + rest && |run| == m
            && (forall i :: 0 <= i < |run| ==> IsWild(run[i]))
            && (rest != [] ==> !IsWild(rest[0]))
  {
  }

  /** On a benign pattern the matcher decides the glob relation, for every text. */
  lemma {:induction false} BenignMatches(p: seq<Byte>, t: seq<Byte>)
    requires Benign(p)
    ensures Matches(p, t) <==> Glob(p, t)
    decreases |p|
  {
    if p == [] {
    } else if p[0] == STAR {
      StarParts(p);
      var m := RunLength(p[1..]);
      var run, rest := p[1..1 + m], p[1 + m..];
      if rest == [] {
        assert p == [STAR] + run;
        GlobFinal(run, t);
        if |t| < m {
          QuestionsFirstAt(run, |t|);
          assert p[1 + |t|] == run[|t|];
        }
      } else {
        GlobRun(run, rest, t);
        CountWithoutStars(run);
        forall k | m <= k <= |t|
          ensures Matches(rest, t[k..]) <==> Glob(rest, t[k..])
        {
          BenignMatches(rest, t[k..]);
        }
      }
    } else if t != [] {
      BenignMatches(p[1..], t[1..]);
    }
  }

  // The other direction: a text on which a pattern that is not benign goes wrong. The star character itself is the
  // filler, since no literal of a pattern is a star.

  /** The literals of a pattern, and the characters of a text that only a literal should take. */
  function CountLiterals(p: seq<Byte>): nat {
    if p == [] then 0 else (if IsWild(p[0]) then 0 else 1) + CountLiterals(p[1..])
  }

  function CountOthers(t: seq<Byte>): nat {
    if t == [] then 0 else (if t[0] == STAR then 0 else 1) + CountOthers(t[1..])
  }

  lemma {:induction false} OthersOfSuffix(t: seq<Byte>, k: nat)
    requires k <= |t|
    ensures CountOthers(t[k..]) <= CountOthers(t)
  {
    if k > 0 {
      OthersOfSuffix(t[1..], k - 1);
      assert t[1..][k - 1..] == t[k..];
    } else {
      assert t[0..] == t;
    }
  }

  lemma {:induction false} LiteralsOfSuffix(p: seq<Byte>, m: nat)
    requires m <= |p| && forall i :: 0 <= i < m ==> IsWild(p[i])
    ensures CountLiterals(p[m..]) == CountLiterals(p)
  {
    if m > 0 {
      LiteralsOfSuffix(p[1..], m - 1);
      assert p[1..][m - 1..] == p[m..];
    } else {
      assert p[0..] == p;
    }
  }

  /** Every literal takes a character that is not the filler. */
  lemma {:induction false} MatchesNeedsOthers(p: seq<Byte>, t: seq<Byte>)
    requires Matches(p, t)
    ensures CountOthers(t) >= CountLiterals(p)
    decreases |p|
  {
    if p == [] {
    } else if p[0] == STAR {
      StarParts(p);
      var m := RunLength(p[1..]);
      assert forall i :: 0 <= i < 1 + m ==> IsWild(p[i]) by { RunIsWild(p, m); }
      LiteralsOfSuffix(p, 1 + m);
      if 1 + m < |p| {
        var k :| m <= k <= |t| && Matches(p[1 + m..], t[k..]);
        MatchesNeedsOthers(p[1 + m..], t[k..]);
        OthersOfSuffix(t, k);
      } else {
        assert p[1 + m..] == [];
      }
    } else {
      MatchesNeedsOthers(p[1..], t[1..]);
    }
  }

  lemma RunIsWild(p: seq<Byte>, m: nat)
    requires p != [] && p[0] == STAR && m == RunLength(p[1..])
    ensures forall i :: 0 <= i < 1 + m ==> IsWild(p[i])
  {
  }

  lemma {:induction false} GlobNeedsOthers(p: seq<Byte>, t: seq<Byte>)
    requires Glob(p, t)
    ensures CountOthers(t) >= CountLiterals(p)
    decreases |p| + |t|
  {
    if p == [] {
    } else if p[0] == STAR {
      if Glob(p[1..], t) {
        GlobNeedsOthers(p[1..], t);
      } else {
        GlobNeedsOthers(p, t[1..]);
      }
    } else {
      GlobNeedsOthers(p[1..], t[1..]);
    }
  }

  function Fill(n: nat): (s: seq<Byte>)
    ensures |s| == n && forall i :: 0 <= i < n ==> s[i] == STAR
  {
    seq(n, i => STAR)
  }

  /** Fillers before a text that begins with another character leave a pattern that begins with a literal one start. */
  lemma OnlyStart(rest: seq<Byte>, j: nat, s: seq<Byte>, k: nat)
    requires rest != [] && !IsWild(rest[0]) && s != [] && s[0] != STAR && CountOthers(s) == CountLiterals(rest)
    requires k <= j + |s| && k != j
    ensures !Matches(rest, (Fill(j) + s)[k..]) && !Glob(rest, (Fill(j) + s)[k..])
  {
    hide Matches, Glob, CountOthers, CountLiterals;
    var u := (Fill(j) + s)[k..];
    if k < j {
      assert u[0] == STAR;
      LiteralRefusesFiller(rest, u);
    } else {
      assert u == s[1..][k - j - 1..];
      OthersOfSuffix(s[1..], k - j - 1);
      OthersOfTail(s);
      if Matches(rest, u) {
        MatchesNeedsOthers(rest, u);
      }
      if Glob(rest, u) {
        GlobNeedsOthers(rest, u);
      }
    }
  }

  lemma LiteralRefusesFiller(rest: seq<Byte>, u: seq<Byte>)
    requires rest != [] && !IsWild(rest[0]) && u != [] && u[0] == STAR
    ensures !Matches(rest, u) && !Glob(rest, u)
  {
  }

  lemma OthersOfTail(s: seq<Byte>)
    requires s != [] && s[0] != STAR
    ensures CountOthers(s[1..]) == CountOthers(s) - 1
  {
  }

  lemma {:induction false} FillersAreNotOthers(j: nat, s: seq<Byte>)
    ensures CountOthers(Fill(j) + s) == CountOthers(s)
  {
    if j == 0 {
      assert Fill(j) + s == s;
    } else {
      FillersAreNotOthers(j - 1, s);
      assert (Fill(j) + s)[1..] == Fill(j - 1) + s;
    }
  }

  /** How a star pattern treats fillers before a text for its rest. */
  lemma StarOverFillers(p: seq<Byte>, j: nat, s: seq<Byte>)
    requires p != [] && p[0] == STAR && 1 + RunLength(p[1..]) < |p|
    requires var rest := p[1 + RunLength(p[1..])..]; s != [] && s[0] != STAR && CountOthers(s) == CountLiterals(rest)
    ensures var m := RunLength(p[1..]);
            var run, rest := p[1..1 + m], p[1 + m..];
            && (Matches(p, Fill(j) + s) <==> m <= j && Matches(rest, s))
            && (Glob(p, Fill(j) + s) <==> CountQuestions(run) <= j && Glob(rest, s))
    ensures CountOthers(Fill(j) + s) == CountLiterals(p)
  {
    StarParts(p);
    var m := RunLength(p[1..]);
    var run, rest := p[1..1 + m], p[1 + m..];
    var t := Fill(j) + s;
    assert t[j..] == s;
    GlobRun(run, rest, t);
    forall k | 0 <= k <= |t| && k != j
      ensures !Matches(rest, t[k..]) && !Glob(rest, t[k..])
    {
      OnlyStart(rest, j, s, k);
    }
    FillersAreNotOthers(j, s);
    RunIsWild(p, m);
    LiteralsOfSuffix(p, 1 + m);
  }

  lemma FillersAtEnd(p: seq<Byte>, l: nat)
    requires p != [] && p[0] == STAR && 1 + RunLength(p[1..]) == |p|
    ensures Matches(p, Fill(l)) <==> l >= |p| - 1 || p[1 + l] == STAR
    ensures Glob(p, Fill(l)) <==> l >= CountQuestions(p[1..])
    ensures CountOthers(Fill(l)) == CountLiterals(p)
  {
    StarParts(p);
    assert p == [STAR] + p[1..];
    GlobFinal(p[1..], Fill(l));
    assert Fill(l) + [] == Fill(l);
    FillersAreNotOthers(l, []);
    RunIsWild(p, |p| - 1);
    LiteralsOfSuffix(p, |p|);
    assert p[|p|..] == [];
  }

  /** A text with the literals of p that both sides accept. */
  lemma {:induction false} SharedText(p: seq<Byte>) returns (t: seq<Byte>)
    ensures Matches(p, t) && Glob(p, t) && CountOthers(t) == CountLiterals(p)
    ensures p != [] && !IsWild(p[0]) ==> t != [] && t[0] != STAR
    decreases |p|
  {
    if p == [] {
      t := [];
    } else if p[0] == STAR {
      StarParts(p);
      var m := RunLength(p[1..]);
      if 1 + m == |p| {
        t := Fill(m);
        FillersAtEnd(p, m);
      } else {
        var s := SharedText(p[1 + m..]);
        t := Fill(m) + s;
        StarOverFillers(p, m, s);
      }
    } else {
      var s := SharedText(p[1..]);
      t := [if p[0] == QUESTION then STAR else p[0]] + s;
      assert t[1..] == s;
    }
  }

  /** Where a question mark follows a star, some length is judged wrongly. */
  lemma {:induction false} WrongLength(run: seq<Byte>) returns (l: nat)
    requires (forall i :: 0 <= i < |run| ==> IsWild(run[i])) && !QuestionsFirst(run)
    ensures l < |run| && (l >= CountQuestions(run) <==> run[l] != STAR)
  {
    if run[0] == STAR {
      l := 0;
      var i, j :| 0 <= i < j < |run| && run[i] == STAR && run[j] == QUESTION;
      HasQuestions(run, j);
    } else {
      QuestionsFirstTail(run);
      var k := WrongLength(run[1..]);
      l := k + 1;
    }
  }

  lemma {:induction false} HasQuestions(run: seq<Byte>, j: nat)
    requires j < |run| && run[j] == QUESTION
    ensures CountQuestions(run) > 0
  {
    if j > 0 {
      HasQuestions(run[1..], j - 1);
    }
  }

  /** A text the matcher judges wrongly. */
  lemma {:induction false} Disagreement(p: seq<Byte>) returns (t: seq<Byte>)
    requires !Benign(p)
    ensures Matches(p, t) != Glob(p, t) && CountOthers(t) == CountLiterals(p)
    ensures p != [] && !IsWild(p[0]) ==> t != [] && t[0] != STAR
    decreases |p|
  {
    if p[0] == STAR {
      StarParts(p);
      var m := RunLength(p[1..]);
      var run, rest := p[1..1 + m], p[1 + m..];
      CountWithoutStars(run);
      if rest == [] {
        assert run == p[1..];
        var l := WrongLength(run);
        t := Fill(l);
        FillersAtEnd(p, l);
      } else if STAR in run {
        var s := SharedText(rest);
        t := Fill(CountQuestions(run)) + s;
        StarOverFillers(p, CountQuestions(run), s);
      } else {
        var s := Disagreement(rest);
        t := Fill(m) + s;
        StarOverFillers(p, m, s);
      }
    } else {
      var s := Disagreement(p[1..]);
      t := [if p[0] == QUESTION then STAR else p[0]] + s;
      assert t[1..] == s;
    }
  }

  /** WildcardMatch decides the glob relation for every text exactly when the pattern is benign. */
  lemma MatchesIsGlobIff(p: seq<Byte>)
    ensures (forall t :: Matches(p, t) == Glob(p, t)) <==> Benign(p)
  {
    if Benign(p) {
      forall t: seq<Byte>
        ensures Matches(p, t) == Glob(p, t)
      {
        BenignMatches(p, t);
      }
    } else {
      var t := Disagreement(p);
      assert Matches(p, t) != Glob(p, t);
    }
  }

  /** IsTestSuiteRequested: with patterns on which nothing goes wrong, the suites whose name one of them globs. */
  method IsTestSuiteRequested(requested: seq<seq<Byte>>, name: seq<Byte>) returns (r: bool)
    ensures r <==> requested == [] || exists i :: 0 <= i < |requested| && Matches(requested[i], name)
    ensures (forall i :: 0 <= i < |requested| ==> Benign(requested[i])) ==>
              (r <==> requested == [] || exists i :: 0 <= i < |requested| && Glob(requested[i], name))
  {
    hide Matches, Benign, Glob;
    if |requested| <= 0 {
      return true;
    }
    for i := 0 to |requested|
      invariant forall k :: 0 <= k < i ==> !Matches(requested[k], name)
      invariant forall k :: 0 <= k < i && Benign(requested[k]) ==> !Glob(requested[k], name)
    {
      var found := WildcardMatch(requested[i], 0, name, 0);
      assert requested[i][0..] == requested[i] && name[0..] == name;
      if Benign(requested[i]) {
        BenignMatches(requested[i], name);
      }
      if found {
        return true;
      }
    }
    return false;
  }

  /** Two texts that are judged wrongly: the pattern "**a" refuses "a", and "**?" accepts the empty text. */
  lemma WrongExamples()
    ensures !Matches([STAR, STAR, 97], [97]) && Glob([STAR, STAR, 97], [97])
    ensures Matches([STAR, STAR, QUESTION], []) && !Glob([STAR, STAR, QUESTION], [])
  {
    var p: seq<Byte> := [STAR, STAR, 97];
    assert p[1..] == [STAR, 97] && p[1..][1..] == [97] && [97 as Byte][1..] == [];
    assert RunLength([STAR, 97]) == 1;
    assert p[2..] == [97];
    assert Glob([97], [97]);
    assert Glob([STAR, 97], [97]);
    var u: seq<Byte> := [STAR, STAR, QUESTION];
    assert u[1..] == [STAR, QUESTION] && u[1..][1..] == [QUESTION] && [QUESTION][1..] == [];
    assert RunLength([QUESTION]) == 1;
    assert RunLength([STAR, QUESTION]) == 2;
    assert !Glob([QUESTION], []);
    assert !Glob([STAR, QUESTION], []);
  }
}
