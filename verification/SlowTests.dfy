/**
 smilelibtests/testlib.c and testlib.h: the list of the slowest tests of a suite, kept sorted by insertion and
 merge.
 */
module SlowTests {
  import opened Powers

  /** A test's name (empty for none), its suite and its running time. */
  datatype TestResult = TestResult(name: string, suiteName: string, duration: nat)

  const EMPTY: TestResult := TestResult("", "", 0)
  const CAPACITY: nat := 20

  predicate Descending(s: seq<TestResult>) {
    forall i, j :: 0 <= i < j < |s| ==> s[i].duration >= s[j].duration
  }

  function CountAtLeast(s: seq<TestResult>, v: nat): (n: nat)
    ensures n <= |s|
  {
    if s == [] then 0 else (if s[0].duration >= v then 1 else 0) + CountAtLeast(s[1..], v)
  }

  /**
   kept holds the largest durations of recorded, padded with zeros: of every positive bound, as many of them
   reach it as of all the recorded ones, or all of them.
   */
  ghost predicate HoldsSlowest(kept: seq<TestResult>, recorded: seq<TestResult>) {
    && |kept| == CAPACITY && Descending(kept)
    && forall v: nat :: v > 0 ==> CountAtLeast(kept, v) == Min(CAPACITY, CountAtLeast(recorded, v))
  }

  lemma HoldsDescending(kept: seq<TestResult>, recorded: seq<TestResult>)
    requires HoldsSlowest(kept, recorded)
    ensures Descending(kept)
  {
  }

  /** Every kept result with a positive duration was recorded, no more often than it was. */
  ghost predicate KeepsRecorded(kept: seq<TestResult>, recorded: seq<TestResult>) {
    forall r: TestResult :: r.duration > 0 ==> multiset(kept)[r] <= multiset(recorded)[r]
  }

  lemma {:induction false} CountConcat(a: seq<TestResult>, b: seq<TestResult>, v: nat)
    ensures CountAtLeast(a + b, v) == CountAtLeast(a, v) + CountAtLeast(b, v)
  {
    if a == [] {
      assert a + b == b;
    } else {
      assert (a + b)[1..] == a[1..] + b;
      CountConcat(a[1..], b, v);
    }
  }

  lemma {:induction false} CountAll(s: seq<TestResult>, v: nat)
    ensures (forall i :: 0 <= i < |s| ==> s[i].duration >= v) ==> CountAtLeast(s, v) == |s|
    ensures (forall i :: 0 <= i < |s| ==> s[i].duration < v) ==> CountAtLeast(s, v) == 0
  {
    if s != [] {
      CountAll(s[1..], v);
    }
  }

  // Insertion.

  /** Puts r before the first shorter result. */
  function Inserted(s: seq<TestResult>, r: TestResult): seq<TestResult> {
    if s == [] then [r]
    else if r.duration > s[0].duration then [r] + s
    else [s[0]] + Inserted(s[1..], r)
  }

  lemma {:induction false} InsertedAt(s: seq<TestResult>, r: TestResult, k: nat)
    requires k <= |s| && (forall i :: 0 <= i < k ==> s[i].duration >= r.duration)
    requires k < |s| ==> r.duration > s[k].duration
    ensures Inserted(s, r) == s[..k] + [r] + s[k..]
  {
    if k > 0 {
      InsertedAt(s[1..], r, k - 1);
      assert s[..k] == [s[0]] + s[1..][..k - 1];
      assert s[1..][k - 1..] == s[k..];
    } else {
      assert s[..0] == [] && s[0..] == s;
    }
  }

  lemma {:induction false} InsertedMembers(s: seq<TestResult>, r: TestResult)
    ensures |Inserted(s, r)| == |s| + 1
    ensures multiset(Inserted(s, r)) == multiset(s) + multiset{r}
    ensures forall x :: x in Inserted(s, r) ==> x == r || x in s
  {
    if s == [] {
    } else if r.duration > s[0].duration {
    } else {
      InsertedMembers(s[1..], r);
      assert s == [s[0]] + s[1..];
    }
  }

  lemma {:induction false} InsertedDescending(s: seq<TestResult>, r: TestResult)
    requires Descending(s)
    ensures Descending(Inserted(s, r))
  {
    if s == [] {
    } else if r.duration > s[0].duration {
    } else {
      InsertedDescending(s[1..], r);
      InsertedMembers(s[1..], r);
      HeadFirst(s[0], Inserted(s[1..], r));
    }
  }

  lemma HeadFirst(x: TestResult, s: seq<TestResult>)
    requires Descending(s) && forall y :: y in s ==> x.duration >= y.duration
    ensures Descending([x] + s)
  {
  }

  lemma {:induction false} InsertedCount(s: seq<TestResult>, r: TestResult, v: nat)
    ensures CountAtLeast(Inserted(s, r), v) == CountAtLeast(s, v) + if r.duration >= v then 1 else 0
  {
    if s == [] {
    } else if r.duration > s[0].duration {
      assert ([r] + s)[1..] == s;
    } else {
      InsertedCount(s[1..], r, v);
      assert ([s[0]] + Inserted(s[1..], r))[1..] == Inserted(s[1..], r);
    }
  }

  /** The list after a result: one shorter than all of them is dropped, otherwise the last one is. */
  function WithResult(kept: seq<TestResult>, r: TestResult): seq<TestResult>
    requires |kept| == CAPACITY
  {
    if r.duration < kept[CAPACITY - 1].duration then kept else Inserted(kept[..CAPACITY - 1], r)
  }

  /**
   A result as long as the last of the twenty still enters: it stands below all that are at least as long, and the
   last one leaves.
   */
  lemma WithResultPlace(kept: seq<TestResult>, r: TestResult) returns (k: nat)
    requires |kept| == 20 && Descending(kept) && r.duration >= kept[19].duration
    ensures k <= 19 && WithResult(kept, r) == kept[..k] + [r] + kept[k..19]
    ensures forall i :: 0 <= i < k ==> kept[i].duration >= r.duration
    ensures forall i :: k <= i < 19 ==> kept[i].duration < r.duration
  {
    hide Inserted;
    var init := kept[..19];
    k := CountAtLeast(init, r.duration);
    forall i | 0 <= i < 19
      ensures init[i].duration >= r.duration <==> i < k
    {
      CountAround(init, i, r.duration);
    }
    InsertedAt(init, r, k);
    assert init[..k] == kept[..k] && init[k..] == kept[k..19];
  }

  lemma WithResultCount(kept: seq<TestResult>, recorded: seq<TestResult>, r: TestResult, v: nat)
    requires |kept| == CAPACITY && Descending(kept)
    requires CountAtLeast(kept, v) == Min(CAPACITY, CountAtLeast(recorded, v))
    ensures CountAtLeast(WithResult(kept, r), v) == Min(CAPACITY, CountAtLeast(recorded + [r], v))
  {
    hide Inserted, CountAtLeast;
    var init, last := kept[..CAPACITY - 1], kept[CAPACITY - 1];
    assert kept == init + [last];
    InsertedCount(init, r, v);
    CountConcat(recorded, [r], v);
    CountConcat(init, [last], v);
    CountOne(r, v);
    CountOne(last, v);
    if last.duration >= v {
      CountAll(kept, v);
    }
  }

  lemma CountOne(r: TestResult, v: nat)
    ensures CountAtLeast([r], v) == if r.duration >= v then 1 else 0
  {
  }

  lemma WithResultKeeps(kept: seq<TestResult>, recorded: seq<TestResult>, r: TestResult)
    requires |kept| == CAPACITY && KeepsRecorded(kept, recorded)
    ensures KeepsRecorded(WithResult(kept, r), recorded + [r])
  {
    hide Inserted;
    var init, last := kept[..CAPACITY - 1], kept[CAPACITY - 1];
    assert kept == init + [last];
    InsertedMembers(init, r);
  }

  /** Recording a result keeps the list right. */
  lemma WithResultHolds(kept: seq<TestResult>, recorded: seq<TestResult>, r: TestResult)
    requires HoldsSlowest(kept, recorded) && KeepsRecorded(kept, recorded)
    ensures HoldsSlowest(WithResult(kept, r), recorded + [r]) && KeepsRecorded(WithResult(kept, r), recorded + [r])
  {
    hide Inserted, CountAtLeast, KeepsRecorded;
    WithResultKeeps(kept, recorded, r);
    InsertedMembers(kept[..CAPACITY - 1], r);
    InsertedDescending(kept[..CAPACITY - 1], r);
    forall v: nat | v > 0
      ensures CountAtLeast(WithResult(kept, r), v) == Min(CAPACITY, CountAtLeast(recorded + [r], v))
    {
      WithResultCount(kept, recorded, r, v);
    }
  }

  // Merging.

  /** The first n results of two lists merged; on a tie the second list comes first. */
  function Merged(a: seq<TestResult>, b: seq<TestResult>, n: nat): seq<TestResult>
    requires n <= |a| && n <= |b|
  {
    if n == 0 then []
    else if a[0].duration > b[0].duration then [a[0]] + Merged(a[1..], b, n - 1)
    else [b[0]] + Merged(a, b[1..], n - 1)
  }

  lemma {:induction false} MergedMembers(a: seq<TestResult>, b: seq<TestResult>, n: nat)
    requires n <= |a| && n <= |b|
    ensures |Merged(a, b, n)| == n
    ensures multiset(Merged(a, b, n)) <= multiset(a) + multiset(b)
    decreases n
  {
    if n > 0 {
      if a[0].duration > b[0].duration {
        MergedMembers(a[1..], b, n - 1);
        assert multiset(a) == multiset{a[0]} + multiset(a[1..]) by { assert a == [a[0]] + a[1..]; }
      } else {
        MergedMembers(a, b[1..], n - 1);
        assert multiset(b) == multiset{b[0]} + multiset(b[1..]) by { assert b == [b[0]] + b[1..]; }
      }
    }
  }

  predicate AtMost(s: seq<TestResult>, top: nat) { forall i :: 0 <= i < |s| ==> s[i].duration <= top }

  /** The first result of a merge, and the merge of what is left of both lists. */
  lemma {:induction false} MergedStep(a: seq<TestResult>, b: seq<TestResult>, n: nat)
    requires 0 < n <= |a| && n <= |b|
    ensures Merged(a, b, n) == if a[0].duration > b[0].duration then [a[0]] + Merged(a[1..], b, n - 1)
                               else [b[0]] + Merged(a, b[1..], n - 1)
  {
  }

  lemma {:induction false} MergedDescending(a: seq<TestResult>, b: seq<TestResult>, n: nat, top: nat)
    requires n <= |a| && n <= |b| && Descending(a) && Descending(b) && AtMost(a, top) && AtMost(b, top)
    ensures Descending(Merged(a, b, n)) && AtMost(Merged(a, b, n), top)
    decreases n
  {
    hide Merged, Descending, AtMost;
    if n == 0 {
      NothingLeft(a, b, 0);
      EmptyDescending(top);
    } else {
      MergedStep(a, b, n);
      TailBelow(a, top);
      TailBelow(b, top);
      if a[0].duration > b[0].duration {
        TailBelow(b, a[0].duration);
        MergedDescending(a[1..], b, n - 1, a[0].duration);
        HeadAbove(a[0], Merged(a[1..], b, n - 1), top);
      } else {
        TailBelow(a, b[0].duration);
        MergedDescending(a, b[1..], n - 1, b[0].duration);
        HeadAbove(b[0], Merged(a, b[1..], n - 1), top);
      }
    }
  }

  lemma EmptyDescending(top: nat)
    ensures Descending([]) && AtMost([], top)
  {
  }

  /** The first entry of a sorted list bounds the others. */
  lemma TailBelow(s: seq<TestResult>, top: nat)
    requires Descending(s) && s != []
    ensures Descending(s[1..]) && AtMost(s[1..], s[0].duration)
    ensures AtMost(s, top) <==> s[0].duration <= top
  {
  }

  lemma HeadAbove(x: TestResult, s: seq<TestResult>, top: nat)
    requires Descending(s) && AtMost(s, x.duration) && x.duration <= top
    ensures Descending([x] + s) && AtMost([x] + s, top)
  {
  }

  lemma {:induction false} MergedCount(a: seq<TestResult>, b: seq<TestResult>, n: nat, v: nat)
    requires n <= |a| && n <= |b| && Descending(a) && Descending(b)
    ensures CountAtLeast(Merged(a, b, n), v) == Min(n, CountAtLeast(a, v) + CountAtLeast(b, v))
    decreases n
  {
    hide Descending, Merged, CountAtLeast;
    if n == 0 {
      NothingLeft(a, b, v);
    } else {
      MergedStep(a, b, n);
      NoneReach(a, v);
      NoneReach(b, v);
      if a[0].duration > b[0].duration {
        MergedCount(a[1..], b, n - 1, v);
        CountHead(a[0], Merged(a[1..], b, n - 1), v);
      } else {
        MergedCount(a, b[1..], n - 1, v);
        CountHead(b[0], Merged(a, b[1..], n - 1), v);
      }
    }
  }

  lemma NoneReach(s: seq<TestResult>, v: nat)
    requires Descending(s) && s != []
    ensures Descending(s[1..])
    ensures CountAtLeast(s, v) == (if s[0].duration >= v then 1 else 0) + CountAtLeast(s[1..], v)
    ensures s[0].duration < v ==> CountAtLeast(s, v) == 0
  {
    CountAll(s, v);
  }

  lemma CountHead(x: TestResult, s: seq<TestResult>, v: nat)
    ensures CountAtLeast([x] + s, v) == (if x.duration >= v then 1 else 0) + CountAtLeast(s, v)
  {
  }

  lemma MergedKeeps(a: seq<TestResult>, ra: seq<TestResult>, b: seq<TestResult>, rb: seq<TestResult>)
    requires |a| == CAPACITY && |b| == CAPACITY && KeepsRecorded(a, ra) && KeepsRecorded(b, rb)
    ensures KeepsRecorded(Merged(a, b, CAPACITY), ra + rb)
  {
    hide Merged;
    MergedMembers(a, b, CAPACITY);
    forall r: TestResult | r.duration > 0
      ensures multiset(Merged(a, b, CAPACITY))[r] <= multiset(ra + rb)[r]
    {
      assert multiset(Merged(a, b, CAPACITY))[r] <= (multiset(a) + multiset(b))[r];
    }
  }

  /** Merging two right lists gives the right list of everything recorded in either. */
  lemma MergedHolds(a: seq<TestResult>, ra: seq<TestResult>, b: seq<TestResult>, rb: seq<TestResult>)
    requires HoldsSlowest(a, ra) && HoldsSlowest(b, rb) && KeepsRecorded(a, ra) && KeepsRecorded(b, rb)
    ensures HoldsSlowest(Merged(a, b, CAPACITY), ra + rb) && KeepsRecorded(Merged(a, b, CAPACITY), ra + rb)
  {
    hide Merged, CountAtLeast, KeepsRecorded;
    MergedKeeps(a, ra, b, rb);
    MergedMembers(a, b, CAPACITY);
    MergedDescending(a, b, CAPACITY, if a[0].duration > b[0].duration then a[0].duration else b[0].duration);
    forall v: nat | v > 0
      ensures CountAtLeast(Merged(a, b, CAPACITY), v) == Min(CAPACITY, CountAtLeast(ra + rb, v))
    {
      MergedCount(a, b, CAPACITY, v);
      CountConcat(ra, rb, v);
    }
  }

  /** done are the first results of the merge, and j and k say where the rest of it starts in each list. */
  ghost predicate MergedSoFar(done: seq<TestResult>, a: seq<TestResult>, b: seq<TestResult>, j: nat, k: nat)
    requires |a| == |b| == CAPACITY
  {
    && j + k == |done| <= CAPACITY
    && done + Merged(a[j..], b[k..], CAPACITY - |done|) == Merged(a, b, CAPACITY)
  }

  lemma MergeStarts(a: seq<TestResult>, b: seq<TestResult>)
    requires |a| == |b| == CAPACITY
    ensures MergedSoFar([], a, b, 0, 0)
  {
    hide Merged;
    assert a[0..] == a && b[0..] == b;
  }

  lemma MergeGoesOn(done: seq<TestResult>, a: seq<TestResult>, b: seq<TestResult>, j: nat, k: nat)
    requires |a| == |b| == CAPACITY && |done| < CAPACITY && MergedSoFar(done, a, b, j, k)
    ensures a[j].duration > b[k].duration ==> MergedSoFar(done + [a[j]], a, b, j + 1, k)
    ensures a[j].duration <= b[k].duration ==> MergedSoFar(done + [b[k]], a, b, j, k + 1)
  {
    hide Merged;
    var n := CAPACITY - |done|;
    MergedStep(a[j..], b[k..], n);
    assert a[j..][1..] == a[j + 1..] && b[k..][1..] == b[k + 1..];
    if a[j].duration > b[k].duration {
      Regroup(done, a[j], Merged(a[j + 1..], b[k..], n - 1));
    } else {
      Regroup(done, b[k], Merged(a[j..], b[k + 1..], n - 1));
    }
  }

  lemma Regroup(s: seq<TestResult>, x: TestResult, t: seq<TestResult>)
    ensures s + ([x] + t) == s + [x] + t
  {
  }

  lemma MergeEnds(done: seq<TestResult>, a: seq<TestResult>, b: seq<TestResult>, j: nat, k: nat)
    requires |a| == |b| == |done| == CAPACITY && MergedSoFar(done, a, b, j, k)
    ensures done == Merged(a, b, CAPACITY)
  {
    hide Merged;
    NothingLeft(a[j..], b[k..], 0);
  }

  /** Merges src into dest, reading a copy of dest; no read leaves the twenty entries of either. */
  method MergeSlowTests(dest: array<TestResult>, src: array<TestResult>)
    requires dest.Length == CAPACITY && src.Length == CAPACITY && dest != src
    modifies dest
    ensures dest[..] == Merged(old(dest[..]), src[..], CAPACITY)
  {
    hide Merged, MergedSoFar;
    var temp := dest[..];
    ghost var second := src[..];
    var j, k := 0, 0;
    MergeStarts(temp, second);
    assert dest[..0] == [];
    for i := 0 to CAPACITY
      invariant 0 <= j && 0 <= k && j + k == i
      invariant src[..] == second
      invariant MergedSoFar(dest[..i], temp, second, j, k)
    {
      ghost var done := dest[..i];
      MergeGoesOn(done, temp, second, j, k);
      assert second[k] == src[k];
      if temp[j].duration > src[k].duration {
        dest[i] := temp[j];
        j := j + 1;
      } else {
        dest[i] := src[k];
        k := k + 1;
      }
      assert dest[..i + 1] == done + [dest[i]];
    }
    assert dest[..] == dest[..CAPACITY];
    MergeEnds(dest[..], temp, second, j, k);
  }

  lemma NothingLeft(a: seq<TestResult>, b: seq<TestResult>, v: nat)
    ensures Merged(a, b, 0) == [] && CountAtLeast([], v) == 0
  {
  }

  /** Shifts the shorter results down by one place, the last one out of the list, and puts r above them. */
  method InsertInOrder(slowest: array<TestResult>, r: TestResult)
    requires slowest.Length == CAPACITY && Descending(slowest[..])
    modifies slowest
    ensures slowest[..] == Inserted(old(slowest[..CAPACITY - 1]), r)
  {
    hide Inserted, Descending, ShiftedFrom;
    ghost var init := slowest[..CAPACITY - 1];
    DescendingPrefix(slowest[..], CAPACITY - 1);
    assert slowest[..][..CAPACITY - 1] == init;
    NothingShifted(slowest[..]);
    var i := CAPACITY - 2;
    while i >= 0
      invariant -1 <= i <= CAPACITY - 2
      invariant ShiftedFrom(slowest[..], init, i + 1)
      invariant i < CAPACITY - 2 ==> r.duration > init[i + 1].duration
    {
      ghost var before := slowest[..];
      ShiftOnce(before, init, i);
      if r.duration > slowest[i].duration {
        slowest[i + 1] := slowest[i];
        assert slowest[..] == before[i + 1 := before[i]];
      } else {
        slowest[i + 1] := r;
        assert slowest[..] == before[i + 1 := r];
        PlacedAt(before, init, r, i + 1);
        break;
      }
      i := i - 1;
    }
    if i < 0 {
      ghost var before := slowest[..];
      slowest[0] := r;
      assert slowest[..] == before[0 := r];
      PlacedAt(before, init, r, 0);
    }
  }

  /** Position k of s is free: the elements of init before it stand in their places, the others one place down. */
  ghost predicate ShiftedFrom(s: seq<TestResult>, init: seq<TestResult>, k: nat)
    requires |s| == |init| + 1 && k <= |init|
  {
    && (forall i :: 0 <= i < k ==> s[i] == init[i])
    && (forall i :: k < i < |s| ==> s[i] == init[i - 1])
  }

  lemma NothingShifted(s: seq<TestResult>)
    requires |s| > 0
    ensures ShiftedFrom(s, s[..|s| - 1], |s| - 1)
  {
  }

  lemma ShiftOnce(s: seq<TestResult>, init: seq<TestResult>, i: nat)
    requires |s| == |init| + 1 && i < |init| && ShiftedFrom(s, init, i + 1)
    ensures s[i] == init[i] && ShiftedFrom(s[i + 1 := s[i]], init, i)
  {
  }

  lemma PlacedAt(s: seq<TestResult>, init: seq<TestResult>, r: TestResult, k: nat)
    requires |s| == |init| + 1 && k <= |init| && Descending(init) && ShiftedFrom(s, init, k)
    requires k > 0 ==> init[k - 1].duration >= r.duration
    requires k < |init| ==> r.duration > init[k].duration
    ensures s[k := r] == Inserted(init, r)
  {
    hide Inserted, Descending;
    EarlierAreLonger(init, r, k);
    InsertedAt(init, r, k);
    assert s[k := r] == init[..k] + [r] + init[k..];
  }

  lemma DescendingPrefix(s: seq<TestResult>, n: nat)
    requires Descending(s) && n <= |s|
    ensures Descending(s[..n])
  {
  }

  lemma EarlierAreLonger(s: seq<TestResult>, r: TestResult, k: nat)
    requires Descending(s) && k <= |s| && (k > 0 ==> s[k - 1].duration >= r.duration)
    ensures forall i :: 0 <= i < k ==> s[i].duration >= r.duration
  {
  }

  /** The results of a test suite. The ghost field remembers every result ever recorded in it. */
  class TestSuiteResults {
    var name: string
    var numSuccesses: nat
    var numFailures: nat
    const slowestTests: array<TestResult>
    ghost var recorded: seq<TestResult>

    ghost predicate Valid()
      reads this, slowestTests
    {
      && slowestTests.Length == CAPACITY
      && HoldsSlowest(slowestTests[..], recorded)
      && KeepsRecorded(slowestTests[..], recorded)
    }

    constructor CreateEmpty()
      ensures Valid() && fresh(slowestTests)
      ensures numSuccesses == 0 && numFailures == 0 && name == "" && recorded == []
      ensures forall i :: 0 <= i < CAPACITY ==> slowestTests[i] == EMPTY
    {
      name, numSuccesses, numFailures, recorded := "", 0, 0, [];
      slowestTests := new TestResult[CAPACITY];
      new;
      for i := 0 to CAPACITY
        invariant forall k :: 0 <= k < i ==> slowestTests[k] == EMPTY
        modifies slowestTests
      {
        slowestTests[i] := EMPTY;
      }
      forall v: nat | v > 0
        ensures CountAtLeast(slowestTests[..], v) == Min(CAPACITY, CountAtLeast(recorded, v))
      {
        CountAll(slowestTests[..], v);
      }
    }

    /** Inserts a test's time at its place, shifting shorter ones down. */
    method AddTimingResult(testName: string, ticks: nat)
      requires Valid()
      modifies this`recorded, slowestTests
      ensures Valid()
      ensures recorded == old(recorded) + [TestResult(testName, name, ticks)]
      ensures slowestTests[..] == WithResult(old(slowestTests[..]), TestResult(testName, name, ticks))
    {
      hide HoldsSlowest, KeepsRecorded;
      ghost var before := slowestTests[..];
      HoldsDescending(before, recorded);
      var r := TestResult(testName, name, ticks);
      WithResultHolds(before, recorded, r);
      recorded := recorded + [r];
      if ticks < slowestTests[CAPACITY - 1].duration {
        return;
      }
      InsertInOrder(slowestTests, r);
    }

    /** Adds another suite's results to these. */
    method Aggregate(src: TestSuiteResults)
      requires Valid() && src.Valid() && src != this && src.slowestTests != slowestTests
      modifies this, slowestTests
      ensures Valid() && name == old(name)
      ensures recorded == old(recorded) + src.recorded
      ensures numSuccesses == old(numSuccesses) + src.numSuccesses
      ensures numFailures == old(numFailures) + src.numFailures
      ensures slowestTests[..] == Merged(old(slowestTests[..]), src.slowestTests[..], CAPACITY)
    {
      hide HoldsSlowest, KeepsRecorded, Merged;
      MergedHolds(slowestTests[..], recorded, src.slowestTests[..], src.recorded);
      recorded := recorded + src.recorded;
      numSuccesses := numSuccesses + src.numSuccesses;
      numFailures := numFailures + src.numFailures;
      MergeSlowTests(slowestTests, src.slowestTests);
    }
  }

  /** Any run of recordings and merges, starting from empty lists. */
  datatype Run = Start | Record(before: Run, result: TestResult) | Merge(dest: Run, src: Run)

  function RecordedIn(run: Run): seq<TestResult> {
    match run
    case Start => []
    case Record(before, result) => RecordedIn(before) + [result]
    case Merge(dest, src) => RecordedIn(dest) + RecordedIn(src)
  }

  function KeptBy(run: Run): (kept: seq<TestResult>)
    ensures |kept| == CAPACITY
  {
    match run
    case Start => seq(CAPACITY, i => EMPTY)
    case Record(before, result) =>
      InsertedMembers(KeptBy(before)[..CAPACITY - 1], result);
      WithResult(KeptBy(before), result)
    case Merge(dest, src) =>
      MergedMembers(KeptBy(dest), KeptBy(src), CAPACITY);
      Merged(KeptBy(dest), KeptBy(src), CAPACITY)
  }

  /** After any run the list is sorted and holds the slowest of all results recorded in it. */
  lemma {:induction false} RunHolds(run: Run)
    ensures |KeptBy(run)| == 20
    ensures HoldsSlowest(KeptBy(run), RecordedIn(run)) && KeepsRecorded(KeptBy(run), RecordedIn(run))
  {
    match run
    case Start =>
      forall v: nat | v > 0
        ensures CountAtLeast(KeptBy(run), v) == 0
      {
        CountAll(KeptBy(run), v);
      }
    case Record(before, result) =>
      RunHolds(before);
      WithResultHolds(KeptBy(before), RecordedIn(before), result);
    case Merge(dest, src) =>
      RunHolds(dest);
      RunHolds(src);
      MergedHolds(KeptBy(dest), RecordedIn(dest), KeptBy(src), RecordedIn(src));
  }

  /** HoldsSlowest leaves no choice: two lists that hold the slowest of one record agree in every duration. */
  lemma SlowestUnique(a: seq<TestResult>, b: seq<TestResult>, recorded: seq<TestResult>, i: nat)
    requires HoldsSlowest(a, recorded) && HoldsSlowest(b, recorded) && i < CAPACITY
    ensures a[i].duration == b[i].duration
  {
    SlowestAt(a, b, recorded, i);
    SlowestAt(b, a, recorded, i);
  }

  lemma SlowestAt(a: seq<TestResult>, b: seq<TestResult>, recorded: seq<TestResult>, i: nat)
    requires HoldsSlowest(a, recorded) && HoldsSlowest(b, recorded) && i < CAPACITY
    ensures a[i].duration <= b[i].duration
  {
    hide CountAtLeast, Descending;
    if a[i].duration > b[i].duration {
      CountAround(a, i, a[i].duration);
      CountAround(b, i, a[i].duration);
    }
  }

  /** In a sorted list the entry at i tells whether more than i entries reach a bound. */
  lemma CountAround(s: seq<TestResult>, i: nat, v: nat)
    requires Descending(s) && i < |s|
    ensures s[i].duration >= v <==> CountAtLeast(s, v) > i
  {
    assert s == s[..i + 1] + s[i + 1..] && s == s[..i] + s[i..];
    CountConcat(s[..i + 1], s[i + 1..], v);
    CountConcat(s[..i], s[i..], v);
    CountAll(s[..i + 1], v);
    CountAll(s[i..], v);
  }
}
