/** Adaptive replacement with two resident lists and two ghost lists, exactly as the simulator
    does it: ghost lists are never trimmed, and evicting from an empty T2 records page -1. */
module Arc {
  import opened Paging

  datatype Arc = Arc(t1: seq<int>, t2: seq<int>, b1: seq<int>, b2: seq<int>, p: int) {
    predicate IsResident(x: int) {
      x in t1 || x in t2
    }

    function ResidentCount(): nat {
      |t1| + |t2|
    }

    /** How often `x` is listed, over all four lists. */
    function Listed(x: int): nat {
      Occurrences(t1, x) + Occurrences(t2, x) + Occurrences(b1, x) + Occurrences(b2, x)
    }
  }

  const EMPTY_ARC := Arc([], [], [], [], 0)

  predicate EvictsFromT1(s: Arc) {
    |s.t1| >= 1 && (|s.t1| > s.p || (0 in s.b2 && |s.t1| == s.p))
  }

  function Replace(s: Arc): Arc {
    if EvictsFromT1(s) then
      s.(t1 := s.t1[..|s.t1| - 1], b1 := [s.t1[|s.t1| - 1]] + s.b1)
    else if s.t2 == [] then
      s.(b2 := [EMPTY] + s.b2)
    else
      s.(t2 := s.t2[..|s.t2| - 1], b2 := [s.t2[|s.t2| - 1]] + s.b2)
  }

  function Grow(p: int, ghosts: nat, n: nat): int {
    if p + (if ghosts > 0 then 1 else 0) < n then p + 1 else n
  }

  function Shrink(p: int, ghosts: nat): int {
    if p - (if ghosts > 0 then 1 else 0) > 0 then p - 1 else 0
  }

  /** The target size in force when a miss on `x` chooses its victim. */
  function Target(s: Arc, n: nat, x: int): int {
    if x in s.b1 then Grow(s.p, |s.b2|, n)
    else if x in s.b2 then Shrink(s.p, |s.b1|)
    else s.p
  }

  /** Whether a miss on `x` makes room first. */
  predicate MakesRoom(s: Arc, n: nat, x: int) {
    x in s.b1 || x in s.b2 || s.ResidentCount() >= n
  }

  function Request(s: Arc, n: nat, x: int): Arc {
    if x in s.t1 then s.(t1 := Without(s.t1, x), t2 := [x] + s.t2)
    else if x in s.t2 then s.(t2 := [x] + Without(s.t2, x))
    else
      var s1 := s.(p := Target(s, n, x));
      var s2 := if MakesRoom(s, n, x) then Replace(s1) else s1;
      if x in s.b1 then s2.(b1 := Without(s2.b1, x), t2 := [x] + s2.t2)
      else if x in s.b2 then s2.(b2 := Without(s2.b2, x), t2 := [x] + s2.t2)
      else s2.(t1 := [x] + s2.t1)
  }

  function After(n: nat, trace: seq<int>): Arc {
    if trace == [] then EMPTY_ARC else Request(After(n, trace[..|trace| - 1]), n, trace[|trace| - 1])
  }

  // ----- every requested page is in exactly one list, once

  ghost predicate Partition(s: Arc, requested: set<int>) {
    forall x :: x != EMPTY ==> s.Listed(x) == if x in requested then 1 else 0
  }

  /** Making room moves one page to a ghost list, or only records the marker. */
  lemma ReplaceConserves(s: Arc, y: int)
    requires y != EMPTY
    ensures Replace(s).Listed(y) == s.Listed(y)
    ensures y in s.b1 ==> y in Replace(s).b1
    ensures y in s.b2 ==> y in Replace(s).b2
  {
    if EvictsFromT1(s) {
      OccurrencesLast(s.t1, y);
      OccurrencesFront(s.t1[|s.t1| - 1], s.b1, y);
    } else if s.t2 != [] {
      OccurrencesLast(s.t2, y);
      OccurrencesFront(s.t2[|s.t2| - 1], s.b2, y);
    } else {
      OccurrencesFront(EMPTY, s.b2, y);
    }
  }

  lemma HitConserves(s: Arc, n: nat, x: int, y: int)
    requires s.IsResident(x)
    ensures Request(s, n, x).Listed(y) == s.Listed(y)
  {
    if x in s.t1 {
      OccurrencesWithout(s.t1, x, y);
      OccurrencesFront(x, s.t2, y);
    } else {
      OccurrencesWithout(s.t2, x, y);
      OccurrencesFront(x, Without(s.t2, x), y);
    }
  }

  /** A miss conserves every page but adds the requested one if no list held it. */
  lemma MissAdds(s: Arc, n: nat, x: int, y: int)
    requires !s.IsResident(x) && x != EMPTY && y != EMPTY
    ensures Request(s, n, x).Listed(y) == s.Listed(y) + (if y == x && x !in s.b1 && x !in s.b2 then 1 else 0)
  {
    var s1 := s.(p := Target(s, n, x));
    ReplaceConserves(s1, y);
    ReplaceConserves(s1, x);
    var s2 := if MakesRoom(s, n, x) then Replace(s1) else s1;
    if x in s.b1 {
      OccurrencesWithout(s2.b1, x, y);
      OccurrencesFront(x, s2.t2, y);
    } else if x in s.b2 {
      OccurrencesWithout(s2.b2, x, y);
      OccurrencesFront(x, s2.t2, y);
    } else {
      OccurrencesFront(x, s2.t1, y);
    }
  }

  lemma ListedIffIn(s: Arc, x: int)
    ensures s.Listed(x) > 0 <==> x in s.t1 || x in s.t2 || x in s.b1 || x in s.b2
  {
    OccursIffIn(s.t1, x);
    OccursIffIn(s.t2, x);
    OccursIffIn(s.b1, x);
    OccursIffIn(s.b2, x);
  }

  lemma RequestKeepsPartition(s: Arc, n: nat, x: int, requested: set<int>)
    requires Partition(s, requested) && x != EMPTY
    ensures Partition(Request(s, n, x), requested + {x})
  {
    ListedIffIn(s, x);
    forall y | y != EMPTY
      ensures Request(s, n, x).Listed(y) == if y in requested + {x} then 1 else 0
    {
      if s.IsResident(x) { HitConserves(s, n, x, y); } else { MissAdds(s, n, x, y); }
    }
  }

  // ----- sizes

  /** Evictions start only once the resident lists have filled up. */
  ghost predicate SizesOk(s: Arc, n: nat) {
    && 0 <= s.p <= n
    && s.ResidentCount() <= n + 1
    && (s.b1 != [] || s.b2 != [] ==> s.ResidentCount() >= n)
  }

  /** A miss on `x` that should make room but evicts nothing: all residents are in T1, T2 is empty,
      and the target does not let T1 give up a page. */
  predicate EvictsNothing(s: Arc, n: nat, x: int) {
    && !s.IsResident(x)
    && |s.t1| == n && s.t2 == []
    && Target(s, n, x) == n && 0 !in s.b2
  }

  lemma RequestSizes(s: Arc, n: nat, x: int)
    requires n >= 1 && SizesOk(s, n) && x != EMPTY
    ensures var r := Request(s, n, x);
            && SizesOk(r, n)
            && r.ResidentCount() >= s.ResidentCount()
            && (s.ResidentCount() <= n ==> (r.ResidentCount() == n + 1 <==> EvictsNothing(s, n, x)))
  {
  }

  ghost predicate Inv(s: Arc, n: nat, trace: seq<int>) {
    Partition(s, Pages(trace)) && SizesOk(s, n)
  }

  lemma {:induction false} EveryRun(n: nat, trace: seq<int>)
    requires n >= 1 && EMPTY !in trace
    ensures Inv(After(n, trace), n, trace)
  {
    if trace != [] {
      var front, x := trace[..|trace| - 1], trace[|trace| - 1];
      EveryRun(n, front);
      var s := After(n, front);
      RequestSizes(s, n, x);
      RequestKeepsPartition(s, n, x, Pages(front));
      assert trace == front + [x];
      assert Pages(trace) == Pages(front) + {x};
    }
  }

  /** In every run each page is in exactly one list, once, if it was ever requested, and nowhere otherwise. */
  lemma PagesPartitioned(n: nat, trace: seq<int>, x: int)
    requires n >= 1 && EMPTY !in trace && x != EMPTY
    ensures var s := After(n, trace);
            Occurrences(s.t1, x) + Occurrences(s.t2, x) + Occurrences(s.b1, x) + Occurrences(s.b2, x) == if x in trace then 1 else 0
  {
    EveryRun(n, trace);
    assert After(n, trace).Listed(x) == if x in Pages(trace) then 1 else 0;
  }

  /** The resident count never decreases along a run and never passes `n + 1`; the target stays in range. */
  lemma {:induction false} ResidentsNeverShrink(n: nat, trace: seq<int>, i: nat)
    requires n >= 1 && EMPTY !in trace && i <= |trace|
    ensures After(n, trace[..i]).ResidentCount() <= After(n, trace).ResidentCount() <= n + 1
    ensures 0 <= After(n, trace).p <= n
  {
    EveryRun(n, trace);
    if i < |trace| {
      var front := trace[..|trace| - 1];
      ResidentsNeverShrink(n, front, i);
      assert front[..i] == trace[..i];
      EveryRun(n, front);
      RequestSizes(After(n, front), n, trace[|trace| - 1]);
    } else {
      assert trace[..i] == trace;
    }
  }

  /** For each request, whether it should have evicted a page and could not. */
  function Stuck(n: nat, trace: seq<int>): (stuck: seq<bool>)
    ensures |stuck| == |trace|
  {
    if trace == [] then []
    else
      var front := trace[..|trace| - 1];
      Stuck(n, front) + [EvictsNothing(After(n, front), n, trace[|trace| - 1])]
  }

  /** Capacity is exceeded, for good, exactly by the first request that should evict and cannot. */
  lemma {:induction false} OverCapacityIff(n: nat, trace: seq<int>)
    requires n >= 1 && EMPTY !in trace
    ensures After(n, trace).ResidentCount() > n <==> true in Stuck(n, trace)
  {
    if trace != [] {
      var front, x := trace[..|trace| - 1], trace[|trace| - 1];
      OverCapacityIff(n, front);
      EveryRun(n, front);
      RequestSizes(After(n, front), n, x);
      assert true in Stuck(n, trace) <==> true in Stuck(n, front) || EvictsNothing(After(n, front), n, x);
    }
  }

  /** Which requests miss. */
  function MissesOf(n: nat, trace: seq<int>): (m: seq<bool>)
    ensures |m| == |trace|
  {
    if trace == [] then []
    else
      var front := trace[..|trace| - 1];
      MissesOf(n, front) + [!After(n, front).IsResident(trace[|trace| - 1])]
  }

  /** One more request: its state, its outcome, and the miss count so far. */
  lemma MissesStep(n: nat, trace: seq<int>, i: nat)
    requires i < |trace|
    ensures After(n, trace[..i + 1]) == Request(After(n, trace[..i]), n, trace[i])
    ensures Count(MissesOf(n, trace[..i + 1])) ==
            Count(MissesOf(n, trace[..i])) + (if After(n, trace[..i]).IsResident(trace[i]) then 0 else 1)
  {
    var t := trace[..i + 1];
    assert t[..i] == trace[..i];
    var m := MissesOf(n, t);
    assert m[..i] == MissesOf(n, trace[..i]);
  }
}
