/** For every number of frames some trace takes ARC over its capacity. */
module ArcOverflow {
  import opened Paging
  import opened Arc

  /** Traces of positive page numbers. */
  ghost predicate Positive(trace: seq<int>) {
    forall i :: 0 <= i < |trace| ==> trace[i] > 0
  }

  lemma AfterStep(n: nat, trace: seq<int>, x: int)
    ensures After(n, trace + [x]) == Request(After(n, trace), n, x)
  {
    assert (trace + [x])[..|trace|] == trace;
  }

  ghost predicate NoMarker(s: Arc) {
    EMPTY !in s.t1 && EMPTY !in s.t2 && EMPTY !in s.b1
  }

  lemma {:induction false} WithoutSubset(s: seq<int>, x: int, y: int)
    requires y in Without(s, x)
    ensures y in s
  {
    OccursIffIn(Without(s, x), y);
    OccurrencesWithout(s, x, y);
    OccursIffIn(s, y);
  }

  lemma RequestNoMarker(s: Arc, n: nat, x: int)
    requires NoMarker(s) && x != EMPTY
    ensures NoMarker(Request(s, n, x))
  {
    var s1 := s.(p := Target(s, n, x));
    var s2 := if MakesRoom(s, n, x) then Replace(s1) else s1;
    assert NoMarker(s2);
    forall l | l in [s.t1, s.t2, s2.b1]
      ensures EMPTY !in Without(l, x)
    {
      if EMPTY in Without(l, x) {
        WithoutSubset(l, x, EMPTY);
      }
    }
    assert s.t1 in [s.t1, s.t2, s2.b1] && s.t2 in [s.t1, s.t2, s2.b1] && s2.b1 in [s.t1, s.t2, s2.b1];
  }

  lemma {:induction false} RunNoMarker(n: nat, trace: seq<int>)
    requires EMPTY !in trace
    ensures NoMarker(After(n, trace))
  {
    if trace != [] {
      RunNoMarker(n, trace[..|trace| - 1]);
      RequestNoMarker(After(n, trace[..|trace| - 1]), n, trace[|trace| - 1]);
    }
  }

  /** What is known of a run on positive pages. */
  lemma RunFacts(n: nat, trace: seq<int>, x: int)
    requires n >= 1 && Positive(trace) && x != EMPTY
    ensures var s := After(n, trace);
            && SizesOk(s, n) && NoMarker(s) && 0 !in s.b2
            && (x in s.t1 || x in s.t2 || x in s.b1 || x in s.b2 <==> x in trace)
            && (x in s.b1 ==> !s.IsResident(x))
  {
    var s := After(n, trace);
    EveryRun(n, trace);
    RunNoMarker(n, trace);
    ListedIffIn(s, x);
    ListedIffIn(s, 0);
    assert s.Listed(x) == if x in Pages(trace) then 1 else 0;
    assert s.Listed(0) == if 0 in Pages(trace) then 1 else 0;
    OccursIffIn(s.t1, x);
    OccursIffIn(s.t2, x);
    OccursIffIn(s.b1, x);
  }

  lemma {:induction false} NewPage(trace: seq<int>) returns (x: int)
    ensures x > 0 && forall i :: 0 <= i < |trace| ==> trace[i] < x
  {
    if trace == [] {
      x := 1;
    } else {
      x := NewPage(trace[1..]);
      if x <= trace[0] {
        x := trace[0] + 1;
      }
      assert forall i :: 1 <= i < |trace| ==> trace[i] == trace[1..][i - 1];
    }
  }

  /** With the target at its maximum, new pages empty T2 and then find nothing to evict. */
  lemma {:induction false} Drain(n: nat, trace: seq<int>) returns (more: seq<int>)
    requires n >= 1 && Positive(trace) && After(n, trace).p == n == After(n, trace).ResidentCount()
    ensures Positive(more) && After(n, more).ResidentCount() > n
    decreases |After(n, trace).t2|
  {
    var s := After(n, trace);
    var x := NewPage(trace);
    RunFacts(n, trace, x);
    assert x !in trace;
    AfterStep(n, trace, x);
    more := trace + [x];
    if s.t2 != [] {
      more := Drain(n, more);
    }
  }

  /** Requests for pages of B1 raise the target to its maximum. */
  lemma {:induction false} Raise(n: nat, trace: seq<int>) returns (more: seq<int>)
    requires n >= 1 && Positive(trace) && After(n, trace).ResidentCount() == n && |After(n, trace).b1| >= n - After(n, trace).p
    ensures Positive(more) && After(n, more).ResidentCount() >= n
    ensures After(n, more).ResidentCount() == n ==> After(n, more).p == n
    decreases n - After(n, trace).p
  {
    var s := After(n, trace);
    RunFacts(n, trace, 1);
    if s.p == n {
      more := trace;
    } else {
      var x := s.b1[0];
      RunFacts(n, trace, x);
      assert x in trace;
      AfterStep(n, trace, x);
      RequestSizes(s, n, x);
      RaisedByOne(s, n, x);
      more := trace + [x];
      if After(n, more).ResidentCount() == n {
        more := Raise(n, more);
      }
    }
  }

  lemma RaisedByOne(s: Arc, n: nat, x: int)
    requires x in s.b1 && !s.IsResident(x) && 0 <= s.p < n
    ensures Request(s, n, x).p == s.p + 1 && |Request(s, n, x).b1| >= |s.b1| - 1
  {
  }

  function UpTo(m: nat): (trace: seq<int>)
    ensures |trace| == m && forall i :: 0 <= i < m ==> trace[i] == i + 1
  {
    if m == 0 then [] else UpTo(m - 1) + [m]
  }

  ghost predicate Filled(s: Arc, n: nat, m: nat) {
    && s.t2 == [] && s.b2 == [] && s.p == 0
    && |s.t1| == (if m < n then m else n) && |s.b1| == (if m < n then 0 else m - n)
  }

  lemma FillStep(s: Arc, n: nat, m: nat, x: int)
    requires n >= 1 && Filled(s, n, m) && x !in s.t1 && x !in s.b1
    ensures Filled(Request(s, n, x), n, m + 1)
  {
  }

  /** New pages fill T1 and then B1. */
  lemma {:induction false} Fill(n: nat, m: nat)
    requires n >= 1
    ensures Filled(After(n, UpTo(m)), n, m)
  {
    if m > 0 {
      var was := UpTo(m - 1);
      Fill(n, m - 1);
      assert m !in was && Positive(was);
      RunFacts(n, was, m);
      FillStep(After(n, was), n, m - 1, m);
      AfterStep(n, was, m);
      assert UpTo(m) == was + [m];
    }
  }

  /** The bound of one page above the capacity is reached at every size. */
  lemma OverCapacityHappens(n: nat) returns (trace: seq<int>)
    requires n >= 1
    ensures Positive(trace) && After(n, trace).ResidentCount() == n + 1
  {
    Fill(n, 2 * n);
    trace := Raise(n, UpTo(2 * n));
    if After(n, trace).ResidentCount() == n {
      trace := Drain(n, trace);
    }
    RunFacts(n, trace, 1);
  }
}
