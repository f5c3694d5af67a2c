/** What ARC keeps and gives up, told from the trace alone: how often each page was requested and when last. */
module ArcPolicy {
  import opened Paging
  import opened Arc
  import opened ArcOverflow
  import Lru

  /** T1 and B1 hold the pages requested once, T2 and B2 those requested more often. */
  ghost predicate Counted(s: Arc, trace: seq<int>, x: int) {
    && (x in s.t1 || x in s.b1 <==> Occurrences(trace, x) == 1)
    && (x in s.t2 || x in s.b2 <==> Occurrences(trace, x) >= 2)
  }

  /** The resident lists name their pages by last request, newest first. */
  ghost predicate ByAge(s: Arc, trace: seq<int>) {
    Lru.ByRecency(trace, s.t1) && Lru.ByRecency(trace, s.t2)
  }

  ghost predicate Tells(s: Arc, trace: seq<int>) {
    (forall x :: x != EMPTY ==> Counted(s, trace, x)) && ByAge(s, trace)
  }

  /** No page is listed twice. */
  ghost predicate ListedOnce(s: Arc) {
    forall x :: x != EMPTY ==> s.Listed(x) <= 1
  }

  // ----- lists

  lemma CountAppend(trace: seq<int>, x: int, y: int)
    ensures Occurrences(trace + [x], y) == Occurrences(trace, y) + (if x == y then 1 else 0)
  {
    OccurrencesLast(trace + [x], y);
    assert (trace + [x])[..|trace|] == trace;
  }

  lemma WithoutOnce(list: seq<int>, x: int, y: int)
    requires Occurrences(list, x) <= 1
    ensures y in Without(list, x) <==> y in list && y != x
  {
    OccurrencesWithout(list, x, y);
    OccursIffIn(Without(list, x), y);
    OccursIffIn(list, y);
  }

  /** A list without the requested page keeps its order, and the page may go in front. */
  lemma OrderKept(trace: seq<int>, list: seq<int>, x: int)
    requires Lru.ByRecency(trace, list) && x !in list
    ensures Lru.ByRecency(trace + [x], list) && Lru.ByRecency(trace + [x], [x] + list)
  {
    forall y | y in list
      ensures Lru.Last(trace + [x], y) == Lru.Last(trace, y) < Lru.Last(trace + [x], x)
    {
      Lru.LastAppend(trace, x, y);
      Lru.LastAppend(trace, x, x);
    }
  }

  lemma InFront(list: seq<int>, y: int)
    requires list != []
    ensures y in list <==> y in list[..|list| - 1] || y == list[|list| - 1]
  {
    assert list == list[..|list| - 1] + [list[|list| - 1]];
  }

  // ----- one request

  lemma ReplaceTells(s: Arc, trace: seq<int>)
    requires Tells(s, trace)
    ensures Tells(Replace(s), trace)
  {
    var r := Replace(s);
    forall x | x != EMPTY
      ensures Counted(r, trace, x)
    {
      assert Counted(s, trace, x);
      if s.t1 != [] { InFront(s.t1, x); }
      if s.t2 != [] { InFront(s.t2, x); }
    }
  }

  lemma HitTells(s: Arc, trace: seq<int>, n: nat, x: int)
    requires Tells(s, trace) && ListedOnce(s) && s.IsResident(x) && x != EMPTY
    ensures Tells(Request(s, n, x), trace + [x])
  {
    ListedIffIn(s, x);
    OccursIffIn(s.t1, x);
    OccursIffIn(s.t2, x);
    OccursIffIn(s.b1, x);
    OccursIffIn(s.b2, x);
    var r := Request(s, n, x);
    forall y | y != EMPTY
      ensures Counted(r, trace + [x], y)
    {
      assert Counted(s, trace, y) && Counted(s, trace, x);
      CountAppend(trace, x, y);
      WithoutOnce(s.t1, x, y);
      WithoutOnce(s.t2, x, y);
    }
    WithoutOnce(s.t1, x, x);
    WithoutOnce(s.t2, x, x);
    Lru.WithoutKeepsOrder(trace, s.t1, x);
    Lru.WithoutKeepsOrder(trace, s.t2, x);
    OrderKept(trace, Without(s.t1, x), x);
    OrderKept(trace, Without(s.t2, x), x);
  }

  /** The page a miss brings in, once there is room. */
  function Entered(s: Arc, x: int): Arc {
    if x in s.b1 then s.(b1 := Without(s.b1, x), t2 := [x] + s.t2)
    else if x in s.b2 then s.(b2 := Without(s.b2, x), t2 := [x] + s.t2)
    else s.(t1 := [x] + s.t1)
  }

  lemma EnteredTells(s: Arc, trace: seq<int>, x: int)
    requires Tells(s, trace) && s.Listed(x) <= 1 && !s.IsResident(x) && x != EMPTY
    ensures Tells(Entered(s, x), trace + [x])
  {
    var r := Entered(s, x);
    forall y | y != EMPTY
      ensures Counted(r, trace + [x], y)
    {
      assert Counted(s, trace, y) && Counted(s, trace, x);
      CountAppend(trace, x, y);
      OccursIffIn(trace, x);
      WithoutOnce(s.b1, x, y);
      WithoutOnce(s.b2, x, y);
    }
    OrderKept(trace, s.t1, x);
    OrderKept(trace, s.t2, x);
  }

  lemma ReplaceNotResident(s: Arc, x: int)
    requires !s.IsResident(x)
    ensures !Replace(s).IsResident(x)
  {
  }

  lemma MissEnters(s: Arc, n: nat, x: int)
    requires !s.IsResident(x) && x != EMPTY
    ensures var s1 := s.(p := Target(s, n, x));
            Request(s, n, x) == Entered(if MakesRoom(s, n, x) then Replace(s1) else s1, x)
  {
    var s1 := s.(p := Target(s, n, x));
    assert x in Replace(s1).b1 <==> x in s.b1;
    assert x in Replace(s1).b2 <==> x in s.b2;
  }

  // ----- every run

  lemma MissTells(s: Arc, trace: seq<int>, n: nat, x: int)
    requires Tells(s, trace) && ListedOnce(s) && !s.IsResident(x) && x != EMPTY
    ensures Tells(Request(s, n, x), trace + [x])
  {
    var s1 := s.(p := Target(s, n, x));
    assert Tells(s1, trace) by {
      assert forall y :: y != EMPTY ==> Counted(s, trace, y) == Counted(s1, trace, y);
    }
    assert s1.Listed(x) == s.Listed(x) <= 1;
    var s2 := if MakesRoom(s, n, x) then Replace(s1) else s1;
    assert Tells(s2, trace) by {
      ReplaceTells(s1, trace);
    }
    assert s2.Listed(x) <= 1 by {
      ReplaceConserves(s1, x);
    }
    assert !s2.IsResident(x) by {
      ReplaceNotResident(s1, x);
    }
    EnteredTells(s2, trace, x);
    MissEnters(s, n, x);
  }

  lemma {:induction false} RunTells(n: nat, trace: seq<int>)
    requires n >= 1 && EMPTY !in trace
    ensures Tells(After(n, trace), trace)
  {
    if trace != [] {
      var front, x := trace[..|trace| - 1], trace[|trace| - 1];
      var s := After(n, front);
      RunTells(n, front);
      NoneTwice(n, front);
      assert trace == front + [x];
      if s.IsResident(x) { HitTells(s, front, n, x); } else { MissTells(s, front, n, x); }
    }
  }

  lemma NoneTwice(n: nat, trace: seq<int>)
    requires n >= 1 && EMPTY !in trace
    ensures ListedOnce(After(n, trace))
  {
    forall x | x != EMPTY
      ensures After(n, trace).Listed(x) <= 1
    {
      PagesPartitioned(n, trace, x);
    }
  }

  /** In every run a page is in T1 or B1 if and only if it was requested exactly once, and in T2 or B2 if and only if it was
      requested more often; T1 and T2 name their pages by last request, newest first. */
  lemma ListsInEveryRun(n: nat, trace: seq<int>, x: int)
    requires n >= 1 && EMPTY !in trace && x != EMPTY
    ensures var s := After(n, trace);
            && (x in s.t1 || x in s.b1 <==> Occurrences(trace, x) == 1)
            && (x in s.t2 || x in s.b2 <==> Occurrences(trace, x) >= 2)
            && (forall i, j :: 0 <= i < j < |s.t1| ==> Lru.Last(trace, s.t1[i]) > Lru.Last(trace, s.t1[j]))
            && (forall i, j :: 0 <= i < j < |s.t2| ==> Lru.Last(trace, s.t2[i]) > Lru.Last(trace, s.t2[j]))
  {
    RunTells(n, trace);
    assert Counted(After(n, trace), trace, x);
  }

  // ----- the policy, without lists

  function Residents(s: Arc): set<int> {
    Pages(s.t1) + Pages(s.t2)
  }

  function Once(pages: set<int>, trace: seq<int>): set<int> {
    set y | y in pages && Occurrences(trace, y) == 1
  }

  function Often(pages: set<int>, trace: seq<int>): set<int> {
    set y | y in pages && Occurrences(trace, y) >= 2
  }

  ghost predicate Oldest(pages: set<int>, trace: seq<int>, y: int) {
    y in pages && forall z :: z in pages ==> Lru.Last(trace, y) <= Lru.Last(trace, z)
  }

  /** The target moves by one with each request for a page given up before: up, to at most `n`, if it was requested once,
      down, to at least 0, if more often. */
  function NewTarget(n: nat, trace: seq<int>, pages: set<int>, p: int, x: int): int {
    if x in pages || x !in trace then p
    else if Occurrences(trace, x) == 1 then (if p < n then p + 1 else n)
    else (if p > 0 then p - 1 else 0)
  }

  /** The pages requested once give one up if they are more than the target, or as many while page 0, requested more often,
      has been given up. */
  predicate TakesOnce(once: set<int>, p: int, zero: bool) {
    once != {} && (|once| > p || (zero && |once| == p))
  }

  /** The page of `from` requested longest ago makes place for `x`. */
  ghost predicate GivesUp(from: set<int>, trace: seq<int>, pages: set<int>, x: int, after: set<int>) {
    exists y :: Oldest(from, trace, y) && after == pages - {y} + {x}
  }

  /** What a request for `x` makes of the resident pages. */
  ghost predicate Serves(n: nat, trace: seq<int>, pages: set<int>, p: int, x: int, after: set<int>) {
    if x in pages then after == pages
    else if x !in trace && |pages| < n then after == pages + {x}
    else if TakesOnce(Once(pages, trace), p, 0 !in pages && Occurrences(trace, 0) >= 2) then
      GivesUp(Once(pages, trace), trace, pages, x, after)
    else if Often(pages, trace) == {} then after == pages + {x}
    else GivesUp(Often(pages, trace), trace, pages, x, after)
  }

  lemma {:induction false} DistinctSize(trace: seq<int>, list: seq<int>)
    requires Lru.ByRecency(trace, list)
    ensures |Pages(list)| == |list|
  {
    if list != [] {
      var n := |list| - 1;
      DistinctSize(trace, list[..n]);
      assert list[n] !in list[..n];
      assert Pages(list) == Pages(list[..n]) + {list[n]} by {
        forall y
          ensures y in list <==> y in list[..n] || y == list[n]
        {
          InFront(list, y);
        }
      }
    }
  }

  /** The resident lists as sets. */
  lemma ListsAreSets(n: nat, trace: seq<int>)
    requires n >= 1 && EMPTY !in trace
    ensures var s := After(n, trace);
            && Pages(s.t1) == Once(Residents(s), trace) && Pages(s.t2) == Often(Residents(s), trace)
            && |Pages(s.t1)| == |s.t1| && |Pages(s.t2)| == |s.t2| && |Residents(s)| == |s.t1| + |s.t2|
  {
    var s := After(n, trace);
    RunTells(n, trace);
    RunNoMarker(n, trace);
    forall y | y in Residents(s)
      ensures y in Pages(s.t1) <==> Occurrences(trace, y) == 1
      ensures y in Pages(s.t2) <==> Occurrences(trace, y) >= 2
    {
      assert Counted(s, trace, y);
    }
    DistinctSize(trace, s.t1);
    DistinctSize(trace, s.t2);
    assert Pages(s.t1) * Pages(s.t2) == {};
  }

  /** The last page of a list by age is the oldest one. */
  lemma LastIsOldest(trace: seq<int>, list: seq<int>)
    requires list != [] && Lru.ByRecency(trace, list)
    ensures Oldest(Pages(list), trace, list[|list| - 1])
    ensures Pages(list[..|list| - 1]) == Pages(list) - {list[|list| - 1]}
  {
    var n := |list| - 1;
    assert list[n] in list;
    assert list[n] !in list[..n];
    forall y
      ensures y in list <==> y in list[..n] || y == list[n]
    {
      InFront(list, y);
    }
  }

  lemma AfterAppend(n: nat, trace: seq<int>, x: int)
    ensures After(n, trace + [x]) == Request(After(n, trace), n, x)
  {
    assert (trace + [x])[..|trace|] == trace;
  }

  lemma PagesPlus(x: int, list: seq<int>)
    ensures Pages([x] + list) == Pages(list) + {x}
  {
  }

  /** A hit keeps the residents; a miss adds the page to what making room leaves. */
  lemma ResidentsAfter(s: Arc, n: nat, x: int)
    requires ListedOnce(s) && x != EMPTY
    ensures s.IsResident(x) ==> Residents(Request(s, n, x)) == Residents(s)
    ensures !s.IsResident(x) ==>
              Residents(Request(s, n, x)) ==
              Residents(if MakesRoom(s, n, x) then Replace(s.(p := Target(s, n, x))) else s) + {x}
  {
    if s.IsResident(x) {
      assert s.Listed(x) <= 1;
      forall y
        ensures y in Without(s.t1, x) <==> y in s.t1 && y != x
        ensures y in Without(s.t2, x) <==> y in s.t2 && y != x
      {
        WithoutOnce(s.t1, x, y);
        WithoutOnce(s.t2, x, y);
      }
    } else {
      MissEnters(s, n, x);
    }
  }

  /** What making room takes away. */
  lemma ResidentsReplaced(s: Arc, trace: seq<int>)
    requires ByAge(s, trace) && Pages(s.t1) !! Pages(s.t2)
    ensures var r := Residents(Replace(s));
            if EvictsFromT1(s) then Oldest(Pages(s.t1), trace, s.t1[|s.t1| - 1]) && r == Residents(s) - {s.t1[|s.t1| - 1]}
            else if s.t2 == [] then r == Residents(s)
            else Oldest(Pages(s.t2), trace, s.t2[|s.t2| - 1]) && r == Residents(s) - {s.t2[|s.t2| - 1]}
  {
    if EvictsFromT1(s) {
      LastIsOldest(trace, s.t1);
      assert s.t1[|s.t1| - 1] in Pages(s.t1);
    } else if s.t2 != [] {
      LastIsOldest(trace, s.t2);
      assert s.t2[|s.t2| - 1] in Pages(s.t2);
    }
  }

  /** Which ghost list holds `x`, and whether page 0 is in B2. */
  lemma GhostsTold(n: nat, trace: seq<int>, x: int)
    requires n >= 1 && EMPTY !in trace && x != EMPTY
    ensures var s := After(n, trace);
            && (x in s.b1 <==> !s.IsResident(x) && Occurrences(trace, x) == 1)
            && (x in s.b2 <==> !s.IsResident(x) && Occurrences(trace, x) >= 2)
  {
    var s := After(n, trace);
    ListsInEveryRun(n, trace, x);
    PagesPartitioned(n, trace, x);
    OccursIffIn(s.t1, x);
    OccursIffIn(s.t2, x);
    OccursIffIn(s.b1, x);
    OccursIffIn(s.b2, x);
  }

  lemma TargetTold(n: nat, trace: seq<int>, x: int)
    requires n >= 1 && EMPTY !in trace && x != EMPTY
    ensures var s := After(n, trace);
            Request(s, n, x).p == NewTarget(n, trace, Residents(s), s.p, x) &&
            (!s.IsResident(x) ==> Target(s, n, x) == NewTarget(n, trace, Residents(s), s.p, x))
  {
    EveryRun(n, trace);
    GhostsTold(n, trace, x);
    OccursIffIn(trace, x);
  }

  /** The lists of `s` are what the policy sees. */
  ghost predicate Seen(s: Arc, trace: seq<int>, pages: set<int>) {
    && Residents(s) == pages && ByAge(s, trace)
    && Pages(s.t1) == Once(pages, trace) && Pages(s.t2) == Often(pages, trace) && Pages(s.t1) !! Pages(s.t2)
    && |Pages(s.t1)| == |s.t1| && |Pages(s.t2)| == |s.t2| && |pages| == |s.t1| + |s.t2|
    && (0 in s.b2 <==> 0 !in pages && Occurrences(trace, 0) >= 2)
  }

  lemma SeenInEveryRun(n: nat, trace: seq<int>, p: int)
    requires n >= 1 && EMPTY !in trace
    ensures Seen(After(n, trace).(p := p), trace, Residents(After(n, trace)))
  {
    var s := After(n, trace);
    RunTells(n, trace);
    ListsAreSets(n, trace);
    GhostsTold(n, trace, 0);
    assert Pages(s.t1) !! Pages(s.t2) by {
      assert forall y :: !(Occurrences(trace, y) == 1 && Occurrences(trace, y) >= 2);
    }
  }

  /** Making room gives up the page the policy names. */
  lemma RoomServes(n: nat, trace: seq<int>, s: Arc, pages: set<int>, x: int)
    requires Seen(s, trace, pages) && x !in pages && (x in trace || |pages| >= n)
    ensures Serves(n, trace, pages, s.p, x, Residents(Replace(s)) + {x})
  {
    ResidentsReplaced(s, trace);
    assert EvictsFromT1(s) <==> TakesOnce(Once(pages, trace), s.p, 0 !in pages && Occurrences(trace, 0) >= 2);
  }

  lemma ResidentsTold(n: nat, trace: seq<int>, x: int)
    requires n >= 1 && EMPTY !in trace && x != EMPTY && !After(n, trace).IsResident(x)
    ensures var s := After(n, trace);
            Serves(n, trace, Residents(s), Target(s, n, x), x, Residents(Request(s, n, x)))
  {
    var s := After(n, trace);
    var s1 := s.(p := Target(s, n, x));
    NoneTwice(n, trace);
    ResidentsAfter(s, n, x);
    SeenInEveryRun(n, trace, s1.p);
    assert MakesRoom(s, n, x) <==> x in trace || |Residents(s)| >= n by {
      GhostsTold(n, trace, x);
      OccursIffIn(trace, x);
    }
    if MakesRoom(s, n, x) {
      RoomServes(n, trace, s1, Residents(s), x);
    }
  }

  /** Every request of every run: a hit keeps the resident pages. A miss takes the page in; if it was requested before or the
      cache is full, the page requested longest ago is given up, of those requested once or of those requested more often,
      as the target says; none is if the latter are to give one up and there are none. The target moves with requests for
      pages given up before. */
  lemma EveryRequest(n: nat, trace: seq<int>, x: int)
    requires n >= 1 && EMPTY !in trace && x != EMPTY
    ensures var s, r := After(n, trace), After(n, trace + [x]);
            && r.p == NewTarget(n, trace, Residents(s), s.p, x)
            && Serves(n, trace, Residents(s), r.p, x, Residents(r))
  {
    AfterAppend(n, trace, x);
    TargetTold(n, trace, x);
    if After(n, trace).IsResident(x) {
      NoneTwice(n, trace);
      ResidentsAfter(After(n, trace), n, x);
    } else {
      ResidentsTold(n, trace, x);
    }
  }

  // ----- the ghost lists

  /** When `y` was last given up. */
  function GivenUp(n: nat, trace: seq<int>, y: int): (t: nat)
    ensures t <= |trace|
  {
    if trace == [] then 0
    else
      var front := trace[..|trace| - 1];
      if After(n, front).IsResident(y) && !After(n, trace).IsResident(y) then |trace| else GivenUp(n, front, y)
  }

  /** The pages of a ghost list, the marker aside, in the order they were given up, newest first. */
  ghost predicate ByDeparture(n: nat, trace: seq<int>, list: seq<int>) {
    list == [] ||
    (&& (list[0] != EMPTY ==>
           forall y :: y in list[1..] && y != EMPTY ==> GivenUp(n, trace, list[0]) > GivenUp(n, trace, y))
     && ByDeparture(n, trace, list[1..]))
  }

  lemma {:induction false} WithoutByDeparture(n: nat, trace: seq<int>, list: seq<int>, x: int)
    requires ByDeparture(n, trace, list)
    ensures ByDeparture(n, trace, Without(list, x))
  {
    if list != [] && list[0] != x {
      var rest := list[1..];
      WithoutByDeparture(n, trace, rest, x);
      forall y | y in Without(rest, x)
        ensures y in rest
      {
        WithoutSubset(rest, x, y);
      }
      assert ([list[0]] + Without(rest, x))[1..] == Without(rest, x);
    }
  }

  /** Pages that are not resident are not given up by the next request. */
  lemma {:induction false} DepartureKept(n: nat, trace: seq<int>, list: seq<int>, x: int)
    requires ByDeparture(n, trace, list)
    requires forall y :: y in list && y != EMPTY ==> !After(n, trace).IsResident(y)
    ensures ByDeparture(n, trace + [x], list)
  {
    assert (trace + [x])[..|trace|] == trace;
    if list != [] {
      DepartureKept(n, trace, list[1..], x);
    }
  }

  /** A page given up by the next request goes in front. */
  lemma DepartureFirst(n: nat, trace: seq<int>, list: seq<int>, x: int, y: int)
    requires ByDeparture(n, trace, list) && y != EMPTY
    requires forall z :: z in list && z != EMPTY ==> !After(n, trace).IsResident(z)
    requires After(n, trace).IsResident(y) && !After(n, trace + [x]).IsResident(y)
    ensures ByDeparture(n, trace + [x], [y] + list)
  {
    assert (trace + [x])[..|trace|] == trace;
    DepartureKept(n, trace, list, x);
    assert ([y] + list)[1..] == list;
    assert GivenUp(n, trace + [x], y) == |trace| + 1;
    assert forall z :: z in list && z != EMPTY ==> GivenUp(n, trace + [x], z) == GivenUp(n, trace, z);
  }

  /** What a request may do to a ghost list: put a page in front, take the requested page out. */
  predicate Form(was: seq<int>, now: seq<int>, x: int, y: int) {
    now == was || now == Without(was, x) || now == [y] + was || now == Without([y] + was, x)
  }

  lemma GhostListKept(n: nat, trace: seq<int>, was: seq<int>, now: seq<int>, x: int, y: int)
    requires ByDeparture(n, trace, was) && Form(was, now, x, y)
    requires forall z :: z in was && z != EMPTY ==> !After(n, trace).IsResident(z)
    requires y == EMPTY || (After(n, trace).IsResident(y) && !After(n, trace + [x]).IsResident(y))
    ensures ByDeparture(n, trace + [x], now)
  {
    DepartureKept(n, trace, was, x);
    if y == EMPTY {
      assert ([y] + was)[1..] == was;
    } else {
      DepartureFirst(n, trace, was, x, y);
    }
    WithoutByDeparture(n, trace + [x], was, x);
    WithoutByDeparture(n, trace + [x], [y] + was, x);
  }

  /** The page that making room takes from T1 or T2, or the marker. */
  function Leaver(s: Arc): int {
    if EvictsFromT1(s) then s.t1[|s.t1| - 1] else if s.t2 == [] then EMPTY else s.t2[|s.t2| - 1]
  }

  /** The page that leaves is resident before and not after. */
  lemma LeaverLeaves(n: nat, trace: seq<int>, x: int)
    requires n >= 1 && EMPTY !in trace && x != EMPTY && !After(n, trace).IsResident(x) && MakesRoom(After(n, trace), n, x)
    ensures var y := Leaver(After(n, trace).(p := Target(After(n, trace), n, x)));
            y == EMPTY || (After(n, trace).IsResident(y) && !After(n, trace + [x]).IsResident(y))
  {
    var s := After(n, trace);
    var s1 := s.(p := Target(s, n, x));
    var y := Leaver(s1);
    RunTells(n, trace);
    NoneTwice(n, trace);
    ListsAreSets(n, trace);
    AfterAppend(n, trace, x);
    ResidentsAfter(s, n, x);
    ResidentsReplaced(s1, trace);
    if y != EMPTY {
      assert s.IsResident(y);
      assert y !in Residents(Replace(s1)) && y != x;
      assert y !in Residents(Request(s, n, x));
    }
  }

  /** Which page the next request takes from T1 or T2, or the marker. */
  function Leaving(n: nat, trace: seq<int>, x: int): int {
    var s := After(n, trace);
    if !s.IsResident(x) && MakesRoom(s, n, x) then Leaver(s.(p := Target(s, n, x))) else EMPTY
  }

  lemma GhostListForms(n: nat, trace: seq<int>, x: int)
    ensures var s, r := After(n, trace), Request(After(n, trace), n, x);
            Form(s.b1, r.b1, x, Leaving(n, trace, x)) && Form(s.b2, r.b2, x, Leaving(n, trace, x))
  {
  }

  /** In every run the ghost lists name their pages in the order they were given up, newest first. */
  lemma {:induction false} GhostsInEveryRun(n: nat, trace: seq<int>)
    requires n >= 1 && EMPTY !in trace
    ensures ByDeparture(n, trace, After(n, trace).b1) && ByDeparture(n, trace, After(n, trace).b2)
  {
    if trace != [] {
      var front, x := trace[..|trace| - 1], trace[|trace| - 1];
      var s, y := After(n, front), Leaving(n, front, x);
      GhostsInEveryRun(n, front);
      assert trace == front + [x];
      forall z | z != EMPTY
        ensures z in s.b1 || z in s.b2 ==> !s.IsResident(z)
      {
        GhostsTold(n, front, z);
      }
      if y != EMPTY { LeaverLeaves(n, front, x); }
      GhostListForms(n, front, x);
      GhostListKept(n, front, s.b1, After(n, trace).b1, x, y);
      GhostListKept(n, front, s.b2, After(n, trace).b2, x, y);
    }
  }
}
