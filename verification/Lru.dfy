/** Least-recently-used replacement. The simulator stamps frames with a running counter; here a
    page is resident exactly when few enough distinct pages were requested since its last request. */
module Lru {
  import opened Paging

  /** 1-based position of the last request for `x`; 0 if there is none. */
  function Last(trace: seq<int>, x: int): (p: nat)
    ensures p <= |trace|
    ensures p == 0 <==> x !in trace
    ensures p > 0 ==> trace[p - 1] == x
  {
    if trace == [] then 0
    else if trace[|trace| - 1] == x then |trace|
    else Last(trace[..|trace| - 1], x)
  }

  /** The pages requested at or after the last request for `x`. */
  function Window(trace: seq<int>, x: int): set<int> {
    set y | y in trace && Last(trace, y) >= Last(trace, x)
  }

  /** The pages an LRU cache of `n` frames holds after `trace`. */
  function Resident(n: nat, trace: seq<int>): set<int> {
    set x | x in trace && |Window(trace, x)| <= n
  }

  /** Which requests miss. */
  function MissesOf(n: nat, trace: seq<int>): (m: seq<bool>)
    ensures |m| == |trace|
  {
    if trace == [] then []
    else
      var front := trace[..|trace| - 1];
      MissesOf(n, front) + [trace[|trace| - 1] !in Resident(n, front)]
  }

  /** One more request: its outcome, and the miss count so far. */
  lemma MissesStep(n: nat, trace: seq<int>, i: nat)
    requires i < |trace|
    ensures MissesOf(n, trace[..i + 1]) == MissesOf(n, trace[..i]) + [trace[i] !in Resident(n, trace[..i])]
    ensures Count(MissesOf(n, trace[..i + 1])) == Count(MissesOf(n, trace[..i])) + (if trace[i] in Resident(n, trace[..i]) then 0 else 1)
  {
    assert trace[..i + 1][..i] == trace[..i];
    var o := [trace[i] !in Resident(n, trace[..i])];
    CountSplit(MissesOf(n, trace[..i]), o);
    assert o[..0] == [];
  }

  lemma LastAppend(trace: seq<int>, x: int, y: int)
    ensures Last(trace + [x], y) == if y == x then |trace| + 1 else Last(trace, y)
  {
    assert (trace + [x])[..|trace|] == trace;
  }

  /** Two different requested pages were last requested at different times. */
  lemma LastInjective(trace: seq<int>, x: int, y: int)
    requires x in trace && y in trace && Last(trace, x) == Last(trace, y)
    ensures x == y
  {
  }

  lemma WindowAppend(trace: seq<int>, x: int, y: int)
    requires y in trace && y != x
    ensures Window(trace + [x], y) == Window(trace, y) + {x}
  {
    LastAppend(trace, x, y);
    forall z
      ensures z in Window(trace + [x], y) <==> z in Window(trace, y) + {x}
    {
      LastAppend(trace, x, z);
    }
  }

  lemma WindowOfNewest(trace: seq<int>, x: int)
    ensures Window(trace + [x], x) == {x}
  {
    LastAppend(trace, x, x);
    forall z
      ensures z in Window(trace + [x], x) <==> z == x
    {
      LastAppend(trace, x, z);
    }
  }

  /** Windows are nested by recency. */
  lemma WindowNested(trace: seq<int>, x: int, y: int)
    requires x in trace && y in trace && Last(trace, x) < Last(trace, y)
    ensures Window(trace, y) <= Window(trace, x) - {x}
    ensures |Window(trace, y)| < |Window(trace, x)|
  {
    CardinalityMono(Window(trace, y), Window(trace, x) - {x});
  }

  lemma WindowResident(n: nat, trace: seq<int>, x: int)
    requires x in Resident(n, trace)
    ensures Window(trace, x) <= Resident(n, trace)
  {
    forall y | y in Window(trace, x)
      ensures y in Resident(n, trace)
    {
      if Last(trace, y) == Last(trace, x) {
        LastInjective(trace, x, y);
      } else {
        WindowNested(trace, x, y);
      }
    }
  }

  /** `v` was requested no later than any resident page. */
  ghost predicate IsVictim(n: nat, trace: seq<int>, v: int) {
    v in Resident(n, trace) && forall w :: w in Resident(n, trace) ==> Last(trace, v) <= Last(trace, w)
  }

  lemma VictimWindow(n: nat, trace: seq<int>, v: int)
    requires IsVictim(n, trace, v)
    ensures Window(trace, v) == Resident(n, trace)
    ensures |Resident(n, trace)| <= n
  {
    WindowResident(n, trace, v);
  }

  /** One request: a hit changes nothing; a miss with room adds the page; a miss without room
      replaces exactly the least recently requested page. */
  lemma ResidentAfterHit(n: nat, trace: seq<int>, x: int)
    requires x in Resident(n, trace)
    ensures Resident(n, trace + [x]) == Resident(n, trace)
  {
    forall y
      ensures y in Resident(n, trace + [x]) <==> y in Resident(n, trace)
    {
      if y == x {
        WindowOfNewest(trace, x);
        assert x in Window(trace, x);
        CardinalityMono({x}, Window(trace, x));
      } else if y in trace {
        WindowAppend(trace, x, y);
        if x in Window(trace, y) {
          assert Window(trace, y) + {x} == Window(trace, y);
        } else {
          WindowNested(trace, x, y);
        }
      }
    }
  }

  lemma ResidentAfterInsert(n: nat, trace: seq<int>, x: int)
    requires x !in Resident(n, trace) && |Resident(n, trace)| < n
    ensures Resident(n, trace + [x]) == Resident(n, trace) + {x}
  {
    forall y
      ensures y in Resident(n, trace + [x]) <==> y in Resident(n, trace) + {x}
    {
      if y == x {
        WindowOfNewest(trace, x);
      } else if y in trace {
        WindowAppend(trace, x, y);
        CardinalityMono(Window(trace, y), Window(trace, y) + {x});
        if y in Resident(n, trace) {
          WindowResident(n, trace, y);
          CardinalityMono(Window(trace, y), Resident(n, trace));
        }
      }
    }
  }

  lemma ResidentAfterEvict(n: nat, trace: seq<int>, x: int, v: int)
    requires x !in Resident(n, trace) && |Resident(n, trace)| == n && IsVictim(n, trace, v)
    ensures Resident(n, trace + [x]) == Resident(n, trace) - {v} + {x}
  {
    VictimWindow(n, trace, v);
    forall y
      ensures y in Resident(n, trace + [x]) <==> y in Resident(n, trace) - {v} + {x}
    {
      if y == x {
        WindowOfNewest(trace, x);
        CardinalityMono({v}, Resident(n, trace));
      } else if y in trace {
        WindowAppend(trace, x, y);
        if y in Resident(n, trace) {
          WindowResident(n, trace, y);
          if y != v {
            if Last(trace, v) == Last(trace, y) { LastInjective(trace, v, y); }
            WindowNested(trace, v, y);
          }
        } else {
          CardinalityMono(Window(trace, y), Window(trace, y) + {x});
        }
      }
    }
  }

  // ----- inclusion

  /** More frames never hold less. */
  lemma Inclusion(n: nat, m: nat, trace: seq<int>)
    requires n <= m
    ensures Resident(n, trace) <= Resident(m, trace)
  {
  }

  /** More frames never miss more, request by request and in total. */
  lemma {:induction false} MoreFramesNeverMissMore(n: nat, m: nat, trace: seq<int>)
    requires n <= m
    ensures forall i :: 0 <= i < |trace| && MissesOf(m, trace)[i] ==> MissesOf(n, trace)[i]
    ensures Count(MissesOf(m, trace)) <= Count(MissesOf(n, trace))
  {
    if trace != [] {
      var front := trace[..|trace| - 1];
      MoreFramesNeverMissMore(n, m, front);
      Inclusion(n, m, front);
      CountSplit(MissesOf(n, front), [trace[|trace| - 1] !in Resident(n, front)]);
      CountSplit(MissesOf(m, front), [trace[|trace| - 1] !in Resident(m, front)]);
    }
  }

  // ----- the move-to-front list

  /** Requested pages, most recent first: a request moves its page to the front. */
  function MoveToFront(trace: seq<int>): seq<int> {
    if trace == [] then []
    else
      var x := trace[|trace| - 1];
      [x] + Without(MoveToFront(trace[..|trace| - 1]), x)
  }

  ghost predicate ByRecency(trace: seq<int>, r: seq<int>) {
    forall i, j :: 0 <= i < j < |r| ==> Last(trace, r[i]) > Last(trace, r[j])
  }

  lemma WithoutMembers(r: seq<int>, x: int)
    requires forall i, j :: 0 <= i < j < |r| ==> r[i] != r[j]
    ensures x !in Without(r, x)
    ensures forall y :: y != x ==> (y in Without(r, x) <==> y in r)
  {
    if k :| 0 <= k < |r| && r[k] == x {
      WithoutAt(r, x, k);
      assert r == r[..k] + [x] + r[k + 1..];
    }
  }

  ghost predicate Descending(r: seq<int>, rank: int -> int) {
    forall i, j :: 0 <= i < j < |r| ==> rank(r[i]) > rank(r[j])
  }

  lemma WithoutKeepsDescending(r: seq<int>, rank: int -> int, x: int)
    requires Descending(r, rank)
    ensures Descending(Without(r, x), rank)
  {
    if k :| 0 <= k < |r| && r[k] == x {
      assert forall i :: 0 <= i < k ==> rank(r[i]) > rank(r[k]);
      WithoutAt(r, x, k);
    }
  }

  lemma WithoutKeepsOrder(trace: seq<int>, r: seq<int>, x: int)
    requires ByRecency(trace, r)
    ensures ByRecency(trace, Without(r, x))
  {
    WithoutKeepsDescending(r, y => Last(trace, y), x);
  }

  lemma FrontByRecency(front: seq<int>, x: int, w: seq<int>)
    requires ByRecency(front, w) && x !in w
    ensures ByRecency(front + [x], [x] + w)
  {
    LastAppend(front, x, x);
    forall i, j | 0 <= i < j < |[x] + w|
      ensures Last(front + [x], ([x] + w)[i]) > Last(front + [x], ([x] + w)[j])
    {
      LastAppend(front, x, w[j - 1]);
      if i > 0 {
        LastAppend(front, x, w[i - 1]);
      }
    }
  }

  lemma {:induction false} MoveToFrontByRecency(trace: seq<int>)
    ensures ByRecency(trace, MoveToFront(trace))
    ensures forall y :: y in MoveToFront(trace) <==> y in trace
  {
    if trace != [] {
      var front, x := trace[..|trace| - 1], trace[|trace| - 1];
      MoveToFrontByRecency(front);
      var r := MoveToFront(front);
      var w := Without(r, x);
      WithoutKeepsOrder(front, r, x);
      WithoutMembers(r, x);
      FrontByRecency(front, x, w);
      assert trace == front + [x];
      assert MoveToFront(trace) == [x] + w;
      forall y
        ensures y in [x] + w <==> y in trace
      {
        assert y in [x] + w <==> y == x || y in w;
        assert y in trace <==> y == x || y in front;
      }
    }
  }

  lemma {:induction false} DistinctPrefixSize(r: seq<int>, k: nat)
    requires k <= |r| && forall i, j :: 0 <= i < j < |r| ==> r[i] != r[j]
    ensures |Pages(r[..k])| == k
  {
    if k == 0 {
      assert Pages(r[..0]) == {};
    } else {
      DistinctPrefixSize(r, k - 1);
      assert r[..k] == r[..k - 1] + [r[k - 1]];
      assert Pages(r[..k]) == Pages(r[..k - 1]) + {r[k - 1]};
    }
  }

  lemma WindowIsListPrefix(trace: seq<int>, r: seq<int>, k: nat)
    requires ByRecency(trace, r) && k < |r| && forall y :: y in r <==> y in trace
    ensures Window(trace, r[k]) == Pages(r[..k + 1])
  {
    forall y
      ensures y in Window(trace, r[k]) <==> y in Pages(r[..k + 1])
    {
      if y in trace {
        var i :| 0 <= i < |r| && r[i] == y;
        if i <= k {
          assert r[..k + 1][i] == y;
          assert i == k || Last(trace, r[i]) > Last(trace, r[k]);
        } else {
          assert Last(trace, r[k]) > Last(trace, r[i]);
          assert y !in r[..k + 1];
        }
      }
    }
  }

  /** The page at index `k` of the move-to-front list is resident exactly in caches of more than `k` frames. */
  lemma ResidentIsListPrefix(n: nat, trace: seq<int>, k: nat)
    requires k < |MoveToFront(trace)|
    ensures MoveToFront(trace)[k] in Resident(n, trace) <==> k < n
  {
    var r := MoveToFront(trace);
    MoveToFrontByRecency(trace);
    WindowIsListPrefix(trace, r, k);
    DistinctPrefixSize(r, k + 1);
    assert r[k] in r;
  }

  // ----- conservativeness

  lemma {:induction false} LastInSuffix(trace: seq<int>, i: nat, x: int)
    requires i <= |trace|
    ensures x in trace[i..] <==> Last(trace, x) > i
  {
    if i < |trace| && trace[|trace| - 1] != x {
      var front := trace[..|trace| - 1];
      LastInSuffix(front, i, x);
      assert trace[i..] == front[i..] + [trace[|trace| - 1]];
    } else if i < |trace| {
      assert trace[i..][|trace| - 1 - i] == x;
    }
  }

  /** A page requested earlier in a stretch of at most `n` distinct pages is still resident. */
  lemma RequestedInStretchIsResident(n: nat, trace: seq<int>, i: nat, x: int)
    requires i <= |trace| && |Pages(trace[i..])| <= n && x in trace[i..]
    ensures x in Resident(n, trace)
  {
    LastInSuffix(trace, i, x);
    forall y | y in Window(trace, x)
      ensures y in Pages(trace[i..])
    {
      LastInSuffix(trace, i, y);
    }
    CardinalityMono(Window(trace, x), Pages(trace[i..]));
  }

  lemma PagesAppend(trace: seq<int>, i: nat)
    requires i < |trace|
    ensures var front, x := trace[..|trace| - 1], trace[|trace| - 1];
            |Pages(trace[i..])| == |Pages(front[i..])| + (if x in front[i..] then 0 else 1)
  {
    var front, x := trace[..|trace| - 1], trace[|trace| - 1];
    assert trace[i..] == front[i..] + [x];
    assert Pages(trace[i..]) == Pages(front[i..]) + {x};
  }

  lemma {:induction false} StretchMissesAtMostDistinct(n: nat, trace: seq<int>, i: nat)
    requires i <= |trace| && |Pages(trace[i..])| <= n
    ensures Count(MissesOf(n, trace)[i..]) <= |Pages(trace[i..])|
  {
    if i < |trace| {
      var front, x := trace[..|trace| - 1], trace[|trace| - 1];
      PagesAppend(trace, i);
      StretchMissesAtMostDistinct(n, front, i);
      assert MissesOf(n, trace)[i..] == MissesOf(n, front)[i..] + [x !in Resident(n, front)];
      CountSplit(MissesOf(n, front)[i..], [x !in Resident(n, front)]);
      if x in front[i..] {
        RequestedInStretchIsResident(n, front, i, x);
      }
    }
  }

  lemma {:induction false} MissesOfPrefix(n: nat, trace: seq<int>, j: nat)
    requires j <= |trace|
    ensures MissesOf(n, trace)[..j] == MissesOf(n, trace[..j])
  {
    if j < |trace| {
      var front := trace[..|trace| - 1];
      MissesOfPrefix(n, front, j);
      assert front[..j] == trace[..j];
      assert MissesOf(n, trace)[..j] == MissesOf(n, front)[..j];
    } else {
      assert trace[..j] == trace;
    }
  }

  lemma LruIsConservative(n: nat, trace: seq<int>)
    ensures Conservative(n, trace, MissesOf(n, trace))
  {
    forall i, j | 0 <= i <= j <= |trace| && |Pages(trace[i..j])| <= n
      ensures Count(MissesOf(n, trace)[i..j]) <= n
    {
      assert trace[i..j] == trace[..j][i..];
      StretchMissesAtMostDistinct(n, trace[..j], i);
      MissesOfPrefix(n, trace, j);
      assert MissesOf(n, trace)[i..j] == MissesOf(n, trace)[..j][i..];
    }
  }

  /** From an empty cache LRU misses at most `n` times as often as any demand policy with `n` frames. */
  lemma LruIsCompetitive(n: nat, trace: seq<int>, caches: seq<set<int>>)
    requires n >= 1 && DemandRun(n, trace, caches)
    ensures Count(MissesOf(n, trace)) <= n * Count(Misses(trace, caches))
  {
    LruIsConservative(n, trace);
    ConservativeIsCompetitive(n, trace, MissesOf(n, trace), caches);
  }
}
