/** Page-replacement runs in general: how many requests miss, what an arbitrary demand policy
    may do, and why a conservative policy is never more than `n` times worse than any of them. */
module Paging {

  /** The marker the simulators keep in an unused frame; no page has this number. */
  const EMPTY: int := -1

  function Pages(trace: seq<int>): set<int> {
    set x | x in trace
  }

  /** Number of true entries, as in the number of misses of a run. */
  function Count(outcomes: seq<bool>): nat {
    if outcomes == [] then 0
    else Count(outcomes[..|outcomes| - 1]) + (if outcomes[|outcomes| - 1] then 1 else 0)
  }

  lemma {:induction false} CountSplit(a: seq<bool>, b: seq<bool>)
    ensures Count(a + b) == Count(a) + Count(b)
  {
    if b == [] {
      assert a + b == a;
    } else {
      CountSplit(a, b[..|b| - 1]);
      assert (a + b)[..|a + b| - 1] == a + b[..|b| - 1];
    }
  }

  lemma CountRange(s: seq<bool>, i: nat, j: nat, k: nat)
    requires i <= j <= k <= |s|
    ensures Count(s[i..k]) == Count(s[i..j]) + Count(s[j..k])
  {
    CountSplit(s[i..j], s[j..k]);
    assert s[i..k] == s[i..j] + s[j..k];
  }

  lemma {:induction false} CountPositive(s: seq<bool>, i: nat)
    requires i < |s| && s[i]
    ensures Count(s) >= 1
  {
    if i < |s| - 1 {
      CountPositive(s[..|s| - 1], i);
    }
  }

  lemma CardinalityMono(a: set<int>, b: set<int>)
    requires a <= b
    ensures |a| <= |b|
  {
    assert b == a + (b - a);
  }

  /** On any stretch of requests touching at most `n` distinct pages there are at most `n` misses. */
  ghost predicate Conservative(n: nat, trace: seq<int>, misses: seq<bool>) {
    |misses| == |trace| &&
    forall i, j :: 0 <= i <= j <= |trace| && |Pages(trace[i..j])| <= n ==> Count(misses[i..j]) <= n
  }

  /** A run of any policy with `n` frames that starts empty, loads only the requested page and
      may evict whatever it likes: `caches[i]` is what it holds before request `i`. */
  ghost predicate DemandRun(n: nat, trace: seq<int>, caches: seq<set<int>>) {
    && |caches| == |trace| + 1
    && caches[0] == {}
    && (forall i :: 0 <= i < |caches| ==> |caches[i]| <= n)
    && (forall i :: 0 <= i < |trace| ==> trace[i] in caches[i + 1] && caches[i + 1] <= caches[i] + {trace[i]})
  }

  function Misses(trace: seq<int>, caches: seq<set<int>>): (m: seq<bool>)
    requires |caches| == |trace| + 1
    ensures |m| == |trace|
  {
    seq(|trace|, i requires 0 <= i < |trace| => trace[i] !in caches[i])
  }

  /** Without misses a cache only loses pages. */
  lemma {:induction false} NoMissNoGrowth(n: nat, trace: seq<int>, caches: seq<set<int>>, i: nat, j: nat)
    requires DemandRun(n, trace, caches) && i <= j <= |trace|
    requires forall k :: i <= k < j ==> trace[k] in caches[k]
    ensures caches[j] <= caches[i]
    decreases j
  {
    if i < j {
      NoMissNoGrowth(n, trace, caches, i, j - 1);
    }
  }

  /** Any policy misses again before it has served `n + 1` distinct pages. */
  lemma DemandMustMiss(n: nat, trace: seq<int>, caches: seq<set<int>>, i: nat, j: nat)
    requires DemandRun(n, trace, caches) && i < j <= |trace| && |Pages(trace[i..j])| > n
    ensures Count(Misses(trace, caches)[i + 1..j]) >= 1
  {
    var m := Misses(trace, caches);
    if k :| i + 1 <= k < j && m[k] {
      assert m[i + 1..j][k - (i + 1)];
      CountPositive(m[i + 1..j], k - (i + 1));
    } else {
      forall x | x in Pages(trace[i..j])
        ensures x in caches[i + 1]
      {
        var k :| i <= k < j && trace[k] == x;
        if k > i {
          forall l | i + 1 <= l < k
            ensures trace[l] in caches[l]
          {
            assert !m[l];
          }
          NoMissNoGrowth(n, trace, caches, i + 1, k);
          assert !m[k];
        }
      }
      CardinalityMono(Pages(trace[i..j]), caches[i + 1]);
    }
  }

  /** The longest stretch from `i` that touches at most `n` distinct pages. */
  lemma LongestStretch(n: nat, trace: seq<int>, i: nat) returns (j: nat)
    requires n >= 1 && i < |trace|
    ensures i < j <= |trace| && |Pages(trace[i..j])| <= n
    ensures j < |trace| ==> |Pages(trace[i..j + 1])| > n
  {
    j := i + 1;
    assert Pages(trace[i..j]) == {trace[i]};
    while j < |trace| && |Pages(trace[i..j + 1])| <= n
      invariant i < j <= |trace| && |Pages(trace[i..j])| <= n
    {
      j := j + 1;
    }
  }

  lemma PhaseArithmetic(n: nat, first: nat, later: nat, a: nat, b: nat)
    requires first <= n && later <= n * (b + 1) && b + 1 <= a
    ensures first + later <= n * (a + 1)
  {
    assert n * (b + 1) <= n * a;
  }

  lemma LastPhaseArithmetic(n: nat, first: nat, a: nat)
    requires first <= n
    ensures first <= n * (a + 1)
  {
    assert n * 1 <= n * (a + 1);
  }

  lemma StretchMisses(n: nat, trace: seq<int>, misses: seq<bool>, i: nat, j: nat)
    requires Conservative(n, trace, misses) && i <= j <= |trace| && |Pages(trace[i..j])| <= n
    ensures Count(misses[i..j]) <= n
  {
  }

  /** Serving `n + 1` distinct pages takes a miss after the first request of the stretch. */
  ghost predicate MissesEverySpan(n: nat, trace: seq<int>, opt: seq<bool>) {
    |opt| == |trace| &&
    forall i, j :: 0 <= i < j <= |trace| && |Pages(trace[i..j])| > n ==> Count(opt[i + 1..j]) >= 1
  }

  lemma SpanMiss(n: nat, trace: seq<int>, opt: seq<bool>, i: nat, j: nat)
    requires MissesEverySpan(n, trace, opt) && i < j < |trace| && |Pages(trace[i..j + 1])| > n
    ensures Count(opt[j + 1..|trace|]) + 1 <= Count(opt[i + 1..|trace|])
  {
    assert Count(opt[i + 1..j + 1]) >= 1;
    CountRange(opt, i + 1, j + 1, |trace|);
  }

  lemma {:induction false} CompetitiveFrom(n: nat, trace: seq<int>, misses: seq<bool>, opt: seq<bool>, i: nat)
    requires n >= 1 && Conservative(n, trace, misses) && MissesEverySpan(n, trace, opt) && i < |trace|
    ensures Count(misses[i..|trace|]) <= n * (Count(opt[i + 1..|trace|]) + 1)
    decreases |trace| - i
  {
    var j := LongestStretch(n, trace, i);
    var first, later := Count(misses[i..j]), Count(misses[j..|trace|]);
    var a := Count(opt[i + 1..|trace|]);
    StretchMisses(n, trace, misses, i, j);
    CountRange(misses, i, j, |trace|);
    if j < |trace| {
      SpanMiss(n, trace, opt, i, j);
      CompetitiveFrom(n, trace, misses, opt, j);
      PhaseArithmetic(n, first, later, a, Count(opt[j + 1..|trace|]));
    } else {
      assert misses[j..|trace|] == [];
      LastPhaseArithmetic(n, first, a);
    }
  }

  lemma FirstRequestMisses(n: nat, trace: seq<int>, caches: seq<set<int>>)
    requires DemandRun(n, trace, caches) && trace != []
    ensures Count(Misses(trace, caches)) == Count(Misses(trace, caches)[0 + 1..|trace|]) + 1
  {
    var opt := Misses(trace, caches);
    CountRange(opt, 0, 1, |opt|);
    assert opt[0..|opt|] == opt;
    assert opt[0..1][..0] == [] && opt[0..1][0];
  }

  /** A conservative policy misses at most `n` times as often as any demand policy on the same trace. */
  lemma ConservativeIsCompetitive(n: nat, trace: seq<int>, misses: seq<bool>, caches: seq<set<int>>)
    requires n >= 1 && Conservative(n, trace, misses) && DemandRun(n, trace, caches)
    ensures Count(misses) <= n * Count(Misses(trace, caches))
  {
    if trace == [] {
      assert misses == [];
    } else {
      var opt := Misses(trace, caches);
      FirstRequestMisses(n, trace, caches);
      assert misses[0..|trace|] == misses;
      forall i, j | 0 <= i < j <= |trace| && |Pages(trace[i..j])| > n
        ensures Count(opt[i + 1..j]) >= 1
      {
        DemandMustMiss(n, trace, caches, i, j);
      }
      CompetitiveFrom(n, trace, misses, opt, 0);
    }
  }

  /** Removes the first occurrence of `x`, as unlinking a list node does. */
  function Without(s: seq<int>, x: int): (r: seq<int>)
    ensures x !in s ==> r == s
    ensures x in s ==> |r| == |s| - 1
  {
    if s == [] then []
    else if s[0] == x then s[1..]
    else [s[0]] + Without(s[1..], x)
  }

  lemma {:induction false} WithoutAt(s: seq<int>, x: int, k: nat)
    requires k < |s| && s[k] == x && x !in s[..k]
    ensures Without(s, x) == s[..k] + s[k + 1..]
  {
    if k > 0 {
      var t := s[1..];
      assert s[..k] == [s[0]] + t[..k - 1];
      assert s[k + 1..] == t[k..];
      WithoutAt(t, x, k - 1);
      Associate(s[0], t[..k - 1], t[k..]);
    }
  }

  lemma Associate(a: int, p: seq<int>, q: seq<int>)
    ensures [a] + (p + q) == ([a] + p) + q
  {
  }

  function Occurrences(s: seq<int>, x: int): nat {
    if s == [] then 0 else Occurrences(s[1..], x) + (if s[0] == x then 1 else 0)
  }

  lemma OccurrencesFront(a: int, s: seq<int>, x: int)
    ensures Occurrences([a] + s, x) == Occurrences(s, x) + (if a == x then 1 else 0)
  {
    assert ([a] + s)[1..] == s;
  }

  lemma {:induction false} OccurrencesLast(s: seq<int>, x: int)
    requires s != []
    ensures Occurrences(s, x) == Occurrences(s[..|s| - 1], x) + (if s[|s| - 1] == x then 1 else 0)
  {
    if |s| > 1 {
      OccurrencesLast(s[1..], x);
      assert s[..|s| - 1][1..] == s[1..][..|s| - 2];
    }
  }

  lemma {:induction false} OccursIffIn(s: seq<int>, x: int)
    ensures Occurrences(s, x) > 0 <==> x in s
  {
    if s != [] {
      OccursIffIn(s[1..], x);
      assert x in s <==> x == s[0] || x in s[1..];
    }
  }

  lemma {:induction false} OccurrencesWithout(s: seq<int>, x: int, y: int)
    ensures Occurrences(Without(s, x), y) == Occurrences(s, y) - (if x == y && x in s then 1 else 0)
  {
    if s != [] && s[0] != x {
      OccurrencesWithout(s[1..], x, y);
      OccurrencesFront(s[0], Without(s[1..], x), y);
      assert x in s <==> x in s[1..];
    }
  }
}
