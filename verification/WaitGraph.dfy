/** Directed graphs over transaction ids: paths, reachability and cycles.
    The wait-for matrix of the store is viewed as its set of edges. */
module WaitGraph {
  import opened Counting

  type Edges = set<(nat, nat)>

  ghost predicate Edge(g: Edges, a: nat, b: nat) {
    (a, b) in g
  }

  /** A path is a nonempty sequence of nodes joined by edges. */
  ghost predicate IsPath(g: Edges, p: seq<nat>) {
    |p| >= 1 && forall i, j {:trigger Edge(g, p[i], p[j])} :: 0 <= i < |p| && j == i + 1 && j < |p| ==> Edge(g, p[i], p[j])
  }

  ghost predicate IsPathFromTo(g: Edges, p: seq<nat>, a: nat, b: nat) {
    IsPath(g, p) && p[0] == a && p[|p| - 1] == b
  }

  ghost predicate Reaches(g: Edges, a: nat, b: nat) {
    exists p :: IsPathFromTo(g, p, a, b)
  }

  ghost predicate IsCycle(g: Edges, p: seq<nat>) {
    |p| >= 2 && IsPathFromTo(g, p, p[0], p[0])
  }

  ghost predicate HasCycle(g: Edges) {
    exists p :: IsCycle(g, p)
  }

  ghost predicate Within(g: Edges, n: nat) {
    forall e :: e in g ==> e.0 < n && e.1 < n
  }

  lemma StepPath(g: Edges, p: seq<nat>, i: nat)
    requires IsPath(g, p) && i + 1 < |p|
    ensures Edge(g, p[i], p[i + 1])
  {
  }

  lemma JoinPaths(g: Edges, p: seq<nat>, q: seq<nat>, a: nat, b: nat, c: nat)
    requires IsPathFromTo(g, p, a, b) && IsPathFromTo(g, q, b, c)
    ensures IsPathFromTo(g, p + q[1..], a, c)
  {
    var r := p + q[1..];
    forall i, j | 0 <= i < |r| && j == i + 1 && j < |r|
      ensures Edge(g, r[i], r[j])
    {
      if j < |p| {
        StepPath(g, p, i);
      } else {
        StepPath(g, q, i - |p| + 1);
      }
    }
  }

  lemma ReachesTransitive(g: Edges, a: nat, b: nat, c: nat)
    requires Reaches(g, a, b) && Reaches(g, b, c)
    ensures Reaches(g, a, c)
  {
    var p :| IsPathFromTo(g, p, a, b);
    var q :| IsPathFromTo(g, q, b, c);
    JoinPaths(g, p, q, a, b, c);
  }

  lemma ReachesSelf(g: Edges, a: nat)
    ensures Reaches(g, a, a)
  {
    assert IsPathFromTo(g, [a], a, a);
  }

  lemma ReachesByEdge(g: Edges, a: nat, b: nat)
    requires Edge(g, a, b)
    ensures Reaches(g, a, b)
  {
    assert IsPathFromTo(g, [a, b], a, b);
  }

  lemma SubgraphPath(g: Edges, h: Edges, p: seq<nat>)
    requires g <= h && IsPath(g, p)
    ensures IsPath(h, p)
  {
    forall i, j | 0 <= i < |p| && j == i + 1 && j < |p|
      ensures Edge(h, p[i], p[j])
    {
      StepPath(g, p, i);
    }
  }

  lemma SubgraphAcyclic(g: Edges, h: Edges)
    requires g <= h && !HasCycle(h)
    ensures !HasCycle(g)
  {
    if HasCycle(g) {
      var p :| IsCycle(g, p);
      SubgraphPath(g, h, p);
      assert IsCycle(h, p);
    }
  }

  /** A path of the graph with one extra edge t->o either avoids the extra edge or
      splits around it into two paths of the old graph. */
  lemma {:induction false} PathAroundNewEdge(g: Edges, t: nat, o: nat, p: seq<nat>, a: nat, b: nat)
    requires IsPathFromTo(g + {(t, o)}, p, a, b)
    ensures IsPathFromTo(g, p, a, b) || (Reaches(g, a, t) && Reaches(g, o, b))
    decreases |p|
  {
    var h := g + {(t, o)};
    if |p| == 1 {
    } else {
      StepPath(h, p, 0);
      var q := p[1..];
      assert IsPathFromTo(h, q, p[1], b) by {
        forall i, j | 0 <= i < |q| && j == i + 1 && j < |q|
          ensures Edge(h, q[i], q[j])
        {
          StepPath(h, p, i + 1);
        }
      }
      PathAroundNewEdge(g, t, o, q, p[1], b);
      if Edge(g, p[0], p[1]) {
        ReachesByEdge(g, p[0], p[1]);
        if IsPathFromTo(g, q, p[1], b) {
          JoinPaths(g, [p[0], p[1]], q, a, p[1], b);
          assert [p[0], p[1]] + q[1..] == p;
        } else {
          ReachesTransitive(g, a, p[1], t);
        }
      } else {
        assert p[0] == t && p[1] == o;
        ReachesSelf(g, t);
      }
    }
  }

  /** Adding the edge t->o to an acyclic graph closes a cycle exactly when o already reaches t. */
  lemma CycleIffOwnerReachesRequester(g: Edges, t: nat, o: nat)
    requires !HasCycle(g)
    ensures HasCycle(g + {(t, o)}) <==> Reaches(g, o, t)
  {
    var h := g + {(t, o)};
    if HasCycle(h) {
      var p :| IsCycle(h, p);
      PathAroundNewEdge(g, t, o, p, p[0], p[0]);
      assert !IsCycle(g, p);
      ReachesTransitive(g, o, p[0], t);
    }
    if Reaches(g, o, t) {
      var q :| IsPathFromTo(g, q, o, t);
      SubgraphPath(g, h, q);
      assert IsPathFromTo(h, [t, o], t, o);
      JoinPaths(h, [t, o], q, t, o, t);
      assert IsCycle(h, [t, o] + q[1..]);
    }
  }

  /** A finishing order: every edge leaving a listed node goes to a node listed earlier. */
  ghost predicate IsFinishingOrder(g: Edges, done: seq<nat>) {
    forall i, b :: 0 <= i < |done| && Edge(g, done[i], b) ==> b in done[..i]
  }

  lemma {:induction false} PathDescends(g: Edges, done: seq<nat>, p: seq<nat>, i: nat)
    requires IsFinishingOrder(g, done) && IsPath(g, p)
    requires i < |done| && p[0] == done[i]
    ensures |p| >= 2 ==> p[|p| - 1] in done[..i]
    decreases |p|
  {
    if |p| >= 2 {
      StepPath(g, p, 0);
      assert Edge(g, done[i], p[1]);
      var k :| 0 <= k < i && done[k] == p[1];
      var q := p[1..];
      forall a, b | 0 <= a < |q| && b == a + 1 && b < |q|
        ensures Edge(g, q[a], q[b])
      {
        StepPath(g, p, a + 1);
      }
      PathDescends(g, done, q, k);
      assert p[|p| - 1] == q[|q| - 1];
    }
  }

  /** A graph whose edges all leave nodes of one finishing order has no cycle. */
  lemma FinishedGraphIsAcyclic(g: Edges, done: seq<nat>)
    requires IsFinishingOrder(g, done)
    requires forall i, j :: 0 <= i < j < |done| ==> done[i] != done[j]
    requires forall a, b :: Edge(g, a, b) ==> a in done
    ensures !HasCycle(g)
  {
    if HasCycle(g) {
      var p :| IsCycle(g, p);
      StepPath(g, p, 0);
      assert Edge(g, p[0], p[1]);
      var i :| 0 <= i < |done| && done[i] == p[0];
      PathDescends(g, done, p, i);
    }
  }

  lemma AcyclicPathIsShort(g: Edges, n: nat, p: seq<nat>)
    requires !HasCycle(g) && IsPath(g, p)
    requires forall i :: 0 <= i < |p| ==> p[i] < n
    ensures |p| <= n
  {
    forall i, j | 0 <= i < j < |p|
      ensures p[i] != p[j]
    {
      if p[i] == p[j] {
        var c := p[i..j + 1];
        forall a, b | 0 <= a < |c| && b == a + 1 && b < |c|
          ensures Edge(g, c[a], c[b])
        {
          StepPath(g, p, i + a);
        }
        assert IsCycle(g, c);
      }
    }
    DistinctBounded(p, n);
  }

  ghost predicate IsSink(g: Edges, a: nat) {
    forall b :: !Edge(g, a, b)
  }

  lemma {:induction false} FollowToSink(g: Edges, n: nat, p: seq<nat>) returns (s: nat)
    requires !HasCycle(g) && Within(g, n)
    requires IsPath(g, p) && |p| >= 2
    ensures IsSink(g, s) && (exists a :: Edge(g, a, s)) && Reaches(g, p[0], s)
    decreases n - |p|
  {
    forall i | 0 <= i < |p|
      ensures p[i] < n
    {
      if i + 1 < |p| { StepPath(g, p, i); } else { StepPath(g, p, i - 1); }
    }
    AcyclicPathIsShort(g, n, p);
    var last := p[|p| - 1];
    if b: nat :| Edge(g, last, b) {
      JoinPaths(g, p, [last, b], p[0], last, b);
      assert p + [last, b][1..] == p + [b];
      forall i | 0 <= i < |p + [b]|
        ensures (p + [b])[i] < n
      {
      }
      AcyclicPathIsShort(g, n, p + [b]);
      s := FollowToSink(g, n, p + [b]);
    } else {
      StepPath(g, p, |p| - 2);
      s := last;
      assert IsPathFromTo(g, p, p[0], s);
    }
  }

  /** In a finite acyclic graph, following edges from any node that has one ends at a node without edges. */
  lemma AcyclicHasSink(g: Edges, n: nat, a: nat, b: nat) returns (s: nat)
    requires !HasCycle(g) && Within(g, n) && Edge(g, a, b)
    ensures IsSink(g, s) && (exists c :: Edge(g, c, s)) && Reaches(g, a, s)
  {
    assert IsPathFromTo(g, [a, b], a, b);
    s := FollowToSink(g, n, [a, b]);
  }
}
