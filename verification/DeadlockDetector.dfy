/** Depth-first cycle detection over the wait-for matrix, with one visited array
    shared by every root. */
module DeadlockDetector {
  import opened WaitGraph

  /** The edges recorded in a square matrix. */
  ghost function EdgesOf(w: array2<bool>): (g: Edges)
    requires w.Length0 == w.Length1
    reads w
  {
    set a: nat, b: nat | a < w.Length0 && b < w.Length1 && w[a, b] :: (a, b)
  }

  /** The colouring kept during the search. `stack` is the chain of open calls and
      `done` the closed nodes in closing order. */
  ghost predicate Colouring(g: Edges, n: nat, visited: seq<bool>, recStack: seq<bool>, stack: seq<nat>, done: seq<nat>) {
    && |visited| == |recStack| == n
    && (forall x :: x in stack ==> x < n)
    && (forall x :: x in done ==> x < n)
    && (forall x: nat :: x < n ==> (visited[x] <==> x in stack || x in done))
    && (forall x: nat :: x < n ==> (recStack[x] <==> x in stack))
    && (forall x :: x in done ==> x !in stack)
    && (forall i, j :: 0 <= i < j < |done| ==> done[i] != done[j])
    && IsFinishingOrder(g, done)
    && (stack == [] || IsPath(g, stack))
  }

  ghost function Unvisited(visited: seq<bool>): (s: set<nat>) {
    set x: nat | x < |visited| && !visited[x]
  }

  /** Returning to a node of the current stack closes a cycle. */
  lemma BackEdgeClosesCycle(g: Edges, stack: seq<nat>, v: nat)
    requires IsPath(g, stack) && v in stack && Edge(g, stack[|stack| - 1], v)
    ensures HasCycle(g)
  {
    var k :| 0 <= k < |stack| && stack[k] == v;
    var c := stack[k..] + [v];
    forall i, j | 0 <= i < |c| && j == i + 1 && j < |c|
      ensures Edge(g, c[i], c[j])
    {
      if j < |c| - 1 {
        StepPath(g, stack, k + i);
      }
    }
    assert IsCycle(g, c);
  }

  lemma ExtendPath(g: Edges, stack: seq<nat>, u: nat)
    requires stack == [] || (IsPath(g, stack) && Edge(g, stack[|stack| - 1], u))
    ensures IsPath(g, stack + [u])
  {
    var c := stack + [u];
    forall i, j | 0 <= i < |c| && j == i + 1 && j < |c|
      ensures Edge(g, c[i], c[j])
    {
      if j < |c| - 1 {
        StepPath(g, stack, i);
      }
    }
  }

  lemma CloseNode(g: Edges, n: nat, visited: seq<bool>, recStack: seq<bool>, stack: seq<nat>, u: nat, done: seq<nat>)
    requires u < |recStack| && Colouring(g, n, visited, recStack, stack + [u], done) && u !in stack
    requires forall b: nat :: Edge(g, u, b) ==> b in done
    requires stack == [] || IsPath(g, stack)
    ensures Colouring(g, n, visited, recStack[u := false], stack, done + [u])
  {
    var done' := done + [u];
    assert u in stack + [u];
    assert forall x :: x in stack + [u] <==> x in stack || x == u;
    assert forall x :: x in done' <==> x in done || x == u;
    forall i, b | 0 <= i < |done'| && Edge(g, done'[i], b)
      ensures b in done'[..i]
    {
      if i < |done| {
        assert Edge(g, done[i], b);
        assert done'[..i] == done[..i];
      } else {
        assert done'[..i] == done;
      }
    }
  }

  /** dfs_cycle(u): reports a cycle only if there is one; otherwise closes `u` and every
      node it reaches and leaves the stack flags as they were. */
  method DfsCycle(w: array2<bool>, u: nat, visited: array<bool>, recStack: array<bool>,
                  ghost stack: seq<nat>, ghost done: seq<nat>)
    returns (cycle: bool, ghost done': seq<nat>)
    requires w.Length0 == w.Length1 == visited.Length == recStack.Length && visited != recStack
    requires u < visited.Length && !visited[u]
    requires Colouring(EdgesOf(w), w.Length0, visited[..], recStack[..], stack, done)
    requires stack == [] || Edge(EdgesOf(w), stack[|stack| - 1], u)
    modifies visited, recStack
    ensures cycle ==> HasCycle(EdgesOf(w))
    ensures !cycle ==> Colouring(EdgesOf(w), w.Length0, visited[..], recStack[..], stack, done')
    ensures !cycle ==> u in done' && done <= done'
    ensures !cycle ==> Unvisited(visited[..]) <= old(Unvisited(visited[..]))
    decreases Unvisited(visited[..])
  {
    ghost var g := EdgesOf(w);
    ghost var before := Unvisited(visited[..]);
    visited[u] := true;
    recStack[u] := true;
    ghost var open := stack + [u];
    done' := done;
    ExtendPath(g, stack, u);
    assert Colouring(g, w.Length0, visited[..], recStack[..], open, done') by {
      assert forall x :: x in open <==> x in stack || x == u;
    }
    assert u in before && u !in Unvisited(visited[..]);
    assert Unvisited(visited[..]) < before;
    var v := 0;
    while v < w.Length0
      invariant v <= w.Length0
      invariant Colouring(g, w.Length0, visited[..], recStack[..], open, done')
      invariant done <= done'
      invariant forall b: nat :: b < v && Edge(g, u, b) ==> b in done'
      invariant Unvisited(visited[..]) < before
    {
      if w[u, v] {
        assert Edge(g, u, v);
        if !visited[v] {
          var r;
          r, done' := DfsCycle(w, v, visited, recStack, open, done');
          if r {
            cycle := true;
            return;
          }
        }
        if recStack[v] {
          BackEdgeClosesCycle(g, open, v);
          cycle := true;
          return;
        }
      }
      v := v + 1;
    }
    CloseNode(g, w.Length0, visited[..], recStack[..], stack, u, done');
    recStack[u] := false;
    done' := done' + [u];
    cycle := false;
  }

  /** detect_deadlock: for any number of transactions and any matrix, answers whether
      the wait-for graph has a cycle. */
  method DetectDeadlock(w: array2<bool>) returns (cycle: bool)
    requires w.Length0 == w.Length1
    ensures cycle <==> HasCycle(EdgesOf(w))
  {
    ghost var g := EdgesOf(w);
    var n := w.Length0;
    var visited := new bool[n](_ => false);
    var recStack := new bool[n](_ => false);
    ghost var done: seq<nat> := [];
    var i := 0;
    while i < n
      invariant i <= n && EdgesOf(w) == g
      invariant Colouring(g, n, visited[..], recStack[..], [], done)
      invariant forall x: nat :: x < i ==> x in done
    {
      if !visited[i] {
        var r;
        ghost var done';
        r, done' := DfsCycle(w, i, visited, recStack, [], done);
        if r {
          return true;
        }
        done := done';
      }
      i := i + 1;
    }
    FinishedGraphIsAcyclic(g, done);
    return false;
  }
}
