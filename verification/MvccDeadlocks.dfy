/** Deadlock detection when critical sections interleave: between its verdict and its clean-up a victim's wait edges stay. */
module MvccDeadlocks {
  import opened Options
  import opened WaitGraph
  import opened MvccModel
  import opened MvccLog
  import opened MvccSections
  import opened MvccInterleaved

  ghost predicate IsVictim(c: Conf, id: nat) {
    id < |c.pcs| && c.pcs[id].CleaningUp?
  }

  /** The waits of the threads that are not about to clean up. */
  ghost function LiveWaits(c: Conf): Edges {
    set e | e in c.s.waits && !IsVictim(c, e.0)
  }

  /** A new edge leaves a cycle exactly if there was one or it closes one. */
  lemma CycleWithEdgeIff(g: Edges, t: nat, o: nat)
    ensures HasCycle(g + {(t, o)}) <==> HasCycle(g) || Reaches(g, o, t)
  {
    if HasCycle(g) {
      if !HasCycle(g + {(t, o)}) {
        SubgraphAcyclic(g, g + {(t, o)});
      }
    } else {
      CycleIffOwnerReachesRequester(g, t, o);
    }
  }

  lemma NextKeepsLive(c: Conf, m: Move)
    requires |c.pcs| == |c.s.txs| && !HasCycle(LiveWaits(c))
    ensures !HasCycle(LiveWaits(Next(c, m)))
  {
    var d := Next(c, m);
    if m.Acquire? && d.s.waits != c.s.waits && HasThread(c, m.id) && AcquireSection(c.s, m.id, m.k).1.Blocked? {
      SubgraphAcyclic(LiveWaits(d), d.s.waits);
    } else {
      SubgraphAcyclic(LiveWaits(d), LiveWaits(c));
    }
  }

  lemma {:induction false} RunKeepsLive(c: Conf, moves: seq<Move>)
    requires Inv(c) && !HasCycle(LiveWaits(c))
    ensures !HasCycle(LiveWaits(Run(c, moves)))
  {
    if moves != [] {
      var front := moves[..|moves| - 1];
      RunKeepsLive(c, front);
      RunKeepsInv(c, front);
      NextKeepsLive(Run(c, front), moves[|moves| - 1]);
    }
  }

  /** In every interleaved run the waits of threads that are not cleaning up have no cycle. */
  lemma LiveWaitsAcyclic(c: Conf)
    requires Reachable(c)
    ensures Inv(c) && !HasCycle(LiveWaits(c))
  {
    ReachableInv(c);
    var keys, transactions, maxWrites, moves :| c == Run(InitConf(keys, transactions, maxWrites), moves);
    var z := InitConf(keys, transactions, maxWrites);
    InitInv(keys, transactions, maxWrites);
    FinishedGraphIsAcyclic(LiveWaits(z), []);
    RunKeepsLive(z, moves);
  }

  /** In every interleaved run a writer is told of a deadlock if and only if another transaction owns the key and either
      that owner reaches the writer through waits or some cycle is already there; a cycle is only ever there while a
      victim has yet to clean up. */
  lemma DeadlockIff(c: Conf, id: nat, k: nat)
    requires Reachable(c) && c.s.IsActive(id) && c.s.IsKey(k)
    ensures AcquireSection(c.s, id, k).1.Deadlock? <==>
            var owner := c.s.cells[k].lockedBy;
            owner.Some? && owner.value != id && (Reaches(c.s.waits, owner.value, id) || HasCycle(c.s.waits))
    ensures HasCycle(c.s.waits) ==> exists v :: IsVictim(c, v)
  {
    LiveWaitsAcyclic(c);
    var owner := c.s.cells[k].lockedBy;
    if owner.Some? && owner.value != id {
      CycleWithEdgeIff(c.s.waits, id, owner.value);
    }
    if forall v :: !IsVictim(c, v) {
      assert LiveWaits(c) == c.s.waits;
    }
  }

  // ----- an innocent writer

  /** Two keys locked by transactions 0 and 1; transaction 2 has nothing. */
  function Scene(w0: seq<Write>, w1: seq<Write>, waits: Edges, pcs: seq<Pc>): Conf {
    Conf(State([Cell(InitialChain(), Some(0)), Cell(InitialChain(), Some(1))],
               [Tx(Active, 1, w0), Tx(Active, 2, w1), Tx(Active, 3, [])], waits, 4, 1), pcs, [])
  }

  function Begun(l0: Option<nat>, w0: seq<Write>, pcs: seq<Pc>): Conf {
    Conf(State([Cell(InitialChain(), l0), Cell(InitialChain(), None)],
               [Tx(Active, 1, w0), Tx(Active, 2, []), Tx(Active, 3, [])], {}, 4, 1), pcs, [])
  }

  lemma BeginAll()
    ensures Next(Next(Next(InitConf(2, 3, 1), Begin(0)), Begin(1)), Begin(2)) == Begun(None, [], [Idle, Idle, Idle])
  {
    var c0, t := InitConf(2, 3, 1), Tx(Unused, 0, []);
    assert c0.s.cells == [Cell(InitialChain(), None), Cell(InitialChain(), None)] && c0.s.txs == [t, t, t] && c0.pcs == [Idle, Idle, Idle];
    var c1 := Next(c0, Begin(0));
    assert c1.s.txs == [Tx(Active, 1, []), t, t] && c1.s.waits == {};
    var c2 := Next(c1, Begin(1));
    assert c2.s.txs == [Tx(Active, 1, []), Tx(Active, 2, []), t] && c2.s.waits == {};
  }

  lemma FirstWrites(v: Value)
    ensures Next(Next(Begun(None, [], [Idle, Idle, Idle]), Acquire(0, 0, v)), Buffer(0)) ==
            Begun(Some(0), [Write(0, v)], [Idle, Idle, Idle])
  {
    var c := Begun(None, [], [Idle, Idle, Idle]);
    var d := Next(c, Acquire(0, 0, v));
    assert DropOut({}, 0) == {};
    assert d == Begun(Some(0), [], [Buffering(0, v), Idle, Idle]);
    var none: seq<Write> := [];
    assert FindWrite(none, 0) == 0 && none + [Write(0, v)] == [Write(0, v)];
    assert d.s.txs[0 := Tx(Active, 1, [Write(0, v)])] == [Tx(Active, 1, [Write(0, v)]), Tx(Active, 2, []), Tx(Active, 3, [])];
    assert Next(d, Buffer(0)).pcs == [Idle, Idle, Idle];
  }

  lemma SecondWrites(v: Value)
    ensures Next(Next(Begun(Some(0), [Write(0, v)], [Idle, Idle, Idle]), Acquire(1, 1, v)), Buffer(1))
         == Scene([Write(0, v)], [Write(1, v)], {}, [Idle, Idle, Idle])
  {
    var c := Begun(Some(0), [Write(0, v)], [Idle, Idle, Idle]);
    var d := Next(c, Acquire(1, 1, v));
    assert DropOut({}, 1) == {};
    assert d == Scene([Write(0, v)], [], {}, [Idle, Buffering(1, v), Idle]);
    var none: seq<Write> := [];
    assert FindWrite(none, 1) == 0 && none + [Write(1, v)] == [Write(1, v)];
    assert d.s.txs[1 := Tx(Active, 2, [Write(1, v)])] == [Tx(Active, 1, [Write(0, v)]), Tx(Active, 2, [Write(1, v)]), Tx(Active, 3, [])];
    assert Next(d, Buffer(1)).pcs == [Idle, Idle, Idle];
  }

  lemma OneEdgeAcyclic()
    ensures !HasCycle({(0, 1)})
  {
    var g: Edges, done := {(0, 1)}, [1, 0];
    forall i, b: nat | 0 <= i < |done| && Edge(g, done[i], b)
      ensures b in done[..i]
    {
      assert i == 1 && b == 1 && done[..1] == [1];
    }
    FinishedGraphIsAcyclic(g, done);
  }

  lemma TwoEdgesCycle(g: Edges)
    requires Edge(g, 0, 1) && Edge(g, 1, 0)
    ensures HasCycle(g)
  {
    assert IsCycle(g, [0, 1, 0]);
  }

  lemma NobodyReaches(g: Edges, a: nat, b: nat)
    requires a != b && forall x: nat :: !Edge(g, x, b)
    ensures !Reaches(g, a, b)
  {
    forall p | IsPathFromTo(g, p, a, b)
      ensures false
    {
      StepPath(g, p, |p| - 2);
    }
  }

  /** Transactions 0 and 1 deadlock and 1 is chosen; before it cleans up, transaction 2 asks for a key of 0. It would only
      have to wait, since nobody waits for it, but it is aborted. */
  lemma InnocentWriterAborted(v: Value) returns (moves: seq<Move>)
    ensures var c := Run(InitConf(2, 3, 1), moves); var d := Next(c, Acquire(2, 0, v));
            && |c.s.txs| == |d.s.txs| == 3 && c.s.IsActive(2) && c.s.cells != [] && c.s.cells[0].lockedBy == Some(0)
            && !Reaches(c.s.waits, 0, 2) && d.s.txs[2].state.Aborted?
  {
    var start := [Begin(0)] + [Begin(1)] + [Begin(2)] + [Acquire(0, 0, v)] + [Buffer(0)] + [Acquire(1, 1, v)] + [Buffer(1)];
    var c := Scene([Write(0, v)], [Write(1, v)], {}, [Idle, Idle, Idle]);
    ReachScene(v, start);
    moves := start + [Acquire(0, 1, v)] + [Acquire(1, 0, v)];
    assert moves[..8][..7] == start && moves[..8] == start + [Acquire(0, 1, v)];
    var c1 := Next(c, Acquire(0, 1, v));
    OneEdgeAcyclic();
    assert {} + {(0, 1)} == {(0, 1)};
    assert c1 == Scene([Write(0, v)], [Write(1, v)], {(0, 1)}, [Idle, Idle, Idle]);
    var c2 := Next(c1, Acquire(1, 0, v));
    TwoEdgesCycle({(0, 1)} + {(1, 0)});
    assert c2.s.waits == {(0, 1), (1, 0)} && c2.pcs[2] == Idle;
    NobodyReaches(c2.s.waits, 0, 2);
    TwoEdgesCycle(c2.s.waits + {(2, 0)});
  }

  lemma ReachScene(v: Value, start: seq<Move>)
    requires start == [Begin(0)] + [Begin(1)] + [Begin(2)] + [Acquire(0, 0, v)] + [Buffer(0)] + [Acquire(1, 1, v)] + [Buffer(1)]
    ensures Run(InitConf(2, 3, 1), start) == Scene([Write(0, v)], [Write(1, v)], {}, [Idle, Idle, Idle])
  {
    BeginAll();
    FirstWrites(v);
    SecondWrites(v);
    var z := InitConf(2, 3, 1);
    RunAppend(z, [], Begin(0));
    RunAppend(z, [] + [Begin(0)], Begin(1));
    RunAppend(z, [] + [Begin(0)] + [Begin(1)], Begin(2));
    RunAppend(z, [] + [Begin(0)] + [Begin(1)] + [Begin(2)], Acquire(0, 0, v));
    RunAppend(z, [] + [Begin(0)] + [Begin(1)] + [Begin(2)] + [Acquire(0, 0, v)], Buffer(0));
    RunAppend(z, [] + [Begin(0)] + [Begin(1)] + [Begin(2)] + [Acquire(0, 0, v)] + [Buffer(0)], Acquire(1, 1, v));
    RunAppend(z, [] + [Begin(0)] + [Begin(1)] + [Begin(2)] + [Acquire(0, 0, v)] + [Buffer(0)] + [Acquire(1, 1, v)], Buffer(1));
    assert [] + [Begin(0)] == [Begin(0)];
  }

  lemma RunAppend(c: Conf, moves: seq<Move>, m: Move)
    ensures Run(c, moves + [m]) == Next(Run(c, moves), m)
  {
    assert (moves + [m])[..|moves|] == moves;
  }
}
