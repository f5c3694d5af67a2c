/** Who waits for whom and who holds which lock, told from the calls alone. */
module MvccWaits {
  import opened Lasting
  import opened Options
  import opened WaitGraph
  import opened MvccModel
  import opened MvccAtomic

  // ----- what a call does to waits and locks, in terms of what its caller can see

  /** `a` asks for a key `b` holds and is told to wait. */
  ghost predicate ToldToWait(h: History, call: Call, a: nat, b: nat) {
    && call.WriteCall? && call.id == a && h.s.IsKey(call.k)
    && WriteTx(h.s, call.id, call.k, call.v).1.Waiting? && h.s.cells[call.k].lockedBy == Some(b)
  }

  /** `a` asks for key `k`, which is free or already its own. */
  ghost predicate Granted(h: History, call: Call, a: nat, k: nat) {
    && call.WriteCall? && call.id == a && call.k == k && h.s.IsActive(a) && h.s.IsKey(k)
    && (h.s.cells[k].lockedBy == None || h.s.cells[k].lockedBy == Some(a))
  }

  /** The call commits or aborts `a`, or finds it deadlocked. */
  ghost predicate Finishes(h: History, call: Call, a: nat) {
    && call.id == a && h.s.IsTx(a)
    && (call.AbortCall? || (h.s.IsActive(a) && !Do(h, call).s.IsActive(a)))
  }

  ghost predicate Begins(h: History, call: Call, a: nat) {
    call.BeginCall? && call.id == a && h.s.IsTx(a)
  }

  /** The call ends the wait of `a` for `b`. */
  ghost predicate EndsWait(h: History, call: Call, a: nat, b: nat) {
    || (exists k :: Granted(h, call, a, k))
    || Begins(h, call, a) || Begins(h, call, b) || Finishes(h, call, a) || Finishes(h, call, b)
  }

  /** A wait begins when one is told to wait and stays until one of the two moves on. */
  lemma {:induction false} EdgeStep(h: History, call: Call, a: nat, b: nat)
    ensures Edge(Do(h, call).s.waits, a, b) <==>
            ToldToWait(h, call, a, b) || (Edge(h.s.waits, a, b) && !EndsWait(h, call, a, b))
  {
    var s, d := h.s, Do(h, call).s;
    if call.WriteCall? && s.IsActive(call.id) && s.IsKey(call.k) {
      var id: nat, k: nat := call.id, call.k;
      if s.cells[k].lockedBy == None || s.cells[k].lockedBy == Some(id) {
        assert Granted(h, call, id, k);
        assert d.IsActive(id);
      }
    }
  }

  /** A lock is taken by the grant and kept until its owner commits, aborts or is found deadlocked. */
  lemma {:induction false} LockStep(h: History, call: Call, a: nat, k: nat)
    requires h.s.IsKey(k)
    ensures Do(h, call).s.IsKey(k)
    ensures Do(h, call).s.cells[k].lockedBy == Some(a) <==>
            Granted(h, call, a, k) || (h.s.cells[k].lockedBy == Some(a) && !Finishes(h, call, a))
  {
    var s := h.s;
    if call.CommitCall? && s.IsActive(call.id) {
      InstallKeepsLocks(s.cells, s.txs[call.id].writes, s.ts);
    }
  }

  /** A call activates whom it begins and deactivates whom it commits or aborts, or who asks for a key whose owner waits
      for it already; the others stay as they are. */
  lemma {:induction false} ActiveStep(h: History, call: Call, a: nat)
    requires Reachable(h)
    ensures Do(h, call).s.IsActive(a) <==>
            || Begins(h, call, a)
            || (&& h.s.IsActive(a)
                && !(call.id == a && (call.CommitCall? || call.AbortCall?))
                && !(call.id == a && call.WriteCall? && h.s.IsKey(call.k) &&
                     var owner := h.s.cells[call.k].lockedBy;
                     owner.Some? && owner.value != a && Reaches(h.s.waits, owner.value, a)))
  {
    if call.WriteCall? && h.s.IsActive(call.id) && h.s.IsKey(call.k) {
      DeadlockExactlyOnBackPath(h, call.id, call.k, call.v);
    }
  }

  // ----- along a run

  /** What each call of a run means to the wait of `a` for `b`. */
  ghost function WaitEvents(h: History, calls: seq<Call>, a: nat, b: nat): seq<Happening> {
    if calls == [] then []
    else
      var front, call := calls[..|calls| - 1], calls[|calls| - 1];
      var before := Perform(h, front);
      WaitEvents(h, front, a, b) + [Happening(ToldToWait(before, call, a, b), EndsWait(before, call, a, b))]
  }

  /** In every run: `a` waits for `b` if and only if some call told it to and, since then, `a` was granted no key and
      neither of them began, committed, aborted or was found deadlocked. */
  lemma {:induction false} EdgeIff(h: History, calls: seq<Call>, a: nat, b: nat)
    requires h.s.waits == {}
    ensures Edge(Perform(h, calls).s.waits, a, b) <==> Since(WaitEvents(h, calls, a, b))
  {
    if calls != [] {
      var front, call := calls[..|calls| - 1], calls[|calls| - 1];
      var before := Perform(h, front);
      EdgeIff(h, front, a, b);
      EdgeStep(before, call, a, b);
      SinceStep(WaitEvents(h, front, a, b), Happening(ToldToWait(before, call, a, b), EndsWait(before, call, a, b)));
    }
  }

  /** What each call of a run means to the lock of `a` on `k`. */
  ghost function LockEvents(h: History, calls: seq<Call>, a: nat, k: nat): seq<Happening> {
    if calls == [] then []
    else
      var front, call := calls[..|calls| - 1], calls[|calls| - 1];
      var before := Perform(h, front);
      LockEvents(h, front, a, k) + [Happening(Granted(before, call, a, k), Finishes(before, call, a))]
  }

  /** In every run: `a` holds `k` if and only if some call granted it and `a` has not committed, aborted or been found
      deadlocked since. */
  lemma {:induction false} LockIff(h: History, calls: seq<Call>, a: nat, k: nat)
    requires h.s.IsKey(k) && h.s.cells[k].lockedBy == None
    ensures Perform(h, calls).s.IsKey(k)
    ensures Perform(h, calls).s.cells[k].lockedBy == Some(a) <==> Since(LockEvents(h, calls, a, k))
  {
    if calls != [] {
      var front, call := calls[..|calls| - 1], calls[|calls| - 1];
      var before := Perform(h, front);
      LockIff(h, front, a, k);
      LockStep(before, call, a, k);
      SinceStep(LockEvents(h, front, a, k), Happening(Granted(before, call, a, k), Finishes(before, call, a)));
    }
  }

  /** Whatever other transactions do in between, a wait stays. */
  lemma {:induction false} OthersKeepWait(h: History, calls: seq<Call>, a: nat, b: nat)
    requires Edge(h.s.waits, a, b) && forall i :: 0 <= i < |calls| ==> calls[i].id != a && calls[i].id != b
    ensures Edge(Perform(h, calls).s.waits, a, b)
  {
    if calls != [] {
      OthersKeepWait(h, calls[..|calls| - 1], a, b);
      EdgeStep(Perform(h, calls[..|calls| - 1]), calls[|calls| - 1], a, b);
    }
  }

  /** Two transactions that block each other are always found out: if `a` was told to wait for `b`, then whatever calls
      other transactions make, `b` is aborted when it asks for a key of `a`. */
  lemma {:induction false} MutualBlockDetected(h: History, call: Call, calls: seq<Call>, a: nat, b: nat, k: nat, v: Value)
    requires Reachable(h) && ToldToWait(h, call, a, b)
    requires forall i :: 0 <= i < |calls| ==> calls[i].id != a && calls[i].id != b
    requires var d := Perform(Do(h, call), calls); d.s.IsKey(k) && d.s.cells[k].lockedBy == Some(a)
    ensures var d := Perform(Do(h, call), calls);
            d.s.IsActive(b) && WriteTx(d.s, b, k, v).1.Refused? && !WriteTx(d.s, b, k, v).0.IsActive(b)
  {
    var d := Perform(Do(h, call), calls);
    EdgeStep(h, call, a, b);
    OthersKeepWait(Do(h, call), calls, a, b);
    ReachableAppend(h, [call]);
    ReachableAppend(Do(h, call), calls);
    WaitsInEveryRun(d, a, b);
    ReachesByEdge(d.s.waits, a, b);
    DeadlockExactlyOnBackPath(d, b, k, v);
  }

  lemma {:induction false} PerformAppend(h: History, calls: seq<Call>, more: seq<Call>)
    ensures Perform(Perform(h, calls), more) == Perform(h, calls + more)
  {
    if more == [] {
      assert calls + more == calls;
    } else {
      var n, all := |more| - 1, calls + more;
      PerformAppend(h, calls, more[..n]);
      assert all[..|all| - 1] == calls + more[..n] && all[|all| - 1] == more[n];
      assert Perform(h, all) == Do(Perform(h, all[..|all| - 1]), all[|all| - 1]);
    }
  }

  lemma {:induction false} ReachableAppend(h: History, more: seq<Call>)
    requires Reachable(h)
    ensures Reachable(Perform(h, more))
    ensures forall call :: more == [call] ==> Perform(h, more) == Do(h, call)
  {
    var keys, transactions, maxWrites, calls :| h == Perform(History(Init(keys, transactions, maxWrites), []), calls);
    PerformAppend(History(Init(keys, transactions, maxWrites), []), calls, more);
    if |more| == 1 { assert more[..0] == []; }
  }
}
