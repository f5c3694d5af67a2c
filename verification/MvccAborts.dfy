/** What ABORTED means: tx_abort does not look at the state, so it also marks transactions whose values are installed. */
module MvccAborts {
  import opened Options
  import opened MvccModel
  import opened MvccLog
  import opened MvccSections
  import opened MvccAtomic

  /** The current incarnation of `id` has a logged commit. */
  ghost predicate HasCommit(h: History, id: nat) {
    h.s.IsTx(id) && CommitsOf(h.log, id, h.s.txs[id].start) != {}
  }

  /** A committed incarnation is in the log; one that never ran or still runs is not. */
  ghost predicate StateTells(h: History, id: nat)
    requires h.s.IsTx(id)
  {
    match h.s.txs[id].state
    case Committed => HasCommit(h, id)
    case Aborted => true
    case Active => !HasCommit(h, id)
    case Unused => !HasCommit(h, id) && h.s.txs[id].start == 0
  }

  ghost predicate StatesTell(h: History) {
    && (forall id: nat :: id < |h.s.txs| ==> StateTells(h, id))
    && (forall e :: 0 <= e < |h.log| ==> h.log[e].start >= INITIAL_TS)
  }

  lemma CommitsKept(h: History, call: Call, id: nat, start: nat)
    requires CallInv(h) && h.s.IsTx(id)
    requires call.CommitCall? && call.id == id ==> !h.s.IsActive(id) || h.s.txs[id].start != start
    ensures CommitsOf(Do(h, call).log, id, start) == CommitsOf(h.log, id, start)
  {
    assert forall e :: 0 <= e < |h.log| ==> Do(h, call).log[e] == h.log[e];
  }

  lemma DoKeepsTelling(h: History, call: Call, id: nat)
    requires CallInv(h) && StatesTell(h) && h.s.IsTx(id)
    ensures var d := Do(h, call); d.s.IsTx(id) && StateTells(d, id)
  {
    var d := Do(h, call);
    assert ThreadOk(Quiet(h), id) && StateTells(h, id);
    if call.CommitCall? && call.id == id && h.s.IsActive(id) {
      assert |h.log| in CommitsOf(d.log, id, d.s.txs[id].start);
    } else {
      CommitsKept(h, call, id, d.s.txs[id].start);
      if call.BeginCall? && call.id == id {
        assert CommitsOf(h.log, id, h.s.ts) == {};
      }
    }
  }

  lemma {:induction false} PerformTells(h: History, calls: seq<Call>)
    requires CallInv(h) && StatesTell(h)
    ensures StatesTell(Perform(h, calls))
  {
    if calls != [] {
      var front, call := calls[..|calls| - 1], calls[|calls| - 1];
      PerformTells(h, front);
      PerformKeepsInv(h, front);
      var f := Perform(h, front);
      assert |Do(f, call).s.txs| == |f.s.txs|;
      forall id: nat | id < |f.s.txs|
        ensures StateTells(Do(f, call), id)
      {
        DoKeepsTelling(f, call, id);
      }
      LoggedStarts(f, call);
    }
  }

  lemma LoggedStarts(h: History, call: Call)
    requires CallInv(h) && forall e :: 0 <= e < |h.log| ==> h.log[e].start >= INITIAL_TS
    ensures forall e :: 0 <= e < |Do(h, call).log| ==> Do(h, call).log[e].start >= INITIAL_TS
  {
    if call.CommitCall? && h.s.IsActive(call.id) {
      assert ThreadOk(Quiet(h), call.id);
    }
  }

  lemma ReachableTells(h: History)
    requires Reachable(h)
    ensures CallInv(h) && StatesTell(h)
  {
    ReachableInv(h);
    var keys, transactions, maxWrites, calls :| h == Perform(History(Init(keys, transactions, maxWrites), []), calls);
    var z := History(Init(keys, transactions, maxWrites), []);
    InitCallInv(keys, transactions, maxWrites);
    forall id: nat | id < |z.s.txs|
      ensures StateTells(z, id)
    {
      assert CommitsOf(z.log, id, 0) == {};
    }
    PerformTells(z, calls);
  }

  /** In every run tx_abort marks the transaction ABORTED, and the incarnation it marks has its commit in the log if and
      only if the transaction was COMMITTED before the call. */
  lemma AbortedHasCommitIff(h: History, id: nat)
    requires Reachable(h) && h.s.IsTx(id) && !h.s.txs[id].state.Aborted?
    ensures var d := Do(h, AbortCall(id));
            d.s.txs[id].state.Aborted? && (HasCommit(d, id) <==> h.s.txs[id].state.Committed?)
  {
    ReachableTells(h);
    assert StateTells(h, id);
  }

  /** What a logged commit wrote is in the version list of its key, for good. */
  lemma {:induction false} LogIsInChain(log: seq<Entry>, k: nat, e: int) returns (i: int)
    requires 0 <= e < |log| && log[e].WritesKey(k)
    ensures 0 <= i < |ChainOf(log, k)|
    ensures ChainOf(log, k)[i].value == log[e].ValueOf(k) && ChainOf(log, k)[i].begin == log[e].ts
  {
    var rest, last := log[..|log| - 1], log[|log| - 1];
    if e == |log| - 1 {
      i := 0;
    } else {
      i := LogIsInChain(rest, k, e);
      if last.WritesKey(k) {
        i := i + 1;
      }
    }
  }

  /** So an ABORTED transaction's values are in the store exactly if it was aborted after its commit: every version its
      current incarnation logged is found in the version list, whatever its state says. */
  lemma LoggedValuesStay(h: History, k: nat, e: int) returns (i: int)
    requires Reachable(h) && h.s.IsKey(k) && 0 <= e < |h.log| && h.log[e].WritesKey(k)
    ensures 0 <= i < |h.s.cells[k].versions|
    ensures h.s.cells[k].versions[i].value == h.log[e].ValueOf(k) && h.s.cells[k].versions[i].begin == h.log[e].ts
  {
    ReachableInv(h);
    i := LogIsInChain(h.log, k, e);
  }

  lemma PerformFour(h: History, a: Call, b: Call, c: Call, d: Call)
    ensures Perform(h, [a, b, c, d]) == Do(Do(Do(Do(h, a), b), c), d)
  {
    assert [a, b, c, d][..3] == [a, b, c] && [a, b, c][..2] == [a, b] && [a, b][..1] == [a] && [a][..0] == [];
    assert Perform(h, [a]) == Do(h, a);
    assert Perform(h, [a, b]) == Do(Do(h, a), b);
    assert Perform(h, [a, b, c]) == Do(Do(Do(h, a), b), c);
  }

  /** The store after one transaction has begun, and after it has buffered a write. */
  function Begun(): State {
    State([Cell(InitialChain(), None)], [Tx(Active, 1, [])], {}, 2, 1)
  }

  function Buffering(v: Value): State {
    State([Cell(InitialChain(), Some(0))], [Tx(Active, 1, [Write(0, v)])], {}, 2, 1)
  }

  lemma BeginWitness()
    ensures BeginTx(Init(1, 1, 1), 0) == Begun()
  {
    assert Init(1, 1, 1).cells == [Cell(InitialChain(), None)];
    assert DropAll({}, 0) == {};
  }

  lemma WriteWitness(v: Value)
    ensures WriteTx(Begun(), 0, 0, v).0 == Buffering(v)
  {
    var s1 := AcquireSection(Begun(), 0, 0).0;
    assert DropOut({}, 0) == {};
    assert s1 == State([Cell(InitialChain(), Some(0))], [Tx(Active, 1, [])], {}, 2, 1);
    var writes: seq<Write> := [];
    assert FindWrite(writes, 0) == 0 && writes + [Write(0, v)] == [Write(0, v)];
    assert s1.txs[0 := Tx(Active, 1, [Write(0, v)])] == [Tx(Active, 1, [Write(0, v)])];
    assert BufferSection(s1, 0, 0, v) == (Buffering(v), true);
  }

  lemma CommitWitness(v: Value)
    ensures var s := CommitTx(Buffering(v), 0).0;
            |s.txs| == 1 && s.txs[0].start == 1 && |s.cells| == 1 && |s.cells[0].versions| == 2 && s.cells[0].versions[0].value == v
  {
    var writes := [Write(0, v)];
    assert FindWrite(writes, 0) == 0;
    InstallAllCells(Buffering(v).cells, writes, 2, 0);
  }

  /** Begin, write, commit, abort: the transaction is ABORTED and its value is the current one. */
  lemma AbortAfterCommit(v: Value)
    ensures var d := Perform(History(Init(1, 1, 1), []), [BeginCall(0), WriteCall(0, 0, v), CommitCall(0), AbortCall(0)]);
            && |d.s.txs| == 1 && d.s.txs[0].state.Aborted? && HasCommit(d, 0)
            && |d.s.cells| == 1 && |d.s.cells[0].versions| == 2 && d.s.cells[0].versions[0].value == v
  {
    PerformFour(History(Init(1, 1, 1), []), BeginCall(0), WriteCall(0, 0, v), CommitCall(0), AbortCall(0));
    BeginWitness();
    WriteWitness(v);
    CommitWitness(v);
    var h := Do(History(Buffering(v), []), CommitCall(0));
    assert h.log == [Entry(0, 1, 2, [Write(0, v)])];
    assert 0 in CommitsOf(h.log, 0, 1);
  }
}
