/** What holds in every run when each API call is one step. A call is a block of consecutive
    moves of the interleaved system, so every fact of `MvccSections` carries over; the
    wait-for graph is well behaved only at this granularity. */
module MvccAtomic {
  import opened Options
  import opened Counting
  import opened WaitGraph
  import opened MvccModel
  import opened MvccLog
  import opened MvccSections

  datatype Call =
    | BeginCall(id: int)
    | WriteCall(id: int, k: int, v: Value)
    | CommitCall(id: int)
    | AbortCall(id: int)

  /** The store together with the log of its successful commits. */
  datatype History = History(s: State, log: seq<Entry>)

  ghost function Do(h: History, call: Call): History {
    match call
    case BeginCall(id) => h.(s := BeginTx(h.s, id))
    case WriteCall(id, k, v) => h.(s := WriteTx(h.s, id, k, v).0)
    case CommitCall(id) =>
      var (s, ok) := CommitTx(h.s, id);
      if ok then History(s, h.log + [Entry(id, h.s.txs[id].start, h.s.ts, h.s.txs[id].writes)]) else h
    case AbortCall(id) => h.(s := AbortTx(h.s, id))
  }

  ghost function Perform(h: History, calls: seq<Call>): History {
    if calls == [] then h else Do(Perform(h, calls[..|calls| - 1]), calls[|calls| - 1])
  }

  ghost predicate Reachable(h: History) {
    exists keys, transactions, maxWrites, calls :: h == Perform(History(Init(keys, transactions, maxWrites), []), calls)
  }

  // ----- a call is a block of moves

  ghost function Quiet(h: History): Conf {
    Conf(h.s, seq(|h.s.txs|, _ => Idle), h.log)
  }

  function MovesOf(call: Call): seq<Move> {
    match call
    case BeginCall(id) => [Begin(id)]
    case WriteCall(id, k, v) => [Acquire(id, k, v), Buffer(id), Cleanup(id)]
    case CommitCall(id) => [Draw(id), Install(id)]
    case AbortCall(id) => [Abort(id)]
  }

  lemma RunBlock(c: Conf, a: Move, b: Move, d: Move)
    ensures Run(c, [a]) == Next(c, a)
    ensures Run(c, [a, b]) == Next(Next(c, a), b)
    ensures Run(c, [a, b, d]) == Next(Next(Next(c, a), b), d)
  {
    assert [a][..0] == [];
    assert [a, b][..1] == [a];
    assert [a, b, d][..2] == [a, b];
  }

  lemma WriteIsBlockOfMoves(h: History, id: int, k: int, v: Value)
    ensures Run(Quiet(h), MovesOf(WriteCall(id, k, v))) == Quiet(Do(h, WriteCall(id, k, v)))
  {
    var c := Quiet(h);
    RunBlock(c, Acquire(id, k, v), Buffer(id), Cleanup(id));
    if c.s.IsActive(id) && c.s.IsKey(k) {
      var c1 := Next(c, Acquire(id, k, v));
      assert c1.pcs[id := Idle] == c.pcs;
      assert Next(Next(c1, Buffer(id)), Cleanup(id)).s == WriteTx(h.s, id, k, v).0;
    }
  }

  lemma CommitIsBlockOfMoves(h: History, id: int)
    ensures Run(Quiet(h), MovesOf(CommitCall(id))) == Quiet(Do(h, CommitCall(id)))
  {
    var c := Quiet(h);
    RunBlock(c, Draw(id), Install(id), Install(id));
    if c.s.IsActive(id) {
      assert Next(c, Draw(id)).pcs[id := Idle] == c.pcs;
    }
  }

  /** Each API call equals its critical sections run back to back. */
  lemma CallIsBlockOfMoves(h: History, call: Call)
    ensures Run(Quiet(h), MovesOf(call)) == Quiet(Do(h, call))
  {
    var c := Quiet(h);
    match call
    case BeginCall(id) => RunBlock(c, Begin(id), Begin(id), Begin(id));
    case WriteCall(id, k, v) => WriteIsBlockOfMoves(h, id, k, v);
    case CommitCall(id) => CommitIsBlockOfMoves(h, id);
    case AbortCall(id) => RunBlock(c, Abort(id), Abort(id), Abort(id));
  }

  // ----- the wait-for graph

  ghost predicate OwnsSomeLock(s: State, id: nat) {
    exists k :: 0 <= k < |s.cells| && s.cells[k].lockedBy == Some(id)
  }

  /** No cycle; edges go from active transactions to other transactions that own a lock. */
  ghost predicate WaitsOk(s: State) {
    && Within(s.waits, |s.txs|)
    && !HasCycle(s.waits)
    && forall a: nat, b: nat :: Edge(s.waits, a, b) ==> a != b && s.IsActive(a) && OwnsSomeLock(s, b)
  }

  ghost predicate CallInv(h: History) {
    Inv(Quiet(h)) && WaitsOk(h.s)
  }

  lemma DropKeepsWaits(s: State, s': State, id: nat)
    requires WaitsOk(s) && |s'.txs| == |s.txs| && |s'.cells| == |s.cells|
    requires s'.waits <= DropAll(s.waits, id)
    requires forall i: nat :: i < |s.txs| && i != id ==> s'.txs[i] == s.txs[i]
    requires forall k :: 0 <= k < |s.cells| && s.cells[k].lockedBy != Some(id) ==> s'.cells[k].lockedBy == s.cells[k].lockedBy
    ensures WaitsOk(s')
  {
    SubgraphAcyclic(s'.waits, s.waits);
    forall a: nat, b: nat | Edge(s'.waits, a, b)
      ensures a != b && s'.IsActive(a) && OwnsSomeLock(s', b)
    {
      assert Edge(s.waits, a, b);
      var k :| 0 <= k < |s.cells| && s.cells[k].lockedBy == Some(b);
      assert s'.cells[k].lockedBy == Some(b);
    }
  }

  lemma {:induction false} InstallKeepsLocks(cells: seq<Cell>, writes: seq<Write>, ts: nat)
    ensures forall k :: 0 <= k < |cells| ==> InstallAll(cells, writes, ts)[k].lockedBy == cells[k].lockedBy
  {
    if writes != [] {
      InstallKeepsLocks(cells, writes[..|writes| - 1], ts);
    }
  }

  lemma AcquireKeepsWaits(s: State, id: nat, k: nat)
    requires WaitsOk(s) && s.IsActive(id) && s.IsKey(k)
    requires s.cells[k].lockedBy.Some? ==> s.IsTx(s.cells[k].lockedBy.value)
    ensures var (s1, lock) := AcquireSection(s, id, k);
            if lock.Deadlock? then WaitsOk(CleanupSection(MarkAborted(s1, id), id)) else WaitsOk(s1)
  {
    var (s1, lock) := AcquireSection(s, id, k);
    match lock
    case Acquired =>
      SubgraphAcyclic(s1.waits, s.waits);
      forall a: nat, b: nat | Edge(s1.waits, a, b)
        ensures a != b && s1.IsActive(a) && OwnsSomeLock(s1, b)
      {
        assert Edge(s.waits, a, b);
        var j :| 0 <= j < |s.cells| && s.cells[j].lockedBy == Some(b);
        assert s1.cells[j].lockedBy == Some(b);
      }
    case Blocked =>
      forall a: nat, b: nat | Edge(s1.waits, a, b)
        ensures a != b && s1.IsActive(a) && OwnsSomeLock(s1, b)
      {
        if Edge(s.waits, a, b) {
          var j :| 0 <= j < |s.cells| && s.cells[j].lockedBy == Some(b);
          assert s1.cells[j].lockedBy == Some(b);
        } else {
          assert s1.cells[k].lockedBy == Some(b);
        }
      }
    case Deadlock =>
      DropKeepsWaits(s, CleanupSection(MarkAborted(s1, id), id), id);
  }

  lemma DoKeepsWaits(h: History, call: Call)
    requires CallInv(h)
    ensures WaitsOk(Do(h, call).s)
  {
    var s := h.s;
    var s' := Do(h, call).s;
    match call
    case BeginCall(id) =>
      if s.IsTx(id) { DropKeepsWaits(s, s', id); }
    case WriteCall(id, k, v) =>
      if s.IsActive(id) && s.IsKey(k) {
        assert OwnerOk(Quiet(h), s.cells[k].lockedBy);
        AcquireKeepsWaits(s, id, k);
        var (s1, lock) := AcquireSection(s, id, k);
        if lock.Acquired? {
          forall a: nat, b: nat | Edge(s'.waits, a, b)
            ensures a != b && s'.IsActive(a) && OwnsSomeLock(s', b)
          {
            assert Edge(s1.waits, a, b);
            var j :| 0 <= j < |s1.cells| && s1.cells[j].lockedBy == Some(b);
            assert s'.cells[j].lockedBy == Some(b);
          }
        }
      }
    case CommitCall(id) =>
      if s.IsActive(id) {
        InstallKeepsLocks(s.cells, s.txs[id].writes, s.ts);
        DropKeepsWaits(s, s', id);
      }
    case AbortCall(id) =>
      if s.IsTx(id) { DropKeepsWaits(s, s', id); }
  }

  lemma DoKeepsInv(h: History, call: Call)
    requires CallInv(h)
    ensures CallInv(Do(h, call))
  {
    DoKeepsWaits(h, call);
    CallIsBlockOfMoves(h, call);
    RunKeepsInv(Quiet(h), MovesOf(call));
  }

  lemma InitCallInv(keys: nat, transactions: nat, maxWrites: nat)
    ensures CallInv(History(Init(keys, transactions, maxWrites), []))
  {
    var h := History(Init(keys, transactions, maxWrites), []);
    InitInv(keys, transactions, maxWrites);
    assert Quiet(h) == InitConf(keys, transactions, maxWrites);
    FinishedGraphIsAcyclic(h.s.waits, []);
  }

  lemma {:induction false} PerformKeepsInv(h: History, calls: seq<Call>)
    requires CallInv(h)
    ensures CallInv(Perform(h, calls))
  {
    if calls != [] {
      PerformKeepsInv(h, calls[..|calls| - 1]);
      DoKeepsInv(Perform(h, calls[..|calls| - 1]), calls[|calls| - 1]);
    }
  }

  lemma ReachableInv(h: History)
    requires Reachable(h)
    ensures CallInv(h)
  {
    var keys, transactions, maxWrites, calls :| h == Perform(History(Init(keys, transactions, maxWrites), []), calls);
    InitCallInv(keys, transactions, maxWrites);
    PerformKeepsInv(History(Init(keys, transactions, maxWrites), []), calls);
  }

  // ----- theorems about every run

  /** Snapshot reads: in every run, a read of an unwritten key never fails and returns the write with the
      greatest commit timestamp not above the reader's start, or the initial value. */
  lemma SnapshotRead(h: History, id: nat, k: nat)
    requires Reachable(h) && ReadsChain(h.s, id, k)
    ensures ReadTx(h.s, id, k).Some?
    ensures IsSnapshot(h.log, k, h.s.txs[id].start, ReadTx(h.s, id, k).value, SeenAt(h.s, id, k))
  {
    ReachableInv(h);
    assert ThreadOk(Quiet(h), id);
    ScanIsSnapshot(h.log, h.s.ts, k, h.s.txs[id].start);
  }

  /** A transaction reads back its own last buffered write. */
  lemma ReadsOwnWrite(h: History, id: nat, k: nat, v: Value)
    requires CallInv(h) && WriteTx(h.s, id, k, v).1.Buffered?
    ensures ReadTx(WriteTx(h.s, id, k, v).0, id, k) == Some(v)
  {
    var (s1, lock) := AcquireSection(h.s, id, k);
    var t := s1.txs[id];
    var i := FindWrite(t.writes, k);
    var t' := WriteTx(h.s, id, k, v).0.txs[id];
    assert i < |t'.writes| && t'.writes[i] == Write(k, v);
    assert forall j :: 0 <= j < i ==> t'.writes[j] == t.writes[j];
    assert FindWrite(t'.writes, k) == i;
  }

  ghost predicate Extends(h: History, h': History) {
    && |h'.s.txs| == |h.s.txs| && |h'.s.cells| == |h.s.cells|
    && h.s.ts <= h'.s.ts
    && h.log <= h'.log
    && forall i :: |h.log| <= i < |h'.log| ==> h'.log[i].ts >= h.s.ts
  }

  lemma DoExtends(h: History, h': History, call: Call)
    requires Extends(h, h')
    ensures Extends(h, Do(h', call))
  {
    var d := Do(h', call);
    forall i | |h.log| <= i < |d.log|
      ensures d.log[i].ts >= h.s.ts
    {
      if i < |h'.log| { assert d.log[i] == h'.log[i]; }
    }
  }

  lemma {:induction false} PerformExtends(h: History, calls: seq<Call>)
    ensures Extends(h, Perform(h, calls))
  {
    if calls != [] {
      PerformExtends(h, calls[..|calls| - 1]);
      DoExtends(h, Perform(h, calls[..|calls| - 1]), calls[|calls| - 1]);
    }
  }

  /** Repeatable reads: whatever calls come in between, one incarnation of a transaction reads the
      same version of a key it has not written. */
  lemma RepeatableRead(h: History, calls: seq<Call>, id: nat, k: nat)
    requires Reachable(h) && ReadsChain(h.s, id, k)
    requires var h' := Perform(h, calls); ReadsChain(h'.s, id, k) && h'.s.txs[id].start == h.s.txs[id].start
    ensures ReadTx(Perform(h, calls).s, id, k) == ReadTx(h.s, id, k)
    ensures SeenAt(Perform(h, calls).s, id, k) == SeenAt(h.s, id, k)
  {
    var h' := Perform(h, calls);
    ReachableInv(h);
    PerformKeepsInv(h, calls);
    PerformExtends(h, calls);
    assert ThreadOk(Quiet(h), id);
    SameScan(h.log, h.s.ts, h'.log, h'.s.ts, k, h.s.txs[id].start);
  }

  /** All or none: of one commit, a reader sees every key at that commit's version or a newer one,
      or it sees every key at an older version. */
  lemma CommitSeenAllOrNone(h: History, e: int, id: nat, k: nat)
    requires Reachable(h) && 0 <= e < |h.log| && h.log[e].WritesKey(k) && ReadsChain(h.s, id, k)
    ensures if h.log[e].ts <= h.s.txs[id].start then SeenAt(h.s, id, k) >= h.log[e].ts
            else SeenAt(h.s, id, k) < h.log[e].ts
  {
    ReachableInv(h);
    assert ThreadOk(Quiet(h), id);
    var start := h.s.txs[id].start;
    ScanIsSnapshot(h.log, h.s.ts, k, start);
    var r := Scan(h.s.cells[k].versions, start).value;
    if i :| 0 <= i < |h.log| && IsNewest(h.log, k, start, i) && r.begin == h.log[i].ts {
      assert h.log[e].ts <= start ==> h.log[e].ts <= h.log[i].ts;
    }
  }

  /** The wait-for graph has no cycle after any run, and every wait is for a transaction that owns a lock. */
  lemma WaitsInEveryRun(h: History, a: nat, b: nat)
    requires Reachable(h)
    ensures !HasCycle(h.s.waits)
    ensures Edge(h.s.waits, a, b) ==> a != b && h.s.IsActive(a) && h.s.IsActive(b) && OwnsSomeLock(h.s, b)
  {
    ReachableInv(h);
    if Edge(h.s.waits, a, b) {
      var k :| 0 <= k < |h.s.cells| && h.s.cells[k].lockedBy == Some(b);
      assert OwnerOk(Quiet(h), h.s.cells[k].lockedBy);
    }
  }

  /** Progress: whoever waits, some active lock owner it waits for, directly or not, is not waiting. */
  lemma SomeOwnerCanRun(h: History, a: nat, b: nat) returns (owner: nat)
    requires Reachable(h) && Edge(h.s.waits, a, b)
    ensures h.s.IsActive(owner) && OwnsSomeLock(h.s, owner) && IsSink(h.s.waits, owner) && Reaches(h.s.waits, a, owner)
  {
    ReachableInv(h);
    owner := AcyclicHasSink(h.s.waits, |h.s.txs|, a, b);
    var c :| Edge(h.s.waits, c, owner);
    WaitsInEveryRun(h, c, owner);
  }

  /** A write is aborted for deadlock exactly when the key is locked by another transaction that
      already reaches the requester through wait edges. */
  lemma DeadlockExactlyOnBackPath(h: History, id: nat, k: nat, v: Value)
    requires Reachable(h) && h.s.IsActive(id) && h.s.IsKey(k)
    ensures !WriteTx(h.s, id, k, v).0.IsActive(id) <==>
            (var owner := h.s.cells[k].lockedBy;
             owner.Some? && owner.value != id && Reaches(h.s.waits, owner.value, id))
    ensures WriteTx(h.s, id, k, v).1.Waiting? <==>
            (var owner := h.s.cells[k].lockedBy;
             owner.Some? && owner.value != id && !Reaches(h.s.waits, owner.value, id))
  {
    ReachableInv(h);
    var owner := h.s.cells[k].lockedBy;
    if owner.Some? && owner.value != id {
      CycleIffOwnerReachesRequester(h.s.waits, id, owner.value);
    }
  }

  /** Lock discipline of every run: lock owners are active; buffered keys are locked by their own
      transaction and so are never buffered twice; a buffer never outgrows the key space. */
  lemma LocksInEveryRun(h: History, id: nat, other: nat, k: nat)
    requires Reachable(h) && k < |h.s.cells|
    ensures h.s.cells[k].lockedBy == Some(id) ==> h.s.IsActive(id)
    ensures h.s.IsActive(id) && Writes(h.s.txs[id].writes, k) ==> h.s.cells[k].lockedBy == Some(id)
    ensures h.s.IsActive(id) && h.s.IsActive(other) && id != other && Writes(h.s.txs[id].writes, k) ==>
              !Writes(h.s.txs[other].writes, k)
    ensures h.s.IsActive(id) ==> |h.s.txs[id].writes| <= |h.s.cells|
  {
    ReachableInv(h);
    assert OwnerOk(Quiet(h), h.s.cells[k].lockedBy);
    if h.s.IsActive(id) {
      assert ThreadOk(Quiet(h), id);
      var writes := h.s.txs[id].writes;
      if h.s.IsActive(other) && id != other && Writes(writes, k) {
        BuffersDisjoint(Quiet(h), id, other, k);
      }
      var keys := seq(|writes|, i requires 0 <= i < |writes| => writes[i].key);
      DistinctBounded(keys, |h.s.cells|);
    }
  }

  /** With room for one write per key, a write whose lock was granted is never refused. */
  lemma BufferNeverFull(h: History, id: nat, k: nat, v: Value)
    requires Reachable(h) && h.s.IsActive(id) && h.s.IsKey(k)
    requires h.s.maxWrites >= |h.s.cells|
    requires AcquireSection(h.s, id, k).1.Acquired?
    ensures WriteTx(h.s, id, k, v).1.Buffered?
  {
    ReachableInv(h);
    assert ThreadOk(Quiet(h), id);
    var writes := h.s.txs[id].writes;
    if !Writes(writes, k) {
      var keys := seq(|writes|, i requires 0 <= i < |writes| => writes[i].key) + [k];
      forall i, j | 0 <= i < j < |keys|
        ensures keys[i] != keys[j]
      {
        if j == |writes| { assert i < FindWrite(writes, k); }
      }
      DistinctBounded(keys, |h.s.cells|);
    }
  }

  /** Every version in the store is the initial one or was written by a logged commit. */
  lemma {:induction false} ChainComesFromLog(log: seq<Entry>, k: nat, i: int)
    requires 0 <= i < |ChainOf(log, k)|
    ensures var v := ChainOf(log, k)[i];
            (v.value == INITIAL_VALUE && v.begin == INITIAL_TS) ||
            exists e :: 0 <= e < |log| && log[e].WritesKey(k) && log[e].ValueOf(k) == v.value && log[e].ts == v.begin
  {
    if log != [] {
      var rest := log[..|log| - 1];
      var last := log[|log| - 1];
      var v := ChainOf(log, k)[i];
      var pushed := last.WritesKey(k);
      if !(pushed && i == 0) {
        var j := if pushed then i - 1 else i;
        ChainComesFromLog(rest, k, j);
        var u := ChainOf(rest, k)[j];
        assert v.value == u.value && v.begin == u.begin;
        if !(v.value == INITIAL_VALUE && v.begin == INITIAL_TS) {
          var e :| 0 <= e < |rest| && rest[e].WritesKey(k) && rest[e].ValueOf(k) == u.value && rest[e].ts == u.begin;
          assert log[e] == rest[e];
        }
      }
    }
  }

  /** The incarnation of `id` that began at `start` is over, or at least no longer active. */
  ghost predicate Over(s: State, id: nat, start: nat) {
    s.IsTx(id) && (s.txs[id].start > start || (s.txs[id].start == start && !s.txs[id].state.Active?)) && start < s.ts
  }

  ghost function CommitsOf(log: seq<Entry>, id: nat, start: nat): set<int> {
    set e | 0 <= e < |log| && log[e].id == id && log[e].start == start
  }

  lemma DoKeepsOver(h: History, call: Call, id: nat, start: nat)
    requires CallInv(h) && Over(h.s, id, start)
    ensures Over(Do(h, call).s, id, start)
    ensures CommitsOf(Do(h, call).log, id, start) == CommitsOf(h.log, id, start)
  {
    var d := Do(h, call);
    assert forall e :: 0 <= e < |h.log| ==> d.log[e] == h.log[e];
    assert ThreadOk(Quiet(h), id);
  }

  /** A transaction that aborts uncommitted never gets a value into the store: once an incarnation is no
      longer active, no later call logs a commit for it, and the store holds logged values only. */
  lemma {:induction false} AbortedNeverInstalls(h: History, calls: seq<Call>, id: nat, start: nat)
    requires CallInv(h) && Over(h.s, id, start)
    ensures CommitsOf(Perform(h, calls).log, id, start) == CommitsOf(h.log, id, start)
    ensures Over(Perform(h, calls).s, id, start)
  {
    if calls != [] {
      var front := calls[..|calls| - 1];
      AbortedNeverInstalls(h, front, id, start);
      PerformKeepsInv(h, front);
      DoKeepsOver(Perform(h, front), calls[|calls| - 1], id, start);
    }
  }

  lemma EndedIsOver(h: History, ending: Call, id: nat)
    requires CallInv(h) && h.s.IsActive(id)
    requires var d := Do(h, ending); d.log == h.log && (!d.s.IsActive(id) || d.s.txs[id].start != h.s.txs[id].start)
    ensures Over(Do(h, ending).s, id, h.s.txs[id].start) && CommitsOf(h.log, id, h.s.txs[id].start) == {}
  {
    assert ThreadOk(Quiet(h), id);
  }

  /** Whichever call ends an active incarnation without a commit, be it an abort, a deadlock or a second
      begin, its values stay out of the store for ever: every version found later is the initial one or
      comes from a different incarnation's commit. */
  lemma AbortedValuesStayOut(h: History, ending: Call, calls: seq<Call>, id: nat, k: nat, i: int)
    requires Reachable(h) && h.s.IsActive(id)
    requires var d := Do(h, ending); d.log == h.log && (!d.s.IsActive(id) || d.s.txs[id].start != h.s.txs[id].start)
    requires var d := Perform(Do(h, ending), calls); d.s.IsKey(k) && 0 <= i < |d.s.cells[k].versions|
    ensures var d := Perform(Do(h, ending), calls); var v := d.s.cells[k].versions[i];
            (v.value == INITIAL_VALUE && v.begin == INITIAL_TS) ||
            exists e :: 0 <= e < |d.log| && d.log[e].WritesKey(k) && d.log[e].ValueOf(k) == v.value && d.log[e].ts == v.begin
                        && !(d.log[e].id == id && d.log[e].start == h.s.txs[id].start)
  {
    var start := h.s.txs[id].start;
    ReachableInv(h);
    EndedIsOver(h, ending, id);
    DoKeepsInv(h, ending);
    AbortedNeverInstalls(Do(h, ending), calls, id, start);
    PerformKeepsInv(Do(h, ending), calls);
    var d := Perform(Do(h, ending), calls);
    assert CommitsOf(d.log, id, start) == {};
    ChainComesFromLog(d.log, k, i);
    var v := d.s.cells[k].versions[i];
    if !(v.value == INITIAL_VALUE && v.begin == INITIAL_TS) {
      var e :| 0 <= e < |d.log| && d.log[e].WritesKey(k) && d.log[e].ValueOf(k) == v.value && d.log[e].ts == v.begin;
      assert e !in CommitsOf(d.log, id, start);
    }
  }
}
