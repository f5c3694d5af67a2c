/** What every read answers and every commit installs, told from the calls and their answers alone. */
module MvccLedger {
  import opened Options
  import opened WaitGraph
  import opened MvccModel
  import opened MvccLog
  import opened MvccSections
  import opened MvccAtomic

  /** A successful commit: its timestamp and the values it was granted. */
  datatype Commit = Commit(ts: nat, values: map<nat, Value>)

  /** An observer's notes: how many timestamps were drawn, when each transaction last began and what it has been
      granted since, and the commits in order. */
  datatype Notes = Notes(clock: nat, starts: map<nat, nat>, granted: map<nat, map<nat, Value>>, commits: seq<Commit>)

  const BLANK := Notes(INITIAL_TS, map[], map[], [])

  function GrantedTo(b: Notes, id: nat): map<nat, Value> {
    if id in b.granted then b.granted[id] else map[]
  }

  /** What the observer writes down after a call and its answer. */
  ghost function Note(b: Notes, h: History, call: Call): Notes {
    match call
    case BeginCall(id) =>
      if h.s.IsTx(id) then b.(clock := b.clock + 1, starts := b.starts[id := b.clock], granted := b.granted[id := map[]])
      else b
    case WriteCall(id, k, v) =>
      if id >= 0 && k >= 0 && WriteTx(h.s, id, k, v).1.Buffered? then
        b.(granted := b.granted[id := GrantedTo(b, id)[k := v]])
      else b
    case CommitCall(id) =>
      if id >= 0 && CommitTx(h.s, id).1 then
        b.(clock := b.clock + 1, commits := b.commits + [Commit(b.clock, GrantedTo(b, id))])
      else b
    case AbortCall(_) => b
  }

  ghost function NotesOf(h: History, calls: seq<Call>): Notes {
    if calls == [] then BLANK
    else
      var front := calls[..|calls| - 1];
      Note(NotesOf(h, front), Perform(h, front), calls[|calls| - 1])
  }

  /** The value of the latest commit to `k` not after `start`. */
  function Latest(commits: seq<Commit>, start: nat, k: nat): Value {
    if commits == [] then INITIAL_VALUE
    else
      var last := commits[|commits| - 1];
      if last.ts <= start && k in last.values then last.values[k]
      else Latest(commits[..|commits| - 1], start, k)
  }

  // ----- the store agrees with the notes

  /** The write buffer holds the values of the map, one each. */
  ghost predicate Buffers(writes: seq<Write>, values: map<nat, Value>) {
    && |writes| == |values|
    && forall k: nat :: Writes(writes, k) == (k in values) && (k in values ==> writes[FindWrite(writes, k)].value == values[k])
  }

  ghost predicate Agrees(h: History, b: Notes) {
    && b.clock == h.s.ts
    && (forall id: nat :: h.s.IsActive(id) ==>
          && id in b.starts && b.starts[id] == h.s.txs[id].start
          && Buffers(h.s.txs[id].writes, GrantedTo(b, id)))
    && |b.commits| == |h.log|
    && forall i :: 0 <= i < |h.log| ==> b.commits[i].ts == h.log[i].ts && Buffers(h.log[i].writes, b.commits[i].values)
  }

  lemma FindAfterUpdate(writes: seq<Write>, i: nat, v: Value, j: nat)
    requires i < |writes|
    ensures FindWrite(writes[i := Write(writes[i].key, v)], j) == FindWrite(writes, j)
  {
    var after := writes[i := Write(writes[i].key, v)];
    assert forall x :: 0 <= x < |writes| ==> after[x].key == writes[x].key;
  }

  lemma FindAfterAppend(writes: seq<Write>, k: nat, v: Value, j: nat)
    requires !Writes(writes, k)
    ensures FindWrite(writes + [Write(k, v)], j) ==
            if j == k then |writes| else if Writes(writes, j) then FindWrite(writes, j) else |writes| + 1
  {
    var after := writes + [Write(k, v)];
    assert forall x :: 0 <= x < |writes| ==> after[x] == writes[x];
    assert after[|writes|].key == k;
  }

  /** A granted write makes the map what its name says. */
  lemma BufferedAgrees(s: State, id: nat, k: nat, v: Value, values: map<nat, Value>)
    requires s.IsTx(id) && Buffers(s.txs[id].writes, values) && BufferSection(s, id, k, v).1
    ensures Buffers(BufferSection(s, id, k, v).0.txs[id].writes, values[k := v])
  {
    var writes := s.txs[id].writes;
    var after := BufferSection(s, id, k, v).0.txs[id].writes;
    var i := FindWrite(writes, k);
    forall j: nat
      ensures Writes(after, j) == (j in values[k := v])
      ensures Writes(after, j) ==> after[FindWrite(after, j)].value == values[k := v][j]
    {
      if i < |writes| {
        FindAfterUpdate(writes, i, v, j);
      } else {
        FindAfterAppend(writes, k, v, j);
      }
    }
  }

  lemma WriteAgrees(h: History, b: Notes, call: Call)
    requires Agrees(h, b) && call.WriteCall?
    ensures Agrees(Do(h, call), Note(b, h, call))
  {
    if h.s.IsActive(call.id) && h.s.IsKey(call.k) {
      var id: nat, k: nat := call.id, call.k;
      if WriteTx(h.s, id, k, call.v).1.Buffered? {
        GrantAgrees(h.s, id, k, call.v, GrantedTo(b, id));
      } else {
        RefusalKeeps(h.s, id, k, call.v);
      }
    }
  }

  lemma GrantAgrees(s: State, id: nat, k: nat, v: Value, values: map<nat, Value>)
    requires s.IsActive(id) && s.IsKey(k) && WriteTx(s, id, k, v).1.Buffered? && Buffers(s.txs[id].writes, values)
    ensures var d := WriteTx(s, id, k, v).0;
            && |d.txs| == |s.txs| && d.ts == s.ts && d.txs[id].state == s.txs[id].state && d.txs[id].start == s.txs[id].start
            && Buffers(d.txs[id].writes, values[k := v])
            && forall i :: 0 <= i < |s.txs| && i != id ==> d.txs[i] == s.txs[i]
  {
    var s1 := AcquireSection(s, id, k).0;
    assert s1.txs == s.txs;
    BufferedAgrees(s1, id, k, v, values);
  }

  lemma RefusalKeeps(s: State, id: nat, k: nat, v: Value)
    requires s.IsActive(id) && s.IsKey(k) && !WriteTx(s, id, k, v).1.Buffered?
    ensures var d := WriteTx(s, id, k, v).0;
            && |d.txs| == |s.txs| && d.ts == s.ts
            && forall i :: 0 <= i < |s.txs| && d.IsActive(i) ==> d.txs[i] == s.txs[i]
  {
  }

  lemma CommitAgrees(h: History, b: Notes, call: Call)
    requires Agrees(h, b) && call.CommitCall?
    ensures Agrees(Do(h, call), Note(b, h, call))
  {
    if h.s.IsActive(call.id) {
      var d, n := Do(h, call), Note(b, h, call);
      forall i | 0 <= i < |d.log|
        ensures n.commits[i].ts == d.log[i].ts && Buffers(d.log[i].writes, n.commits[i].values)
      {
        if i < |h.log| { assert d.log[i] == h.log[i] && n.commits[i] == b.commits[i]; }
      }
    }
  }

  lemma NoteAgrees(h: History, b: Notes, call: Call)
    requires Agrees(h, b)
    ensures Agrees(Do(h, call), Note(b, h, call))
  {
    match call
    case BeginCall(_) =>
    case WriteCall(_, _, _) => WriteAgrees(h, b, call);
    case CommitCall(_) => CommitAgrees(h, b, call);
    case AbortCall(_) =>
  }

  lemma {:induction false} RunAgrees(h: History, calls: seq<Call>)
    requires h.s.ts == INITIAL_TS && h.log == [] && forall id :: !h.s.IsActive(id)
    ensures Agrees(Perform(h, calls), NotesOf(h, calls))
  {
    if calls != [] {
      var front := calls[..|calls| - 1];
      RunAgrees(h, front);
      NoteAgrees(Perform(h, front), NotesOf(h, front), calls[|calls| - 1]);
    }
  }

  // ----- reads

  lemma {:induction false} ScanIsLatest(log: seq<Entry>, commits: seq<Commit>, start: nat, k: nat)
    requires start >= INITIAL_TS && |commits| == |log|
    requires forall i :: 0 <= i < |log| ==> commits[i].ts == log[i].ts && Buffers(log[i].writes, commits[i].values)
    ensures Scan(ChainOf(log, k), start).Some?
    ensures Scan(ChainOf(log, k), start).value.value == Latest(commits, start, k)
  {
    if log != [] {
      var n := |log| - 1;
      var e := log[n];
      ScanIsLatest(log[..n], commits[..n], start, k);
      assert Buffers(e.writes, commits[n].values);
      if e.WritesKey(k) {
        ScanAfterPush(ChainOf(log[..n], k), e.ValueOf(k), e.ts, start);
      }
    }
  }

  /** Every read of every run: nothing unless the transaction is active and the key exists; otherwise the last value
      granted to this incarnation for the key, or else that of the latest commit to it not after its start. */
  lemma EveryRead(keys: nat, transactions: nat, maxWrites: nat, calls: seq<Call>, id: int, k: int)
    ensures var h := History(Init(keys, transactions, maxWrites), []);
            var s, b := Perform(h, calls).s, NotesOf(h, calls);
            && (!s.IsActive(id) || !(0 <= k < keys) ==> ReadTx(s, id, k) == None)
            && (s.IsActive(id) && 0 <= k < keys ==>
                  && id in b.starts
                  && ReadTx(s, id, k) == Some(if k in GrantedTo(b, id) then GrantedTo(b, id)[k] else Latest(b.commits, b.starts[id], k)))
  {
    var init := History(Init(keys, transactions, maxWrites), []);
    var h, b := Perform(init, calls), NotesOf(init, calls);
    RunAgrees(init, calls);
    PerformExtends(init, calls);
    if h.s.IsActive(id) && 0 <= k < keys {
      assert Reachable(h);
      ReachableInv(h);
      assert ThreadOk(Quiet(h), id);
      ScanIsLatest(h.log, b.commits, h.s.txs[id].start, k);
    }
  }

  /** The versions of a key before and after a commit at `ts` by a transaction with these values. */
  ghost predicate Installed(was: seq<Version>, now: seq<Version>, values: map<nat, Value>, ts: nat, k: nat) {
    if k in values then
      |now| == |was| + 1 >= 2 && now[0] == Version(values[k], ts, Infinity) && now[1] == was[0].(end := At(ts)) && now[2..] == was[1..]
    else now == was
  }

  lemma InstallTells(cells: seq<Cell>, writes: seq<Write>, values: map<nat, Value>, ts: nat, id: nat, k: nat)
    requires DistinctKeys(writes) && k < |cells| && cells[k].versions != [] && Buffers(writes, values)
    requires forall i :: 0 <= i < |writes| ==> writes[i].key < |cells|
    ensures Installed(cells[k].versions, ReleaseLocks(InstallAll(cells, writes, ts), id)[k].versions, values, ts, k)
  {
    InstallAllCells(cells, writes, ts, k);
    assert Writes(writes, k) == (k in values);
  }

  /** Every commit of every run installs, for each key, the last value granted to the incarnation, as the newest version
      from the commit's timestamp on, and retires the version before it; the other keys keep their versions. */
  lemma CommitInstalls(keys: nat, transactions: nat, maxWrites: nat, calls: seq<Call>, id: int, k: nat)
    requires k < keys && Perform(History(Init(keys, transactions, maxWrites), []), calls).s.IsActive(id)
    ensures var h := History(Init(keys, transactions, maxWrites), []);
            var s, d, b := Perform(h, calls).s, Do(Perform(h, calls), CommitCall(id)).s, NotesOf(h, calls);
            && |s.cells| == |d.cells| == keys
            && Installed(s.cells[k].versions, d.cells[k].versions, GrantedTo(b, id), b.clock, k)
  {
    var init := History(Init(keys, transactions, maxWrites), []);
    var h := Perform(init, calls);
    RunAgrees(init, calls);
    PerformExtends(init, calls);
    assert Reachable(h);
    ReachableInv(h);
    assert ThreadOk(Quiet(h), id);
    assert h.s.cells[k].versions == ChainOf(h.log, k);
    InstallTells(h.s.cells, h.s.txs[id].writes, GrantedTo(NotesOf(init, calls), id), h.s.ts, id, k);
  }

  /** The answer of every write of every run. */
  lemma EveryWrite(keys: nat, transactions: nat, maxWrites: nat, calls: seq<Call>, id: int, k: int, v: Value)
    ensures var h := History(Init(keys, transactions, maxWrites), []);
            var s, b := Perform(h, calls).s, NotesOf(h, calls);
            var answer := WriteTx(s, id, k, v).1;
            if !s.IsActive(id) || !(0 <= k < keys) then answer.Refused? && WriteTx(s, id, k, v).0 == s
            else
              |s.cells| == keys &&
              var owner := s.cells[k].lockedBy;
              if owner == None || owner == Some(id) then
                answer == if k in GrantedTo(b, id) || |GrantedTo(b, id)| < maxWrites then Buffered else Refused
              else
                answer == if Reaches(s.waits, owner.value, id) then Refused else Waiting
  {
    var init := History(Init(keys, transactions, maxWrites), []);
    var h := Perform(init, calls);
    RunAgrees(init, calls);
    PerformExtends(init, calls);
    MaxWritesKept(init, calls);
    assert Reachable(h);
    if h.s.IsActive(id) && 0 <= k < keys {
      DeadlockExactlyOnBackPath(h, id, k, v);
    }
  }

  lemma {:induction false} MaxWritesKept(h: History, calls: seq<Call>)
    ensures Perform(h, calls).s.maxWrites == h.s.maxWrites
  {
    if calls != [] {
      MaxWritesKept(h, calls[..|calls| - 1]);
    }
  }

  /** A transaction that is not active is refused every write and every commit and reads nothing, and nothing changes. */
  lemma InactiveRefused(h: History, id: int, k: int, v: Value)
    requires !h.s.IsActive(id)
    ensures WriteTx(h.s, id, k, v).1.Refused? && Do(h, WriteCall(id, k, v)) == h
    ensures !CommitTx(h.s, id).1 && Do(h, CommitCall(id)) == h
    ensures ReadTx(h.s, id, k) == None
  {
  }
}
