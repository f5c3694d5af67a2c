/** The store with its critical sections interleaved, one thread per transaction id.
    Between two sections of one call, a thread remembers where it is. */
module MvccSections {
  import opened Options
  import opened MvccModel
  import opened MvccLog

  /** Where a thread stands between critical sections: outside any call; holding the lock and
      about to buffer a write; told of a deadlock and about to clean up; or holding a drawn
      commit timestamp and about to install. */
  datatype Pc = Idle | Buffering(k: nat, v: Value) | CleaningUp | Installing(ts: nat)

  /** A configuration: the store, the threads, and the history of installed commits. */
  datatype Conf = Conf(s: State, pcs: seq<Pc>, log: seq<Entry>)

  datatype Move =
    | Begin(id: int)
    | Acquire(id: int, k: int, v: Value)
    | Buffer(id: int)
    | Cleanup(id: int)
    | Draw(id: int)
    | Install(id: int)
    | Abort(id: int)

  function InitConf(keys: nat, transactions: nat, maxWrites: nat): Conf {
    Conf(Init(keys, transactions, maxWrites), seq(transactions, _ => Idle), [])
  }

  predicate HasThread(c: Conf, id: int) {
    c.s.IsTx(id) && |c.pcs| == |c.s.txs|
  }

  /** One move of one thread; a move the thread is not ready for changes nothing. */
  ghost function Next(c: Conf, m: Move): Conf {
    if !HasThread(c, m.id) then c
    else
      var id: nat := m.id;
      var pc := c.pcs[id];
      match m
      case Begin(_) =>
        if pc.Idle? then c.(s := BeginSection(c.s, id)) else c
      case Acquire(_, k, v) =>
        if pc.Idle? && c.s.IsActive(id) && c.s.IsKey(k) then
          var (s1, lock) := AcquireSection(c.s, id, k);
          match lock
          case Acquired => c.(s := s1, pcs := c.pcs[id := Buffering(k, v)])
          case Blocked => c.(s := s1)
          case Deadlock => c.(s := MarkAborted(s1, id), pcs := c.pcs[id := CleaningUp])
        else c
      case Buffer(_) =>
        if pc.Buffering? then c.(s := BufferSection(c.s, id, pc.k, pc.v).0, pcs := c.pcs[id := Idle]) else c
      case Cleanup(_) =>
        if pc.CleaningUp? then c.(s := CleanupSection(c.s, id), pcs := c.pcs[id := Idle]) else c
      case Draw(_) =>
        if pc.Idle? && c.s.IsActive(id) then
          c.(s := c.s.(ts := c.s.ts + 1), pcs := c.pcs[id := Installing(c.s.ts)])
        else c
      case Install(_) =>
        if pc.Installing? then
          Conf(InstallSection(c.s, id, pc.ts), c.pcs[id := Idle],
               c.log + [Entry(id, c.s.txs[id].start, pc.ts, c.s.txs[id].writes)])
        else c
      case Abort(_) =>
        if pc.Idle? then c.(s := AbortSection(c.s, id)) else c
  }

  ghost function Run(c: Conf, moves: seq<Move>): Conf {
    if moves == [] then c else Next(Run(c, moves[..|moves| - 1]), moves[|moves| - 1])
  }

  // ----- the invariant of every configuration

  ghost predicate LocksOk(c: Conf) {
    forall k :: 0 <= k < |c.s.cells| ==> OwnerOk(c, c.s.cells[k].lockedBy)
  }

  /** A lock is held by an active transaction or by one that is about to release it. */
  ghost predicate OwnerOk(c: Conf, owner: Option<nat>) {
    owner.Some? ==> HasThread(c, owner.value) && (c.s.txs[owner.value].state.Active? || c.pcs[owner.value].CleaningUp?)
  }

  ghost predicate WritesOk(s: State, id: nat, writes: seq<Write>) {
    && DistinctKeys(writes)
    && forall i :: 0 <= i < |writes| ==> s.IsKey(writes[i].key) && s.cells[writes[i].key].lockedBy == Some(id)
  }

  /** A pending commit is newer than every installed commit it shares a key with. */
  ghost predicate PendingOk(log: seq<Entry>, writes: seq<Write>, ts: nat) {
    forall i, k: nat :: 0 <= i < |log| && log[i].WritesKey(k) && Writes(writes, k) ==> log[i].ts < ts
  }

  ghost predicate ThreadOk(c: Conf, id: nat)
    requires HasThread(c, id)
  {
    var t := c.s.txs[id];
    var pc := c.pcs[id];
    && (t.state.Active? ==> WritesOk(c.s, id, t.writes) && INITIAL_TS <= t.start)
    && t.start < c.s.ts
    && (pc.Buffering? ==> t.state.Active? && c.s.IsKey(pc.k) && c.s.cells[pc.k].lockedBy == Some(id))
    && (pc.Installing? ==> t.state.Active? && INITIAL_TS < pc.ts < c.s.ts && PendingOk(c.log, t.writes, pc.ts))
    && (pc.CleaningUp? ==> t.state.Aborted?)
    && (forall i :: 0 <= i < |c.log| && c.log[i].id == id ==>
          c.log[i].start <= t.start && (t.state.Active? ==> c.log[i].start < t.start))
  }

  ghost predicate ThreadsOk(c: Conf) {
    |c.pcs| == |c.s.txs| && forall id: nat :: id < |c.s.txs| ==> ThreadOk(c, id)
  }

  /** No start timestamp equals a pending commit timestamp: both come from one counter. */
  ghost predicate TimestampsDistinct(c: Conf) {
    |c.pcs| == |c.s.txs| &&
    forall i, j :: 0 <= i < |c.pcs| && 0 <= j < |c.s.txs| && c.pcs[i].Installing? ==> c.pcs[i].ts != c.s.txs[j].start
  }

  ghost predicate ChainsOk(c: Conf) {
    forall k :: 0 <= k < |c.s.cells| ==> c.s.cells[k].versions == ChainOf(c.log, k)
  }

  ghost predicate Inv(c: Conf) {
    && c.s.ts >= INITIAL_TS
    && ThreadsOk(c)
    && TimestampsDistinct(c)
    && LocksOk(c)
    && ChainsOk(c)
    && LogOk(c.log, c.s.ts)
  }

  // ----- installing the writes of one commit

  lemma {:induction false} InstallAllCells(cells: seq<Cell>, writes: seq<Write>, ts: nat, k: nat)
    requires DistinctKeys(writes) && k < |cells|
    requires forall i :: 0 <= i < |writes| ==> writes[i].key < |cells|
    ensures InstallAll(cells, writes, ts)[k] ==
            if Writes(writes, k) then cells[k].(versions := Push(cells[k].versions, writes[FindWrite(writes, k)].value, ts))
            else cells[k]
  {
    if writes != [] {
      var n := |writes| - 1;
      var rest := writes[..n];
      InstallAllCells(cells, rest, ts, k);
      FindWriteLast(writes, k);
    }
  }

  /** In a buffer that names no key twice, the last write is found exactly for its own key. */
  lemma FindWriteLast(writes: seq<Write>, k: nat)
    requires DistinctKeys(writes) && writes != []
    ensures var n := |writes| - 1;
            && (Writes(writes, k) <==> writes[n].key == k || Writes(writes[..n], k))
            && (writes[n].key == k ==> !Writes(writes[..n], k) && FindWrite(writes, k) == n)
            && (Writes(writes[..n], k) ==> FindWrite(writes, k) == FindWrite(writes[..n], k) < n)
  {
    var n := |writes| - 1;
    var rest := writes[..n];
    if writes[n].key == k {
    } else if Writes(rest, k) {
      assert writes[FindWrite(rest, k)].key == k;
    } else {
      assert forall i :: 0 <= i < n ==> writes[i].key == rest[i].key && rest[i].key != k;
    }
  }

  lemma {:induction false} InitInv(keys: nat, transactions: nat, maxWrites: nat)
    ensures Inv(InitConf(keys, transactions, maxWrites))
  {
  }

  /** A thread that a move neither advances nor robs of a lock keeps its part of the invariant. */
  lemma OtherThread(c: Conf, c': Conf, i: nat)
    requires HasThread(c, i) && HasThread(c', i) && ThreadOk(c, i)
    requires c'.s.txs[i] == c.s.txs[i] && c'.pcs[i] == c.pcs[i] && c'.log == c.log && c.s.ts <= c'.s.ts
    requires |c'.s.cells| == |c.s.cells|
    requires forall k :: 0 <= k < |c.s.cells| && c.s.cells[k].lockedBy == Some(i) ==> c'.s.cells[k].lockedBy == Some(i)
    ensures ThreadOk(c', i)
  {
  }

  lemma BufferedWritesOk(s: State, id: nat, k: nat, v: Value)
    requires s.IsTx(id) && s.IsKey(k) && s.cells[k].lockedBy == Some(id) && WritesOk(s, id, s.txs[id].writes)
    ensures WritesOk(s, id, BufferSection(s, id, k, v).0.txs[id].writes)
  {
    var writes := s.txs[id].writes;
    var writes' := BufferSection(s, id, k, v).0.txs[id].writes;
    if FindWrite(writes, k) < |writes| {
      assert forall i :: 0 <= i < |writes| ==> writes'[i].key == writes[i].key;
    }
  }

  lemma BeginKeepsInv(c: Conf, id: nat)
    requires Inv(c) && HasThread(c, id) && c.pcs[id].Idle?
    ensures Inv(Next(c, Begin(id)))
  {
    var c' := Next(c, Begin(id));
    forall i, j | 0 <= i < |c'.pcs| && 0 <= j < |c'.s.txs| && c'.pcs[i].Installing?
      ensures c'.pcs[i].ts != c'.s.txs[j].start
    {
      assert ThreadOk(c, i) && ThreadOk(c, j);
    }
    forall i: nat | i < |c'.s.txs|
      ensures ThreadOk(c', i)
    {
      assert ThreadOk(c, i);
      if i != id { OtherThread(c, c', i); }
    }
    forall k | 0 <= k < |c'.s.cells|
      ensures OwnerOk(c', c'.s.cells[k].lockedBy)
    {
      assert OwnerOk(c, c.s.cells[k].lockedBy);
    }
  }

  lemma GrantKeepsInv(c: Conf, id: nat, k: nat, v: Value)
    requires Inv(c) && HasThread(c, id) && c.pcs[id].Idle? && c.s.IsActive(id) && c.s.IsKey(k)
    requires AcquireSection(c.s, id, k).1.Acquired?
    ensures Inv(Next(c, Acquire(id, k, v)))
  {
    var c' := Next(c, Acquire(id, k, v));
    forall i: nat | i < |c'.s.txs|
      ensures ThreadOk(c', i)
    {
      assert ThreadOk(c, i);
      if i != id { OtherThread(c, c', i); }
    }
    forall j | 0 <= j < |c'.s.cells|
      ensures OwnerOk(c', c'.s.cells[j].lockedBy)
    {
      assert OwnerOk(c, c.s.cells[j].lockedBy);
    }
  }

  lemma AcquireKeepsInv(c: Conf, id: nat, k: nat, v: Value)
    requires Inv(c) && HasThread(c, id) && c.pcs[id].Idle? && c.s.IsActive(id) && c.s.IsKey(k)
    ensures Inv(Next(c, Acquire(id, k, v)))
  {
    if AcquireSection(c.s, id, k).1.Acquired? {
      GrantKeepsInv(c, id, k, v);
    } else {
      var c' := Next(c, Acquire(id, k, v));
      assert c'.s.cells == c.s.cells;
      forall i: nat | i < |c'.s.txs|
        ensures ThreadOk(c', i)
      {
        assert ThreadOk(c, i);
        if i != id { OtherThread(c, c', i); }
      }
      forall j | 0 <= j < |c'.s.cells|
        ensures OwnerOk(c', c'.s.cells[j].lockedBy)
      {
        assert OwnerOk(c, c.s.cells[j].lockedBy);
      }
    }
  }

  lemma BufferKeepsInv(c: Conf, id: nat)
    requires Inv(c) && HasThread(c, id) && c.pcs[id].Buffering?
    ensures Inv(Next(c, Buffer(id)))
  {
    var c' := Next(c, Buffer(id));
    assert ThreadOk(c, id);
    BufferedWritesOk(c.s, id, c.pcs[id].k, c.pcs[id].v);
    forall i: nat | i < |c'.s.txs|
      ensures ThreadOk(c', i)
    {
      assert ThreadOk(c, i);
      if i != id { OtherThread(c, c', i); }
    }
    forall j | 0 <= j < |c'.s.cells|
      ensures OwnerOk(c', c'.s.cells[j].lockedBy)
    {
      assert OwnerOk(c, c.s.cells[j].lockedBy);
    }
  }

  lemma ReleaseKeeps(c: Conf, c': Conf, id: nat)
    requires Inv(c) && HasThread(c, id)
    requires |c'.s.txs| == |c.s.txs| && |c'.pcs| == |c.pcs| && c'.s.ts == c.s.ts && c'.log == c.log
    requires c'.s.cells == ReleaseLocks(c.s.cells, id)
    requires forall i: nat :: i < |c.s.txs| && i != id ==> c'.s.txs[i] == c.s.txs[i] && c'.pcs[i] == c.pcs[i]
    requires c'.pcs[id].Idle? && c'.s.txs[id].start == c.s.txs[id].start && !c'.s.txs[id].state.Active?
    ensures Inv(c')
  {
    forall i: nat | i < |c'.s.txs|
      ensures ThreadOk(c', i)
    {
      assert ThreadOk(c, i);
      if i != id { OtherThread(c, c', i); }
    }
    forall j | 0 <= j < |c'.s.cells|
      ensures OwnerOk(c', c'.s.cells[j].lockedBy)
    {
      assert OwnerOk(c, c.s.cells[j].lockedBy);
    }
  }

  lemma DrawKeepsInv(c: Conf, id: nat)
    requires Inv(c) && HasThread(c, id) && c.pcs[id].Idle? && c.s.IsActive(id)
    ensures Inv(Next(c, Draw(id)))
  {
    var c' := Next(c, Draw(id));
    forall i, j | 0 <= i < |c'.pcs| && 0 <= j < |c'.s.txs| && c'.pcs[i].Installing?
      ensures c'.pcs[i].ts != c'.s.txs[j].start
    {
      assert ThreadOk(c, i) && ThreadOk(c, j);
    }
    assert ThreadOk(c, id);
    forall i: nat | i < |c'.s.txs|
      ensures ThreadOk(c', i)
    {
      assert ThreadOk(c, i);
      if i != id { OtherThread(c, c', i); }
    }
    forall j | 0 <= j < |c'.s.cells|
      ensures OwnerOk(c', c'.s.cells[j].lockedBy)
    {
      assert OwnerOk(c, c.s.cells[j].lockedBy);
    }
  }

  /** Two active transactions never buffer the same key. */
  lemma BuffersDisjoint(c: Conf, i: nat, j: nat, k: nat)
    requires ThreadsOk(c) && i < |c.s.txs| && j < |c.s.txs| && i != j
    requires c.s.IsActive(i) && c.s.IsActive(j)
    requires Writes(c.s.txs[i].writes, k)
    ensures !Writes(c.s.txs[j].writes, k)
  {
    assert ThreadOk(c, i) && ThreadOk(c, j);
    var a := FindWrite(c.s.txs[i].writes, k);
    assert c.s.cells[k].lockedBy == Some(i);
  }

  lemma InstallKeepsChains(c: Conf, id: nat, k: nat)
    requires Inv(c) && HasThread(c, id) && c.pcs[id].Installing? && k < |c.s.cells|
    ensures Next(c, Install(id)).s.cells[k].versions == ChainOf(Next(c, Install(id)).log, k)
    ensures Next(c, Install(id)).s.cells[k].lockedBy == Unlock(c.s.cells[k], id).lockedBy
  {
    assert ThreadOk(c, id);
    var c' := Next(c, Install(id));
    InstallAllCells(c.s.cells, c.s.txs[id].writes, c.pcs[id].ts, k);
    assert c'.log[..|c'.log| - 1] == c.log;
  }

  lemma InstallKeepsLog(c: Conf, id: nat)
    requires Inv(c) && HasThread(c, id) && c.pcs[id].Installing?
    ensures LogOk(Next(c, Install(id)).log, c.s.ts)
  {
    assert ThreadOk(c, id);
    var c' := Next(c, Install(id));
    forall i, j, k: nat | 0 <= i < j < |c'.log| && c'.log[i].WritesKey(k) && c'.log[j].WritesKey(k)
      ensures c'.log[i].ts < c'.log[j].ts
    {
      assert c'.log[i] == c.log[i];
      if j < |c.log| { assert c'.log[j] == c.log[j]; }
    }
  }

  lemma InstallKeepsPending(c: Conf, id: nat, i: nat)
    requires Inv(c) && HasThread(c, id) && HasThread(c, i) && i != id && c.pcs[id].Installing? && c.pcs[i].Installing?
    ensures PendingOk(Next(c, Install(id)).log, c.s.txs[i].writes, c.pcs[i].ts)
  {
    assert ThreadOk(c, id) && ThreadOk(c, i);
    var log := Next(c, Install(id)).log;
    forall a, k: nat | 0 <= a < |log| && log[a].WritesKey(k) && Writes(c.s.txs[i].writes, k)
      ensures log[a].ts < c.pcs[i].ts
    {
      if a < |c.log| {
        assert log[a] == c.log[a];
      } else {
        BuffersDisjoint(c, i, id, k);
      }
    }
  }

  lemma InstallKeepsThread(c: Conf, id: nat, i: nat)
    requires Inv(c) && HasThread(c, id) && HasThread(c, i) && c.pcs[id].Installing?
    requires forall k :: 0 <= k < |c.s.cells| ==> Next(c, Install(id)).s.cells[k].lockedBy == Unlock(c.s.cells[k], id).lockedBy
    ensures ThreadOk(Next(c, Install(id)), i)
  {
    assert ThreadOk(c, id) && ThreadOk(c, i);
    if i != id && c.pcs[i].Installing? {
      InstallKeepsPending(c, id, i);
    }
  }

  lemma InstallKeepsInv(c: Conf, id: nat)
    requires Inv(c) && HasThread(c, id) && c.pcs[id].Installing?
    ensures Inv(Next(c, Install(id)))
  {
    var c' := Next(c, Install(id));
    InstallKeepsLog(c, id);
    forall k | 0 <= k < |c'.s.cells|
      ensures c'.s.cells[k].versions == ChainOf(c'.log, k)
      ensures c'.s.cells[k].lockedBy == Unlock(c.s.cells[k], id).lockedBy
      ensures OwnerOk(c', c'.s.cells[k].lockedBy)
    {
      InstallKeepsChains(c, id, k);
      assert OwnerOk(c, c.s.cells[k].lockedBy);
    }
    forall i: nat | i < |c'.s.txs|
      ensures ThreadOk(c', i)
    {
      InstallKeepsThread(c, id, i);
    }
  }

  lemma NextKeepsInv(c: Conf, m: Move)
    requires Inv(c)
    ensures Inv(Next(c, m))
  {
    if HasThread(c, m.id) {
      var id: nat := m.id;
      var pc := c.pcs[id];
      match m
      case Begin(_) =>
        if pc.Idle? { BeginKeepsInv(c, id); }
      case Acquire(_, k, v) =>
        if pc.Idle? && c.s.IsActive(id) && c.s.IsKey(k) { AcquireKeepsInv(c, id, k, v); }
      case Buffer(_) =>
        if pc.Buffering? { BufferKeepsInv(c, id); }
      case Cleanup(_) =>
        if pc.CleaningUp? {
          assert ThreadOk(c, id);
          ReleaseKeeps(c, Next(c, m), id);
        }
      case Draw(_) =>
        if pc.Idle? && c.s.IsActive(id) { DrawKeepsInv(c, id); }
      case Install(_) =>
        if pc.Installing? { InstallKeepsInv(c, id); }
      case Abort(_) =>
        if pc.Idle? { ReleaseKeeps(c, Next(c, m), id); }
    }
  }

  lemma {:induction false} RunKeepsInv(c: Conf, moves: seq<Move>)
    requires Inv(c)
    ensures Inv(Run(c, moves))
  {
    if moves != [] {
      RunKeepsInv(c, moves[..|moves| - 1]);
      NextKeepsInv(Run(c, moves[..|moves| - 1]), moves[|moves| - 1]);
    }
  }
}
