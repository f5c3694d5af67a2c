/** The multi-version key-value store as a value: version chains, write buffers,
    per-key write locks, the wait-for graph and the timestamp counter.
    Each function below is the effect of one critical section of the store. */
module MvccModel {
  import opened Options
  import opened WaitGraph

  type Value = string

  const INITIAL_VALUE: Value := "-"
  const INITIAL_TS: nat := 1

  /** `Infinity` stands for ULONG_MAX, which no drawn timestamp reaches. */
  datatype End = Infinity | At(ts: nat)

  datatype Version = Version(value: Value, begin: nat, end: End) {
    predicate Covers(ts: nat) {
      begin <= ts && (end.Infinity? || ts < end.ts)
    }
  }

  /** One key: its versions, newest first, and the transaction holding its write lock. */
  datatype Cell = Cell(versions: seq<Version>, lockedBy: Option<nat>)

  datatype TxState = Unused | Active | Aborted | Committed

  datatype Write = Write(key: nat, value: Value)

  datatype Tx = Tx(state: TxState, start: nat, writes: seq<Write>)

  datatype State = State(cells: seq<Cell>, txs: seq<Tx>, waits: Edges, ts: nat, maxWrites: nat) {
    predicate IsTx(id: int) {
      0 <= id < |txs|
    }

    predicate IsActive(id: int) {
      IsTx(id) && txs[id].state.Active?
    }

    predicate IsKey(k: int) {
      0 <= k < |cells|
    }
  }

  datatype LockResult = Acquired | Blocked | Deadlock

  datatype WriteResult = Buffered | Waiting | Refused

  function InitialChain(): seq<Version> {
    [Version(INITIAL_VALUE, INITIAL_TS, Infinity)]
  }

  function Init(keys: nat, transactions: nat, maxWrites: nat): State {
    State(seq(keys, _ => Cell(InitialChain(), None)), seq(transactions, _ => Tx(Unused, 0, [])), {}, INITIAL_TS, maxWrites)
  }

  // ----- helpers shared by the critical sections

  function DropOut(g: Edges, id: nat): Edges {
    set e | e in g && e.0 != id
  }

  function DropAll(g: Edges, id: nat): Edges {
    set e | e in g && e.0 != id && e.1 != id
  }

  function Unlock(c: Cell, id: nat): Cell {
    if c.lockedBy == Some(id) then c.(lockedBy := None) else c
  }

  function ReleaseLocks(cells: seq<Cell>, id: nat): (r: seq<Cell>)
    ensures |r| == |cells|
  {
    seq(|cells|, i requires 0 <= i < |cells| => Unlock(cells[i], id))
  }

  /** Index of the first buffered write to `k`, or the number of writes if there is none. */
  function FindWrite(writes: seq<Write>, k: nat): (i: nat)
    ensures i <= |writes|
    ensures i < |writes| ==> writes[i].key == k
    ensures forall j :: 0 <= j < i ==> writes[j].key != k
  {
    if writes == [] then 0
    else if writes[0].key == k then 0
    else
      var i := FindWrite(writes[1..], k);
      assert forall j :: 0 < j < i + 1 ==> writes[j] == writes[1..][j - 1];
      i + 1
  }

  predicate Writes(writes: seq<Write>, k: nat) {
    FindWrite(writes, k) < |writes|
  }

  /** The first version, newest first, whose interval holds `ts`. */
  function Scan(versions: seq<Version>, ts: nat): Option<Version> {
    if versions == [] then None
    else if versions[0].Covers(ts) then Some(versions[0])
    else Scan(versions[1..], ts)
  }

  /** Retires the head at `ts` and pushes a new open version. */
  function Push(versions: seq<Version>, value: Value, ts: nat): (r: seq<Version>)
    ensures |r| == |versions| + 1
  {
    if versions == [] then [Version(value, ts, Infinity)]
    else [Version(value, ts, Infinity), versions[0].(end := At(ts))] + versions[1..]
  }

  function InstallOne(cells: seq<Cell>, w: Write, ts: nat): (r: seq<Cell>)
    ensures |r| == |cells|
  {
    if w.key < |cells| then cells[w.key := cells[w.key].(versions := Push(cells[w.key].versions, w.value, ts))]
    else cells
  }

  function InstallAll(cells: seq<Cell>, writes: seq<Write>, ts: nat): (r: seq<Cell>)
    ensures |r| == |cells|
  {
    if writes == [] then cells
    else InstallOne(InstallAll(cells, writes[..|writes| - 1], ts), writes[|writes| - 1], ts)
  }

  // ----- critical sections

  function BeginSection(s: State, id: nat): State
    requires s.IsTx(id)
  {
    s.(txs := s.txs[id := Tx(Active, s.ts, [])], ts := s.ts + 1, waits := DropAll(s.waits, id))
  }

  ghost function AcquireSection(s: State, id: nat, k: nat): (State, LockResult)
    requires s.IsKey(k)
  {
    var owner := s.cells[k].lockedBy;
    if owner == None || owner == Some(id) then
      (s.(cells := s.cells[k := s.cells[k].(lockedBy := Some(id))], waits := DropOut(s.waits, id)), Acquired)
    else
      var s1 := s.(waits := s.waits + {(id, owner.value)});
      (s1, if HasCycle(s1.waits) then Deadlock else Blocked)
  }

  function MarkAborted(s: State, id: nat): State
    requires s.IsTx(id)
  {
    s.(txs := s.txs[id := s.txs[id].(state := Aborted)])
  }

  function CleanupSection(s: State, id: nat): State {
    s.(waits := DropAll(s.waits, id), cells := ReleaseLocks(s.cells, id))
  }

  function BufferSection(s: State, id: nat, k: nat, v: Value): (State, bool)
    requires s.IsTx(id)
  {
    var t := s.txs[id];
    var i := FindWrite(t.writes, k);
    if i < |t.writes| then
      (s.(txs := s.txs[id := t.(writes := t.writes[i := Write(k, v)])]), true)
    else if |t.writes| >= s.maxWrites then
      (s, false)
    else
      (s.(txs := s.txs[id := t.(writes := t.writes + [Write(k, v)])]), true)
  }

  function InstallSection(s: State, id: nat, ts: nat): State
    requires s.IsTx(id)
  {
    s.(cells := ReleaseLocks(InstallAll(s.cells, s.txs[id].writes, ts), id),
       waits := DropAll(s.waits, id),
       txs := s.txs[id := s.txs[id].(state := Committed)])
  }

  function AbortSection(s: State, id: nat): State
    requires s.IsTx(id)
  {
    s.(cells := ReleaseLocks(s.cells, id),
       waits := DropAll(s.waits, id),
       txs := s.txs[id := s.txs[id].(state := Aborted, writes := [])])
  }

  // ----- reading

  /** `id` is active and has not written `k`, so it reads `k` from the version chain. */
  predicate ReadsChain(s: State, id: nat, k: nat) {
    s.IsActive(id) && s.IsKey(k) && !Writes(s.txs[id].writes, k)
  }

  /** The begin timestamp of the version such a read returns; 0 if it finds none. */
  function SeenAt(s: State, id: nat, k: nat): nat
    requires ReadsChain(s, id, k)
  {
    match Scan(s.cells[k].versions, s.txs[id].start)
    case None => 0
    case Some(v) => v.begin
  }

  // ----- the API, each call taken as one step; an id out of range is the null transaction

  function BeginTx(s: State, id: int): State {
    if s.IsTx(id) then BeginSection(s, id) else s
  }

  function ReadTx(s: State, id: int, k: int): Option<Value> {
    if !s.IsActive(id) || !s.IsKey(k) then None
    else
      var i := FindWrite(s.txs[id].writes, k);
      if i < |s.txs[id].writes| then Some(s.txs[id].writes[i].value)
      else match Scan(s.cells[k].versions, s.txs[id].start)
        case None => None
        case Some(v) => Some(v.value)
  }

  ghost function WriteTx(s: State, id: int, k: int, v: Value): (State, WriteResult) {
    if !s.IsActive(id) || !s.IsKey(k) then (s, Refused)
    else
      var (s1, lock) := AcquireSection(s, id, k);
      match lock
      case Deadlock => (CleanupSection(MarkAborted(s1, id), id), Refused)
      case Blocked => (s1, Waiting)
      case Acquired =>
        var (s2, ok) := BufferSection(s1, id, k, v);
        (s2, if ok then Buffered else Refused)
  }

  function CommitTx(s: State, id: int): (State, bool) {
    if !s.IsActive(id) then (s, false)
    else (InstallSection(s.(ts := s.ts + 1), id, s.ts), true)
  }

  function AbortTx(s: State, id: int): State {
    if s.IsTx(id) then AbortSection(s, id) else s
  }
}
