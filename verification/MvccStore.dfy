/** The store as the program keeps it: the table of keys with their linked versions, an array of transactions and a
    wait-for matrix, updated in place. Every API call is shown to be the step of the same name in `MvccModel`. */
module MvccStore {
  import opened Options
  import opened DeadlockDetector
  import opened KeyTable
  import opened MvccModel
  import opened MvccLog
  import opened MvccSections
  import opened MvccAtomic

  class Store {
    const table: Table
    const txs: array<Tx>
    const waitFor: array2<bool>
    const maxWrites: nat
    var globalTs: nat

    /** The commits made so far, in order. */
    ghost var log: seq<Entry>
    /** What the table holds, as the model has it. */
    ghost var cells: seq<Cell>

    ghost predicate Shape()
      reads this`cells, table, table.rows, table.nodes
    {
      waitFor.Length0 == waitFor.Length1 == txs.Length && table.Holds(cells)
    }

    ghost function View(): State
      requires Shape()
      reads this, table, table.rows, table.nodes, txs, waitFor
    {
      State(cells, txs[..], EdgesOf(waitFor), globalTs, maxWrites)
    }

    ghost function Past(): History
      requires Shape()
      reads this, table, table.rows, table.nodes, txs, waitFor
    {
      History(View(), log)
    }

    /** The invariant that `MvccAtomic` proves of every run of calls. */
    ghost predicate Valid()
      reads this, table, table.rows, table.nodes, txs, waitFor
    {
      Shape() && CallInv(Past())
    }

    constructor (keys: nat, transactions: nat, writes: nat)
      ensures Valid()
      ensures Past() == History(Init(keys, transactions, writes), [])
      ensures fresh(table) && fresh(table.rows) && fresh(table.nodes) && fresh(txs) && fresh(waitFor)
    {
      table := new Table(keys);
      txs := new Tx[transactions](_ => Tx(Unused, 0, []));
      waitFor := new bool[transactions, transactions]((_, _) => false);
      maxWrites := writes;
      globalTs := INITIAL_TS;
      log, cells := [], seq(keys, _ => Cell(InitialChain(), None));
      new;
      table.InitStore();
      assert txs[..] == seq(transactions, _ => Tx(Unused, 0, []));
      assert EdgesOf(waitFor) == {};
      assert Past() == History(Init(keys, transactions, writes), []);
      InitCallInv(keys, transactions, writes);
    }

    method ClearOut(id: nat)
      requires Shape() && id < txs.Length
      modifies waitFor
      ensures EdgesOf(waitFor) == DropOut(old(EdgesOf(waitFor)), id)
    {
      var j := 0;
      while j < txs.Length
        invariant j <= txs.Length
        invariant forall a: nat, b: nat :: a < txs.Length && b < txs.Length ==>
                    waitFor[a, b] == (old(waitFor[a, b]) && !(a == id && b < j))
      {
        waitFor[id, j] := false;
        j := j + 1;
      }
    }

    method ClearAll(id: nat)
      requires Shape() && id < txs.Length
      modifies waitFor
      ensures EdgesOf(waitFor) == DropAll(old(EdgesOf(waitFor)), id)
    {
      var j := 0;
      while j < txs.Length
        invariant j <= txs.Length
        invariant forall a: nat, b: nat :: a < txs.Length && b < txs.Length ==>
                    waitFor[a, b] == (old(waitFor[a, b]) && !(a == id && b < j) && !(b == id && a < j))
      {
        waitFor[id, j] := false;
        waitFor[j, id] := false;
        j := j + 1;
      }
    }

    method BeginTransaction(id: int) returns (ok: bool)
      requires Valid()
      modifies this`globalTs, txs, waitFor
      ensures Valid() && Past() == Do(old(Past()), BeginCall(id))
      ensures ok <==> 0 <= id < txs.Length
    {
      DoKeepsInv(Past(), BeginCall(id));
      if id < 0 || id >= txs.Length {
        return false;
      }
      txs[id] := Tx(Active, globalTs, []);
      globalTs := globalTs + 1;
      ClearAll(id);
      return true;
    }

    method TryAcquireLock(id: nat, k: nat) returns (r: LockResult)
      requires Shape() && id < txs.Length && k < table.rows.Length
      requires table.rows[k].lockedBy.Some? ==> table.rows[k].lockedBy.value < txs.Length
      modifies this`cells, table.rows, waitFor
      ensures Shape() && View() == AcquireSection(old(View()), id, k).0
      ensures r == AcquireSection(old(View()), id, k).1
    {
      var owner := table.rows[k].lockedBy;
      if owner == None || owner == Some(id) {
        table.SetLock(k, Some(id), cells);
        cells := cells[k := cells[k].(lockedBy := Some(id))];
        ClearOut(id);
        r := Acquired;
        assert View() == AcquireSection(old(View()), id, k).0;
      } else {
        waitFor[id, owner.value] := true;
        assert EdgesOf(waitFor) == old(EdgesOf(waitFor)) + {(id, owner.value)};
        assert View() == AcquireSection(old(View()), id, k).0;
        var cycle := DetectDeadlock(waitFor);
        r := if cycle then Deadlock else Blocked;
      }
    }

    method Read(id: int, k: int) returns (r: Option<Value>)
      requires Valid()
      ensures r == ReadTx(View(), id, k)
    {
      if !(0 <= id < txs.Length) || !txs[id].state.Active? || !(0 <= k < table.rows.Length) {
        return None;
      }
      var t := txs[id];
      var i := LookUpWrite(t.writes, k);
      if i < |t.writes| {
        return Some(t.writes[i].value);
      }
      r := table.FindVersion(k, t.start, cells);
    }

    static method LookUpWrite(writes: seq<Write>, k: nat) returns (i: nat)
      ensures i == FindWrite(writes, k)
    {
      i := 0;
      while i < |writes|
        invariant i <= |writes|
        invariant forall j :: 0 <= j < i ==> writes[j].key != k
      {
        if writes[i].key == k {
          return;
        }
        i := i + 1;
      }
    }

    /** Gives up every lock and every wait. */
    method LetGo(id: nat)
      requires Shape() && id < txs.Length
      modifies this`cells, table.rows, waitFor
      ensures Shape() && View() == CleanupSection(old(View()), id)
    {
      table.ReleaseAll(id, cells);
      cells := ReleaseLocks(cells, id);
      ClearAll(id);
    }

    /** The end of a write that is told of a deadlock. */
    method GiveUp(id: nat)
      requires Shape() && id < txs.Length
      modifies this`cells, table.rows, txs, waitFor
      ensures Shape() && View() == CleanupSection(MarkAborted(old(View()), id), id)
    {
      txs[id] := txs[id].(state := Aborted);
      LetGo(id);
    }

    /** The end of a write that has its lock. */
    method BufferWrite(id: nat, k: nat, v: Value) returns (ok: bool)
      requires Shape() && id < txs.Length
      modifies txs
      ensures Shape() && (View(), ok) == BufferSection(old(View()), id, k, v)
    {
      var t := txs[id];
      var i := LookUpWrite(t.writes, k);
      if i < |t.writes| {
        txs[id] := t.(writes := t.writes[i := Write(k, v)]);
        return true;
      }
      if |t.writes| >= maxWrites {
        return false;
      }
      txs[id] := t.(writes := t.writes + [Write(k, v)]);
      return true;
    }

    method WriteKey(id: int, k: int, v: Value) returns (r: WriteResult)
      requires Valid()
      modifies this`cells, table.rows, txs, waitFor
      ensures Valid() && Past() == Do(old(Past()), WriteCall(id, k, v))
      ensures r == WriteTx(old(View()), id, k, v).1
    {
      DoKeepsInv(Past(), WriteCall(id, k, v));
      if !(0 <= id < txs.Length) || !txs[id].state.Active? || !(0 <= k < table.rows.Length) {
        return Refused;
      }
      assert OwnerOk(Quiet(Past()), View().cells[k].lockedBy);
      var lock := TryAcquireLock(id, k);
      if lock.Deadlock? {
        GiveUp(id);
        return Refused;
      } else if lock.Blocked? {
        return Waiting;
      }
      var ok := BufferWrite(id, k, v);
      return if ok then Buffered else Refused;
    }

    /** What tx_commit does under the lock. */
    method Settle(id: nat, commitTs: nat)
      requires Shape() && id < txs.Length
      requires forall i :: 0 <= i < |txs[id].writes| ==> txs[id].writes[i].key < |cells|
      modifies this`cells, table, table.rows, table.nodes, txs, waitFor
      ensures Shape() && fresh(table.nodes - old(table.nodes))
      ensures View() == InstallSection(old(View()), id, commitTs)
      ensures txs[id] == old(txs[id]).(state := Committed)
    {
      table.InstallWrites(txs[id].writes, commitTs, cells);
      cells := InstallAll(cells, txs[id].writes, commitTs);
      LetGo(id);
      txs[id] := txs[id].(state := Committed);
    }

    /** An active transaction draws its timestamp and commits. */
    method CommitActive(id: nat)
      requires Shape() && View().IsActive(id)
      requires forall i :: 0 <= i < |txs[id].writes| ==> txs[id].writes[i].key < |cells|
      modifies this, table, table.rows, table.nodes, txs, waitFor
      ensures Shape() && fresh(table.nodes - old(table.nodes))
      ensures Past() == Do(old(Past()), CommitCall(id))
    {
      var commitTs := globalTs;
      globalTs := globalTs + 1;
      assert View() == old(View()).(ts := commitTs + 1);
      Settle(id, commitTs);
      log := log + [Entry(id, txs[id].start, commitTs, txs[id].writes)];
    }

    method Commit(id: int) returns (ok: bool)
      requires Valid()
      modifies this, table, table.rows, table.nodes, txs, waitFor
      ensures Valid() && fresh(table.nodes - old(table.nodes))
      ensures Past() == Do(old(Past()), CommitCall(id))
      ensures ok <==> old(View()).IsActive(id)
    {
      DoKeepsInv(Past(), CommitCall(id));
      if !(0 <= id < txs.Length) || !txs[id].state.Active? {
        return false;
      }
      assert ThreadOk(Quiet(Past()), id);
      CommitActive(id);
      return true;
    }

    method AbortTransaction(id: int)
      requires Valid()
      modifies this`cells, table.rows, txs, waitFor
      ensures Valid() && Past() == Do(old(Past()), AbortCall(id))
    {
      DoKeepsInv(Past(), AbortCall(id));
      if !(0 <= id < txs.Length) {
        return;
      }
      LetGo(id);
      txs[id] := txs[id].(state := Aborted, writes := []);
    }
  }
}
