/** The keys of the store as the program keeps them: an array of rows, each with a linked list of versions,
    newest first, and the owner of the write lock. */
module KeyTable {
  import opened Options
  import opened MvccModel

  class VersionNode {
    const value: Value
    const begin: nat
    var end: End
    const next: VersionNode?
    /** The key whose version this is, and how many older ones there are. */
    ghost const key: nat
    ghost const rank: nat

    constructor (value: Value, begin: nat, next: VersionNode?, ghost key: nat, ghost rank: nat)
      ensures this.value == value && this.begin == begin && end == Infinity && this.next == next
      ensures this.key == key && this.rank == rank
    {
      this.value, this.begin, this.end, this.next := value, begin, Infinity, next;
      this.key, this.rank := key, rank;
    }

    ghost function View(): Version
      reads this
    {
      Version(value, begin, end)
    }
  }

  datatype Row = Row(head: VersionNode?, lockedBy: Option<nat>)

  /** `chain` are the versions of key `k` along the links from `head`. */
  ghost predicate Linked(head: VersionNode?, chain: seq<VersionNode>, k: nat) {
    && head == (if chain == [] then null else chain[0])
    && forall i :: 0 <= i < |chain| ==>
                     && chain[i].key == k && chain[i].rank == |chain| - 1 - i
                     && chain[i].next == (if i + 1 < |chain| then chain[i + 1] else null)
  }

  ghost function Versions(chain: seq<VersionNode>): (vs: seq<Version>)
    reads chain
    ensures |vs| == |chain| && forall i :: 0 <= i < |chain| ==> vs[i] == chain[i].View()
  {
    if chain == [] then [] else [chain[0].View()] + Versions(chain[1..])
  }

  lemma Successor(head: VersionNode?, chain: seq<VersionNode>, k: nat, i: nat)
    requires Linked(head, chain, k) && i < |chain|
    ensures chain[i].next == if i + 1 < |chain| then chain[i + 1] else null
  {
  }

  lemma Grown(chain: seq<VersionNode>, newv: VersionNode, k: nat)
    requires Linked(newv.next, chain, k) && newv.key == k && newv.rank == |chain|
    ensures Linked(newv, [newv] + chain, k)
  {
    var longer := [newv] + chain;
    forall i | 0 <= i < |longer|
      ensures longer[i].key == k && longer[i].rank == |longer| - 1 - i
      ensures longer[i].next == if i + 1 < |longer| then longer[i + 1] else null
    {
      assert i > 0 ==> longer[i] == chain[i - 1];
      assert i + 1 < |longer| ==> longer[i + 1] == chain[i];
      if i > 0 {
        Successor(newv.next, chain, k, i - 1);
      }
    }
  }

  function Retired(versions: seq<Version>, ts: nat): seq<Version> {
    if versions == [] then [] else [versions[0].(end := At(ts))] + versions[1..]
  }

  lemma RetiredPush(versions: seq<Version>, value: Value, ts: nat)
    ensures Push(versions, value, ts) == [Version(value, ts, Infinity)] + Retired(versions, ts)
  {
  }

  class Table {
    const rows: array<Row>
    ghost var chains: seq<seq<VersionNode>>
    ghost var nodes: set<VersionNode>

    ghost predicate Wired()
      reads this, rows
    {
      && |chains| == rows.Length
      && (forall k :: 0 <= k < rows.Length ==> Linked(rows[k].head, chains[k], k))
      && (forall k, x :: 0 <= k < rows.Length && x in chains[k] ==> x in nodes)
    }

    ghost function CellAt(k: nat): Cell
      requires Wired() && k < rows.Length
      reads this, rows, nodes
    {
      Cell(Versions(chains[k]), rows[k].lockedBy)
    }

    /** The rows and their versions are the model's `cells`. */
    ghost predicate Holds(cells: seq<Cell>)
      reads this, rows, nodes
    {
      Wired() && |cells| == rows.Length && forall k :: 0 <= k < rows.Length ==> cells[k] == CellAt(k)
    }

    constructor (keys: nat)
      ensures fresh(rows) && nodes == {} && Holds(seq(keys, _ => Cell([], None)))
    {
      rows := new Row[keys](_ => Row(null, None));
      chains, nodes := seq(keys, _ => []), {};
    }

    /** Retires the head of key `k` at `ts`. */
    method Retire(k: nat, ts: nat, ghost cells: seq<Cell>)
      requires Holds(cells) && k < |cells|
      modifies nodes
      ensures Holds(cells[k := cells[k].(versions := Retired(cells[k].versions, ts))])
    {
      var head := rows[k].head;
      if head != null {
        head.end := At(ts);
      }
      assert forall j, i :: 0 <= j < rows.Length && 0 <= i < |chains[j]| && (j != k || i > 0) ==>
                              chains[j][i] != head;
      forall j | 0 <= j < rows.Length && j != k
        ensures CellAt(j) == cells[j]
      {
        assert Versions(chains[j]) == old(Versions(chains[j]));
      }
      assert Versions(chains[k]) == Retired(cells[k].versions, ts);
    }

    /** Puts a new node in front of the versions of key `k`. */
    method Attach(k: nat, newv: VersionNode, ghost cells: seq<Cell>)
      requires Holds(cells) && k < |cells| && newv !in nodes
      requires newv.next == rows[k].head && newv.key == k && newv.rank == |chains[k]|
      modifies this, rows
      ensures nodes == old(nodes) + {newv}
      ensures Holds(cells[k := cells[k].(versions := [newv.View()] + cells[k].versions)])
    {
      ghost var chain := chains[k];
      Grown(chain, newv, k);
      rows[k] := rows[k].(head := newv);
      chains := chains[k := [newv] + chain];
      nodes := nodes + {newv};
      assert Versions([newv] + chain) == [newv.View()] + cells[k].versions;
      forall j | 0 <= j < rows.Length && j != k
        ensures CellAt(j) == cells[j]
      {
        assert Versions(chains[j]) == old(Versions(chains[j]));
      }
    }

    /** The new head of key `k`; the old one is retired at `ts`. */
    method PushVersion(k: nat, value: Value, ts: nat, ghost cells: seq<Cell>)
      requires Holds(cells) && k < |cells|
      modifies this, rows, nodes
      ensures fresh(nodes - old(nodes))
      ensures Holds(cells[k := cells[k].(versions := Push(cells[k].versions, value, ts))])
    {
      RetiredPush(cells[k].versions, value, ts);
      ghost var retired := cells[k := cells[k].(versions := Retired(cells[k].versions, ts))];
      Retire(k, ts, cells);
      var newv := new VersionNode(value, ts, rows[k].head, k, |chains[k]|);
      assert newv.View() == Version(value, ts, Infinity);
      Attach(k, newv, retired);
      assert retired[k := retired[k].(versions := [Version(value, ts, Infinity)] + retired[k].versions)] ==
             cells[k := cells[k].(versions := Push(cells[k].versions, value, ts))];
    }

    /** init_store: every key gets its initial version. */
    method InitStore()
      requires Holds(seq(rows.Length, _ => Cell([], None)))
      modifies this, rows, nodes
      ensures fresh(nodes - old(nodes))
      ensures Holds(seq(rows.Length, _ => Cell(InitialChain(), None)))
    {
      var k := 0;
      ghost var cells := seq(rows.Length, _ => Cell([], None));
      while k < rows.Length
        invariant k <= rows.Length == |cells| && Holds(cells) && fresh(nodes - old(nodes))
        invariant forall j :: 0 <= j < |cells| ==> cells[j] == Cell(if j < k then InitialChain() else [], None)
      {
        PushVersion(k, INITIAL_VALUE, INITIAL_TS, cells);
        cells := cells[k := Cell(InitialChain(), None)];
        k := k + 1;
      }
      assert cells == seq(rows.Length, _ => Cell(InitialChain(), None));
    }

    method SetLock(k: nat, owner: Option<nat>, ghost cells: seq<Cell>)
      requires Holds(cells) && k < |cells|
      modifies rows
      ensures Holds(cells[k := cells[k].(lockedBy := owner)])
    {
      rows[k] := rows[k].(lockedBy := owner);
      assert forall j :: 0 <= j < rows.Length && j != k ==> CellAt(j) == old(CellAt(j));
    }

    /** Frees every lock of `id`. */
    method ReleaseAll(id: nat, ghost cells: seq<Cell>)
      requires Holds(cells)
      modifies rows
      ensures Holds(ReleaseLocks(cells, id))
    {
      var i := 0;
      ghost var now := cells;
      while i < rows.Length
        invariant i <= rows.Length == |now| && Holds(now)
        invariant forall k :: 0 <= k < |now| ==> now[k] == if k < i then Unlock(cells[k], id) else cells[k]
      {
        if rows[i].lockedBy == Some(id) {
          SetLock(i, None, now);
          now := now[i := now[i].(lockedBy := None)];
        }
        i := i + 1;
      }
      assert now == ReleaseLocks(cells, id);
    }

    /** The walk of a reader along the versions of key `k`. */
    method FindVersion(k: nat, start: nat, ghost cells: seq<Cell>) returns (r: Option<Value>)
      requires Holds(cells) && k < |cells|
      ensures var v := Scan(cells[k].versions, start); r == if v.Some? then Some(v.value.value) else None
    {
      var v := rows[k].head;
      ghost var chain, j := chains[k], 0;
      while v != null
        invariant 0 <= j <= |chain| && v == (if j < |chain| then chain[j] else null)
        invariant Scan(Versions(chain), start) == Scan(Versions(chain)[j..], start)
        decreases |chain| - j
      {
        if v.begin <= start && (v.end.Infinity? || start < v.end.ts) {
          return Some(v.value);
        }
        assert Versions(chain)[j..][1..] == Versions(chain)[j + 1..];
        Successor(rows[k].head, chain, k, j);
        v, j := v.next, j + 1;
      }
      return None;
    }

    /** The loop over the write buffer in tx_commit. */
    method InstallWrites(writes: seq<Write>, commitTs: nat, ghost cells: seq<Cell>)
      requires Holds(cells) && forall i :: 0 <= i < |writes| ==> writes[i].key < |cells|
      modifies this, rows, nodes
      ensures fresh(nodes - old(nodes))
      ensures Holds(InstallAll(cells, writes, commitTs))
    {
      var i := 0;
      while i < |writes|
        invariant i <= |writes| && fresh(nodes - old(nodes))
        invariant Holds(InstallAll(cells, writes[..i], commitTs))
      {
        assert writes[..i + 1][..i] == writes[..i];
        PushVersion(writes[i].key, writes[i].value, commitTs, InstallAll(cells, writes[..i], commitTs));
        i := i + 1;
      }
      assert writes[..|writes|] == writes;
    }
  }
}
