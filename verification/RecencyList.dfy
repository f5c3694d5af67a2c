/** The cache's recency list: nodes linked both ways through their own fields. */
module RecencyList {
  class Node {
    const key: string
    const buffer: nat
    /** The number of the request that made the node. */
    ghost const id: nat
    var prev: Node?
    var next: Node?

    constructor (key: string, buffer: nat, ghost id: nat)
      ensures this.key == key && this.buffer == buffer && this.id == id
    {
      this.key, this.buffer, this.id := key, buffer, id;
      prev, next := null, null;
    }
  }

  datatype Links = Links(prev: Node?, next: Node?)

  type Memory = map<Node, Links>

  ghost predicate Distinct(items: seq<Node>) {
    forall i, j :: 0 <= i < j < |items| ==> items[i] != items[j]
  }

  ghost function At(items: seq<Node>, i: int): Node? {
    if 0 <= i < |items| then items[i] else null
  }

  /** The links at place `i` agree with the list. */
  ghost predicate LinkedAt(m: Memory, items: seq<Node>, i: int)
    requires 0 <= i < |items|
  {
    items[i] in m && m[items[i]] == Links(At(items, i - 1), At(items, i + 1))
  }

  ghost predicate Linked(m: Memory, items: seq<Node>) {
    && Distinct(items)
    && (forall i :: 0 <= i < |items| ==> LinkedAt(m, items, i))
    && (forall r :: r in m ==> r in items)
  }

  // ----- what the pointer updates do to the links

  ghost function Pushed(m: Memory, head: Node?, node: Node): Memory
    requires head != null ==> head in m
  {
    var m1 := m[node := Links(null, head)];
    if head == null then m1 else m1[head := Links(node, m1[head].next)]
  }

  lemma PushedLinked(m: Memory, items: seq<Node>, node: Node)
    requires Linked(m, items) && node !in items
    requires At(items, 0) != null ==> At(items, 0) in m
    ensures Linked(Pushed(m, At(items, 0), node), [node] + items)
  {
    var r, m' := [node] + items, Pushed(m, At(items, 0), node);
    forall i | 0 <= i < |r|
      ensures LinkedAt(m', r, i)
    {
      if i > 0 {
        assert r[i] == items[i - 1] && LinkedAt(m, items, i - 1);
        assert At(r, i + 1) == At(items, i);
      }
    }
  }

  ghost function Dropped(m: Memory, lru: Node): Memory
    requires lru in m && (m[lru].prev != null ==> m[lru].prev in m)
  {
    var p := m[lru].prev;
    (if p == null then m else m[p := Links(m[p].prev, null)]) - {lru}
  }

  lemma DroppedLinked(m: Memory, items: seq<Node>)
    requires Linked(m, items) && items != []
    ensures var lru := items[|items| - 1];
            && lru in m && m[lru] == Links(At(items, |items| - 2), null)
            && (m[lru].prev != null ==> m[lru].prev in m)
            && Linked(Dropped(m, lru), items[..|items| - 1])
  {
    var n := |items| - 1;
    var r := items[..n];
    assert LinkedAt(m, items, n);
    assert n > 0 ==> LinkedAt(m, items, n - 1);
    var m' := Dropped(m, items[n]);
    forall i | 0 <= i < |r|
      ensures LinkedAt(m', r, i)
    {
      assert LinkedAt(m, items, i);
      assert At(r, i - 1) == At(items, i - 1);
      assert i < |r| - 1 ==> At(r, i + 1) == At(items, i + 1);
    }
    forall x | x in m'
      ensures x in r
    {
      assert items == r + [items[n]];
    }
  }

  /** Taking `node` out of the middle. */
  ghost function Cut(m: Memory, node: Node): Memory
    requires node in m && (m[node].prev != null ==> m[node].prev in m) && (m[node].next != null ==> m[node].next in m)
  {
    var p, q := m[node].prev, m[node].next;
    var m1 := if p == null then m else m[p := Links(m[p].prev, q)];
    (if q == null then m1 else m1[q := Links(p, m1[q].next)]) - {node}
  }

  /** `items` without the element at `k`. */
  ghost function OmitAt<T>(items: seq<T>, k: nat): (r: seq<T>)
    requires k < |items|
    ensures |r| == |items| - 1
    ensures forall i :: 0 <= i < |r| ==> r[i] == items[if i < k then i else i + 1]
  {
    items[..k] + items[k + 1..]
  }

  lemma CutAround(m: Memory, items: seq<Node>, k: nat)
    requires Linked(m, items) && 0 < k < |items|
    ensures var node := items[k];
            && node in m && m[node] == Links(items[k - 1], At(items, k + 1))
            && items[k - 1] in m && (m[node].next != null ==> m[node].next in m)
            && items[k - 1] != node && At(items, k + 1) != node
  {
    assert LinkedAt(m, items, k) && LinkedAt(m, items, k - 1);
    assert k + 1 < |items| ==> LinkedAt(m, items, k + 1);
  }

  lemma CutEnds(items: seq<Node>, k: nat)
    requires Distinct(items) && 0 < k < |items|
    ensures var r := OmitAt(items, k);
            && At(r, 0) == At(items, 0)
            && At(r, |r| - 1) == if At(items, |items| - 1) == items[k] then items[k - 1] else At(items, |items| - 1)
  {
  }

  lemma CutLinkedAt(m: Memory, items: seq<Node>, k: nat, i: nat)
    requires Linked(m, items) && 0 < k < |items| && i < |items| - 1
    requires items[k] in m && m[items[k]] == Links(items[k - 1], At(items, k + 1))
    requires items[k - 1] in m && (m[items[k]].next != null ==> m[items[k]].next in m)
    ensures LinkedAt(Cut(m, items[k]), OmitAt(items, k), i)
  {
    var r, j := OmitAt(items, k), if i < k then i else i + 1;
    assert LinkedAt(m, items, j) && r[i] == items[j];
    assert At(r, i - 1) == if i == k then items[k - 1] else At(items, j - 1);
    assert At(r, i + 1) == if i == k - 1 then At(items, k + 1) else At(items, j + 1);
  }

  lemma CutLinked(m: Memory, items: seq<Node>, k: nat)
    requires Linked(m, items) && 0 < k < |items|
    requires items[k] in m && m[items[k]] == Links(items[k - 1], At(items, k + 1))
    requires items[k - 1] in m && (m[items[k]].next != null ==> m[items[k]].next in m)
    ensures Linked(Cut(m, items[k]), OmitAt(items, k))
  {
    var r, m' := OmitAt(items, k), Cut(m, items[k]);
    forall i | 0 <= i < |r|
      ensures LinkedAt(m', r, i)
    {
      CutLinkedAt(m, items, k, i);
    }
    forall x | x in m'
      ensures x in r
    {
      var j :| 0 <= j < |items| && items[j] == x;
      assert r[if j < k then j else j - 1] == x;
    }
  }

  class List {
    var head: Node?
    var tail: Node?
    /** The list from front to back, and its nodes. */
    ghost var items: seq<Node>
    ghost var nodes: set<Node>

    ghost function Snap(): Memory
      reads this`nodes, nodes
    {
      map r | r in nodes :: Links(r.prev, r.next)
    }

    /** A well-formed doubly linked list of exactly `nodes`, with both ends known. */
    ghost predicate Valid()
      reads this, nodes
    {
      Linked(Snap(), items) && head == At(items, 0) && tail == At(items, |items| - 1)
    }

    constructor ()
      ensures Valid() && items == [] && nodes == {}
    {
      head, tail, items, nodes := null, null, [], {};
    }

    /** Where the links of a list element lead. */
    lemma Neighbours(i: nat)
      requires Valid() && i < |items|
      ensures items[i] in nodes && items[i].prev == At(items, i - 1) && items[i].next == At(items, i + 1)
    {
      assert LinkedAt(Snap(), items, i);
    }

    /** addtofront */
    method AddToFront(node: Node)
      requires Valid() && node !in nodes
      modifies this, nodes, node
      ensures Valid() && items == [node] + old(items) && nodes == old(nodes) + {node}
    {
      ghost var m, was := Snap(), items;
      if was != [] {
        Neighbours(0);
      }
      assert node !in was by {
        if node in was {
          var i :| 0 <= i < |was| && was[i] == node;
          Neighbours(i);
        }
      }
      PushedLinked(m, was, node);
      ghost var h := head;
      node.prev := null;
      node.next := head;
      if head != null {
        head.prev := node;
      }
      head := node;
      if tail == null {
        tail := node;
      }
      nodes := nodes + {node};
      items := [node] + was;
      assert Snap() == Pushed(m, h, node);
    }

    /** removelru: detaches and returns the last node, if any. */
    method RemoveLru() returns (lru: Node?)
      requires Valid()
      modifies this, nodes
      ensures Valid()
      ensures old(items) == [] ==> lru == null && items == [] && nodes == old(nodes)
      ensures old(items) != [] ==>
                && lru == old(items[|items| - 1]) && items == old(items[..|items| - 1])
                && nodes == old(nodes) - {lru} && lru.next == null
    {
      if tail == null {
        return null;
      }
      ghost var m, was := Snap(), items;
      Neighbours(|was| - 1);
      DroppedLinked(m, was);
      lru := tail;
      if lru.prev != null {
        lru.prev.next := null;
      } else {
        head := null;
      }
      tail := lru.prev;
      nodes := nodes - {lru};
      items := was[..|was| - 1];
      assert Snap() == Dropped(m, lru);
    }

    /** The pointer updates that take `node` out of its neighbours' links. */
    method Bypass(node: Node)
      requires node in nodes && node.prev != node && node.next != node
      requires (node.prev != null ==> node.prev in nodes) && (node.next != null ==> node.next in nodes)
      modifies nodes
      ensures node.prev == old(node.prev)
      ensures Snap() - {node} == Cut(old(Snap()), node)
    {
      if node.prev != null {
        node.prev.next := node.next;
      }
      if node.next != null {
        node.next.prev := node.prev;
      }
    }

    /** The first half of movetofront: closes the gap around a node that is not the head. */
    method Detach(node: Node, ghost k: nat)
      requires Valid() && 0 < k < |items| && items[k] == node
      modifies this, nodes
      ensures Valid() && items == OmitAt(old(items), k) && nodes == old(nodes) - {node}
    {
      ghost var m, was := Snap(), items;
      Neighbours(k);
      CutAround(m, was, k);
      CutLinked(m, was, k);
      CutEnds(was, k);
      Bypass(node);
      if tail == node {
        tail := node.prev;
      }
      ghost var rest := Snap() - {node};
      nodes := nodes - {node};
      items := OmitAt(was, k);
      assert Snap() == rest;
    }

    /** movetofront */
    method MoveToFront(node: Node, ghost k: nat)
      requires Valid() && k < |items| && items[k] == node
      modifies this, nodes
      ensures Valid() && items == [node] + OmitAt(old(items), k) && nodes == old(nodes)
    {
      Neighbours(k);
      if head == node {
        assert k == 0;
        assert items == [node] + OmitAt(items, 0);
        return;
      }
      Detach(node, k);
      AddToFront(node);
    }
  }
}
