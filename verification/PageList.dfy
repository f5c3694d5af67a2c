/** The singly linked lists of pages that the ARC simulation keeps. */
module PageList {
  import opened Paging

  class PageNode {
    const page: int
    var next: PageNode?
    /** The list the node was made for. */
    ghost const owner: List

    constructor (page: int, next: PageNode?, ghost owner: List)
      ensures this.page == page && this.next == next && this.owner == owner
    {
      this.page, this.next, this.owner := page, next, owner;
    }
  }

  ghost function NodeAt(nodes: seq<PageNode>, i: int): PageNode? {
    if 0 <= i < |nodes| then nodes[i] else null
  }

  ghost function PagesOf(nodes: seq<PageNode>): (r: seq<int>)
    ensures |r| == |nodes| && forall i :: 0 <= i < |r| ==> r[i] == nodes[i].page
  {
    seq(|nodes|, i requires 0 <= i < |nodes| => nodes[i].page)
  }

  lemma PagesCut(nodes: seq<PageNode>, k: nat)
    requires k < |nodes|
    ensures PagesOf(nodes[..k] + nodes[k + 1..]) == PagesOf(nodes)[..k] + PagesOf(nodes)[k + 1..]
  {
  }

  /** The link at place `i` leads to the next node. */
  ghost predicate Follows(nodes: seq<PageNode>, i: int)
    requires 0 <= i < |nodes|
    reads nodes
  {
    nodes[i].next == NodeAt(nodes, i + 1)
  }

  ghost predicate LinksTo(nodes: seq<PageNode>, links: seq<PageNode?>, i: int)
    requires 0 <= i < |nodes| == |links|
  {
    links[i] == NodeAt(nodes, i + 1)
  }

  class List {
    var head: PageNode?
    /** The nodes from front to back. */
    ghost var nodes: seq<PageNode>

    ghost predicate Valid()
      reads this, nodes
    {
      && head == NodeAt(nodes, 0)
      && (forall i :: 0 <= i < |nodes| ==> Follows(nodes, i))
      && (forall x :: x in nodes ==> x.owner == this)
    }

    ghost function Pages(): seq<int>
      reads this`nodes
    {
      PagesOf(nodes)
    }

    constructor ()
      ensures Valid() && nodes == []
    {
      head, nodes := null, [];
    }

    /** contains */
    method Contains(page: int) returns (found: bool)
      requires Valid()
      ensures found <==> page in Pages()
    {
      var cur := head;
      ghost var i := 0;
      while cur != null
        invariant 0 <= i <= |nodes| && cur == NodeAt(nodes, i)
        invariant forall k :: 0 <= k < i ==> Pages()[k] != page
        decreases |nodes| - i
      {
        if cur.page == page {
          assert Pages()[i] == page;
          return true;
        }
        assert Follows(nodes, i);
        cur := cur.next;
        i := i + 1;
      }
      return false;
    }

    /** length */
    method Length() returns (len: nat)
      requires Valid()
      ensures len == |Pages()|
    {
      len := 0;
      var cur := head;
      while cur != null
        invariant 0 <= len <= |nodes| && cur == NodeAt(nodes, len)
        decreases |nodes| - len
      {
        assert Follows(nodes, len);
        len := len + 1;
        cur := cur.next;
      }
    }

    /** addToFront */
    method AddToFront(page: int)
      requires Valid()
      modifies this
      ensures Valid() && Pages() == [page] + old(Pages())
      ensures |nodes| > 0 && fresh(nodes[0]) && nodes[1..] == old(nodes)
    {
      ghost var was := nodes;
      var node := new PageNode(page, head, this);
      head := node;
      nodes := [node] + was;
      forall i | 0 <= i < |nodes|
        ensures Follows(nodes, i)
      {
        if i > 0 {
          assert nodes[i] == was[i - 1] && old(Follows(was, i - 1));
        }
      }
    }

    /** A chain that ends visits no node twice. */
    lemma {:induction false} Distinct(i: nat, j: nat)
      requires Valid() && i < j < |nodes|
      ensures nodes[i] != nodes[j]
      decreases |nodes| - j
    {
      assert Follows(nodes, i) && Follows(nodes, j);
      if j + 1 < |nodes| && nodes[i] == nodes[j] {
        Distinct(i + 1, j + 1);
      }
    }

    /** The links around place `k` after it was bypassed, seen at place `i` of the shorter list; `links` are those before. */
    lemma Closed(was: seq<PageNode>, links: seq<PageNode?>, k: nat, i: nat)
      requires k < |was| == |links| && nodes == was[..k] + was[k + 1..] && i < |nodes|
      requires forall j :: 0 <= j < |was| ==> LinksTo(was, links, j)
      requires forall j :: 0 <= j < |was| && j != k - 1 ==> was[j].next == links[j]
      requires k > 0 ==> was[k - 1].next == NodeAt(was, k + 1)
      ensures Follows(nodes, i)
    {
      var j := if i < k then i else i + 1;
      assert nodes[i] == was[j] && LinksTo(was, links, j);
      assert NodeAt(nodes, i + 1) == if i + 1 < k then NodeAt(was, i + 1) else NodeAt(was, i + 2);
    }

    /** The pointer update that takes out the node at place `k`. */
    method Unlink(prev: PageNode?, cur: PageNode, ghost k: nat)
      requires Valid() && k < |nodes| && cur == nodes[k] && prev == NodeAt(nodes, k - 1)
      modifies this, nodes
      ensures Valid() && nodes == old(nodes)[..k] + old(nodes)[k + 1..]
    {
      ghost var was := nodes;
      ghost var links := seq(|was|, i requires 0 <= i < |was| reads was => was[i].next);
      forall j | 0 <= j < |was|
        ensures LinksTo(was, links, j)
      {
        assert Follows(was, j);
      }
      assert Follows(was, k);
      if k > 0 {
        forall j | 0 <= j < |was| && j != k - 1
          ensures was[j] != was[k - 1]
        {
          if j < k - 1 {
            Distinct(j, k - 1);
          } else {
            Distinct(k - 1, j);
          }
        }
      }
      if prev != null {
        prev.next := cur.next;
      } else {
        head := cur.next;
      }
      nodes := was[..k] + was[k + 1..];
      forall i | 0 <= i < |nodes|
        ensures Follows(nodes, i)
      {
        Closed(was, links, k, i);
      }
    }

    /** The walk of removeNode: the first node of the page with the one before it, or null. */
    method Seek(page: int) returns (cur: PageNode?, prev: PageNode?, ghost k: nat)
      requires Valid()
      ensures k <= |nodes| && cur == NodeAt(nodes, k) && prev == NodeAt(nodes, k - 1)
      ensures page !in Pages()[..k] && (k < |nodes| ==> Pages()[k] == page)
    {
      cur, prev, k := head, null, 0;
      while cur != null && cur.page != page
        invariant 0 <= k <= |nodes| && cur == NodeAt(nodes, k) && prev == NodeAt(nodes, k - 1)
        invariant forall i :: 0 <= i < k ==> Pages()[i] != page
        decreases |nodes| - k
      {
        assert Follows(nodes, k);
        prev := cur;
        cur := cur.next;
        k := k + 1;
      }
    }

    /** removeNode: unlinks the first node of the page, if there is one. */
    method RemoveNode(page: int)
      requires Valid()
      modifies this, nodes
      ensures Valid() && Pages() == Without(old(Pages()), page)
      ensures forall x :: x in nodes ==> x in old(nodes)
    {
      ghost var was := nodes;
      ghost var k;
      var cur, prev;
      cur, prev, k := Seek(page);
      if cur == null {
        assert Pages()[..k] == Pages();
        return;
      }
      WithoutAt(PagesOf(was), page, k);
      PagesCut(was, k);
      Unlink(prev, cur, k);
    }

    /** removeNode, then addToFront of the same page. */
    method Requeue(page: int)
      requires Valid()
      modifies this, nodes
      ensures Valid() && Pages() == [page] + Without(old(Pages()), page)
      ensures |nodes| > 0 && fresh(nodes[0]) && forall x :: x in nodes[1..] ==> x in old(nodes)
    {
      RemoveNode(page);
      AddToFront(page);
    }

    /** The walk of removeLRU to the last node. */
    method SeekLast() returns (cur: PageNode, prev: PageNode?)
      requires Valid() && nodes != []
      ensures cur == nodes[|nodes| - 1] && prev == NodeAt(nodes, |nodes| - 2)
    {
      cur, prev := head, null;
      ghost var k := 0;
      assert Follows(nodes, 0);
      while cur.next != null
        invariant 0 <= k < |nodes| && cur == nodes[k] && prev == NodeAt(nodes, k - 1) && Follows(nodes, k)
        decreases |nodes| - k
      {
        prev := cur;
        cur := cur.next;
        k := k + 1;
        assert Follows(nodes, k);
      }
    }

    /** removeLRU: unlinks the last node and returns its page, or -1 from an empty list. */
    method RemoveLru() returns (page: int)
      requires Valid()
      modifies this, nodes
      ensures Valid()
      ensures if old(Pages()) == [] then page == EMPTY && Pages() == []
              else page == old(Pages())[|old(Pages())| - 1] && Pages() == old(Pages())[..|old(Pages())| - 1]
      ensures forall x :: x in nodes ==> x in old(nodes)
    {
      if head == null {
        return -1;
      }
      ghost var was := nodes;
      var cur, prev := SeekLast();
      page := cur.page;
      assert Follows(nodes, |nodes| - 1);
      Unlink(prev, cur, |nodes| - 1);
      assert PagesOf(nodes) == PagesOf(was)[..|was| - 1];
    }
  }

  /** A list none of whose nodes changed is as well formed as before. */
  twostate lemma Unmoved(l: List)
    requires old(l.Valid()) && l.nodes == old(l.nodes) && l.head == old(l.head)
    requires forall x :: x in l.nodes ==> x.next == old(x.next)
    ensures l.Valid()
  {
    forall k | 0 <= k < |l.nodes|
      ensures Follows(l.nodes, k)
    {
      assert old(Follows(l.nodes, k));
    }
  }

  /** The last page of one list goes to the front of another; -1 stands for the page of an empty list. */
  method MoveLast(from: List, to: List)
    requires from != to && from.Valid() && to.Valid()
    modifies from, to, from.nodes
    ensures from.Valid() && to.Valid()
    ensures var pages := old(from.Pages());
            if pages == [] then from.Pages() == [] && to.Pages() == [EMPTY] + old(to.Pages())
            else from.Pages() == pages[..|pages| - 1] && to.Pages() == [pages[|pages| - 1]] + old(to.Pages())
    ensures forall x :: x in from.nodes ==> x in old(from.nodes)
    ensures |to.nodes| > 0 && fresh(to.nodes[0]) && to.nodes[1..] == old(to.nodes)
  {
    assert forall x :: x in to.nodes ==> x !in from.nodes;
    var page := from.RemoveLru();
    Unmoved(to);
    to.AddToFront(page);
  }

  /** The first node of a page goes from one list to the front of another. */
  method MovePage(from: List, to: List, page: int)
    requires from != to && from.Valid() && to.Valid()
    modifies from, to, from.nodes
    ensures from.Valid() && to.Valid()
    ensures from.Pages() == Without(old(from.Pages()), page) && to.Pages() == [page] + old(to.Pages())
    ensures forall x :: x in from.nodes ==> x in old(from.nodes)
    ensures |to.nodes| > 0 && fresh(to.nodes[0]) && to.nodes[1..] == old(to.nodes)
  {
    assert forall x :: x in to.nodes ==> x !in from.nodes;
    from.RemoveNode(page);
    Unmoved(to);
    to.AddToFront(page);
  }
}
