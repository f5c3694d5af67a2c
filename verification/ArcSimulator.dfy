/** The ARC simulation on its four linked lists, proved against `Arc`. */
module ArcSimulator {
  import opened Paging
  import opened Arc
  import PageList

  /** What a request for a page of a ghost list comes to. */
  lemma GhostRequest(s: Arc, n: nat, x: int)
    requires !s.IsResident(x) && (x in s.b1 || x in s.b2)
    ensures var s2 := Replace(s.(p := Target(s, n, x)));
            Request(s, n, x) == if x in s.b1 then s2.(b1 := Without(s2.b1, x), t2 := [x] + s2.t2)
            else s2.(b2 := Without(s2.b2, x), t2 := [x] + s2.t2)
  {
  }

  function Vacated(s: Arc, n: nat): Arc {
    if |s.t1| + |s.t2| >= n then Replace(s) else s
  }

  /** What a request for a page of no list comes to. */
  lemma NewRequest(s: Arc, n: nat, x: int)
    requires !s.IsResident(x) && x !in s.b1 && x !in s.b2
    ensures Request(s, n, x) == Vacated(s, n).(t1 := [x] + Vacated(s, n).t1)
  {
  }

  class Simulator {
    const t1: PageList.List
    const t2: PageList.List
    const b1: PageList.List
    const b2: PageList.List
    const frames: nat
    var p: int
    var hits: nat
    var misses: nat
    /** All nodes of the four lists. */
    ghost var repr: set<PageList.PageNode>

    /** A well-formed list within the nodes of the simulation. */
    ghost predicate Owns(l: PageList.List)
      reads this`repr, repr, l, l.nodes
    {
      l.Valid() && forall x :: x in l.nodes ==> x in repr
    }

    ghost predicate Valid()
      reads this`repr, repr, t1, t2, b1, b2, t1.nodes, t2.nodes, b1.nodes, b2.nodes
    {
      && t1 != t2 && t1 != b1 && t1 != b2 && t2 != b1 && t2 != b2 && b1 != b2
      && Owns(t1) && Owns(t2) && Owns(b1) && Owns(b2)
    }

    ghost function View(): Arc
      reads this, t1, t2, b1, b2
    {
      Arc(t1.Pages(), t2.Pages(), b1.Pages(), b2.Pages(), p)
    }

    constructor (n: nat)
      ensures Valid() && View() == EMPTY_ARC && frames == n && hits == 0 && misses == 0
      ensures fresh(t1) && fresh(t2) && fresh(b1) && fresh(b2) && repr == {}
    {
      t1 := new PageList.List();
      t2 := new PageList.List();
      b1 := new PageList.List();
      b2 := new PageList.List();
      frames := n;
      p, hits, misses, repr := 0, 0, 0, {};
    }

    /** Evicts the last page of one list to another, beside two lists `l` and `m`. */
    method Evict(from: PageList.List, to: PageList.List, ghost l: PageList.List, ghost m: PageList.List)
      requires from != to && l != m && l !in {from, to} && m !in {from, to} && Owns(from) && Owns(to) && Owns(l) && Owns(m)
      modifies this`repr, from, to, repr
      ensures Owns(from) && Owns(to) && Owns(l) && Owns(m) && fresh(repr - old(repr))
      ensures l.nodes == old(l.nodes) && m.nodes == old(m.nodes)
      ensures var pages := old(from.Pages());
              if pages == [] then from.Pages() == [] && to.Pages() == [EMPTY] + old(to.Pages())
              else from.Pages() == pages[..|pages| - 1] && to.Pages() == [pages[|pages| - 1]] + old(to.Pages())
    {
      assert forall x :: x in l.nodes ==> x !in from.nodes;
      assert forall x :: x in m.nodes ==> x !in from.nodes;
      PageList.MoveLast(from, to);
      PageList.Unmoved(l);
      PageList.Unmoved(m);
      ghost var node := to.nodes[0];
      repr := repr + {node};
      assert to.nodes == [node] + old(to.nodes);
    }

    /** Moves a page from one list to the front of another, beside two lists `l` and `m`. */
    method Transfer(from: PageList.List, to: PageList.List, page: int, ghost l: PageList.List, ghost m: PageList.List)
      requires from != to && l != m && l !in {from, to} && m !in {from, to} && Owns(from) && Owns(to) && Owns(l) && Owns(m)
      modifies this`repr, from, to, repr
      ensures Owns(from) && Owns(to) && Owns(l) && Owns(m) && fresh(repr - old(repr))
      ensures l.nodes == old(l.nodes) && m.nodes == old(m.nodes)
      ensures from.Pages() == Without(old(from.Pages()), page) && to.Pages() == [page] + old(to.Pages())
    {
      assert forall x :: x in l.nodes ==> x !in from.nodes;
      assert forall x :: x in m.nodes ==> x !in from.nodes;
      PageList.MovePage(from, to, page);
      PageList.Unmoved(l);
      PageList.Unmoved(m);
      ghost var node := to.nodes[0];
      repr := repr + {node};
      assert to.nodes == [node] + old(to.nodes);
    }

    /** replaceARC */
    method MakeRoom()
      requires Valid()
      modifies this`repr, t1, t2, b1, b2, repr
      ensures Valid() && View() == Replace(old(View())) && fresh(repr - old(repr))
    {
      var size := t1.Length();
      var zero := b2.Contains(0);
      if size >= 1 && (size > p || (zero && size == p)) {
        Evict(t1, b1, t2, b2);
      } else {
        Evict(t2, b2, t1, b1);
      }
    }

    /** A hit: the page moves to the front of T2. */
    method Promote(page: int)
      requires Valid() && View().IsResident(page)
      modifies this`repr, t1, t2, b1, b2, repr
      ensures Valid() && View() == Request(old(View()), frames, page) && fresh(repr - old(repr))
    {
      var first := t1.Contains(page);
      if first {
        Transfer(t1, t2, page, b1, b2);
      } else {
        Refresh(page);
      }
    }

    /** A page of T2 moves to its front. */
    method Refresh(page: int)
      requires Valid()
      modifies this`repr, t2, repr
      ensures Valid() && View() == old(View()).(t2 := [page] + Without(old(View()).t2, page)) && fresh(repr - old(repr))
    {
      assert forall x :: x in t1.nodes || x in b1.nodes || x in b2.nodes ==> x !in t2.nodes;
      t2.Requeue(page);
      PageList.Unmoved(t1);
      PageList.Unmoved(b1);
      PageList.Unmoved(b2);
      repr := repr + {t2.nodes[0]};
      assert t2.nodes == [t2.nodes[0]] + t2.nodes[1..];
    }

    /** A new page enters T1. */
    method Enter(page: int)
      requires Valid()
      modifies this`repr, t1
      ensures Valid() && View() == old(View()).(t1 := [page] + old(View()).t1) && fresh(repr - old(repr))
    {
      t1.AddToFront(page);
      PageList.Unmoved(t2);
      PageList.Unmoved(b1);
      PageList.Unmoved(b2);
      repr := repr + {t1.nodes[0]};
      assert t1.nodes == [t1.nodes[0]] + old(t1.nodes);
    }

    /** Makes room, then a page of B1 enters T2. */
    method ReviveB1(page: int)
      requires Valid()
      modifies this`repr, t1, t2, b1, b2, repr
      ensures Valid() && fresh(repr - old(repr))
      ensures var s := Replace(old(View())); View() == s.(b1 := Without(s.b1, page), t2 := [page] + s.t2)
    {
      MakeRoom();
      Transfer(b1, t2, page, t1, b2);
    }

    method FromB1(page: int)
      requires Valid() && !View().IsResident(page) && page in View().b1
      modifies this`repr, this`p, t1, t2, b1, b2, repr
      ensures Valid() && View() == Request(old(View()), frames, page) && fresh(repr - old(repr))
    {
      GhostRequest(View(), frames, page);
      var ghosts := b2.Length();
      p := if p + (if ghosts > 0 then 1 else 0) < frames then p + 1 else frames;
      ReviveB1(page);
    }

    /** Makes room, then a page of B2 enters T2. */
    method ReviveB2(page: int)
      requires Valid()
      modifies this`repr, t1, t2, b1, b2, repr
      ensures Valid() && fresh(repr - old(repr))
      ensures var s := Replace(old(View())); View() == s.(b2 := Without(s.b2, page), t2 := [page] + s.t2)
    {
      MakeRoom();
      Transfer(b2, t2, page, t1, b1);
    }

    method FromB2(page: int)
      requires Valid() && !View().IsResident(page) && page !in View().b1 && page in View().b2
      modifies this`repr, this`p, t1, t2, b1, b2, repr
      ensures Valid() && View() == Request(old(View()), frames, page) && fresh(repr - old(repr))
    {
      GhostRequest(View(), frames, page);
      var ghosts := b1.Length();
      p := if p - (if ghosts > 0 then 1 else 0) > 0 then p - 1 else 0;
      ReviveB2(page);
    }

    /** Room for a new page. */
    method Vacate()
      requires Valid()
      modifies this`repr, t1, t2, b1, b2, repr
      ensures Valid() && View() == Vacated(old(View()), frames) && fresh(repr - old(repr))
    {
      var first := t1.Length();
      var second := t2.Length();
      if first + second >= frames {
        MakeRoom();
      }
    }

    /** A page no list holds enters T1. */
    method FromOutside(page: int)
      requires Valid() && !View().IsResident(page) && page !in View().b1 && page !in View().b2
      modifies this`repr, this`p, t1, t2, b1, b2, repr
      ensures Valid() && View() == Request(old(View()), frames, page) && fresh(repr - old(repr))
    {
      NewRequest(View(), frames, page);
      Vacate();
      Enter(page);
    }

    /** The three kinds of miss. */
    method Admit(page: int)
      requires Valid() && !View().IsResident(page)
      modifies this`repr, this`p, t1, t2, b1, b2, repr
      ensures Valid() && View() == Request(old(View()), frames, page) && fresh(repr - old(repr))
    {
      var inB1 := b1.Contains(page);
      var inB2 := b2.Contains(page);
      if inB1 {
        FromB1(page);
      } else if inB2 {
        FromB2(page);
      } else {
        FromOutside(page);
      }
    }

    method Resident(page: int) returns (hit: bool)
      requires Valid()
      ensures hit <==> View().IsResident(page)
    {
      var first := t1.Contains(page);
      var second := t2.Contains(page);
      hit := first || second;
    }

    /** One request. */
    method Serve(page: int) returns (hit: bool)
      requires Valid()
      modifies this`repr, this`p, this`hits, this`misses, t1, t2, b1, b2, repr
      ensures Valid() && View() == Request(old(View()), frames, page) && fresh(repr - old(repr))
      ensures hit == old(View()).IsResident(page)
      ensures hits == old(hits) + (if hit then 1 else 0) && misses == old(misses) + (if hit then 0 else 1)
    {
      hit := Resident(page);
      if hit {
        hits := hits + 1;
        Promote(page);
      } else {
        misses := misses + 1;
        Admit(page);
      }
    }

    /** simulateARC: for any trace the lists, the target and both counters are those of the model. */
    method Run(pages: seq<int>)
      requires Valid() && frames >= 1 && EMPTY !in pages && View() == EMPTY_ARC && hits == 0 && misses == 0
      modifies this, t1, t2, b1, b2, repr
      ensures Valid() && View() == After(frames, pages) && Inv(View(), frames, pages)
      ensures misses == Count(MissesOf(frames, pages)) && hits + misses == |pages|
    {
      var i := 0;
      while i < |pages|
        invariant 0 <= i <= |pages| && Valid() && fresh(repr - old(repr))
        invariant View() == After(frames, pages[..i])
        invariant misses == Count(MissesOf(frames, pages[..i])) && hits + misses == i
      {
        MissesStep(frames, pages, i);
        var hit := Serve(pages[i]);
        i := i + 1;
      }
      assert pages[..i] == pages;
      EveryRun(frames, pages);
    }
  }
}
