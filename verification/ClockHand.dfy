/** Which page Clock gives up, told from the requests and the passes of the hand alone. */
module ClockHand {
  import opened Paging
  import opened Clock

  /** The pages in the frames, in the order the hand meets them. */
  function Order(n: nat, trace: seq<int>): (pages: seq<int>)
    requires n >= 1
    ensures |pages| == n
  {
    PagesIn(After(n, trace))
  }

  function PagesIn(q: Queue): (pages: seq<int>)
    ensures |pages| == |q| && forall i :: 0 <= i < |q| ==> pages[i] == q[i].page
  {
    seq(|q|, i requires 0 <= i < |q| => q[i].page)
  }

  /** The first place, from `i` on, whose mark is not set; the length if all are. */
  function FirstUnset(marks: seq<bool>, i: nat): (j: nat)
    requires i <= |marks|
    ensures i <= j <= |marks| && (j < |marks| ==> !marks[j]) && forall k :: i <= k < j ==> marks[k]
    decreases |marks| - i
  {
    if i == |marks| || !marks[i] then i else FirstUnset(marks, i + 1)
  }

  /** `y` was loaded or requested since the hand last passed its frame. */
  predicate Used(n: nat, trace: seq<int>, y: int)
    requires n >= 1
    decreases |trace|, 0
  {
    trace != [] &&
    var front, x := trace[..|trace| - 1], trace[|trace| - 1];
    y == x || (Used(n, front, y) && !(x !in Order(n, front) && HandPasses(n, front, y)))
  }

  /** How many frames the hand passes when the next request misses: those before the first whose page was not used, or
      all of them if there is none. */
  function Passed(n: nat, trace: seq<int>): (j: nat)
    requires n >= 1
    ensures j <= n
    decreases |trace|, 2
  {
    FirstUnset(Marks(n, trace), 0)
  }

  function Marks(n: nat, trace: seq<int>): (marks: seq<bool>)
    requires n >= 1
    ensures |marks| == n && forall i :: 0 <= i < n ==> marks[i] == Used(n, trace, Order(n, trace)[i])
    decreases |trace|, 1
  {
    seq(n, i requires 0 <= i < n => Used(n, trace, Order(n, trace)[i]))
  }

  predicate HandPasses(n: nat, trace: seq<int>, y: int)
    requires n >= 1
    decreases |trace|, 3
  {
    y in Order(n, trace)[..Passed(n, trace)]
  }

  lemma {:induction false} UsedIsRequested(n: nat, trace: seq<int>, y: int)
    requires n >= 1 && Used(n, trace, y)
    ensures y in trace
  {
    if y != trace[|trace| - 1] {
      UsedIsRequested(n, trace[..|trace| - 1], y);
    }
  }

  // ----- what a sweep comes to

  function Cleared(q: Queue): (r: Queue)
    ensures |r| == |q| && forall i :: 0 <= i < |q| ==> r[i] == Frame(q[i].page, false)
  {
    seq(|q|, i requires 0 <= i < |q| => Frame(q[i].page, false))
  }

  /** The hand stops at the first frame not referenced. */
  lemma {:induction false} SweepStops(q: Queue, x: int, j: nat)
    requires j < |q| && !q[j].referenced && forall i :: 0 <= i < j ==> q[i].referenced
    ensures Sweep(q, x) == q[j + 1..] + Cleared(q[..j]) + [Frame(x, true)]
    decreases j
  {
    if j == 0 {
      assert Cleared(q[..0]) == [];
    } else {
      PassClearsOne(q);
      var r := PassFront(q);
      assert forall i :: 0 <= i < |q| - 1 ==> r[i] == q[i + 1];
      SweepStops(r, x, j - 1);
      assert r[j..] == q[j + 1..] + [Frame(q[0].page, false)];
      assert Sweep(q, x) == q[j + 1..] + [Frame(q[0].page, false)] + Cleared(r[..j - 1]) + [Frame(x, true)];

    }
  }

  /** If every frame is referenced, the hand clears them all and stops where it began. */
  lemma SweepAll(q: Queue, x: int)
    requires |q| >= 1 && forall i :: 0 <= i < |q| ==> q[i].referenced
    ensures Sweep(q, x) == Cleared(q)[1..] + [Frame(x, true)]
  {
    PassClearsOne(q);
    var r, n := PassFront(q), |q| - 1;
    assert forall i :: 0 <= i < n ==> r[i] == q[i + 1];
    assert r[n] == Frame(q[0].page, false);
    SweepStops(r, x, n);
    assert r[n + 1..] == [];
    assert Cleared(r[..n]) == Cleared(q)[1..];
  }

  // ----- every request

  /** The reference bits say exactly which pages were used. */
  ghost predicate BitsTell(n: nat, trace: seq<int>)
    requires n >= 1
  {
    forall i :: 0 <= i < n ==> After(n, trace)[i].referenced == Used(n, trace, Order(n, trace)[i])
  }

  /** The frame the next miss fills: the first whose page was not used, or the one at the pointer if every one was. */
  function Victim(n: nat, trace: seq<int>): (j: nat)
    requires n >= 1
    ensures j < n
  {
    if Passed(n, trace) < n then Passed(n, trace) else 0
  }

  lemma MissMoves(n: nat, trace: seq<int>, x: int)
    requires n >= 1 && BitsTell(n, trace) && x !in Order(n, trace)
    ensures var q, j := After(n, trace), Passed(n, trace);
            Serve(q, x) == if j < n then q[j + 1..] + Cleared(q[..j]) + [Frame(x, true)]
                           else Cleared(q)[1..] + [Frame(x, true)]
  {
    var q, j := After(n, trace), Passed(n, trace);
    assert forall i :: 0 <= i < n ==> Marks(n, trace)[i] == q[i].referenced;
    assert forall i :: 0 <= i < n ==> q[i].page == Order(n, trace)[i];
    if j < n { SweepStops(q, x, j); } else { SweepAll(q, x); }
  }

  lemma AfterAppend(n: nat, trace: seq<int>, x: int)
    requires n >= 1
    ensures After(n, trace + [x]) == Serve(After(n, trace), x)
    ensures forall y :: Used(n, trace + [x], y) <==>
                        y == x || (Used(n, trace, y) && !(x !in Order(n, trace) && HandPasses(n, trace, y)))
  {
    assert (trace + [x])[..|trace|] == trace;
  }

  /** A miss takes the passed frames behind the others and puts the page last. */
  lemma OrderAfterMiss(n: nat, trace: seq<int>, x: int)
    requires n >= 1 && BitsTell(n, trace) && x !in Order(n, trace)
    ensures var was, j := Order(n, trace), Victim(n, trace);
            Order(n, trace + [x]) == was[j + 1..] + was[..j] + [x]
  {
    MissMoves(n, trace, x);
    AfterAppend(n, trace, x);
    var q, j := After(n, trace), Passed(n, trace);
    if j < n {
      PagesMoved(q[j + 1..], Cleared(q[..j]), Frame(x, true));
      assert PagesIn(Cleared(q[..j])) == Order(n, trace)[..j] && PagesIn(q[j + 1..]) == Order(n, trace)[j + 1..];
    } else {
      PagesMoved(Cleared(q)[1..], [], Frame(x, true));
      assert PagesIn(Cleared(q)[1..]) == Order(n, trace)[1..];
      assert Cleared(q)[1..] + [] == Cleared(q)[1..];
    }
  }

  lemma PagesMoved(a: Queue, b: Queue, f: Frame)
    ensures PagesIn(a + b + [f]) == PagesIn(a) + PagesIn(b) + [f.page]
  {
  }

  lemma OrderAfterHit(n: nat, trace: seq<int>, x: int)
    requires n >= 1 && x in Order(n, trace)
    ensures Order(n, trace + [x]) == Order(n, trace)
  {
    var i :| 0 <= i < n && Order(n, trace)[i] == x;
    assert After(n, trace)[i].page == x;
    AfterAppend(n, trace, x);
  }

  lemma BitsAfterHit(n: nat, trace: seq<int>, x: int)
    requires n >= 1 && BitsTell(n, trace) && x in Order(n, trace)
    ensures BitsTell(n, trace + [x])
  {
    var i :| 0 <= i < n && Order(n, trace)[i] == x;
    assert After(n, trace)[i].page == x;
    AfterAppend(n, trace, x);
    OrderAfterHit(n, trace, x);
  }

  /** The frame at place `i` after a miss, but for the last, was at place `m` before, and lost its mark if it was passed. */
  lemma CameFrom(n: nat, trace: seq<int>, x: int, i: nat) returns (m: nat)
    requires n >= 1 && BitsTell(n, trace) && x !in Order(n, trace) && i < n - 1
    ensures m < n && After(n, trace + [x])[i].page == After(n, trace)[m].page
    ensures After(n, trace + [x])[i].referenced == (m >= Passed(n, trace) && After(n, trace)[m].referenced)
  {
    var j := Passed(n, trace);
    MissMoves(n, trace, x);
    AfterAppend(n, trace, x);
    m := if j == n then i + 1 else if i < n - 1 - j then i + j + 1 else i - (n - 1 - j);
  }

  lemma LastIsNew(n: nat, trace: seq<int>, x: int)
    requires n >= 1 && BitsTell(n, trace) && x !in Order(n, trace)
    ensures After(n, trace + [x])[n - 1] == Frame(x, true)
  {
    MissMoves(n, trace, x);
    AfterAppend(n, trace, x);
  }

  lemma BitsAfterMiss(n: nat, trace: seq<int>, x: int)
    requires n >= 1 && BitsTell(n, trace) && x !in Order(n, trace) && EMPTY !in trace && x != EMPTY
    ensures BitsTell(n, trace + [x])
  {
    forall i | 0 <= i < n
      ensures After(n, trace + [x])[i].referenced == Used(n, trace + [x], Order(n, trace + [x])[i])
    {
      AfterAppend(n, trace, x);
      if i < n - 1 {
        var m := CameFrom(n, trace, x, i);
        assert Order(n, trace + [x])[i] == Order(n, trace)[m] != x;
        PassedByPlace(n, trace, m);
      } else {
        LastIsNew(n, trace, x);
      }
    }
  }

  /** The hand passes a used page exactly if its place is before where the hand stops. */
  lemma PassedByPlace(n: nat, trace: seq<int>, m: nat)
    requires n >= 1 && BitsTell(n, trace) && EMPTY !in trace && m < n
    ensures Used(n, trace, Order(n, trace)[m]) ==> (HandPasses(n, trace, Order(n, trace)[m]) <==> m < Passed(n, trace))
  {
    var was, j := Order(n, trace), Passed(n, trace);
    AfterHeldOnce(n, trace);
    if Used(n, trace, was[m]) {
      UsedIsRequested(n, trace, was[m]);
      if m < j { assert was[..j][m] == was[m]; }
      if was[m] in was[..j] {
        var i :| 0 <= i < j && was[..j][i] == was[m];
        assert After(n, trace)[i].page == After(n, trace)[m].page;
      }
    }
  }

  lemma {:induction false} BitsInEveryRun(n: nat, trace: seq<int>)
    requires n >= 1 && EMPTY !in trace
    ensures BitsTell(n, trace)
  {
    if trace != [] {
      var front, x := trace[..|trace| - 1], trace[|trace| - 1];
      BitsInEveryRun(n, front);
      assert trace == front + [x];
      if x in Order(n, front) { BitsAfterHit(n, front, x); } else { BitsAfterMiss(n, front, x); }
    }
  }

  /** Every request of every run: a hit moves nothing; a miss puts the page in place of the first page, from the pointer
      on, that was not used since the hand last passed it, or of the page at the pointer if all were; the pointer then
      stands behind it. */
  lemma EveryRequest(n: nat, trace: seq<int>, x: int)
    requires n >= 1 && EMPTY !in trace
    ensures var was, j := Order(n, trace), Victim(n, trace);
            Order(n, trace + [x]) == if x in was then was else was[j + 1..] + was[..j] + [x]
    ensures forall i :: 0 <= i < n ==> After(n, trace)[i].referenced == Used(n, trace, Order(n, trace)[i])
  {
    BitsInEveryRun(n, trace);
    if x in Order(n, trace) { OrderAfterHit(n, trace, x); } else { OrderAfterMiss(n, trace, x); }
  }
}
