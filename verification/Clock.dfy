/** Clock replacement as a second-chance queue: the frames in the order the hand meets them. */
module Clock {
  import opened Paging

  datatype Frame = Frame(page: int, referenced: bool)

  type Queue = seq<Frame>

  function InitialQueue(n: nat): Queue {
    seq(n, _ => Frame(EMPTY, false))
  }

  predicate Holds(q: Queue, x: int) {
    exists i :: 0 <= i < |q| && q[i].page == x
  }

  /** Number of referenced frames; each step of the hand past one clears it. */
  function Referenced(q: Queue): nat {
    if q == [] then 0 else Referenced(q[1..]) + (if q[0].referenced then 1 else 0)
  }

  lemma {:induction false} ReferencedAppend(q: Queue, f: Frame)
    ensures Referenced(q + [f]) == Referenced(q) + (if f.referenced then 1 else 0)
  {
    if q == [] {
      assert q + [f] == [f];
      assert [f][1..] == [];
    } else {
      ReferencedAppend(q[1..], f);
      assert (q + [f])[1..] == q[1..] + [f];
    }
  }

  function PassFront(q: Queue): (r: Queue)
    requires |q| >= 1
    ensures |r| == |q|
  {
    q[1..] + [Frame(q[0].page, false)]
  }

  lemma PassClearsOne(q: Queue)
    requires |q| >= 1 && q[0].referenced
    ensures Referenced(PassFront(q)) < Referenced(q)
  {
    ReferencedAppend(q[1..], Frame(q[0].page, false));
  }

  /** Turns the hand until it meets an unreferenced frame and loads `x` there. */
  function Sweep(q: Queue, x: int): (r: Queue)
    requires |q| >= 1
    ensures |r| == |q|
    decreases Referenced(q)
  {
    if !q[0].referenced then q[1..] + [Frame(x, true)]
    else
      PassClearsOne(q);
      Sweep(PassFront(q), x)
  }

  /** Marks the frame holding `x` as referenced. */
  function Mark(q: Queue, x: int): (r: Queue)
    ensures |r| == |q|
  {
    seq(|q|, i requires 0 <= i < |q| => if q[i].page == x then Frame(x, true) else q[i])
  }

  function Serve(q: Queue, x: int): (r: Queue)
    requires |q| >= 1
    ensures |r| == |q|
  {
    if Holds(q, x) then Mark(q, x) else Sweep(q, x)
  }

  /** The queue of an `n`-frame clock after `trace`. */
  function After(n: nat, trace: seq<int>): (q: Queue)
    requires n >= 1
    ensures |q| == n
  {
    if trace == [] then InitialQueue(n) else Serve(After(n, trace[..|trace| - 1]), trace[|trace| - 1])
  }

  function MissesOf(n: nat, trace: seq<int>): (m: seq<bool>)
    requires n >= 1
    ensures |m| == |trace|
  {
    if trace == [] then []
    else
      var front := trace[..|trace| - 1];
      MissesOf(n, front) + [!Holds(After(n, front), trace[|trace| - 1])]
  }

  /** One more request: its queue, its outcome, and the miss count so far. */
  lemma MissesStep(n: nat, trace: seq<int>, i: nat)
    requires n >= 1 && i < |trace|
    ensures After(n, trace[..i + 1]) == Serve(After(n, trace[..i]), trace[i])
    ensures MissesOf(n, trace[..i + 1]) == MissesOf(n, trace[..i]) + [!Holds(After(n, trace[..i]), trace[i])]
    ensures Count(MissesOf(n, trace[..i + 1])) == Count(MissesOf(n, trace[..i])) + (if Holds(After(n, trace[..i]), trace[i]) then 0 else 1)
  {
    assert trace[..i + 1][..i] == trace[..i];
    var o := [!Holds(After(n, trace[..i]), trace[i])];
    CountSplit(MissesOf(n, trace[..i]), o);
    assert o[..0] == [];
  }

  // ----- no page is held twice

  ghost predicate HeldOnce(q: Queue) {
    forall i, j :: 0 <= i < j < |q| && q[i].page != EMPTY ==> q[i].page != q[j].page
  }

  lemma {:induction false} SweepHeldOnce(q: Queue, x: int)
    requires |q| >= 1 && HeldOnce(q) && !Holds(q, x) && x != EMPTY
    ensures HeldOnce(Sweep(q, x))
    decreases Referenced(q)
  {
    if q[0].referenced {
      PassClearsOne(q);
      var r := PassFront(q);
      assert forall i :: 0 <= i < |r| ==> r[i].page == if i < |q| - 1 then q[i + 1].page else q[0].page;
      SweepHeldOnce(r, x);
    }
  }

  lemma {:induction false} AfterHeldOnce(n: nat, trace: seq<int>)
    requires n >= 1 && EMPTY !in trace
    ensures HeldOnce(After(n, trace))
  {
    if trace != [] {
      var front, x := trace[..|trace| - 1], trace[|trace| - 1];
      AfterHeldOnce(n, front);
      if !Holds(After(n, front), x) {
        SweepHeldOnce(After(n, front), x);
      }
    }
  }

  // ----- conservativeness

  /** What happened to a frame during a stretch of requests: not loaded; loaded and not yet passed by
      the hand; loaded and passed since. */
  datatype Tag = Old | Loaded | Passed

  function Tagged(tags: seq<Tag>): nat {
    if tags == [] then 0 else Tagged(tags[1..]) + (if tags[0].Old? then 0 else 1)
  }

  lemma {:induction false} TaggedAppend(tags: seq<Tag>, t: Tag)
    ensures Tagged(tags + [t]) == Tagged(tags) + (if t.Old? then 0 else 1)
  {
    if tags == [] {
      assert tags + [t] == [t];
      assert [t][1..] == [];
    } else {
      TaggedAppend(tags[1..], t);
      assert (tags + [t])[1..] == tags[1..] + [t];
    }
  }

  lemma {:induction false} TaggedAtMost(tags: seq<Tag>)
    ensures Tagged(tags) <= |tags|
  {
    if tags != [] {
      TaggedAtMost(tags[1..]);
    }
  }

  /** A frame the hand cannot meet referenced unless its page is among `d`. */
  predicate Settled(f: Frame, d: set<int>) {
    !f.referenced || f.page in d
  }

  /** The state of a stretch whose pages are `d`: a loaded frame has seen only settled frames go by
      since; once passed itself, it has seen only frames holding stretch pages go by. */
  ghost predicate StretchInv(q: Queue, tags: seq<Tag>, d: set<int>) {
    && |tags| == |q|
    && (forall i :: 0 <= i < |q| && !tags[i].Old? ==> q[i].page in d)
    && (forall i :: 0 <= i < |q| && tags[i].Loaded? ==> q[i].referenced)
    && (forall i, j :: 0 <= i < j < |q| && tags[i].Loaded? ==> Settled(q[j], d))
    && (forall i, j :: 0 <= i < j < |q| && tags[i].Passed? ==> q[j].page in d)
    && (forall i, j :: 0 <= j < i < |q| && tags[i].Passed? ==> Settled(q[j], d))
  }

  lemma {:induction false} HeldPages(q: Queue)
    requires HeldOnce(q) && forall i :: 0 <= i < |q| ==> q[i].page != EMPTY
    ensures |set i | 0 <= i < |q| :: q[i].page| == |q|
  {
    var s := set i | 0 <= i < |q| :: q[i].page;
    if q == [] {
      assert s == {};
    } else {
      var r := q[..|q| - 1];
      HeldPages(r);
      var s' := set i | 0 <= i < |r| :: r[i].page;
      forall x
        ensures x in s <==> x in s' + {q[|q| - 1].page}
      {
        if x in s {
          var i :| 0 <= i < |q| && q[i].page == x;
          if i < |r| { assert r[i].page == x; }
        }
        if x in s' {
          var i :| 0 <= i < |r| && r[i].page == x;
          assert q[i].page == x;
        }
      }
      assert s == s' + {q[|q| - 1].page};
    }
  }

  /** When a miss happens in a stretch of at most `|q|` pages, the front frame was not passed before:
      otherwise every frame would hold a page of the stretch, leaving no page to miss. */
  lemma FrontNotPassed(q: Queue, tags: seq<Tag>, d: set<int>, x: int)
    requires |q| >= 1 && HeldOnce(q) && StretchInv(q, tags, d)
    requires |d| <= |q| && EMPTY !in d && x in d && !Holds(q, x)
    ensures !tags[0].Passed?
  {
    if tags[0].Passed? {
      var s := set i | 0 <= i < |q| :: q[i].page;
      assert forall i :: 0 <= i < |q| ==> q[i].page in d;
      HeldPages(q);
      assert x !in s;
      CardinalityMono(s + {x}, d);
    }
  }

  lemma PassKeepsStretch(q: Queue, tags: seq<Tag>, d: set<int>) returns (tags': seq<Tag>)
    requires |q| >= 1 && StretchInv(q, tags, d) && q[0].referenced && !tags[0].Passed?
    ensures StretchInv(PassFront(q), tags', d) && Tagged(tags') == Tagged(tags)
  {
    var t := if tags[0].Loaded? then Passed else Old;
    tags' := tags[1..] + [t];
    TaggedAppend(tags[1..], t);
    var r := PassFront(q);
    assert forall i :: 0 <= i < |r| - 1 ==> r[i] == q[i + 1] && tags'[i] == tags[i + 1];
  }

  /** A sweep loads a frame that was not loaded earlier in the stretch. */
  lemma {:induction false} SweepKeepsStretch(q: Queue, tags: seq<Tag>, d: set<int>, x: int) returns (tags': seq<Tag>)
    requires |q| >= 1 && HeldOnce(q) && StretchInv(q, tags, d)
    requires |d| <= |q| && EMPTY !in d && x in d && !Holds(q, x)
    ensures StretchInv(Sweep(q, x), tags', d) && Tagged(tags') == Tagged(tags) + 1
    decreases Referenced(q)
  {
    FrontNotPassed(q, tags, d, x);
    if q[0].referenced {
      PassClearsOne(q);
      var r := PassFront(q);
      assert forall i :: 0 <= i < |r| ==> r[i].page == if i < |q| - 1 then q[i + 1].page else q[0].page;
      var mid := PassKeepsStretch(q, tags, d);
      tags' := SweepKeepsStretch(r, mid, d, x);
    } else {
      tags' := tags[1..] + [Loaded];
      TaggedAppend(tags[1..], Loaded);
      var r := Sweep(q, x);
      assert forall i :: 0 <= i < |r| - 1 ==> r[i] == q[i + 1] && tags'[i] == tags[i + 1];
    }
  }

  lemma MarkKeepsStretch(q: Queue, tags: seq<Tag>, d: set<int>, x: int)
    requires StretchInv(q, tags, d) && x in d
    ensures StretchInv(Mark(q, x), tags, d)
  {
  }

  lemma {:induction false} AllOld(n: nat) returns (tags: seq<Tag>)
    ensures |tags| == n && Tagged(tags) == 0 && forall i :: 0 <= i < n ==> tags[i].Old?
  {
    if n == 0 {
      tags := [];
    } else {
      var rest := AllOld(n - 1);
      tags := [Old] + rest;
      assert tags[1..] == rest;
    }
  }

  /** Misses of a stretch are counted by frames loaded in it, each loaded once. */
  lemma {:induction false} StretchTags(n: nat, trace: seq<int>, i: nat, d: set<int>) returns (tags: seq<Tag>)
    requires n >= 1 && i <= |trace| && EMPTY !in trace
    requires |d| <= n && EMPTY !in d && forall k :: i <= k < |trace| ==> trace[k] in d
    ensures StretchInv(After(n, trace), tags, d)
    ensures Tagged(tags) == Count(MissesOf(n, trace)[i..])
  {
    if i == |trace| {
      tags := AllOld(n);
    } else {
      var front, x := trace[..|trace| - 1], trace[|trace| - 1];
      var q := After(n, front);
      var before := StretchTags(n, front, i, d);
      AfterHeldOnce(n, front);
      assert MissesOf(n, trace)[i..] == MissesOf(n, front)[i..] + [!Holds(q, x)];
      CountSplit(MissesOf(n, front)[i..], [!Holds(q, x)]);
      assert [!Holds(q, x)][..0] == [];
      if Holds(q, x) {
        MarkKeepsStretch(q, before, d, x);
        tags := before;
      } else {
        tags := SweepKeepsStretch(q, before, d, x);
      }
    }
  }

  lemma {:induction false} MissesOfPrefix(n: nat, trace: seq<int>, j: nat)
    requires n >= 1 && j <= |trace|
    ensures MissesOf(n, trace)[..j] == MissesOf(n, trace[..j])
  {
    if j < |trace| {
      var front := trace[..|trace| - 1];
      MissesOfPrefix(n, front, j);
      assert front[..j] == trace[..j];
      assert MissesOf(n, trace)[..j] == MissesOf(n, front)[..j];
    } else {
      assert trace[..j] == trace;
    }
  }

  lemma ClockIsConservative(n: nat, trace: seq<int>)
    requires n >= 1 && EMPTY !in trace
    ensures Conservative(n, trace, MissesOf(n, trace))
  {
    forall i, j | 0 <= i <= j <= |trace| && |Pages(trace[i..j])| <= n
      ensures Count(MissesOf(n, trace)[i..j]) <= n
    {
      assert forall k :: i <= k < j ==> trace[k] == trace[i..j][k - i];
      var tags := StretchTags(n, trace[..j], i, Pages(trace[i..j]));
      TaggedAtMost(tags);
      MissesOfPrefix(n, trace, j);
      assert MissesOf(n, trace)[i..j] == MissesOf(n, trace)[..j][i..];
    }
  }

  /** From an empty cache Clock misses at most `n` times as often as any demand policy with `n` frames. */
  lemma ClockIsCompetitive(n: nat, trace: seq<int>, caches: seq<set<int>>)
    requires n >= 1 && EMPTY !in trace && DemandRun(n, trace, caches)
    ensures Count(MissesOf(n, trace)) <= n * Count(Misses(trace, caches))
  {
    ClockIsConservative(n, trace);
    ConservativeIsCompetitive(n, trace, MissesOf(n, trace), caches);
  }
}
