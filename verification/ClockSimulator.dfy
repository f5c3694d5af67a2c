/** The clock simulation over arrays of frames and reference bits with a circulating pointer,
    proved against the second-chance queue of `Clock`. */
module ClockSimulator {
  import opened Paging
  import opened Clock

  function Frames(buffer: seq<int>, refBit: seq<bool>): (q: Queue)
    requires |buffer| == |refBit|
    ensures |q| == |buffer|
  {
    seq(|buffer|, i requires 0 <= i < |buffer| => Frame(buffer[i], refBit[i]))
  }

  /** The frames in the order the pointer meets them. */
  function FromPointer(buffer: seq<int>, refBit: seq<bool>, pointer: nat): (q: Queue)
    requires |buffer| == |refBit| && pointer <= |buffer|
    ensures |q| == |buffer|
  {
    Frames(buffer, refBit)[pointer..] + Frames(buffer, refBit)[..pointer]
  }

  lemma AdvanceInside(f: Queue, p: nat, e: Frame)
    requires p + 1 < |f|
    ensures f[p := e][p + 1..] + f[p := e][..p + 1] == (f[p..] + f[..p])[1..] + [e]
  {
    assert f[p..][1..] == f[p + 1..];
    assert f[p := e][p + 1..] == f[p + 1..];
    assert f[p := e][..p + 1] == f[..p] + [e];
  }

  lemma AdvanceAround(f: Queue, p: nat, e: Frame)
    requires p + 1 == |f|
    ensures f[p := e][0..] + f[p := e][..0] == (f[p..] + f[..p])[1..] + [e]
  {
    assert f[p := e] == f[..p] + [e];
    assert f[p := e][..0] == [];
    assert (f[p..] + f[..p])[1..] == f[..p];
  }

  /** Moving the pointer one frame on, after writing the frame it leaves, takes the front of the queue to its end. */
  lemma Advance(buffer: seq<int>, refBit: seq<bool>, pointer: nat, page: int, bit: bool)
    requires |buffer| == |refBit| && pointer < |buffer|
    ensures FromPointer(buffer[pointer := page], refBit[pointer := bit], (pointer + 1) % |buffer|)
            == FromPointer(buffer, refBit, pointer)[1..] + [Frame(page, bit)]
  {
    var f := Frames(buffer, refBit);
    assert Frames(buffer[pointer := page], refBit[pointer := bit]) == f[pointer := Frame(page, bit)];
    if pointer + 1 < |buffer| {
      assert (pointer + 1) % |buffer| == pointer + 1;
      AdvanceInside(f, pointer, Frame(page, bit));
    } else {
      assert (pointer + 1) % |buffer| == 0;
      AdvanceAround(f, pointer, Frame(page, bit));
    }
  }

  lemma PointerHolds(buffer: seq<int>, refBit: seq<bool>, pointer: nat, x: int)
    requires |buffer| == |refBit| && pointer <= |buffer|
    ensures Holds(FromPointer(buffer, refBit, pointer), x) <==> x in buffer
  {
    var q := FromPointer(buffer, refBit, pointer);
    var n := |buffer|;
    if i :| 0 <= i < n && buffer[i] == x {
      assert q[if i >= pointer then i - pointer else i + n - pointer].page == x;
    }
  }

  lemma PointerMark(buffer: seq<int>, refBit: seq<bool>, pointer: nat, x: int, j: nat)
    requires |buffer| == |refBit| && pointer <= |buffer| && j < |buffer| && buffer[j] == x
    requires forall i :: 0 <= i < |buffer| && i != j ==> buffer[i] != x
    ensures FromPointer(buffer, refBit[j := true], pointer) == Mark(FromPointer(buffer, refBit, pointer), x)
  {
  }

  lemma BufferHeldOnce(buffer: seq<int>, refBit: seq<bool>, pointer: nat, j: nat)
    requires |buffer| == |refBit| && pointer <= |buffer| && j < |buffer| && buffer[j] != EMPTY
    requires HeldOnce(FromPointer(buffer, refBit, pointer))
    ensures forall i :: 0 <= i < |buffer| && i != j ==> buffer[i] != buffer[j]
  {
    var q := FromPointer(buffer, refBit, pointer);
    var n := |buffer|;
    forall i | 0 <= i < n && i != j
      ensures buffer[i] != buffer[j]
    {
      var a := if i >= pointer then i - pointer else i + n - pointer;
      var b := if j >= pointer then j - pointer else j + n - pointer;
      assert q[a].page == buffer[i] && q[b].page == buffer[j] && a != b;
    }
  }

  /** The frame before the pointer. */
  function Back(pointer: nat, n: nat): (p: nat)
    requires pointer < n
    ensures p < n
  {
    if pointer == 0 then n - 1 else pointer - 1
  }

  lemma OneOn(p: nat, n: nat)
    requires p < n
    ensures (p + 1) % n < n && Back((p + 1) % n, n) == p
  {
    if p + 1 < n {
      assert (p + 1) % n == p + 1;
    }
  }

  /** The sweep of a miss: the loop ends, and leaves the frames as the queue says. */
  method TurnHand(buffer: array<int>, refBit: array<bool>, start: nat, page: int) returns (pointer: nat)
    requires buffer.Length == refBit.Length && start < buffer.Length
    modifies buffer, refBit
    ensures pointer < buffer.Length
    ensures FromPointer(buffer[..], refBit[..], pointer) == Sweep(FromPointer(old(buffer[..]), old(refBit[..]), start), page)
    ensures buffer[..] == old(buffer[..])[Back(pointer, buffer.Length) := page]
  {
    pointer := start;
    ghost var goal := Sweep(FromPointer(buffer[..], refBit[..], start), page);
    while true
      invariant pointer < buffer.Length
      invariant Sweep(FromPointer(buffer[..], refBit[..], pointer), page) == goal
      invariant buffer[..] == old(buffer[..])
      decreases Referenced(FromPointer(buffer[..], refBit[..], pointer))
    {
      ghost var b, r := buffer[..], refBit[..];
      ghost var q := FromPointer(b, r, pointer);
      assert q[0] == Frame(buffer[pointer], refBit[pointer]);
      if !refBit[pointer] {
        Advance(b, r, pointer, page, true);
        buffer[pointer] := page;
        refBit[pointer] := true;
        assert buffer[..] == b[pointer := page] && refBit[..] == r[pointer := true];
        OneOn(pointer, buffer.Length);
        pointer := (pointer + 1) % buffer.Length;
        return;
      } else {
        PassClearsOne(q);
        OneOn(pointer, buffer.Length);
        Advance(b, r, pointer, buffer[pointer], false);
        refBit[pointer] := false;
        assert buffer[..] == b[pointer := b[pointer]] && refBit[..] == r[pointer := false];
        pointer := (pointer + 1) % buffer.Length;
      }
    }
  }

  method LookUp(buffer: array<int>, page: int) returns (found: nat)
    ensures found <= buffer.Length
    ensures found < buffer.Length ==> buffer[found] == page
    ensures found == buffer.Length ==> page !in buffer[..]
  {
    found := 0;
    while found < buffer.Length
      invariant found <= buffer.Length
      invariant forall j :: 0 <= j < found ==> buffer[j] != page
    {
      if buffer[found] == page {
        return;
      }
      found := found + 1;
    }
  }

  /** One request: the frames move as the queue does. */
  method Request(buffer: array<int>, refBit: array<bool>, start: nat, page: int) returns (hit: bool, pointer: nat)
    requires buffer.Length == refBit.Length && start < buffer.Length && page != EMPTY
    requires HeldOnce(FromPointer(buffer[..], refBit[..], start))
    modifies buffer, refBit
    ensures pointer < buffer.Length
    ensures hit <==> Holds(FromPointer(old(buffer[..]), old(refBit[..]), start), page)
    ensures FromPointer(buffer[..], refBit[..], pointer) == Serve(FromPointer(old(buffer[..]), old(refBit[..]), start), page)
    ensures if hit then pointer == start && buffer[..] == old(buffer[..])
            else buffer[..] == old(buffer[..])[Back(pointer, buffer.Length) := page]
  {
    ghost var b, r := buffer[..], refBit[..];
    PointerHolds(b, r, start, page);
    var found := LookUp(buffer, page);
    if found < buffer.Length {
      BufferHeldOnce(b, r, start, found);
      PointerMark(b, r, start, page, found);
      refBit[found] := true;
      assert refBit[..] == r[found := true] && buffer[..] == b;
      hit, pointer := true, start;
    } else {
      hit := false;
      pointer := TurnHand(buffer, refBit, start, page);
    }
  }

  /** The outcomes of `trace` and their numbers. */
  ghost predicate Counted(frames: nat, trace: seq<int>, hits: nat, misses: nat, outcomes: seq<bool>)
    requires frames >= 1
  {
    outcomes == MissesOf(frames, trace) && misses == Count(outcomes) && hits + misses == |trace|
  }

  lemma CountedStep(frames: nat, trace: seq<int>, page: int, hits: nat, misses: nat, outcomes: seq<bool>)
    requires frames >= 1 && Counted(frames, trace, hits, misses, outcomes)
    ensures After(frames, trace + [page]) == Serve(After(frames, trace), page)
    ensures var hit := Holds(After(frames, trace), page);
            Counted(frames, trace + [page], if hit then hits + 1 else hits, if hit then misses else misses + 1, outcomes + [!hit])
  {
    MissesStep(frames, trace + [page], |trace|);
    assert (trace + [page])[..|trace|] == trace && (trace + [page])[..|trace| + 1] == trace + [page];
  }

  /** The simulation: for any trace and any number of frames, counts, outcomes and final frames are
      those of the second-chance queue. */
  method Simulate(pages: seq<int>, frames: nat)
    returns (hits: nat, misses: nat, outcomes: seq<bool>, buffer: array<int>, refBit: array<bool>, pointer: nat)
    requires frames >= 1 && EMPTY !in pages
    ensures outcomes == MissesOf(frames, pages)
    ensures misses == Count(MissesOf(frames, pages)) && hits + misses == |pages|
    ensures buffer.Length == refBit.Length == frames && pointer < frames
    ensures FromPointer(buffer[..], refBit[..], pointer) == After(frames, pages)
  {
    buffer := new int[frames](_ => EMPTY);
    refBit := new bool[frames](_ => false);
    pointer, hits, misses, outcomes := 0, 0, 0, [];
    var i := 0;
    ghost var trace: seq<int> := [];
    assert FromPointer(buffer[..], refBit[..], 0) == InitialQueue(frames);
    while i < |pages|
      invariant i <= |pages| && fresh(buffer) && fresh(refBit)
      invariant buffer.Length == refBit.Length == frames && pointer < frames
      invariant trace == pages[..i]
      invariant FromPointer(buffer[..], refBit[..], pointer) == After(frames, trace)
      invariant Counted(frames, trace, hits, misses, outcomes)
    {
      var page := pages[i];
      assert pages[..i + 1] == trace + [page];
      AfterHeldOnce(frames, trace);
      var hit;
      hit, pointer := Request(buffer, refBit, pointer, page);
      CountedStep(frames, trace, page, hits, misses, outcomes);
      outcomes := outcomes + [!hit];
      if hit { hits := hits + 1; } else { misses := misses + 1; }
      i, trace := i + 1, trace + [page];
    }
    assert trace == pages;
  }
}
