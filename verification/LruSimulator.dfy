/** The timestamp simulation of LRU over arrays of frames, proved against `Lru`. */
module LruSimulator {
  import opened Paging
  import opened Lru

  function Held(buffer: seq<int>): set<int> {
    set x | x in buffer && x != EMPTY
  }

  /** No page is held in two frames. */
  ghost predicate HeldOnce(buffer: seq<int>) {
    forall i, j :: 0 <= i < j < |buffer| && buffer[i] != EMPTY ==> buffer[i] != buffer[j]
  }

  /** Each used frame is stamped with the position of its page's last request. */
  ghost predicate Stamped(buffer: seq<int>, time: seq<int>, trace: seq<int>) {
    |time| == |buffer| &&
    forall j :: 0 <= j < |buffer| && buffer[j] != EMPTY ==> time[j] == Last(trace, buffer[j])
  }

  ghost predicate Refines(buffer: seq<int>, time: seq<int>, trace: seq<int>) {
    && EMPTY !in trace
    && HeldOnce(buffer)
    && Stamped(buffer, time, trace)
    && Held(buffer) == Resident(|buffer|, trace)
  }

  lemma {:induction false} PagesAtMost(b: seq<int>)
    ensures |Pages(b)| <= |b|
    ensures (forall i, j :: 0 <= i < j < |b| ==> b[i] != b[j]) ==> |Pages(b)| == |b|
  {
    if b == [] {
      assert Pages(b) == {};
    } else {
      var front, x := b[..|b| - 1], b[|b| - 1];
      PagesAtMost(front);
      assert b == front + [x];
      assert Pages(b) == Pages(front) + {x};
    }
  }

  /** The cache is full exactly when no frame is empty. */
  lemma FullIffNoEmpty(buffer: seq<int>)
    requires HeldOnce(buffer)
    ensures if EMPTY in buffer then |Held(buffer)| < |buffer| else |Held(buffer)| == |buffer|
  {
    PagesAtMost(buffer);
    if EMPTY in buffer {
      assert Held(buffer) == Pages(buffer) - {EMPTY};
    } else {
      assert Held(buffer) == Pages(buffer);
    }
  }

  method FindPage(buffer: array<int>, page: int) returns (pos: int)
    ensures -1 <= pos < buffer.Length
    ensures pos >= 0 ==> buffer[pos] == page && page !in buffer[..pos]
    ensures pos == -1 ==> page !in buffer[..]
  {
    pos := 0;
    while pos < buffer.Length
      invariant 0 <= pos <= buffer.Length
      invariant forall j :: 0 <= j < pos ==> buffer[j] != page
    {
      if buffer[pos] == page {
        return;
      }
      pos := pos + 1;
    }
    pos := -1;
  }

  method OldestFrame(time: array<int>) returns (lru: nat)
    requires time.Length >= 1
    ensures lru < time.Length
    ensures forall j :: 0 <= j < time.Length ==> time[lru] <= time[j]
  {
    lru := 0;
    var j := 1;
    while j < time.Length
      invariant 1 <= j <= time.Length && lru < time.Length
      invariant forall i :: 0 <= i < j ==> time[lru] <= time[i]
    {
      if time[j] < time[lru] {
        lru := j;
      }
      j := j + 1;
    }
  }

  lemma StampedAfter(buffer: seq<int>, time: seq<int>, trace: seq<int>, page: int, j: nat)
    requires Stamped(buffer, time, trace) && HeldOnce(buffer) && j < |buffer|
    requires buffer[j] == page || page !in buffer
    ensures Stamped(buffer[j := page], time[j := |trace| + 1], trace + [page])
  {
    var b, t := buffer[j := page], time[j := |trace| + 1];
    forall i | 0 <= i < |b| && b[i] != EMPTY
      ensures t[i] == Last(trace + [page], b[i])
    {
      LastAppend(trace, page, b[i]);
    }
  }

  lemma HeldAfter(buffer: seq<int>, page: int, j: nat)
    requires HeldOnce(buffer) && j < |buffer| && page !in buffer && page != EMPTY
    ensures HeldOnce(buffer[j := page])
    ensures Held(buffer[j := page]) == Held(buffer) - {buffer[j]} + {page}
  {
    var b := buffer[j := page];
    assert b[j] == page;
    forall x | x in Held(buffer) - {buffer[j]}
      ensures x in Held(b)
    {
      var i :| 0 <= i < |buffer| && buffer[i] == x;
      assert b[i] == x;
    }
  }

  lemma HitRefines(buffer: seq<int>, time: seq<int>, trace: seq<int>, page: int, pos: nat)
    requires Refines(buffer, time, trace) && page != EMPTY && pos < |buffer| && buffer[pos] == page
    ensures Refines(buffer, time[pos := |trace| + 1], trace + [page])
    ensures page in Resident(|buffer|, trace)
  {
    assert page in Held(buffer);
    ResidentAfterHit(|buffer|, trace, page);
    StampedAfter(buffer, time, trace, page, pos);
    assert buffer[pos := page] == buffer;
  }

  lemma InsertRefines(buffer: seq<int>, time: seq<int>, trace: seq<int>, page: int, free: nat)
    requires Refines(buffer, time, trace) && page != EMPTY && page !in buffer
    requires free < |buffer| && buffer[free] == EMPTY
    ensures Refines(buffer[free := page], time[free := |trace| + 1], trace + [page])
    ensures page !in Resident(|buffer|, trace)
  {
    assert page !in Held(buffer);
    FullIffNoEmpty(buffer);
    ResidentAfterInsert(|buffer|, trace, page);
    StampedAfter(buffer, time, trace, page, free);
    HeldAfter(buffer, page, free);
  }

  lemma EvictRefines(buffer: seq<int>, time: seq<int>, trace: seq<int>, page: int, lru: nat)
    requires Refines(buffer, time, trace) && page != EMPTY && page !in buffer && EMPTY !in buffer
    requires lru < |buffer| && forall j :: 0 <= j < |time| ==> time[lru] <= time[j]
    ensures Refines(buffer[lru := page], time[lru := |trace| + 1], trace + [page])
    ensures page !in Resident(|buffer|, trace)
  {
    assert page !in Held(buffer);
    FullIffNoEmpty(buffer);
    var v := buffer[lru];
    assert v in buffer;
    assert IsVictim(|buffer|, trace, v) by {
      forall w | w in Resident(|buffer|, trace)
        ensures Last(trace, v) <= Last(trace, w)
      {
        assert w in Held(buffer);
        var j :| 0 <= j < |buffer| && buffer[j] == w;
        assert time[j] == Last(trace, buffer[j]) && time[lru] == Last(trace, buffer[lru]);
      }
    }
    ResidentAfterEvict(|buffer|, trace, page, v);
    StampedAfter(buffer, time, trace, page, lru);
    HeldAfter(buffer, page, lru);
  }

  /** A page that is held stays where it is; another goes into the first empty frame or, if there is none, into that of the
      page requested longest ago. The other frames keep their pages. */
  ghost predicate Placed(was: seq<int>, now: seq<int>, trace: seq<int>, page: int) {
    if page in was then now == was
    else exists j :: 0 <= j < |was| && now == was[j := page] && GivesWay(was, trace, j)
  }

  ghost predicate GivesWay(buffer: seq<int>, trace: seq<int>, j: nat)
    requires j < |buffer|
  {
    if EMPTY in buffer then buffer[j] == EMPTY && EMPTY !in buffer[..j]
    else forall i :: 0 <= i < |buffer| ==> Last(trace, buffer[j]) <= Last(trace, buffer[i])
  }

  /** One request against the frames. */
  method Request(buffer: array<int>, time: array<int>, counter: nat, page: int, ghost trace: seq<int>)
    returns (hit: bool)
    requires buffer != time && buffer.Length >= 1 && page != EMPTY && counter == |trace|
    requires Refines(buffer[..], time[..], trace)
    modifies buffer, time
    ensures Refines(buffer[..], time[..], trace + [page])
    ensures hit <==> page in Resident(buffer.Length, trace)
    ensures Placed(old(buffer[..]), buffer[..], trace, page)
  {
    ghost var b, t := buffer[..], time[..];
    var pos := FindPage(buffer, page);
    if pos != -1 {
      HitRefines(b, t, trace, page, pos);
      time[pos] := counter + 1;
      assert time[..] == t[pos := counter + 1] && buffer[..] == b;
      return true;
    }
    var free := FindPage(buffer, EMPTY);
    if free == -1 {
      var lru := OldestFrame(time);
      EvictRefines(b, t, trace, page, lru);
      buffer[lru] := page;
      time[lru] := counter + 1;
      assert buffer[..] == b[lru := page] && time[..] == t[lru := counter + 1];
      assert GivesWay(b, trace, lru);
    } else {
      InsertRefines(b, t, trace, page, free);
      buffer[free] := page;
      time[free] := counter + 1;
      assert buffer[..] == b[free := page] && time[..] == t[free := counter + 1];
      assert GivesWay(b, trace, free);
    }
    return false;
  }

  /** The outcomes of `trace` and their numbers. */
  ghost predicate Counted(frames: nat, trace: seq<int>, hits: nat, misses: nat, outcomes: seq<bool>) {
    outcomes == MissesOf(frames, trace) && misses == Count(outcomes) && hits + misses == |trace|
  }

  lemma CountedStep(frames: nat, trace: seq<int>, page: int, hit: bool, hits: nat, misses: nat, outcomes: seq<bool>)
    requires Counted(frames, trace, hits, misses, outcomes)
    requires hit <==> page in Resident(frames, trace)
    ensures Counted(frames, trace + [page], if hit then hits + 1 else hits, if hit then misses else misses + 1, outcomes + [!hit])
  {
    MissesStep(frames, trace + [page], |trace|);
    assert (trace + [page])[..|trace|] == trace && (trace + [page])[..|trace| + 1] == trace + [page];
  }

  lemma NothingHeld(frames: nat, buffer: seq<int>, time: seq<int>)
    requires |buffer| == |time| == frames && forall j :: 0 <= j < frames ==> buffer[j] == EMPTY && time[j] == -1
    ensures Refines(buffer, time, [])
  {
    assert Held(buffer) == {};
  }

  /** The simulation: for any trace and any number of frames, the counts, the per-request
      outcomes and the final frames are those of LRU. */
  method Simulate(pages: seq<int>, frames: nat)
    returns (hits: nat, misses: nat, outcomes: seq<bool>, buffer: array<int>)
    requires frames >= 1 && EMPTY !in pages
    ensures outcomes == MissesOf(frames, pages)
    ensures misses == Count(MissesOf(frames, pages)) && hits + misses == |pages|
    ensures buffer.Length == frames && HeldOnce(buffer[..]) && Held(buffer[..]) == Resident(frames, pages)
  {
    buffer := new int[frames](_ => EMPTY);
    var time := new int[frames](_ => -1);
    hits, misses, outcomes := 0, 0, [];
    var i := 0;
    ghost var trace: seq<int> := [];
    NothingHeld(frames, buffer[..], time[..]);
    while i < |pages|
      invariant i <= |pages| && buffer.Length == frames && fresh(buffer) && fresh(time) && buffer != time
      invariant trace == pages[..i]
      invariant Refines(buffer[..], time[..], trace)
      invariant Counted(frames, trace, hits, misses, outcomes)
    {
      var page := pages[i];
      assert pages[..i + 1] == trace + [page];
      var hit := Request(buffer, time, i, page, trace);
      CountedStep(frames, trace, page, hit, hits, misses, outcomes);
      outcomes := outcomes + [!hit];
      if hit { hits := hits + 1; } else { misses := misses + 1; }
      i, trace := i + 1, trace + [page];
    }
    assert trace == pages;
  }
}
