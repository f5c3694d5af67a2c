/** Runs of requests against the buffer pool and block cache. */
module BlockCacheRuns {
  import opened BlockCacheModel
  import opened Counting

  /** The state of a fresh cache after `reqs`. */
  function After(capacity: Size, total: nat, reqs: seq<Request>): State {
    if reqs == [] then Init(capacity, total)
    else Next(After(capacity, total, reqs[..|reqs| - 1]), reqs[|reqs| - 1])
  }

  /** How each request of a run was answered. */
  function Answers(capacity: Size, total: nat, reqs: seq<Request>): (r: seq<Outcome>)
    ensures |r| == |reqs|
  {
    if reqs == [] then [] else
      var was := reqs[..|reqs| - 1];
      Answers(capacity, total, was) + [Answer(After(capacity, total, was), reqs[|reqs| - 1])]
  }

  lemma RunStep(capacity: Size, total: nat, reqs: seq<Request>, r: Request)
    ensures After(capacity, total, reqs + [r]) == Next(After(capacity, total, reqs), r)
    ensures Answers(capacity, total, reqs + [r]) == Answers(capacity, total, reqs) + [Answer(After(capacity, total, reqs), r)]
  {
    assert (reqs + [r])[..|reqs|] == reqs;
  }

  /** The invariant holds in every run. */
  lemma {:induction false} AfterInv(capacity: Size, total: nat, reqs: seq<Request>)
    ensures var s := After(capacity, total, reqs);
            Inv(s) && s.clock == |reqs| && s.total == total && s.capacity == capacity
  {
    if reqs == [] {
      InitInv(capacity, total);
    } else {
      var was := reqs[..|reqs| - 1];
      AfterInv(capacity, total, was);
      NextKeepsInv(After(capacity, total, was), reqs[|reqs| - 1]);
    }
  }

  // ----- conservation

  /** In every run the free and the cached buffers add up to the pool, and each buffer is accounted for exactly once. */
  lemma BuffersConserved(capacity: Size, total: nat, reqs: seq<Request>, b: nat)
    requires b < total
    ensures var s := After(capacity, total, reqs);
            && |s.free| + |s.items| == total
            && |s.items| <= capacity
            && (exists i :: 0 <= i < total && Buffers(s)[i] == b)
            && NoRepeat(Buffers(s))
  {
    AfterInv(capacity, total, reqs);
    var u := Buffers(After(capacity, total, reqs));
    assert [] + u == u;
    if forall i :: 0 <= i < |u| ==> u[i] != b {
      DistinctBounded([b] + u, total);
    }
  }

  // ----- what a hit returns

  /** A load puts the caller's data into the new node's buffer, even when it evicts. */
  lemma LoadWrites(s: State, r: Request)
    requires Inv(s) && Lookup(s, r.key) == |s.items| && s.free != []
    ensures var t := Next(s, r);
            t.items != [] && t.items[0] == Slot(s.clock, r.key, s.free[0]) && Contents(t, s.free[0]) == r.data
  {
    var n := |s.items|;
    var u := [] + Buffers(s);
    assert n > 0 ==> u[n - 1] == s.items[n - 1].buffer;
    assert u[n] == s.free[0];
  }

  /** A load leaves the other nodes and what their buffers hold. */
  lemma LoadLeaves(s: State, r: Request, i: nat)
    requires Inv(s) && Lookup(s, r.key) == |s.items| && s.free != [] && 0 < i < |Next(s, r).items|
    ensures var t := Next(s, r);
            t.items[i] == s.items[i - 1] && Contents(t, t.items[i].buffer) == Contents(s, t.items[i].buffer)
  {
    var n := |s.items|;
    var u := [] + Buffers(s);
    assert u[i - 1] == s.items[i - 1].buffer && u[n - 1] == s.items[n - 1].buffer && u[n] == s.free[0];
  }

  ghost predicate Carried(s: State, t: State, slot: Slot) {
    slot in s.items && Contents(t, slot.buffer) == Contents(s, slot.buffer)
  }

  ghost predicate JustLoaded(s: State, r: Request, t: State, slot: Slot) {
    slot.id == s.clock && slot.key == r.key && Contents(t, slot.buffer) == r.data
  }

  /** A node after a request was there before with the same contents, or is the one just loaded. */
  lemma ItemSource(s: State, r: Request, i: nat)
    requires Inv(s) && i < |Next(s, r).items|
    ensures var t := Next(s, r);
            Carried(s, t, t.items[i]) || (Answer(s, r) == Loaded && JustLoaded(s, r, t, t.items[i]))
  {
    var j := Lookup(s, r.key);
    if j == |s.items| && s.free != [] {
      if i == 0 {
        LoadWrites(s, r);
      } else {
        LoadLeaves(s, r, i);
      }
    }
  }

  /** The request that loaded a slot asked for its key and supplied what its buffer holds. */
  ghost predicate Origin(reqs: seq<Request>, answers: seq<Outcome>, slot: Slot, s: State) {
    && slot.id < |reqs| && slot.id < |answers|
    && reqs[slot.id] == Request(slot.key, Contents(s, slot.buffer))
    && answers[slot.id] == Loaded
  }

  ghost predicate Origins(reqs: seq<Request>, answers: seq<Outcome>, s: State) {
    forall slot :: slot in s.items ==> Origin(reqs, answers, slot, s)
  }

  lemma OriginKept(reqs: seq<Request>, answers: seq<Outcome>, s: State, r: Request, answer: Outcome, t: State, slot: Slot)
    requires s.clock == |reqs| == |answers| && Origins(reqs, answers, s)
    requires Carried(s, t, slot) || (answer == Loaded && JustLoaded(s, r, t, slot))
    ensures Origin(reqs + [r], answers + [answer], slot, t)
  {
    assert slot in s.items ==> Origin(reqs, answers, slot, s);
  }

  lemma {:induction false} OriginsKept(capacity: Size, total: nat, reqs: seq<Request>)
    ensures Origins(reqs, Answers(capacity, total, reqs), After(capacity, total, reqs))
  {
    if reqs != [] {
      var was, r := reqs[..|reqs| - 1], reqs[|reqs| - 1];
      assert reqs == was + [r];
      OriginsKept(capacity, total, was);
      AfterInv(capacity, total, was);
      RunStep(capacity, total, was, r);
      var s, answers := After(capacity, total, was), Answers(capacity, total, was);
      var t := Next(s, r);
      forall slot | slot in t.items
        ensures Origin(was + [r], answers + [Answer(s, r)], slot, t)
      {
        var i :| 0 <= i < |t.items| && t.items[i] == slot;
        ItemSource(s, r, i);
        OriginKept(was, answers, s, r, Answer(s, r), t, slot);
      }
    }
  }

  /** After any run, a hit returns data that an earlier request of the run loaded for the same key. */
  lemma HitReturnsLoaded(capacity: Size, total: nat, reqs: seq<Request>, r: Request)
    requires Answer(After(capacity, total, reqs), r).Hit?
    ensures exists j ::
              && 0 <= j < |reqs| && Answers(capacity, total, reqs)[j] == Loaded
              && reqs[j] == Request(r.key, Answer(After(capacity, total, reqs), r).data)
  {
    OriginsKept(capacity, total, reqs);
    var s := After(capacity, total, reqs);
    var slot := s.items[Lookup(s, r.key)];
    assert Origin(reqs, Answers(capacity, total, reqs), slot, s);
  }

  // ----- when the pool runs out

  lemma NewKeyMisses(reqs: seq<Request>, answers: seq<Outcome>, s: State, key: string)
    requires Origins(reqs, answers, s) && forall i :: 0 <= i < |reqs| ==> reqs[i].key != key
    ensures Lookup(s, key) == |s.items|
  {
    var j := Lookup(s, key);
    assert j < |s.items| ==> Origin(reqs, answers, s.items[j], s);
  }

  lemma NewKeyLoads(s: State, r: Request)
    requires Inv(s) && |s.items| < s.total <= s.capacity && Lookup(s, r.key) == |s.items|
    ensures |Next(s, r).items| == |s.items| + 1
  {
  }

  ghost predicate AllNew(reqs: seq<Request>) {
    forall i, j :: 0 <= i < j < |reqs| ==> reqs[i].key != reqs[j].key
  }

  /** Requests for ever new keys fill the pool one buffer at a time. */
  lemma {:induction false} NewKeysFill(capacity: Size, total: nat, reqs: seq<Request>)
    requires |reqs| <= total <= capacity && AllNew(reqs)
    ensures |After(capacity, total, reqs).items| == |reqs|
  {
    if reqs != [] {
      var was, r := reqs[..|reqs| - 1], reqs[|reqs| - 1];
      NewKeysFill(capacity, total, was);
      OriginsKept(capacity, total, was);
      NewKeyMisses(was, Answers(capacity, total, was), After(capacity, total, was), r.key);
      AfterInv(capacity, total, was);
      NewKeyLoads(After(capacity, total, was), r);
    }
  }

  /** Any number of requests for different keys. */
  lemma NewKeys(n: nat) returns (reqs: seq<Request>)
    ensures |reqs| == n && AllNew(reqs)
  {
    reqs := seq(n, i requires 0 <= i < n => Request(seq(i, _ => 'a'), ""));
    assert forall i :: 0 <= i < n ==> |reqs[i].key| == i;
  }

  /** With a pool no larger than the cache, enough different keys exhaust it. */
  lemma SmallPoolExhausted(capacity: Size, total: nat) returns (reqs: seq<Request>, r: Request)
    requires total <= capacity
    ensures Answer(After(capacity, total, reqs), r) == Exhausted
  {
    var all := NewKeys(total + 1);
    reqs, r := all[..total], all[total];
    NewKeysFill(capacity, total, reqs);
    OriginsKept(capacity, total, reqs);
    NewKeyMisses(reqs, Answers(capacity, total, reqs), After(capacity, total, reqs), r.key);
    AfterInv(capacity, total, reqs);
  }

  /** A request can find the pool exhausted exactly when the pool has no more buffers than the cache has places. */
  lemma ExhaustedIffPoolTooSmall(capacity: Size, total: nat)
    ensures (exists reqs, r :: Answer(After(capacity, total, reqs), r) == Exhausted) <==> total <= capacity
  {
    if total <= capacity {
      var reqs, r := SmallPoolExhausted(capacity, total);
    } else {
      forall reqs, r
        ensures Answer(After(capacity, total, reqs), r) != Exhausted
      {
        AfterInv(capacity, total, reqs);
      }
    }
  }
}
