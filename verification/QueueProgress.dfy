/** One producer and one consumer with equal item counts: no wake-up is lost, and every run ends with
    everything consumed in order. */
module QueueProgress {
  import opened Options
  import opened BoundedQueue

  ghost predicate Pair(s: State) {
    |s.threads| == 2 && s.threads[0].role.Producer? && s.threads[1].role.Consumer?
  }

  predicate Waits(th: Thread) {
    th.pc == BeforeWait || th.pc == Asleep
  }

  /** A raised flag means its side waits and still has to; a sleeper's flag is raised; a side that
      came back from waiting, or finds its flag lowered, no longer has to. */
  ghost predicate SideOk(s: State, t: nat)
    requires t < |s.threads|
  {
    var th := s.threads[t];
    && (Flag(s, th.role) ==> Waits(th) && MustWait(s, th.role))
    && (th.pc == Asleep ==> Flag(s, th.role))
    && (th.pc == Woken ==> !MustWait(s, th.role))
    && (th.pc == BeforeWait && !Flag(s, th.role) ==> !MustWait(s, th.role))
  }

  /** The items produced in order are 1, 2, 3, ... */
  function UpTo(n: nat): (r: seq<int>)
    ensures |r| == n
  {
    if n == 0 then [] else UpTo(n - 1) + [n]
  }

  ghost predicate PairInv(s: State) {
    && Inv(s) && Pair(s)
    && SideOk(s, 0) && SideOk(s, 1)
    && s.threads[0].left <= s.items && s.produced == UpTo(s.items - s.threads[0].left)
    && |s.consumed| == s.items - s.threads[1].left
  }

  lemma StartPair(s: State)
    requires Starts(s) && Pair(s)
    ensures PairInv(s)
  {
    StartInv(s);
  }

  lemma MoveKeepsPair(s: State, t: nat, woken: Option<nat>)
    requires PairInv(s) && Enabled(s, Body(t, woken)) && !MustWait(s, s.threads[t].role)
    ensures var z := Next(s, Body(t, woken));
            && Pair(z) && SideOk(z, 0) && SideOk(z, 1)
            && z.threads[0].left <= z.items && z.produced == UpTo(z.items - z.threads[0].left)
            && |z.consumed| == z.items - z.threads[1].left
  {
    assert ThreadOk(s, 0) && ThreadOk(s, 1);
    var o := 1 - t;
    assert woken.Some? ==> woken.value == o;
    assert woken.None? && Flag(s, s.threads[o].role) ==> s.threads[o].pc != Asleep;
  }

  lemma PairStep(s: State, e: Event)
    requires PairInv(s) && Enabled(s, e)
    ensures PairInv(Next(s, e))
  {
    NextKeepsInv(s, e);
    if e.Body? && !MustWait(s, s.threads[e.t].role) {
      MoveKeepsPair(s, e.t, e.woken);
    }
  }

  ghost predicate Finished(s: State) {
    forall t :: 0 <= t < |s.threads| ==> s.threads[t].pc == Ready && s.threads[t].left == 0
  }

  /** An event some thread can take. */
  lemma PairHasStep(s: State) returns (e: Event)
    requires PairInv(s) && !Finished(s)
    ensures Enabled(s, e)
  {
    assert ThreadOk(s, 0) && ThreadOk(s, 1);
    if s.mutex.Some? {
      var t := s.mutex.value;
      assert ThreadOk(s, t);
      var th := s.threads[t];
      var o := 1 - t;
      e := Body(t, if !MustWait(s, th.role) && Flag(s, Other(th.role)) && s.threads[o].pc == Asleep then Some(o) else None);
    } else if s.threads[0].pc == BeforeWait {
      e := Wait(0);
    } else if s.threads[1].pc == BeforeWait {
      e := Wait(1);
    } else if s.threads[0].pc == Woken || (s.threads[0].pc == Ready && s.threads[0].left > 0) {
      e := Acquire(0);
    } else {
      e := Acquire(1);
    }
  }

  /** How far a thread is from moving an item or falling asleep. */
  function Rank(s: State, t: nat): (r: nat)
    requires t < |s.threads|
    ensures r <= 4
  {
    var th := s.threads[t];
    match th.pc
    case Ready => if th.left > 0 then 4 else 0
    case Locked => if MustWait(s, th.role) then 3 else 1
    case BeforeWait => if Flag(s, th.role) then 2 else 3
    case Asleep => 0
    case Woken => 2
  }

  function Measure(s: State): nat
    requires |s.threads| == 2
  {
    10 * (s.threads[0].left + s.threads[1].left) + Rank(s, 0) + Rank(s, 1)
  }

  /** A move takes ten off the items left and adds at most the ranks of two threads. */
  lemma MoveShrinks(s: State, t: nat, woken: Option<nat>)
    requires PairInv(s) && Enabled(s, Body(t, woken)) && !MustWait(s, s.threads[t].role)
    ensures var z := Next(s, Body(t, woken)); |z.threads| == 2 && Measure(z) < Measure(s)
  {
    assert ThreadOk(s, t);
    var z := Next(s, Body(t, woken));
    assert z.threads[0].left + z.threads[1].left == s.threads[0].left + s.threads[1].left - 1;
  }

  lemma StepShrinks(s: State, e: Event)
    requires PairInv(s) && Enabled(s, e)
    ensures |Next(s, e).threads| == 2 && Measure(Next(s, e)) < Measure(s)
  {
    if e.Body? && !MustWait(s, s.threads[e.t].role) {
      MoveShrinks(s, e.t, e.woken);
    } else {
      assert ThreadOk(s, 0) && ThreadOk(s, 1);
    }
  }

  lemma {:induction false} RunIsShort(s: State, events: seq<Event>)
    requires PairInv(s) && IsRun(s, events)
    ensures PairInv(After(s, events)) && |events| + Measure(After(s, events)) <= Measure(s)
    decreases events
  {
    if events != [] {
      PairStep(s, events[0]);
      StepShrinks(s, events[0]);
      RunIsShort(Next(s, events[0]), events[1..]);
    }
  }

  /** No deadlock and no endless run: from the start every run is bounded in length, and a run that
      cannot be continued has moved every item, in order. */
  lemma {:induction false} EveryRunFinishes(s: State, events: seq<Event>)
    requires Starts(s) && Pair(s) && Inv(s) && IsRun(s, events)
    ensures |events| <= 20 * s.items + 8
    ensures (forall e :: !Enabled(After(s, events), e)) ==>
              var f := After(s, events); Finished(f) && f.produced == UpTo(f.items) && f.consumed == UpTo(f.items)
  {
    StartPair(s);
    RunIsShort(s, events);
    var f := After(s, events);
    if forall e :: !Enabled(f, e) {
      if !Finished(f) {
        var e := PairHasStep(f);
      }
      assert f.threads[0].left == 0 && f.threads[1].left == 0;
      assert f.count == 0;
      assert f.produced == f.consumed + Contents(f.buffer, f.out, 0);
    }
  }
}
