/** When a flag is up, who sleeps and who is woken, told from the steps of a run. */
module QueueFlags {
  import opened BoundedQueue
  import opened Lasting
  import opened Options

  /** The step is a turn inside the mutex of a thread of `role` that finds the buffer full, or empty, for it. */
  ghost predicate FindsNone(s: State, e: Event, role: Role) {
    e.Body? && e.t < |s.threads| && s.threads[e.t].role == role && MustWait(s, role)
  }

  /** The step moves an item for a thread of `role`. */
  ghost predicate MovesOne(s: State, e: Event, role: Role) {
    e.Body? && e.t < |s.threads| && s.threads[e.t].role == role && !MustWait(s, role)
  }

  /** A flag goes up when a thread of its role has to wait and down when the other role moves an item. */
  lemma FlagStep(s: State, e: Event, role: Role)
    requires Inv(s) && Enabled(s, e)
    ensures Flag(Next(s, e), role) <==> FindsNone(s, e, role) || (Flag(s, role) && !MovesOne(s, e, Other(role)))
  {
    assert ThreadOk(s, e.t);
  }

  ghost function FlagSteps(s: State, events: seq<Event>, role: Role): seq<Happening>
    requires Inv(s) && IsRun(s, events)
    decreases events
  {
    if events == [] then []
    else
      NextKeepsInv(s, events[0]);
      [Happening(FindsNone(s, events[0], role), MovesOne(s, events[0], Other(role)))] + FlagSteps(Next(s, events[0]), events[1..], role)
  }

  lemma {:induction false} FlagFrom(s: State, events: seq<Event>, role: Role)
    requires Inv(s) && IsRun(s, events)
    ensures var steps := FlagSteps(s, events, role);
            Flag(After(s, events), role) <==> Since(steps) || (Flag(s, role) && LastsFrom(steps, -1))
    decreases events
  {
    if events != [] {
      var e := events[0];
      NextKeepsInv(s, e);
      FlagFrom(Next(s, e), events[1..], role);
      FlagStep(s, e, role);
      SinceFront(Happening(FindsNone(s, e, role), MovesOne(s, e, Other(role))), FlagSteps(Next(s, e), events[1..], role));
    }
  }

  /** In every run, for any number of threads: the flag of a role is up if and only if a thread of that role has found the
      buffer full, or empty, and the other role has moved no item since. */
  lemma FlagIff(s: State, events: seq<Event>, role: Role)
    requires Starts(s) && Inv(s) && IsRun(s, events)
    ensures Flag(After(s, events), role) <==> Since(FlagSteps(s, events, role))
  {
    FlagFrom(s, events, role);
  }

  /** A thread falls asleep when it waits with its flag up and wakes when an item is moved that names it. */
  lemma SleepStep(s: State, e: Event, t: nat)
    requires Inv(s) && Enabled(s, e) && t < |s.threads|
    ensures |Next(s, e).threads| == |s.threads| && Next(s, e).threads[t].role == s.threads[t].role
    ensures Next(s, e).threads[t].pc == Asleep <==>
            || (e == Wait(t) && Flag(s, s.threads[t].role))
            || (s.threads[t].pc == Asleep && !(e.Body? && e.woken == Some(t)))
  {
    assert ThreadOk(s, e.t);
  }

  ghost function SleepSteps(s: State, events: seq<Event>, t: nat): seq<Happening>
    requires Inv(s) && IsRun(s, events) && t < |s.threads|
    decreases events
  {
    if events == [] then []
    else
      NextKeepsInv(s, events[0]);
      SleepStep(s, events[0], t);
      [Happening(events[0] == Wait(t) && Flag(s, s.threads[t].role), events[0].Body? && events[0].woken == Some(t))]
      + SleepSteps(Next(s, events[0]), events[1..], t)
  }

  lemma {:induction false} SleepFrom(s: State, events: seq<Event>, t: nat)
    requires Inv(s) && IsRun(s, events) && t < |s.threads|
    ensures |After(s, events).threads| == |s.threads|
    ensures var steps := SleepSteps(s, events, t);
            After(s, events).threads[t].pc == Asleep <==> Since(steps) || (s.threads[t].pc == Asleep && LastsFrom(steps, -1))
    decreases events
  {
    if events != [] {
      var e := events[0];
      NextKeepsInv(s, e);
      SleepStep(s, e, t);
      SleepFrom(Next(s, e), events[1..], t);
      SinceFront(Happening(e == Wait(t) && Flag(s, s.threads[t].role), e.Body? && e.woken == Some(t)),
                 SleepSteps(Next(s, e), events[1..], t));
    }
  }

  /** In every run: a thread is asleep if and only if it has waited with its flag up and no move has woken it since. */
  lemma SleepIff(s: State, events: seq<Event>, t: nat)
    requires Starts(s) && Inv(s) && IsRun(s, events) && t < |s.threads|
    ensures |After(s, events).threads| == |s.threads|
    ensures After(s, events).threads[t].pc == Asleep <==> Since(SleepSteps(s, events, t))
  {
    SleepFrom(s, events, t);
  }

  /** Whoever moves an item while the other role's flag is up wakes one sleeper of that role, if there is any, and nobody
      else; with the flag down it wakes nobody. */
  lemma MoveWakesOne(s: State, e: Event)
    requires Inv(s) && Enabled(s, e) && e.Body? && MovesOne(s, e, s.threads[e.t].role)
    ensures var z, other := Next(s, e), Other(s.threads[e.t].role);
            && |z.threads| == |s.threads|
            && (e.woken.Some? <==>
                  Flag(s, other) && exists w :: 0 <= w < |s.threads| && s.threads[w].role == other && s.threads[w].pc == Asleep)
            && (e.woken.Some? ==>
                  && e.woken.value < |s.threads| && s.threads[e.woken.value].role == other
                  && s.threads[e.woken.value].pc == Asleep && z.threads[e.woken.value].pc == Woken)
            && (forall u :: 0 <= u < |s.threads| && u != e.t && Some(u) != e.woken ==> z.threads[u] == s.threads[u])
  {
    assert ThreadOk(s, e.t);
  }

  /** A producer has to wait exactly when as many items as there are slots are not consumed yet, a consumer exactly when
      all are. */
  lemma WaitsTold(s: State)
    requires Inv(s)
    ensures MustWait(s, Producer) <==> |s.produced| == |s.consumed| + |s.buffer|
    ensures MustWait(s, Consumer) <==> s.produced == s.consumed
  {
    assert |s.produced| == |s.consumed| + s.count;
    if s.count == 0 {
      assert s.produced == s.consumed + [];
    }
  }
}
