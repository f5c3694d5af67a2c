/** When a run of the queue can get stuck: exactly with two or more threads a side. */
module QueueStuck {
  import opened Options
  import opened BoundedQueue
  import opened QueueProgress

  /** Nothing can happen any more, yet some thread is not done. */
  ghost predicate Halted(s: State) {
    !Finished(s) && forall e :: !Enabled(s, e)
  }

  ghost predicate HaltsBy(s: State, events: seq<Event>)
    requires Inv(s)
  {
    IsRun(s, events) && Halted(After(s, events))
  }

  /** Some run from `s` gets stuck. */
  ghost predicate CanHalt(s: State)
    requires Inv(s)
  {
    exists events :: HaltsBy(s, events)
  }

  /** `k` threads of one role with `m` items each. */
  function Crew(role: Role, k: nat, m: nat): (r: seq<Thread>)
    ensures |r| == k && forall t :: 0 <= t < k ==> r[t] == Thread(role, Ready, m)
  {
    seq(k, _ => Thread(role, Ready, m))
  }

  /** The program's start: `k` producers, then `k` consumers, `n` slots and `m` items a thread. */
  function StartOf(k: nat, n: nat, m: nat): State {
    State(seq(n, _ => 0), 0, 0, 0, false, false, None, Crew(Producer, k, m) + Crew(Consumer, k, m), m, [], [])
  }

  // ----- items still to move

  function Left(threads: seq<Thread>, role: Role): nat {
    if threads == [] then 0 else Left(threads[1..], role) + (if threads[0].role == role then threads[0].left else 0)
  }

  lemma {:induction false} LeftSplit(a: seq<Thread>, b: seq<Thread>, role: Role)
    ensures Left(a + b, role) == Left(a, role) + Left(b, role)
  {
    if a == [] {
      assert a + b == b;
    } else {
      LeftSplit(a[1..], b, role);
      assert (a + b)[1..] == a[1..] + b;
    }
  }

  lemma {:induction false} CrewsBalance(k: nat, m: nat)
    ensures Left(Crew(Producer, k, m), Producer) == Left(Crew(Consumer, k, m), Consumer)
    ensures Left(Crew(Producer, k, m), Consumer) == Left(Crew(Consumer, k, m), Producer) == 0
  {
    if k > 0 {
      CrewsBalance(k - 1, m);
      assert Crew(Producer, k, m)[1..] == Crew(Producer, k - 1, m);
      assert Crew(Consumer, k, m)[1..] == Crew(Consumer, k - 1, m);
    }
  }

  lemma {:induction false} LeftUpdate(threads: seq<Thread>, t: nat, th: Thread, role: Role)
    requires t < |threads| && th.role == threads[t].role
    ensures Left(threads[t := th], role) == Left(threads, role) + (if th.role == role then th.left - threads[t].left else 0)
  {
    if t > 0 {
      LeftUpdate(threads[1..], t - 1, th, role);
      assert threads[t := th][1..] == threads[1..][t - 1 := th];
    } else {
      assert threads[t := th][1..] == threads[1..];
    }
  }

  lemma {:induction false} LeftPositive(threads: seq<Thread>, role: Role) returns (t: nat)
    requires Left(threads, role) > 0
    ensures t < |threads| && threads[t].role == role && threads[t].left > 0
  {
    if threads[0].role == role && threads[0].left > 0 {
      t := 0;
    } else {
      t := LeftPositive(threads[1..], role);
      t := t + 1;
    }
  }

  lemma {:induction false} LeftAtLeast(threads: seq<Thread>, t: nat)
    requires t < |threads|
    ensures Left(threads, threads[t].role) >= threads[t].left
  {
    if t > 0 {
      LeftAtLeast(threads[1..], t - 1);
    }
  }

  function Awake(threads: seq<Thread>): nat {
    if threads == [] then 0 else Awake(threads[1..]) + (if threads[0].pc.Asleep? then 0 else 1)
  }

  lemma {:induction false} AwakeUpdate(threads: seq<Thread>, t: nat, th: Thread)
    requires t < |threads|
    ensures Awake(threads[t := th]) ==
            Awake(threads) - (if threads[t].pc.Asleep? then 0 else 1) + (if th.pc.Asleep? then 0 else 1)
  {
    if t > 0 {
      AwakeUpdate(threads[1..], t - 1, th);
      assert threads[t := th][1..] == threads[1..][t - 1 := th];
    } else {
      assert threads[t := th][1..] == threads[1..];
    }
  }

  // ----- blocks of steps

  lemma Prepend(s: State, e: Event, rest: seq<Event>)
    requires Inv(s) && Enabled(s, e)
    requires Inv(Next(s, e)) && IsRun(Next(s, e), rest)
    ensures IsRun(s, [e] + rest) && After(s, [e] + rest) == After(Next(s, e), rest)
  {
    assert ([e] + rest)[1..] == rest;
  }

  predicate CanLock(s: State, t: nat) {
    t < |s.threads| && s.mutex == None && s.threads[t].left > 0 && (s.threads[t].pc.Ready? || s.threads[t].pc.Woken?)
  }

  /** A thread that has to wait, asleep with its flag raised. */
  function Slept(s: State, t: nat): State
    requires t < |s.threads|
  {
    var s1 := s.(threads := s.threads[t := s.threads[t].(pc := Asleep)]);
    if s.threads[t].role.Producer? then s1.(notFull := true) else s1.(notEmpty := true)
  }

  lemma SleepSteps(s: State, t: nat)
    requires Inv(s) && CanLock(s, t) && MustWait(s, s.threads[t].role)
    ensures var s1 := Next(s, Acquire(t));
            && Inv(s1) && Enabled(s1, Body(t, None))
            && var s2 := Next(s1, Body(t, None));
            Inv(s2) && Enabled(s2, Wait(t)) && Next(s2, Wait(t)) == Slept(s, t) && Inv(Slept(s, t))
  {
    NextKeepsInv(s, Acquire(t));
    var s1 := Next(s, Acquire(t));
    NextKeepsInv(s1, Body(t, None));
    var s2 := Next(s1, Body(t, None));
    NextKeepsInv(s2, Wait(t));
    assert s2.threads[t := s2.threads[t].(pc := Asleep)] == s.threads[t := s.threads[t].(pc := Asleep)];
  }

  /** A thread that finds the buffer full or empty goes to sleep. */
  lemma FallsAsleep(s: State, t: nat, rest: seq<Event>) returns (events: seq<Event>)
    requires Inv(s) && CanLock(s, t) && MustWait(s, s.threads[t].role)
    requires Inv(Slept(s, t)) && IsRun(Slept(s, t), rest)
    ensures IsRun(s, events) && After(s, events) == After(Slept(s, t), rest)
  {
    SleepSteps(s, t);
    var s1 := Next(s, Acquire(t));
    var s2 := Next(s1, Body(t, None));
    Prepend(s2, Wait(t), rest);
    Prepend(s1, Body(t, None), [Wait(t)] + rest);
    events := [Acquire(t)] + ([Body(t, None)] + ([Wait(t)] + rest));
    Prepend(s, Acquire(t), [Body(t, None)] + ([Wait(t)] + rest));
  }

  /** Whom a thread that moves an item wakes. */
  predicate WakesRightly(s: State, t: nat, woken: Option<nat>)
    requires t < |s.threads|
  {
    if Flag(s, Other(s.threads[t].role)) then woken.Some? && Wakes(s, Other(s.threads[t].role), woken) else woken == None
  }

  lemma MoveSteps(s: State, t: nat, woken: Option<nat>)
    requires Inv(s) && CanLock(s, t) && !MustWait(s, s.threads[t].role) && WakesRightly(s, t, woken)
    ensures var s1 := Next(s, Acquire(t));
            && Inv(s1) && Enabled(s1, Body(t, woken))
            && Next(s1, Body(t, woken)) == Move(s, t, woken) && Inv(Move(s, t, woken))
  {
    NextKeepsInv(s, Acquire(t));
    var s1 := Next(s, Acquire(t));
    NextKeepsInv(s1, Body(t, woken));
    assert s1.threads[t := s1.threads[t].(pc := Ready, left := s1.threads[t].left - 1)]
        == s.threads[t := s.threads[t].(pc := Ready, left := s.threads[t].left - 1)];
  }

  /** A thread takes the mutex and moves one item. */
  lemma MovesItem(s: State, t: nat, woken: Option<nat>, rest: seq<Event>) returns (events: seq<Event>)
    requires Inv(s) && CanLock(s, t) && !MustWait(s, s.threads[t].role) && WakesRightly(s, t, woken)
    requires Inv(Move(s, t, woken)) && IsRun(Move(s, t, woken), rest)
    ensures IsRun(s, events) && After(s, events) == After(Move(s, t, woken), rest)
  {
    MoveSteps(s, t, woken);
    Prepend(Next(s, Acquire(t)), Body(t, woken), rest);
    events := [Acquire(t)] + ([Body(t, woken)] + rest);
    Prepend(s, Acquire(t), [Body(t, woken)] + rest);
  }

  // ----- a sleeper nobody will wake

  ghost predicate OthersDone(s: State, c: nat) {
    forall t :: 0 <= t < |s.threads| && t != c && s.threads[t].role.Consumer? ==> s.threads[t].left == 0
  }

  /** Consumer `c` sleeps with the flag lowered. As long as another consumer has work, no producer sleeps. */
  ghost predicate Doomed(s: State, c: nat) {
    && Inv(s) && s.mutex == None && !s.notEmpty
    && c < |s.threads| && s.threads[c].role.Consumer? && s.threads[c].pc.Asleep?
    && (forall t :: 0 <= t < |s.threads| && t != c ==> Placed(s, c, t))
    && (!OthersDone(s, c) ==> !s.notFull)
    && Left(s.threads, Consumer) == Left(s.threads, Producer) + s.count
  }

  ghost predicate Placed(s: State, c: nat, t: nat)
    requires t < |s.threads|
  {
    var th := s.threads[t];
    if th.role.Consumer? then th.pc.Ready? || th.pc.Woken? else th.pc.Ready? || (th.pc.Asleep? && OthersDone(s, c))
  }

  /** After a move that wakes nobody, the sleeper is as lost as before. */
  lemma MoveKeepsDoom(s: State, c: nat, t: nat)
    requires Doomed(s, c) && t != c && CanLock(s, t) && !MustWait(s, s.threads[t].role)
    requires s.threads[t].role.Consumer? ==> !OthersDone(s, c)
    ensures Inv(Move(s, t, None)) && Doomed(Move(s, t, None), c)
    ensures var z := Move(s, t, None);
            Left(z.threads, Producer) + Left(z.threads, Consumer) + 1 == Left(s.threads, Producer) + Left(s.threads, Consumer)
  {
    MoveSteps(s, t, None);
    var z, th := Move(s, t, None), s.threads[t].(pc := Ready, left := s.threads[t].left - 1);
    LeftUpdate(s.threads, t, th, Producer);
    LeftUpdate(s.threads, t, th, Consumer);
    forall u | 0 <= u < |z.threads| && u != c
      ensures Placed(z, c, u)
    {
      assert Placed(s, c, u);
      assert OthersDone(s, c) ==> OthersDone(z, c);
    }
    if OthersDone(s, c) {
      assert OthersDone(z, c);
    }
  }

  lemma SleepKeepsDoom(s: State, c: nat, t: nat)
    requires Doomed(s, c) && t != c && CanLock(s, t) && s.threads[t].role.Producer? && s.count == |s.buffer| && OthersDone(s, c)
    ensures Inv(Slept(s, t)) && Doomed(Slept(s, t), c)
    ensures Left(Slept(s, t).threads, Producer) == Left(s.threads, Producer)
    ensures Left(Slept(s, t).threads, Consumer) == Left(s.threads, Consumer)
    ensures Awake(Slept(s, t).threads) < Awake(s.threads)
  {
    SleepSteps(s, t);
    var z, th := Slept(s, t), s.threads[t].(pc := Asleep);
    LeftUpdate(s.threads, t, th, Producer);
    LeftUpdate(s.threads, t, th, Consumer);
    AwakeUpdate(s.threads, t, th);
    assert OthersDone(z, c);
    forall u | 0 <= u < |z.threads| && u != c
      ensures Placed(z, c, u)
    {
      assert Placed(s, c, u);
    }
  }

  /** With everyone else done or asleep, nothing is left to happen. */
  lemma DoomedHalts(s: State, c: nat)
    requires Doomed(s, c) && OthersDone(s, c)
    requires forall t :: 0 <= t < |s.threads| && s.threads[t].role.Producer? ==> !CanLock(s, t)
    ensures Halted(s)
  {
    assert ThreadOk(s, c);
    forall e
      ensures !Enabled(s, e)
    {
      if e.t < |s.threads| {
        assert ThreadOk(s, e.t);
        assert e.t != c ==> Placed(s, c, e.t);
      }
    }
  }

  /** From there the others can go on until nothing is enabled any more. */
  lemma {:induction false} Doom(s: State, c: nat) returns (events: seq<Event>)
    requires Doomed(s, c)
    ensures IsRun(s, events) && Halted(After(s, events))
    decreases Left(s.threads, Producer) + Left(s.threads, Consumer), Awake(s.threads)
  {
    if exists t :: 0 <= t < |s.threads| && t != c && s.threads[t].role.Consumer? && s.threads[t].left > 0 {
      var t :| 0 <= t < |s.threads| && t != c && s.threads[t].role.Consumer? && s.threads[t].left > 0;
      assert Placed(s, c, t);
      if s.count == 0 {
        LeftAtLeast(s.threads, t);
        t := LeftPositive(s.threads, Producer);
        assert Placed(s, c, t);
      }
      MoveKeepsDoom(s, c, t);
      var rest := Doom(Move(s, t, None), c);
      events := MovesItem(s, t, None, rest);
    } else if exists t :: 0 <= t < |s.threads| && s.threads[t].role.Producer? && CanLock(s, t) {
      var t :| 0 <= t < |s.threads| && s.threads[t].role.Producer? && CanLock(s, t);
      if s.count < |s.buffer| {
        MoveKeepsDoom(s, c, t);
        var rest := Doom(Move(s, t, None), c);
        events := MovesItem(s, t, None, rest);
      } else {
        SleepKeepsDoom(s, c, t);
        var rest := Doom(Slept(s, t), c);
        events := FallsAsleep(s, t, rest);
      }
    } else {
      events := [];
      DoomedHalts(s, c);
    }
  }

  /** Two consumers asleep; the first item wakes one of them and lowers the flag. */
  lemma FirstItemDooms(s: State, k: nat)
    requires k >= 2 && |s.threads| == 2 * k && Inv(s) && s.mutex == None && !s.notFull && s.notEmpty && s.count == 0
    requires forall t :: 0 <= t < k ==> s.threads[t].role.Producer? && s.threads[t].pc.Ready? && s.threads[t].left > 0
    requires forall t :: k <= t < 2 * k ==> s.threads[t].role.Consumer? && s.threads[t].left > 0
    requires s.threads[k].pc.Asleep? && s.threads[k + 1].pc.Asleep? && forall t :: k + 2 <= t < 2 * k ==> s.threads[t].pc.Ready?
    requires Left(s.threads, Consumer) == Left(s.threads, Producer)
    ensures Inv(Move(s, 0, Some(k))) && Doomed(Move(s, 0, Some(k)), k + 1)
  {
    MoveSteps(s, 0, Some(k));
    var z, th := Move(s, 0, Some(k)), s.threads[0].(pc := Ready, left := s.threads[0].left - 1);
    var mid := s.threads[0 := th];
    LeftUpdate(s.threads, 0, th, Producer);
    LeftUpdate(s.threads, 0, th, Consumer);
    LeftUpdate(mid, k, mid[k].(pc := Woken), Producer);
    LeftUpdate(mid, k, mid[k].(pc := Woken), Consumer);
    assert z.threads == mid[k := mid[k].(pc := Woken)];
    assert z.threads[k].left > 0;
    var c := k + 1;
    assert forall t :: 0 <= t < |z.threads| && t != c ==> Placed(z, c, t);
  }

  /** The first two consumers asleep, everybody else as at the start. */
  function BothAsleep(k: nat, n: nat, m: nat): State
    requires k >= 2
  {
    Slept(Slept(StartOf(k, n, m), k), k + 1)
  }

  lemma BothFallAsleep(k: nat, n: nat, m: nat, rest: seq<Event>) returns (events: seq<Event>)
    requires k >= 2 && n >= 1 && m >= 1 && Inv(StartOf(k, n, m)) && Inv(BothAsleep(k, n, m)) && IsRun(BothAsleep(k, n, m), rest)
    ensures IsRun(StartOf(k, n, m), events) && After(StartOf(k, n, m), events) == After(BothAsleep(k, n, m), rest)
  {
    var s0 := StartOf(k, n, m);
    SleepSteps(s0, k);
    var s1 := Slept(s0, k);
    var r1 := FallsAsleep(s1, k + 1, rest);
    events := FallsAsleep(s0, k, r1);
  }

  lemma BothAsleepInv(k: nat, n: nat, m: nat)
    requires k >= 2 && n >= 1 && m >= 1 && Inv(StartOf(k, n, m))
    ensures Inv(BothAsleep(k, n, m))
  {
    SleepSteps(StartOf(k, n, m), k);
    SleepSteps(Slept(StartOf(k, n, m), k), k + 1);
  }

  lemma StuckRun(k: nat, n: nat, m: nat) returns (events: seq<Event>)
    requires k >= 2 && n >= 1 && m >= 1 && Inv(StartOf(k, n, m))
    ensures IsRun(StartOf(k, n, m), events) && Halted(After(StartOf(k, n, m), events))
  {
    var s := BothAsleep(k, n, m);
    BothAsleepInv(k, n, m);
    BalancedStart(k, n, m);
    FirstItemDooms(s, k);
    var r2 := Doom(Move(s, 0, Some(k)), k + 1);
    var r1 := MovesItem(s, 0, Some(k), r2);
    events := BothFallAsleep(k, n, m, r1);
  }

  lemma BalancedStart(k: nat, n: nat, m: nat)
    requires k >= 2 && n >= 1 && m >= 1
    ensures var s := BothAsleep(k, n, m); Left(s.threads, Consumer) == Left(s.threads, Producer)
  {
    var ps, cs := Crew(Producer, k, m), Crew(Consumer, k, m);
    CrewsBalance(k, m);
    LeftSplit(ps, cs, Producer);
    LeftSplit(ps, cs, Consumer);
    var threads := ps + cs;
    var one := threads[k].(pc := Asleep);
    LeftUpdate(threads, k, one, Producer);
    LeftUpdate(threads, k, one, Consumer);
    var mid := threads[k := one];
    LeftUpdate(mid, k + 1, mid[k + 1].(pc := Asleep), Producer);
    LeftUpdate(mid, k + 1, mid[k + 1].(pc := Asleep), Consumer);
  }

  lemma StartOfStarts(k: nat, n: nat, m: nat)
    requires n >= 1
    ensures Starts(StartOf(k, n, m)) && Inv(StartOf(k, n, m))
  {
    StartInv(StartOf(k, n, m));
  }

  /** With `k` producers and `k` consumers of `m` items each, whatever the number of slots, some run gets stuck
      before everything is moved if and only if there are at least two of each and something to move. */
  lemma StuckIffTwoOfEach(k: nat, n: nat, m: nat)
    requires n >= 1
    ensures Inv(StartOf(k, n, m))
    ensures CanHalt(StartOf(k, n, m)) <==> k >= 2 && m >= 1
  {
    var s := StartOf(k, n, m);
    StartOfStarts(k, n, m);
    if k >= 2 && m >= 1 {
      var events := StuckRun(k, n, m);
      assert HaltsBy(s, events);
    } else {
      forall events
        ensures !HaltsBy(s, events)
      {
        if IsRun(s, events) {
          if k == 1 {
            EveryRunFinishes(s, events);
          } else {
            FinishedStays(s, events);
          }
        }
      }
    }
  }

  lemma FinishedStays(s: State, events: seq<Event>)
    requires Inv(s) && Finished(s) && IsRun(s, events)
    ensures events == [] && !Halted(After(s, events))
  {
    forall e
      ensures !Enabled(s, e)
    {
      if e.t < |s.threads| {
        assert ThreadOk(s, e.t);
      }
    }
  }
}
