/** The producer/consumer ring buffer with its mutex and futex flags, as steps of any number of threads. */
module BoundedQueue {
  import opened Options

  datatype Role = Producer | Consumer

  /** Where a thread stands: outside the critical section; holding the mutex; between unlocking and
      futex_wait; asleep in futex_wait; back from it and about to lock again. */
  datatype Pc = Ready | Locked | BeforeWait | Asleep | Woken

  /** A thread with `left` items still to move. */
  datatype Thread = Thread(role: Role, pc: Pc, left: nat)

  /** `produced` and `consumed` record the items in critical-section order; each thread moves `items` items. */
  datatype State = State(buffer: seq<int>, inn: nat, out: nat, count: nat, notFull: bool, notEmpty: bool,
                         mutex: Option<nat>, threads: seq<Thread>, items: nat, produced: seq<int>, consumed: seq<int>)

  datatype Event = Acquire(t: nat) | Body(t: nat, woken: Option<nat>) | Wait(t: nat)

  /** The flag a role waits on. */
  function Flag(s: State, role: Role): bool {
    if role.Producer? then s.notFull else s.notEmpty
  }

  predicate MustWait(s: State, role: Role) {
    if role.Producer? then s.count == |s.buffer| else s.count == 0
  }

  function Other(role: Role): Role {
    if role.Producer? then Consumer else Producer
  }

  /** futex_wake(1): one sleeper of the given role, if there is any. */
  predicate Wakes(s: State, role: Role, woken: Option<nat>) {
    match woken
    case Some(w) => w < |s.threads| && s.threads[w].role == role && s.threads[w].pc == Asleep
    case None => forall w :: 0 <= w < |s.threads| && s.threads[w].role == role ==> s.threads[w].pc != Asleep
  }

  predicate Enabled(s: State, e: Event) {
    && e.t < |s.threads|
    && var th := s.threads[e.t];
    match e
    case Acquire(_) => s.mutex == None && ((th.pc == Ready && th.left > 0) || th.pc == Woken)
    case Body(_, woken) =>
      th.pc == Locked &&
      if MustWait(s, th.role) then woken == None
      else if Flag(s, Other(th.role)) then Wakes(s, Other(th.role), woken)
      else woken == None
    case Wait(_) => th.pc == BeforeWait
  }

  function SetPc(threads: seq<Thread>, t: nat, pc: Pc): (r: seq<Thread>)
    ensures |r| == |threads|
  {
    if t < |threads| then threads[t := threads[t].(pc := pc)] else threads
  }

  function WakeUp(threads: seq<Thread>, woken: Option<nat>): (r: seq<Thread>)
    ensures |r| == |threads|
  {
    if woken.Some? then SetPc(threads, woken.value, Woken) else threads
  }

  /** The index one past `i` around a ring of `n`. */
  function Step(i: nat, n: nat): nat
    requires n > 0
  {
    (i + 1) % n
  }

  /** One item moved, then a wake-up of the other side if its flag is set. */
  function Move(s: State, t: nat, woken: Option<nat>): State
    requires t < |s.threads| && |s.buffer| > 0 && s.inn < |s.buffer| && s.out < |s.buffer|
    requires s.threads[t].left > 0 && (s.threads[t].role.Consumer? ==> s.count > 0)
  {
    var th := s.threads[t];
    var n := |s.buffer|;
    var threads := WakeUp(s.threads[t := th.(pc := Ready, left := th.left - 1)], woken);
    if th.role.Producer? then
      var item := s.items - th.left + 1;
      s.(buffer := s.buffer[s.inn := item], inn := Step(s.inn, n), count := s.count + 1, notEmpty := false,
         mutex := None, threads := threads, produced := s.produced + [item])
    else
      s.(out := Step(s.out, n), count := s.count - 1, notFull := false,
         mutex := None, threads := threads, consumed := s.consumed + [s.buffer[s.out]])
  }

  function Next(s: State, e: Event): State
    requires Inv(s) && Enabled(s, e)
  {
    var th := s.threads[e.t];
    match e
    case Acquire(t) => s.(mutex := Some(t), threads := SetPc(s.threads, t, Locked))
    case Body(t, woken) =>
      if MustWait(s, th.role) then
        var s1 := s.(mutex := None, threads := SetPc(s.threads, t, BeforeWait));
        if th.role.Producer? then s1.(notFull := true) else s1.(notEmpty := true)
      else assert ThreadOk(s, t); Move(s, t, woken)
    case Wait(t) => s.(threads := SetPc(s.threads, t, if Flag(s, th.role) then Asleep else Woken))
  }

  // ----- safety for any number of threads

  /** The slot holding the `i`-th oldest item. */
  function Slot(out: nat, i: nat, n: nat): nat
    requires n > 0
  {
    (out + i) % n
  }

  /** The items in the ring, oldest first. */
  function Contents(buffer: seq<int>, out: nat, count: nat): seq<int>
    requires |buffer| > 0
  {
    seq(count, i requires 0 <= i < count => buffer[Slot(out, i, |buffer|)])
  }

  ghost predicate Ring(s: State) {
    && |s.buffer| > 0 && s.inn < |s.buffer| && s.out < |s.buffer| && s.count <= |s.buffer|
    && s.inn == Slot(s.out, s.count, |s.buffer|)
    && s.produced == s.consumed + Contents(s.buffer, s.out, s.count)
  }

  ghost predicate ThreadOk(s: State, t: nat)
    requires t < |s.threads|
  {
    var th := s.threads[t];
    && (th.pc == Locked <==> s.mutex == Some(t))
    && (th.pc != Ready ==> th.left > 0)
    && th.left <= s.items
  }

  ghost predicate Inv(s: State) {
    && Ring(s)
    && (forall t :: 0 <= t < |s.threads| ==> ThreadOk(s, t))
    && (s.mutex.Some? ==> s.mutex.value < |s.threads|)
  }

  lemma ModSmall(x: nat, n: nat)
    requires n > 0 && x < 2 * n
    ensures x % n == if x < n then x else x - n
  {
    if x >= n {
      assert x == n * 1 + (x - n);
    }
  }

  lemma SlotsDiffer(out: nat, i: nat, j: nat, n: nat)
    requires n > 0 && out < n && i < j < n
    ensures Slot(out, i, n) != Slot(out, j, n)
  {
    ModSmall(out + i, n);
    ModSmall(out + j, n);
  }

  lemma SlotStep(out: nat, i: nat, n: nat)
    requires n > 0 && out < n && i < n
    ensures Slot(Step(out, n), i, n) == Slot(out, i + 1, n)
    ensures Slot(out, i + 1, n) == Step(Slot(out, i, n), n)
  {
    ModSmall(out + i, n);
    ModSmall(out + 1, n);
    ModSmall(out + i + 1, n);
    ModSmall(Step(out, n) + i, n);
    ModSmall(Slot(out, i, n) + 1, n);
  }

  /** Writing the slot after the last item appends to the contents. */
  lemma PutAppends(buffer: seq<int>, out: nat, count: nat, item: int)
    requires |buffer| > 0 && out < |buffer| && count < |buffer|
    ensures Contents(buffer[Slot(out, count, |buffer|) := item], out, count + 1) == Contents(buffer, out, count) + [item]
  {
    var n := |buffer|;
    var b := buffer[Slot(out, count, n) := item];
    forall i | 0 <= i < count
      ensures b[Slot(out, i, n)] == buffer[Slot(out, i, n)]
    {
      SlotsDiffer(out, i, count, n);
    }
  }

  /** Advancing past the oldest item removes it from the contents. */
  lemma GetRemoves(buffer: seq<int>, out: nat, count: nat)
    requires |buffer| > 0 && out < |buffer| && 0 < count <= |buffer|
    ensures Contents(buffer, out, count) == [buffer[out]] + Contents(buffer, Step(out, |buffer|), count - 1)
  {
    var n := |buffer|;
    ModSmall(out, n);
    forall i | 0 <= i < count - 1
      ensures Slot(Step(out, n), i, n) == Slot(out, i + 1, n)
    {
      SlotStep(out, i, n);
    }
  }

  lemma MoveKeepsRing(s: State, t: nat, woken: Option<nat>)
    requires Inv(s) && t < |s.threads| && s.threads[t].left > 0 && !MustWait(s, s.threads[t].role)
    ensures Ring(Move(s, t, woken))
  {
    var n := |s.buffer|;
    var th := s.threads[t];
    if th.role.Producer? {
      var item := s.items - th.left + 1;
      PutAppends(s.buffer, s.out, s.count, item);
      SlotStep(s.out, s.count, n);
      assert s.produced + [item] == s.consumed + (Contents(s.buffer, s.out, s.count) + [item]);
    } else {
      GetRemoves(s.buffer, s.out, s.count);
      SlotStep(s.out, s.count - 1, n);
      var rest := Contents(s.buffer, Step(s.out, n), s.count - 1);
      assert s.consumed + ([s.buffer[s.out]] + rest) == (s.consumed + [s.buffer[s.out]]) + rest;
    }
  }

  lemma NextKeepsThread(s: State, e: Event, t: nat)
    requires Inv(s) && Enabled(s, e) && t < |s.threads|
    ensures ThreadOk(Next(s, e), t)
  {
    assert ThreadOk(s, t) && ThreadOk(s, e.t);
    if e.Body? && e.woken.Some? { assert ThreadOk(s, e.woken.value); }
  }

  /** Every step of every thread keeps the ring and the mutex discipline. */
  lemma NextKeepsInv(s: State, e: Event)
    requires Inv(s) && Enabled(s, e)
    ensures Inv(Next(s, e))
  {
    assert ThreadOk(s, e.t);
    if e.Body? && !MustWait(s, s.threads[e.t].role) {
      MoveKeepsRing(s, e.t, e.woken);
    }
    forall t | 0 <= t < |s.threads|
      ensures ThreadOk(Next(s, e), t)
    {
      NextKeepsThread(s, e, t);
    }
  }

  /** A run: each event is enabled where it happens. */
  ghost predicate IsRun(s: State, events: seq<Event>)
    requires Inv(s)
    decreases events
  {
    events == [] || (Enabled(s, events[0]) && (NextKeepsInv(s, events[0]); IsRun(Next(s, events[0]), events[1..])))
  }

  ghost function After(s: State, events: seq<Event>): State
    requires Inv(s) && IsRun(s, events)
    decreases events
  {
    if events == [] then s else (NextKeepsInv(s, events[0]); After(Next(s, events[0]), events[1..]))
  }

  lemma {:induction false} RunKeepsInv(s: State, events: seq<Event>)
    requires Inv(s) && IsRun(s, events)
    ensures Inv(After(s, events))
    decreases events
  {
    if events != [] {
      NextKeepsInv(s, events[0]);
      RunKeepsInv(Next(s, events[0]), events[1..]);
    }
  }

  ghost predicate Starts(s: State) {
    && |s.buffer| > 0 && s.inn == 0 && s.out == 0 && s.count == 0 && !s.notFull && !s.notEmpty && s.mutex == None
    && (forall t :: 0 <= t < |s.threads| ==> s.threads[t].pc == Ready && s.threads[t].left == s.items)
    && s.produced == [] && s.consumed == []
  }

  lemma StartInv(s: State)
    requires Starts(s)
    ensures Inv(s)
  {
    ModSmall(0, |s.buffer|);
    assert Contents(s.buffer, 0, 0) == [];
  }

  /** FIFO: for any number of producers and consumers and any interleaving, what was consumed is a
      prefix of what was produced, and the ring holds exactly the rest. */
  lemma ConsumedIsPrefix(s: State, events: seq<Event>)
    requires Starts(s) && Inv(s) && IsRun(s, events)
    ensures var f := After(s, events);
            && f.consumed <= f.produced
            && |f.produced| == |f.consumed| + f.count
            && |f.buffer| > 0 && f.inn == (f.out + f.count) % |f.buffer|
            && f.produced == f.consumed + Contents(f.buffer, f.out, f.count)
  {
    RunKeepsInv(s, events);
  }
}
