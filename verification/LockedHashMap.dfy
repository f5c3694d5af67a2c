/** A hash map with one lock per bucket, as interleaved steps of any number of threads: lock the bucket,
    walk its chain node by node, act, unlock. */
module LockedHashMap {
  import opened Options

  /** djb2 over the characters, in 64-bit arithmetic. */
  function HashFrom(h: nat, key: string): nat
    decreases key
  {
    if key == "" then h
    else HashFrom((h * 32 + h + key[0] as nat) % 0x1_0000_0000_0000_0000, key[1..])
  }

  function Bucket(key: string, n: nat): (b: nat)
    requires n > 0
    ensures b < n
  {
    HashFrom(5381, key) % n
  }

  datatype Node = Node(key: string, value: int)

  datatype Op = Insert(key: string, value: int) | Lookup(key: string)

  datatype Result = Done | Found(value: int) | Missing

  /** An operation with its call number and, once it took effect, its result. */
  datatype Entry = Entry(call: nat, op: Op, result: Result)

  /** A thread: outside any call; about to lock; holding the lock at node `pos`; acted and about to unlock. */
  datatype Pc =
    | Idle
    | Locking(call: nat, op: Op)
    | Walking(call: nat, op: Op, pos: nat)
    | Unlocking(entry: Entry)

  /** `log` records operations as they take effect, `returned` as they return. */
  datatype State = State(buckets: seq<seq<Node>>, locks: seq<Option<nat>>, threads: seq<Pc>, calls: nat,
                         log: seq<Entry>, returned: seq<Entry>)

  datatype Event = Call(t: nat, op: Op) | Lock(t: nat) | Walk(t: nat) | Unlock(t: nat)

  // ----- steps

  function BucketOf(s: State, op: Op): nat
    requires |s.buckets| > 0
  {
    Bucket(op.key, |s.buckets|)
  }

  predicate Enabled(s: State, e: Event) {
    && |s.buckets| > 0 && |s.locks| == |s.buckets| && e.t < |s.threads|
    && var pc := s.threads[e.t];
    match e
    case Call(_, _) => pc.Idle?
    case Lock(_) => pc.Locking? && s.locks[BucketOf(s, pc.op)] == None
    case Walk(_) => pc.Walking?
    case Unlock(_) => pc.Unlocking?
  }

  /** What the thread finds at its node: the effect on the chain and the result, or nothing yet. */
  function Visit(chain: seq<Node>, op: Op, pos: nat): Option<(seq<Node>, Result)> {
    if pos < |chain| then
      if chain[pos].key != op.key then None
      else
        match op
        case Insert(key, value) => Some((chain[pos := Node(key, value)], Done))
        case Lookup(_) => Some((chain, Found(chain[pos].value)))
    else
      match op
      case Insert(key, value) => Some(([Node(key, value)] + chain, Done))
      case Lookup(_) => Some((chain, Missing))
  }

  function Next(s: State, e: Event): State
    requires Enabled(s, e)
  {
    var pc := s.threads[e.t];
    match e
    case Call(t, op) => s.(threads := s.threads[t := Locking(s.calls, op)], calls := s.calls + 1)
    case Lock(t) => s.(locks := s.locks[BucketOf(s, pc.op) := Some(t)], threads := s.threads[t := Walking(pc.call, pc.op, 0)])
    case Walk(t) =>
      var b := BucketOf(s, pc.op);
      (match Visit(s.buckets[b], pc.op, pc.pos)
       case None => s.(threads := s.threads[t := Walking(pc.call, pc.op, pc.pos + 1)])
       case Some((chain, result)) =>
         var entry := Entry(pc.call, pc.op, result);
         s.(buckets := s.buckets[b := chain], threads := s.threads[t := Unlocking(entry)], log := s.log + [entry]))
    case Unlock(t) =>
      s.(locks := s.locks[BucketOf(s, pc.entry.op) := None], threads := s.threads[t := Idle], returned := s.returned + [pc.entry])
  }

  // ----- the sequential map

  function Apply(m: map<string, int>, op: Op): (map<string, int>, Result) {
    match op
    case Insert(key, value) => (m[key := value], Done)
    case Lookup(key) => (m, if key in m then Found(m[key]) else Missing)
  }

  function Replay(log: seq<Entry>): map<string, int> {
    if log == [] then map[] else Apply(Replay(log[..|log| - 1]), log[|log| - 1].op).0
  }

  /** Every logged result is the one the sequential map gives at that point of the log. */
  predicate Sequential(log: seq<Entry>) {
    log == [] || (Sequential(log[..|log| - 1]) &&
                  log[|log| - 1].result == Apply(Replay(log[..|log| - 1]), log[|log| - 1].op).1)
  }

  // ----- invariant

  ghost predicate ChainOk(chain: seq<Node>, b: nat, hash: string -> nat) {
    && (forall i :: 0 <= i < |chain| ==> hash(chain[i].key) == b)
    && (forall i, j :: 0 <= i < j < |chain| ==> chain[i].key != chain[j].key)
  }

  ghost predicate Has(chain: seq<Node>, key: string) {
    exists i :: 0 <= i < |chain| && chain[i].key == key
  }

  /** A chain stores exactly the entries of the map that hash to its bucket, each once. */
  ghost predicate Stores(chain: seq<Node>, m: map<string, int>, b: nat, hash: string -> nat) {
    && ChainOk(chain, b, hash)
    && (forall i :: 0 <= i < |chain| ==> chain[i].key in m && m[chain[i].key] == chain[i].value)
    && (forall key :: key in m && hash(key) == b ==> Has(chain, key))
  }

  function Hash(n: nat): string -> nat
    requires n > 0
  {
    key => Bucket(key, n)
  }

  function Holding(s: State, pc: Pc): Option<nat>
    requires |s.buckets| > 0
  {
    match pc
    case Walking(_, op, _) => Some(BucketOf(s, op))
    case Unlocking(entry) => Some(BucketOf(s, entry.op))
    case _ => None
  }

  ghost predicate ThreadOk(s: State, t: nat)
    requires t < |s.threads| && |s.buckets| > 0 && |s.locks| == |s.buckets|
  {
    var pc := s.threads[t];
    && (forall b: nat :: b < |s.locks| ==> (s.locks[b] == Some(t) <==> Holding(s, pc) == Some(b)))
    && (pc.Walking? ==>
          var chain := s.buckets[BucketOf(s, pc.op)];
          pc.pos <= |chain| && forall i :: 0 <= i < pc.pos ==> chain[i].key != pc.op.key)
    && (pc.Unlocking? ==> pc.entry in s.log)
    && (InProgress(pc) ==> pc.call < s.calls && forall i :: 0 <= i < |s.log| ==> s.log[i].call != pc.call)
  }

  predicate InProgress(pc: Pc) {
    pc.Locking? || pc.Walking?
  }

  /** Calls in progress have different numbers. */
  ghost predicate CallsDistinct(s: State) {
    forall t, u :: 0 <= t < u < |s.threads| && InProgress(s.threads[t]) && InProgress(s.threads[u]) ==>
                     s.threads[t].call != s.threads[u].call
  }

  /** The log names different calls, all of them begun. */
  ghost predicate NumbersDistinct(s: State) {
    && (forall i :: 0 <= i < |s.log| ==> s.log[i].call < s.calls)
    && (forall i, j :: 0 <= i < j < |s.log| ==> s.log[i].call != s.log[j].call)
  }

  ghost predicate Inv(s: State) {
    && |s.buckets| > 0 && |s.locks| == |s.buckets|
    && (forall b :: 0 <= b < |s.buckets| ==> Stores(s.buckets[b], Replay(s.log), b, Hash(|s.buckets|)))
    && (forall t :: 0 <= t < |s.threads| ==> ThreadOk(s, t))
    && CallsDistinct(s)
    && Sequential(s.log)
    && NumbersDistinct(s)
    && (forall i :: 0 <= i < |s.returned| ==> s.returned[i] in s.log)
  }

  // ----- a visit does what the sequential map does

  lemma VisitResult(chain: seq<Node>, m: map<string, int>, op: Op, pos: nat, hash: string -> nat)
    requires Stores(chain, m, hash(op.key), hash)
    requires pos <= |chain| && forall i :: 0 <= i < pos ==> chain[i].key != op.key
    requires Visit(chain, op, pos).Some?
    ensures Visit(chain, op, pos).value.1 == Apply(m, op).1
  {
    if pos == |chain| {
      assert !Has(chain, op.key);
    }
  }

  lemma UpdateStores(chain: seq<Node>, m: map<string, int>, key: string, value: int, pos: nat, hash: string -> nat)
    requires Stores(chain, m, hash(key), hash) && pos < |chain| && chain[pos].key == key
    ensures Stores(chain[pos := Node(key, value)], m[key := value], hash(key), hash)
  {
    var chain' := chain[pos := Node(key, value)];
    assert forall i :: 0 <= i < |chain| ==> chain'[i].key == chain[i].key;
    forall k | k in m[key := value] && hash(k) == hash(key)
      ensures Has(chain', k)
    {
      if k == key {
        assert chain'[pos].key == k;
      } else {
        assert Has(chain, k);
        var i :| 0 <= i < |chain| && chain[i].key == k;
        assert chain'[i].key == k;
      }
    }
  }

  lemma PushStores(chain: seq<Node>, m: map<string, int>, key: string, value: int, hash: string -> nat)
    requires Stores(chain, m, hash(key), hash) && !Has(chain, key)
    ensures Stores([Node(key, value)] + chain, m[key := value], hash(key), hash)
  {
    var chain' := [Node(key, value)] + chain;
    assert chain'[0].key == key;
    assert forall i :: 0 < i < |chain'| ==> chain'[i] == chain[i - 1];
    forall k | k in m[key := value] && hash(k) == hash(key)
      ensures Has(chain', k)
    {
      if k != key {
        assert Has(chain, k);
        var i :| 0 <= i < |chain| && chain[i].key == k;
        assert chain'[i + 1].key == k;
      }
    }
  }

  lemma VisitStores(chain: seq<Node>, m: map<string, int>, op: Op, pos: nat, hash: string -> nat)
    requires Stores(chain, m, hash(op.key), hash)
    requires pos <= |chain| && forall i :: 0 <= i < pos ==> chain[i].key != op.key
    requires Visit(chain, op, pos).Some?
    ensures Stores(Visit(chain, op, pos).value.0, Apply(m, op).0, hash(op.key), hash)
  {
    if op.Insert? {
      if pos < |chain| {
        UpdateStores(chain, m, op.key, op.value, pos, hash);
      } else {
        PushStores(chain, m, op.key, op.value, hash);
      }
    }
  }

  lemma OtherBucketStores(chain: seq<Node>, m: map<string, int>, op: Op, b: nat, hash: string -> nat)
    requires Stores(chain, m, b, hash) && b != hash(op.key)
    ensures Stores(chain, Apply(m, op).0, b, hash)
  {
  }

  // ----- every step keeps the invariant

  lemma CallKeepsInv(s: State, t: nat, op: Op)
    requires Inv(s) && Enabled(s, Call(t, op))
    ensures Inv(Next(s, Call(t, op)))
  {
    var z := Next(s, Call(t, op));
    forall u | 0 <= u < |z.threads|
      ensures ThreadOk(z, u)
    {
      assert ThreadOk(s, u);
    }
    forall u, v | 0 <= u < v < |z.threads| && InProgress(z.threads[u]) && InProgress(z.threads[v])
      ensures z.threads[u].call != z.threads[v].call
    {
      assert ThreadOk(s, u) && ThreadOk(s, v);
    }
  }

  lemma LockKeepsInv(s: State, t: nat)
    requires Inv(s) && Enabled(s, Lock(t))
    ensures Inv(Next(s, Lock(t)))
  {
    var z := Next(s, Lock(t));
    forall u | 0 <= u < |z.threads|
      ensures ThreadOk(z, u)
    {
      assert ThreadOk(s, u) && ThreadOk(s, t);
    }
  }

  lemma UnlockKeepsInv(s: State, t: nat)
    requires Inv(s) && Enabled(s, Unlock(t))
    ensures Inv(Next(s, Unlock(t)))
  {
    var z := Next(s, Unlock(t));
    assert ThreadOk(s, t);
    forall u | 0 <= u < |z.threads|
      ensures ThreadOk(z, u)
    {
      assert ThreadOk(s, u);
    }
  }

  lemma PassKeepsThread(s: State, t: nat, u: nat)
    requires Inv(s) && Enabled(s, Walk(t)) && u < |s.threads|
    requires Visit(s.buckets[BucketOf(s, s.threads[t].op)], s.threads[t].op, s.threads[t].pos).None?
    ensures ThreadOk(Next(s, Walk(t)), u)
  {
    assert ThreadOk(s, t) && ThreadOk(s, u);
  }

  lemma PassKeepsInv(s: State, t: nat)
    requires Inv(s) && Enabled(s, Walk(t))
    requires Visit(s.buckets[BucketOf(s, s.threads[t].op)], s.threads[t].op, s.threads[t].pos).None?
    ensures Inv(Next(s, Walk(t)))
  {
    forall u | 0 <= u < |s.threads|
      ensures ThreadOk(Next(s, Walk(t)), u)
    {
      PassKeepsThread(s, t, u);
    }
  }

  lemma ActKeepsLog(s: State, t: nat)
    requires Inv(s) && Enabled(s, Walk(t))
    requires Visit(s.buckets[BucketOf(s, s.threads[t].op)], s.threads[t].op, s.threads[t].pos).Some?
    ensures var z := Next(s, Walk(t));
            && Sequential(z.log)
            && (forall b :: 0 <= b < |z.buckets| ==> Stores(z.buckets[b], Replay(z.log), b, Hash(|z.buckets|)))
  {
    var z := Next(s, Walk(t));
    var op, pos := s.threads[t].op, s.threads[t].pos;
    var hash := Hash(|s.buckets|);
    var c := BucketOf(s, op);
    assert ThreadOk(s, t);
    assert z.log[..|z.log| - 1] == s.log;
    assert hash(op.key) == c;
    VisitResult(s.buckets[c], Replay(s.log), op, pos, hash);
    VisitStores(s.buckets[c], Replay(s.log), op, pos, hash);
    forall b | 0 <= b < |z.buckets|
      ensures Stores(z.buckets[b], Replay(z.log), b, hash)
    {
      if b != c { OtherBucketStores(s.buckets[b], Replay(s.log), op, b, hash); }
    }
  }

  lemma ActKeepsThread(s: State, t: nat, u: nat)
    requires Inv(s) && Enabled(s, Walk(t)) && u < |s.threads|
    requires Visit(s.buckets[BucketOf(s, s.threads[t].op)], s.threads[t].op, s.threads[t].pos).Some?
    ensures ThreadOk(Next(s, Walk(t)), u)
  {
    assert ThreadOk(s, t) && ThreadOk(s, u);
    var z := Next(s, Walk(t));
    var entry := z.log[|s.log|];
    assert entry in z.log;
    if u != t {
      var c := BucketOf(s, s.threads[t].op);
      if s.threads[u].Walking? {
        assert BucketOf(s, s.threads[u].op) != c by {
          assert s.locks[c] == Some(t);
        }
      }
      if InProgress(s.threads[u]) {
        assert InProgress(s.threads[t]) && CallsDistinct(s);
      }
    }
  }

  /** The call that acts is in progress, so its number is not in the log yet. */
  lemma ActKeepsCalls(s: State, t: nat)
    requires Inv(s) && Enabled(s, Walk(t))
    requires Visit(s.buckets[BucketOf(s, s.threads[t].op)], s.threads[t].op, s.threads[t].pos).Some?
    ensures CallsDistinct(Next(s, Walk(t)))
    ensures NumbersDistinct(Next(s, Walk(t)))
  {
    var z := Next(s, Walk(t));
    assert ThreadOk(s, t);
    forall i, j | 0 <= i < j < |z.log|
      ensures z.log[i].call != z.log[j].call && z.log[j].call < z.calls
    {
      assert z.log[i] == s.log[i];
      if j < |s.log| { assert z.log[j] == s.log[j]; }
    }
  }

  lemma ActKeepsInv(s: State, t: nat)
    requires Inv(s) && Enabled(s, Walk(t))
    requires Visit(s.buckets[BucketOf(s, s.threads[t].op)], s.threads[t].op, s.threads[t].pos).Some?
    ensures Inv(Next(s, Walk(t)))
  {
    var z := Next(s, Walk(t));
    ActKeepsLog(s, t);
    ActKeepsCalls(s, t);
    forall u | 0 <= u < |z.threads|
      ensures ThreadOk(z, u)
    {
      ActKeepsThread(s, t, u);
    }
    forall i | 0 <= i < |z.returned|
      ensures z.returned[i] in z.log
    {
      assert s.returned[i] in s.log;
    }
  }

  lemma NextKeepsInv(s: State, e: Event)
    requires Inv(s) && Enabled(s, e)
    ensures Inv(Next(s, e))
  {
    match e
    case Call(t, op) => CallKeepsInv(s, t, op);
    case Lock(t) => LockKeepsInv(s, t);
    case Unlock(t) => UnlockKeepsInv(s, t);
    case Walk(t) =>
      if Visit(s.buckets[BucketOf(s, s.threads[t].op)], s.threads[t].op, s.threads[t].pos).None? {
        PassKeepsInv(s, t);
      } else {
        ActKeepsInv(s, t);
      }
  }

  // ----- every run

  ghost predicate IsRun(s: State, events: seq<Event>)
    decreases events
  {
    events == [] || (Enabled(s, events[0]) && IsRun(Next(s, events[0]), events[1..]))
  }

  ghost function After(s: State, events: seq<Event>): State
    requires IsRun(s, events)
    decreases events
  {
    if events == [] then s else After(Next(s, events[0]), events[1..])
  }

  function Init(buckets: nat, threads: nat): State {
    State(seq(buckets, _ => []), seq(buckets, _ => None), seq(threads, _ => Idle), 0, [], [])
  }

  lemma InitInv(buckets: nat, threads: nat)
    requires buckets > 0
    ensures Inv(Init(buckets, threads))
  {
  }

  lemma {:induction false} RunKeepsInv(s: State, events: seq<Event>)
    requires Inv(s) && IsRun(s, events)
    ensures Inv(After(s, events))
    decreases events
  {
    if events != [] {
      NextKeepsInv(s, events[0]);
      RunKeepsInv(Next(s, events[0]), events[1..]);
    }
  }

  /** Linearizability: in every interleaving, every result is the one a plain map gives when the
      operations run one at a time in the order they acted under their locks; the chains hold exactly
      that map, no key twice; every call acts at most once; whatever has returned has acted, and a new call has not. */
  lemma Linearizable(buckets: nat, threads: nat, events: seq<Event>)
    requires buckets > 0 && IsRun(Init(buckets, threads), events)
    ensures var s := After(Init(buckets, threads), events);
            && Sequential(s.log)
            && |s.buckets| > 0
            && (forall b :: 0 <= b < |s.buckets| ==> Stores(s.buckets[b], Replay(s.log), b, Hash(|s.buckets|)))
            && (forall i :: 0 <= i < |s.returned| ==> s.returned[i] in s.log)
            && (forall i :: 0 <= i < |s.log| ==> s.log[i].call < s.calls)
            && (forall i, j :: 0 <= i < j < |s.log| ==> s.log[i].call != s.log[j].call)
  {
    InitInv(buckets, threads);
    RunKeepsInv(Init(buckets, threads), events);
  }

  lemma {:induction false} LogGrows(s: State, events: seq<Event>)
    requires IsRun(s, events)
    ensures s.log <= After(s, events).log
    decreases events
  {
    if events != [] {
      LogGrows(Next(s, events[0]), events[1..]);
    }
  }

  /** Real time: an operation that returned before another was called acts before it in the log. */
  lemma ReturnedActsFirst(s: State, events: seq<Event>, a: Entry, j: int)
    requires Inv(s) && IsRun(s, events) && a in s.returned
    requires 0 <= j < |After(s, events).log| && After(s, events).log[j].call >= s.calls
    ensures exists i :: 0 <= i < j && After(s, events).log[i] == a
  {
    LogGrows(s, events);
    var i :| 0 <= i < |s.log| && s.log[i] == a;
    assert After(s, events).log[i] == a;
  }
}
