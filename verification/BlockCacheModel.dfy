/** The buffer pool and block cache as values: what one request does, and the invariant it keeps. */
module BlockCacheModel {

  /** A cached block: its key, the buffer that holds it, and the number of the request that loaded it. */
  datatype Slot = Slot(id: nat, key: string, buffer: nat)

  /** The size of the cache, which is also the number of its hash buckets. */
  type Size = n: nat | n > 0 witness 1

  /** `items` is the recency list, `buckets` the nodes the hash table points at (none: a null pointer), `free` the
      free list, `data` what was written to the buffers, `clock` the number of requests so far. */
  datatype State = State(capacity: Size, total: nat, items: seq<Slot>, buckets: map<nat, Slot>,
                         free: seq<nat>, data: map<nat, string>, clock: nat)

  datatype Request = Request(key: string, data: string)

  datatype Outcome = Hit(data: string) | Loaded | Exhausted

  // ----- operations

  /** The hash loop from `h` on, in 32-bit arithmetic, reduced to a bucket at the end. */
  function HashFrom(h: nat, key: string, n: Size): (b: nat)
    ensures b < n
    decreases key
  {
    if key == "" then h % n else HashFrom((h * 31 + key[0] as nat) % 0x1_0000_0000, key[1..], n)
  }

  function Hash(key: string, n: Size): (b: nat)
    ensures b < n
  {
    HashFrom(0, key, n)
  }

  /** The first place from `i` on that holds `key`, or the length of the list. */
  function Find(items: seq<Slot>, i: nat, key: string): (j: nat)
    requires i <= |items|
    ensures i <= j <= |items|
    ensures j < |items| ==> items[j].key == key
    ensures forall k :: i <= k < j ==> items[k].key != key
    decreases |items| - i
  {
    if i == |items| || items[i].key == key then i else Find(items, i + 1, key)
  }

  /** The place of a node in the list, or the length of the list. */
  function Place<T(==)>(items: seq<T>, slot: T): (i: nat)
    ensures i <= |items|
    ensures i < |items| ==> items[i] == slot
    ensures slot in items ==> i < |items|
  {
    if items == [] then 0 else if items[0] == slot then 0 else 1 + Place(items[1..], slot)
  }

  /** Where the walk of a bucket starts. */
  function Start(s: State, h: nat): (i: nat)
    ensures i <= |s.items|
    ensures i < |s.items| ==> h in s.buckets && s.buckets[h] == s.items[i]
    ensures h in s.buckets && s.buckets[h] in s.items ==> i < |s.items|
  {
    if h in s.buckets then Place(s.items, s.buckets[h]) else |s.items|
  }

  /** The place where the walk from the key's bucket finds the key, or the length of the list. */
  function Lookup(s: State, key: string): (j: nat)
    ensures j <= |s.items|
    ensures j < |s.items| ==> s.items[j].key == key
  {
    Find(s.items, Start(s, Hash(key, s.capacity)), key)
  }

  function Fronted<T>(items: seq<T>, j: nat): (r: seq<T>)
    requires j < |items|
    ensures |r| == |items|
    ensures forall i :: 0 <= i < |r| ==> r[i] == items[if i == 0 then j else if i <= j then i - 1 else i]
  {
    [items[j]] + (items[..j] + items[j + 1..])
  }

  /** The first free buffer is taken and written. */
  function Take(s: State, data: string): State
    requires s.free != []
  {
    s.(free := s.free[1..], data := s.data[s.free[0] := data])
  }

  /** A full cache gives up its last node: the node's bucket forgets it, its buffer is cleared and freed. */
  function Evict(s: State): State {
    if |s.items| < s.capacity then s else
      var lru := s.items[|s.items| - 1];
      var h := Hash(lru.key, s.capacity);
      s.(items := s.items[..|s.items| - 1],
      buckets := if h in s.buckets && s.buckets[h] == lru then s.buckets - {h} else s.buckets,
      free := [lru.buffer] + s.free,
      data := s.data[lru.buffer := ""])
  }

  function Insert(s: State, key: string, buffer: nat): State {
    var slot := Slot(s.clock, key, buffer);
    s.(items := [slot] + s.items, buckets := s.buckets[Hash(key, s.capacity) := slot])
  }

  function Contents(s: State, buffer: nat): string {
    if buffer in s.data then s.data[buffer] else ""
  }

  function Tick(s: State): State {
    s.(clock := s.clock + 1)
  }

  /** What one request does to the cache. */
  function Serve(s: State, r: Request): State {
    var j := Lookup(s, r.key);
    if j < |s.items| then s.(items := Fronted(s.items, j))
    else if s.free == [] then s
    else Insert(Evict(Take(s, r.data)), r.key, s.free[0])
  }

  /** One request. */
  function Next(s: State, r: Request): State {
    Tick(Serve(s, r))
  }

  function Answer(s: State, r: Request): Outcome {
    var j := Lookup(s, r.key);
    if j < |s.items| then Hit(Contents(s, s.items[j].buffer))
    else if s.free == [] then Exhausted
    else Loaded
  }

  function Init(capacity: Size, total: nat): State {
    State(capacity, total, [], map[], seq(total, i => i), map[], 0)
  }

  // ----- the invariant

  predicate NoRepeat(s: seq<nat>) {
    forall i, j :: 0 <= i < j < |s| ==> s[i] != s[j]
  }

  /** A list of `n` different buffers, hence of all `n` buffers. */
  predicate Whole(u: seq<nat>, n: nat) {
    |u| == n && NoRepeat(u) && forall i :: 0 <= i < n ==> u[i] < n
  }

  /** The buffers held by cache nodes, then the free ones. */
  function Buffers(s: State): (r: seq<nat>)
    ensures |r| == |s.items| + |s.free|
  {
    seq(|s.items|, i requires 0 <= i < |s.items| => s.items[i].buffer) + s.free
  }

  predicate BucketOk(s: State, h: nat) {
    h in s.buckets ==> s.buckets[h] in s.items && Hash(s.buckets[h].key, s.capacity) == h
  }

  predicate DistinctIds(items: seq<Slot>) {
    forall i, j :: 0 <= i < j < |items| ==> items[i].id != items[j].id
  }

  /** Every buffer is held by one node, on the free list once, or among those just taken `out`; no bucket dangles. */
  predicate InvWith(s: State, out: seq<nat>) {
    && |s.items| <= s.capacity
    && Whole(out + Buffers(s), s.total)
    && (forall i :: 0 <= i < |s.items| ==> s.items[i].id < s.clock)
    && DistinctIds(s.items)
    && (forall h :: h in s.buckets ==> BucketOk(s, h))
  }

  predicate Inv(s: State) {
    InvWith(s, [])
  }

  // ----- what the parts of a request keep

  lemma InitInv(capacity: Size, total: nat)
    ensures Inv(Init(capacity, total))
  {
    var s := Init(capacity, total);
    assert [] + Buffers(s) == s.free;
  }

  lemma TakeKeeps(s: State, data: string)
    requires Inv(s) && s.free != []
    ensures InvWith(Take(s, data), [s.free[0]])
  {
    var t, b, n := Take(s, data), s.free[0], |s.items|;
    var u, v := [b] + Buffers(t), [] + Buffers(s);
    forall i | 0 <= i < |u|
      ensures u[i] == v[if i == 0 then n else if i <= n then i - 1 else i]
    {
    }
    forall h | h in t.buckets
      ensures BucketOk(t, h)
    {
      assert BucketOk(s, h);
    }
  }

  lemma EvictKeeps(s: State, out: seq<nat>)
    requires InvWith(s, out)
    ensures InvWith(Evict(s), out) && |Evict(s).items| < s.capacity
  {
    if |s.items| >= s.capacity {
      var t, lru := Evict(s), s.items[|s.items| - 1];
      assert Buffers(t) == Buffers(s);
      forall h | h in t.buckets
        ensures BucketOk(t, h)
      {
        assert BucketOk(s, h);
        assert s.items == t.items + [lru];
      }
    }
  }

  lemma InsertKeeps(s: State, key: string, buffer: nat)
    requires InvWith(s, [buffer]) && |s.items| < s.capacity
    ensures Inv(Tick(Insert(s, key, buffer)))
  {
    var t := Tick(Insert(s, key, buffer));
    assert [] + Buffers(t) == [buffer] + Buffers(s);
    forall h | h in t.buckets
      ensures BucketOk(t, h)
    {
      assert h in s.buckets ==> BucketOk(s, h);
    }
  }

  lemma FrontBuckets(s: State, j: nat, h: nat)
    requires j < |s.items| && BucketOk(s, h)
    ensures BucketOk(Tick(s.(items := Fronted(s.items, j))), h)
  {
    if h in s.buckets {
      var i :| 0 <= i < |s.items| && s.items[i] == s.buckets[h];
      assert Fronted(s.items, j)[if i == j then 0 else if i < j then i + 1 else i] == s.items[i];
    }
  }

  lemma FrontBuffers(s: State, j: nat)
    requires Whole([] + Buffers(s), s.total) && j < |s.items|
    ensures Whole([] + Buffers(Tick(s.(items := Fronted(s.items, j)))), s.total)
  {
    var u, v := [] + Buffers(Tick(s.(items := Fronted(s.items, j)))), [] + Buffers(s);
    forall i | 0 <= i < |u|
      ensures u[i] == v[if i == 0 then j else if i <= j then i - 1 else i]
    {
    }
  }

  lemma FrontKeeps(s: State, j: nat)
    requires Inv(s) && j < |s.items|
    ensures Inv(Tick(s.(items := Fronted(s.items, j))))
  {
    var t := Tick(s.(items := Fronted(s.items, j)));
    FrontBuffers(s, j);
    forall h | h in t.buckets
      ensures BucketOk(t, h)
    {
      FrontBuckets(s, j, h);
    }
  }

  lemma TickKeeps(s: State)
    requires Inv(s)
    ensures Inv(Tick(s))
  {
    assert Buffers(Tick(s)) == Buffers(s);
    assert forall h :: h in s.buckets ==> BucketOk(s, h) ==> BucketOk(Tick(s), h);
  }

  lemma LoadKeeps(s: State, r: Request)
    requires Inv(s) && s.free != []
    ensures Inv(Tick(Insert(Evict(Take(s, r.data)), r.key, s.free[0])))
  {
    TakeKeeps(s, r.data);
    EvictKeeps(Take(s, r.data), [s.free[0]]);
    InsertKeeps(Evict(Take(s, r.data)), r.key, s.free[0]);
  }

  /** Every request keeps the invariant. */
  lemma NextKeepsInv(s: State, r: Request)
    requires Inv(s)
    ensures Inv(Next(s, r))
  {
    var j := Lookup(s, r.key);
    if j < |s.items| {
      FrontKeeps(s, j);
    } else if s.free != [] {
      LoadKeeps(s, r);
    } else {
      TickKeeps(s);
    }
  }
}
