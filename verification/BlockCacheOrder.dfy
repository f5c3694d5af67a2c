/** Which blocks the cache keeps, which buffers they get and where the buckets point, told from the requests. */
module BlockCacheOrder {
  import opened BlockCacheModel
  import opened BlockCacheRuns
  import opened BlockCacheFreshness
  import opened BlockCacheSmall

  // ----- least recently used

  function Omit(keys: seq<string>, key: string): (r: seq<string>)
    ensures key !in keys ==> r == keys
    ensures |r| >= |keys| - 1
  {
    if keys == [] then [] else if keys[0] == key then keys[1..] else [keys[0]] + Omit(keys[1..], key)
  }

  /** The keys asked for, by last request, newest first. */
  function Recent(reqs: seq<Request>): seq<string> {
    if reqs == [] then []
    else
      var key := reqs[|reqs| - 1].key;
      [key] + Omit(Recent(reqs[..|reqs| - 1]), key)
  }

  function KeysOf(items: seq<Slot>): (keys: seq<string>)
    ensures |keys| == |items| && forall i :: 0 <= i < |items| ==> keys[i] == items[i].key
  {
    seq(|items|, i requires 0 <= i < |items| => items[i].key)
  }

  function First(keys: seq<string>, n: nat): seq<string> {
    if |keys| <= n then keys else keys[..n]
  }

  lemma {:induction false} OmitAtPlace(keys: seq<string>, key: string, j: nat)
    requires j < |keys| && keys[j] == key && key !in keys[..j]
    ensures Omit(keys, key) == keys[..j] + keys[j + 1..]
  {
    if j > 0 {
      var rest := keys[1..];
      assert key != keys[0] by { assert keys[..j][0] == keys[0]; }
      assert rest[..j - 1] == keys[..j][1..];
      OmitAtPlace(rest, key, j - 1);
      assert keys[..j] == [keys[0]] + rest[..j - 1];
      assert rest[j..] == keys[j + 1..];
    }
  }

  lemma FirstFront(x: string, keys: seq<string>, n: nat)
    requires n > 0
    ensures First([x] + keys, n) == [x] + First(keys, n - 1)
  {
  }

  /** Taking out a key among the first `n` leaves the others of them; taking out another leaves the first as they are. */
  lemma {:induction false} FirstOmit(keys: seq<string>, key: string, n: nat)
    requires n > 0
    ensures First(Omit(keys, key), n - 1) ==
            if key in First(keys, n) then Omit(First(keys, n), key) else First(keys, n - 1)
    decreases keys
  {
    if keys != [] {
      var rest := keys[1..];
      assert keys == [keys[0]] + rest;
      FirstFront(keys[0], rest, n);
      if keys[0] != key && n > 1 {
        FirstOmit(rest, key, n - 1);
        FirstFront(keys[0], Omit(rest, key), n - 1);
        FirstFront(keys[0], rest, n - 1);
      }
    }
  }

  /** Without collisions the cache holds the most recently requested keys, in order. */
  ghost predicate HoldsRecent(s: State, reqs: seq<Request>) {
    KeysOf(s.items) == First(Recent(reqs), s.capacity)
  }

  lemma PointedKeysDiffer(s: State, i: nat, j: nat)
    requires Inv(s) && Pointed(s) && i < j < |s.items|
    ensures s.items[i].key != s.items[j].key
  {
    assert s.items[i].id != s.items[j].id;
  }

  lemma RecentAfterHit(recent: seq<string>, keys: seq<string>, key: string, n: nat, j: nat)
    requires n > 0 && keys == First(recent, n) && j < |keys| && keys[j] == key && key !in keys[..j]
    ensures First([key] + Omit(recent, key), n) == [key] + (keys[..j] + keys[j + 1..])
  {
    OmitAtPlace(keys, key, j);
    FirstOmit(recent, key, n);
    FirstFront(key, Omit(recent, key), n);
  }

  lemma RecentAfterLoad(recent: seq<string>, keys: seq<string>, key: string, n: nat)
    requires n > 0 && keys == First(recent, n) && key !in keys
    ensures First([key] + Omit(recent, key), n) == [key] + First(keys, n - 1)
  {
    FirstOmit(recent, key, n);
    FirstFront(key, Omit(recent, key), n);
    assert First(recent, n - 1) == First(keys, n - 1);
  }

  lemma RecentStep(reqs: seq<Request>, r: Request)
    ensures Recent(reqs + [r]) == [r.key] + Omit(Recent(reqs), r.key)
  {
    assert (reqs + [r])[..|reqs|] == reqs;
  }

  lemma HitRecent(s: State, reqs: seq<Request>, r: Request)
    requires Inv(s) && Pointed(s) && HoldsRecent(s, reqs) && Lookup(s, r.key) < |s.items|
    ensures HoldsRecent(Next(s, r), reqs + [r])
  {
    var j, keys := Lookup(s, r.key), KeysOf(s.items);
    NotBefore(s, j);
    RecentStep(reqs, r);
    RecentAfterHit(Recent(reqs), keys, r.key, s.capacity, j);
    HitShape(s, r);
    FrontedKeys(s.items, j);
  }

  lemma NotBefore(s: State, j: nat)
    requires Inv(s) && Pointed(s) && j < |s.items|
    ensures s.items[j].key !in KeysOf(s.items)[..j]
  {
    forall i | 0 <= i < j
      ensures KeysOf(s.items)[..j][i] != s.items[j].key
    {
      PointedKeysDiffer(s, i, j);
    }
  }

  lemma FrontedKeys(items: seq<Slot>, j: nat)
    requires j < |items|
    ensures KeysOf(Fronted(items, j)) == [items[j].key] + (KeysOf(items)[..j] + KeysOf(items)[j + 1..])
  {
  }

  lemma LoadRecent(s: State, reqs: seq<Request>, r: Request)
    requires Inv(s) && Pointed(s) && HoldsRecent(s, reqs) && Lookup(s, r.key) == |s.items| && s.free != []
    ensures HoldsRecent(Next(s, r), reqs + [r])
  {
    var keys := KeysOf(s.items);
    assert r.key !in keys by {
      PointedIsFound(s, r.key);
    }
    RecentStep(reqs, r);
    RecentAfterLoad(Recent(reqs), keys, r.key, s.capacity);
    LoadShape(s, r);
    LoadedKeys(s, Slot(s.clock, r.key, s.free[0]));
  }

  lemma LoadedKeys(s: State, x: Slot)
    requires |s.items| <= s.capacity
    ensures KeysOf([x] + (if |s.items| < s.capacity then s.items else s.items[..|s.items| - 1])) ==
            [x.key] + First(KeysOf(s.items), s.capacity - 1)
  {
  }

  lemma {:induction false} RecentRun(capacity: Size, total: nat, keys: set<string>, reqs: seq<Request>)
    requires !Collide(keys, capacity) && Over(keys, reqs) && total > capacity
    ensures HoldsRecent(After(capacity, total, reqs), reqs)
  {
    if reqs != [] {
      var was, r := reqs[..|reqs| - 1], reqs[|reqs| - 1];
      var s := After(capacity, total, was);
      assert reqs == was + [r];
      RecentRun(capacity, total, keys, was);
      CollisionFreeRun(capacity, total, keys, was);
      BuffersConserved(capacity, total, was, 0);
      AfterInv(capacity, total, was);
      RunStep(capacity, total, was, r);
      if Lookup(s, r.key) < |s.items| { HitRecent(s, was, r); } else { LoadRecent(s, was, r); }
    }
  }

  /** In every run over keys that do not collide, with more buffers than places, the cached keys are the most recently
      requested ones, newest first; so a request hits exactly if its key is one of the last `capacity` asked for. */
  lemma KeepsMostRecent(capacity: Size, total: nat, keys: set<string>, reqs: seq<Request>, r: Request)
    requires !Collide(keys, capacity) && Over(keys, reqs) && total > capacity
    ensures var s := After(capacity, total, reqs);
            && KeysOf(s.items) == First(Recent(reqs), capacity)
            && (Answer(s, r).Hit? <==> r.key in First(Recent(reqs), capacity))
  {
    RecentRun(capacity, total, keys, reqs);
    CollisionFreeRun(capacity, total, keys, reqs);
    AfterInv(capacity, total, reqs);
    var s := After(capacity, total, reqs);
    PointedIsFound(s, r.key);
    KeyListed(s.items, r.key);
    assert Resident(s, r.key) <==> r.key in KeysOf(s.items);
  }

  lemma KeyListed(items: seq<Slot>, key: string)
    ensures key in KeysOf(items) <==> exists i :: 0 <= i < |items| && items[i].key == key
  {
    if i :| 0 <= i < |items| && items[i].key == key {
      assert KeysOf(items)[i] == key;
    }
  }

  // ----- which buffer

  function Loads(answers: seq<Outcome>): (n: nat)
    ensures n <= |answers|
  {
    if answers == [] then 0 else Loads(answers[..|answers| - 1]) + (if answers[|answers| - 1] == Loaded then 1 else 0)
  }

  function Range(from: nat, to: nat): (r: seq<nat>)
    ensures |r| == (if from <= to then to - from else 0) && forall i :: 0 <= i < |r| ==> r[i] == from + i
  {
    seq(if from <= to then to - from else 0, i => from + i)
  }

  /** After `m` loads: until the cache has been full, the free buffers are those never used, in order; from then on one of
      the first `capacity + 1` comes before them. */
  ghost predicate FreeAre(s: State, m: nat) {
    if m <= s.capacity then m <= s.total && |s.items| == m && s.free == Range(m, s.total)
    else |s.items| == s.capacity < s.total && s.free != [] && s.free[0] <= s.capacity && s.free[1..] == Range(s.capacity + 1, s.total)
  }

  /** The buffer of a cached node is not free. */
  lemma HeldNotFree(s: State, i: nat, j: nat)
    requires Inv(s) && i < |s.items| && j < |s.free|
    ensures s.items[i].buffer != s.free[j] && s.items[i].buffer < s.total
  {
    var u := [] + Buffers(s);
    assert u[i] == s.items[i].buffer && u[|s.items| + j] == s.free[j];
  }

  lemma FreeHas(s: State, m: nat, b: nat)
    requires FreeAre(s, m) && s.capacity <= m && s.capacity < b < s.total
    ensures b in s.free
  {
    assert s.free[b - s.capacity] == b;
  }

  lemma LastHeld(s: State, m: nat)
    requires Inv(s) && FreeAre(s, m) && m >= s.capacity && s.free != []
    ensures |s.items| == s.capacity && s.items[s.capacity - 1].buffer <= s.capacity
  {
    var n: nat := s.capacity;
    var b := s.items[n - 1].buffer;
    forall j | 0 <= j < |s.free|
      ensures b != s.free[j] && b < s.total
    {
      HeldNotFree(s, n - 1, j);
    }
    HeldNotFree(s, n - 1, 0);
    if b > n {
      FreeHas(s, m, b);
    }
  }

  lemma LoadFree(s: State, r: Request, m: nat)
    requires Inv(s) && FreeAre(s, m) && Lookup(s, r.key) == |s.items| && s.free != []
    ensures FreeAre(Next(s, r), m + 1)
  {
    LoadShape(s, r);
    if m >= s.capacity {
      LastHeld(s, m);
    }
  }

  /** In every run: load number m, counting from 0, gets buffer m as long as m is at most the number of places; every later
      load gets one of the first places + 1 buffers, which no node holds. The other buffers are never used. */
  lemma {:induction false} BuffersInEveryRun(capacity: Size, total: nat, reqs: seq<Request>)
    ensures var s, m := After(capacity, total, reqs), Loads(Answers(capacity, total, reqs));
            s.capacity == capacity && s.total == total && FreeAre(s, m)
  {
    AfterInv(capacity, total, reqs);
    FreeRun(capacity, total, reqs);
  }

  lemma FreeStep(s: State, r: Request, answers: seq<Outcome>)
    requires Inv(s) && FreeAre(s, Loads(answers))
    ensures FreeAre(Next(s, r), Loads(answers + [Answer(s, r)]))
  {
    assert (answers + [Answer(s, r)])[..|answers|] == answers;
    if Answer(s, r) == Loaded {
      LoadFree(s, r, Loads(answers));
    }
  }

  lemma {:induction false} FreeRun(capacity: Size, total: nat, reqs: seq<Request>)
    ensures FreeAre(After(capacity, total, reqs), Loads(Answers(capacity, total, reqs)))
  {
    if reqs != [] {
      var was, r := reqs[..|reqs| - 1], reqs[|reqs| - 1];
      assert reqs == was + [r];
      RunStep(capacity, total, was, r);
      FreeRun(capacity, total, was);
      AfterInv(capacity, total, was);
      FreeStep(After(capacity, total, was), r, Answers(capacity, total, was));
    }
  }

  // ----- where the buckets point

  /** Request number `t` loaded a block into bucket `h`, and no later request did. */
  ghost predicate LastInto(n: Size, reqs: seq<Request>, answers: seq<Outcome>, h: nat, t: nat)
    requires |reqs| == |answers|
  {
    && t < |reqs| && answers[t] == Loaded && Hash(reqs[t].key, n) == h
    && forall k :: t < k < |reqs| && answers[k] == Loaded ==> Hash(reqs[k].key, n) != h
  }

  ghost predicate BucketsTell(s: State, reqs: seq<Request>, answers: seq<Outcome>)
    requires |reqs| == |answers|
  {
    && (forall h :: h in s.buckets ==> s.buckets[h] in s.items && LastInto(s.capacity, reqs, answers, h, s.buckets[h].id))
    && (forall x :: x in s.items && LastInto(s.capacity, reqs, answers, Hash(x.key, s.capacity), x.id) ==>
          Hash(x.key, s.capacity) in s.buckets && s.buckets[Hash(x.key, s.capacity)] == x)
  }

  lemma LastIntoKept(n: Size, reqs: seq<Request>, answers: seq<Outcome>, r: Request, answer: Outcome, h: nat, t: nat)
    requires |reqs| == |answers|
    ensures LastInto(n, reqs + [r], answers + [answer], h, t) <==>
            if answer == Loaded && Hash(r.key, n) == h then t == |reqs| else LastInto(n, reqs, answers, h, t)
  {
    var all, outcomes := reqs + [r], answers + [answer];
    assert all[|reqs|] == r && outcomes[|reqs|] == answer;
    assert forall k :: 0 <= k < |reqs| ==> all[k] == reqs[k] && outcomes[k] == answers[k];
  }

  lemma HitBuckets(s: State, reqs: seq<Request>, answers: seq<Outcome>, r: Request)
    requires Inv(s) && |reqs| == |answers| == s.clock && BucketsTell(s, reqs, answers) && Answer(s, r) != Loaded
    ensures BucketsTell(Next(s, r), reqs + [r], answers + [Answer(s, r)])
  {
    var t, n, answer := Next(s, r), s.capacity, Answer(s, r);
    forall h | h in t.buckets
      ensures t.buckets[h] in t.items && LastInto(n, reqs + [r], answers + [answer], h, t.buckets[h].id)
    {
      SameItems(s, r, s.buckets[h]);
      LastIntoKept(n, reqs, answers, r, answer, h, s.buckets[h].id);
    }
    forall y | y in t.items && LastInto(n, reqs + [r], answers + [answer], Hash(y.key, n), y.id)
      ensures Hash(y.key, n) in t.buckets && t.buckets[Hash(y.key, n)] == y
    {
      SameItems(s, r, y);
      LastIntoKept(n, reqs, answers, r, answer, Hash(y.key, n), y.id);
    }
  }

  lemma SameItems(s: State, r: Request, x: Slot)
    requires Answer(s, r) != Loaded
    ensures Next(s, r).buckets == s.buckets && Next(s, r).capacity == s.capacity
    ensures x in Next(s, r).items <==> x in s.items
  {
    var j := Lookup(s, r.key);
    if j < |s.items| {
      var t := Fronted(s.items, j);
      if i :| 0 <= i < |s.items| && s.items[i] == x {
        assert t[if i == j then 0 else if i < j then i + 1 else i] == x;
      }
    }
  }

  /** Under a load every other bucket keeps its node, but forgets an evicted one. */
  lemma OtherBucket(s: State, r: Request, h: nat)
    requires Inv(s) && Answer(s, r) == Loaded && h != Hash(r.key, s.capacity)
    ensures h in Next(s, r).buckets ==> h in s.buckets && Next(s, r).buckets[h] == s.buckets[h]
    ensures h in s.buckets && s.buckets[h] in Next(s, r).items ==> h in Next(s, r).buckets
  {
    if |s.items| >= s.capacity {
      EvictedGone(s, r);
    }
  }

  lemma LoadBuckets(s: State, reqs: seq<Request>, answers: seq<Outcome>, r: Request)
    requires Inv(s) && |reqs| == |answers| == s.clock && BucketsTell(s, reqs, answers) && Answer(s, r) == Loaded
    ensures BucketsTell(Next(s, r), reqs + [r], answers + [Loaded])
  {
    var t, n := Next(s, r), s.capacity;
    var x := Slot(s.clock, r.key, s.free[0]);
    LoadShape(s, r);
    NextKeepsInv(s, r);
    forall h | h in t.buckets
      ensures t.buckets[h] in t.items && LastInto(n, reqs + [r], answers + [Loaded], h, t.buckets[h].id)
    {
      assert BucketOk(t, h);
      LastIntoKept(n, reqs, answers, r, Loaded, h, t.buckets[h].id);
      if h != Hash(r.key, n) { OtherBucket(s, r, h); }
    }
    forall y | y in t.items && LastInto(n, reqs + [r], answers + [Loaded], Hash(y.key, n), y.id)
      ensures Hash(y.key, n) in t.buckets && t.buckets[Hash(y.key, n)] == y
    {
      assert y == x || y in s.items;
      LastIntoKept(n, reqs, answers, r, Loaded, Hash(y.key, n), y.id);
      if Hash(y.key, n) != Hash(r.key, n) { OtherBucket(s, r, Hash(y.key, n)); }
    }
  }

  lemma EvictedGone(s: State, r: Request)
    requires Inv(s) && Answer(s, r) == Loaded && |s.items| >= s.capacity
    ensures s.items[|s.items| - 1] !in Next(s, r).items
    ensures forall h :: h in s.buckets && s.buckets[h] == s.items[|s.items| - 1] ==> h == Hash(s.items[|s.items| - 1].key, s.capacity)
  {
    var t, lru := Next(s, r), s.items[|s.items| - 1];
    LoadShape(s, r);
    forall i | 0 <= i < |t.items|
      ensures t.items[i] != lru
    {
      assert i > 0 ==> t.items[i] == s.items[i - 1];
    }
    assert forall h :: h in s.buckets ==> BucketOk(s, h);
  }

  /** In every run a bucket points at the node of the last load into it, as long as that node is cached, and otherwise at
      nothing. */
  lemma {:induction false} BucketsInEveryRun(capacity: Size, total: nat, reqs: seq<Request>)
    ensures BucketsTell(After(capacity, total, reqs), reqs, Answers(capacity, total, reqs))
  {
    if reqs != [] {
      var was, r := reqs[..|reqs| - 1], reqs[|reqs| - 1];
      var s, answers := After(capacity, total, was), Answers(capacity, total, was);
      assert reqs == was + [r];
      BucketsInEveryRun(capacity, total, was);
      AfterInv(capacity, total, was);
      RunStep(capacity, total, was, r);
      if Answer(s, r) == Loaded { LoadBuckets(s, was, answers, r); } else { HitBuckets(s, was, answers, r); }
    }
  }
}
