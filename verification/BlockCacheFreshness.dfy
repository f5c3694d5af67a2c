/** When the block cache finds what it holds, and returns what was loaded last: exactly when no two keys share a bucket. */
module BlockCacheFreshness {
  import opened BlockCacheModel
  import opened BlockCacheRuns

  ghost predicate Resident(s: State, key: string) {
    exists i :: 0 <= i < |s.items| && s.items[i].key == key
  }

  /** All requests ask for keys of a given set. */
  ghost predicate Over(keys: set<string>, reqs: seq<Request>) {
    forall i :: 0 <= i < |reqs| ==> reqs[i].key in keys
  }

  ghost predicate Collide(keys: set<string>, n: Size) {
    exists a, b :: a in keys && b in keys && a != b && Hash(a, n) == Hash(b, n)
  }

  // ----- without collisions

  /** Every node is the one its bucket points at. */
  ghost predicate Pointed(s: State) {
    forall i :: 0 <= i < |s.items| ==>
                  var h := Hash(s.items[i].key, s.capacity);
                  h in s.buckets && s.buckets[h] == s.items[i]
  }

  lemma PointedIsFound(s: State, key: string)
    requires Pointed(s)
    ensures Lookup(s, key) < |s.items| <==> Resident(s, key)
  {
    if Resident(s, key) {
      var i :| 0 <= i < |s.items| && s.items[i].key == key;
      var h := Hash(key, s.capacity);
      assert h in s.buckets && s.buckets[h] == s.items[i];
      assert s.items[Start(s, h)] == s.items[i];
    }
  }

  lemma PointedEvict(s: State)
    requires Pointed(s) && DistinctIds(s.items)
    ensures Pointed(Evict(s))
  {
    var t := Evict(s);
    forall i | 0 <= i < |t.items|
      ensures var h := Hash(t.items[i].key, t.capacity); h in t.buckets && t.buckets[h] == t.items[i]
    {
      assert t.items[i] == s.items[i] && (|s.items| >= s.capacity ==> s.items[i].id != s.items[|s.items| - 1].id);
    }
  }

  lemma PointedInsert(s: State, key: string, buffer: nat)
    requires Pointed(s) && forall i :: 0 <= i < |s.items| ==> Hash(s.items[i].key, s.capacity) != Hash(key, s.capacity)
    ensures Pointed(Tick(Insert(s, key, buffer)))
  {
  }

  lemma PointedStep(s: State, r: Request)
    requires Inv(s) && Pointed(s)
    requires forall i :: 0 <= i < |s.items| && Hash(s.items[i].key, s.capacity) == Hash(r.key, s.capacity) ==> s.items[i].key == r.key
    ensures Pointed(Next(s, r))
  {
    PointedIsFound(s, r.key);
    if Lookup(s, r.key) == |s.items| && s.free != [] {
      var u := Take(s, r.data);
      assert Pointed(u);
      PointedEvict(u);
      PointedInsert(Evict(u), r.key, s.free[0]);
    }
  }

  /** No request after the one that loaded a slot loaded its key again. */
  ghost predicate Newest(reqs: seq<Request>, answers: seq<Outcome>, slot: Slot)
    requires |reqs| == |answers|
  {
    forall k :: slot.id < k < |reqs| && answers[k] == Loaded ==> reqs[k].key != slot.key
  }

  ghost predicate AllNewest(reqs: seq<Request>, answers: seq<Outcome>, s: State)
    requires |reqs| == |answers|
  {
    forall slot :: slot in s.items ==> Newest(reqs, answers, slot)
  }

  lemma NewestKept(reqs: seq<Request>, answers: seq<Outcome>, s: State, r: Request, answer: Outcome, t: State, slot: Slot)
    requires s.clock == |reqs| == |answers| && AllNewest(reqs, answers, s)
    requires answer == Loaded ==> !Resident(s, r.key)
    requires Carried(s, t, slot) || JustLoaded(s, r, t, slot)
    ensures Newest(reqs + [r], answers + [answer], slot)
  {
    assert slot in s.items ==> Newest(reqs, answers, slot);
  }

  lemma {:induction false} CollisionFreeRun(capacity: Size, total: nat, keys: set<string>, reqs: seq<Request>)
    requires !Collide(keys, capacity) && Over(keys, reqs)
    ensures Pointed(After(capacity, total, reqs))
    ensures AllNewest(reqs, Answers(capacity, total, reqs), After(capacity, total, reqs))
  {
    if reqs != [] {
      var was, r := reqs[..|reqs| - 1], reqs[|reqs| - 1];
      assert reqs == was + [r];
      CollisionFreeRun(capacity, total, keys, was);
      OriginsKept(capacity, total, was);
      AfterInv(capacity, total, was);
      RunStep(capacity, total, was, r);
      CollisionFreeStep(capacity, keys, was, Answers(capacity, total, was), After(capacity, total, was), r);
    }
  }

  lemma CollisionFreeStep(capacity: Size, keys: set<string>, was: seq<Request>, answers: seq<Outcome>, s: State, r: Request)
    requires Inv(s) && Pointed(s) && capacity == s.capacity && s.clock == |was| == |answers| && Origins(was, answers, s)
    requires AllNewest(was, answers, s) && !Collide(keys, capacity) && Over(keys, was) && r.key in keys
    ensures Pointed(Next(s, r)) && AllNewest(was + [r], answers + [Answer(s, r)], Next(s, r))
  {
    forall i | 0 <= i < |s.items| && Hash(s.items[i].key, capacity) == Hash(r.key, capacity)
      ensures s.items[i].key == r.key
    {
      assert Origin(was, answers, s.items[i], s);
    }
    PointedStep(s, r);
    PointedIsFound(s, r.key);
    var t := Next(s, r);
    forall slot | slot in t.items
      ensures Newest(was + [r], answers + [Answer(s, r)], slot)
    {
      var i :| 0 <= i < |t.items| && t.items[i] == slot;
      ItemSource(s, r, i);
      NewestKept(was, answers, s, r, Answer(s, r), t, slot);
    }
  }

  /** The answer to `r` after `reqs` is what the last load of its key supplied. */
  ghost predicate LastLoaded(reqs: seq<Request>, answers: seq<Outcome>, key: string, data: string)
    requires |reqs| == |answers|
  {
    exists j ::
      && 0 <= j < |reqs| && answers[j] == Loaded && reqs[j] == Request(key, data)
      && forall k :: j < k < |reqs| && answers[k] == Loaded ==> reqs[k].key != key
  }

  /** Without collisions a request hits exactly when its key is cached, and a hit returns what was loaded last. */
  lemma CollisionFree(capacity: Size, total: nat, keys: set<string>, reqs: seq<Request>, r: Request)
    requires !Collide(keys, capacity) && Over(keys, reqs) && r.key in keys
    ensures var s := After(capacity, total, reqs);
            && (Answer(s, r).Hit? <==> Resident(s, r.key))
            && (Answer(s, r).Hit? ==> LastLoaded(reqs, Answers(capacity, total, reqs), r.key, Answer(s, r).data))
  {
    var s, answers := After(capacity, total, reqs), Answers(capacity, total, reqs);
    CollisionFreeRun(capacity, total, keys, reqs);
    PointedIsFound(s, r.key);
    if Answer(s, r).Hit? {
      OriginsKept(capacity, total, reqs);
      var slot := s.items[Lookup(s, r.key)];
      assert Origin(reqs, answers, slot, s) && Newest(reqs, answers, slot);
    }
  }

  /** After `reqs`, `r` hits but gets data that a later load of its key has replaced. */
  ghost predicate Stale(capacity: Size, total: nat, reqs: seq<Request>, r: Request) {
    var answer := Answer(After(capacity, total, reqs), r);
    answer.Hit? && !LastLoaded(reqs, Answers(capacity, total, reqs), r.key, answer.data)
  }

  /** After `reqs` the key of `r` is cached, yet `r` does not find it. */
  ghost predicate Missed(capacity: Size, total: nat, reqs: seq<Request>, r: Request) {
    Resident(After(capacity, total, reqs), r.key) && !Answer(After(capacity, total, reqs), r).Hit?
  }
}
