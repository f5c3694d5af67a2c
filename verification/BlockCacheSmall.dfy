/** Caches and pools too small for a collision to do harm. */
module BlockCacheSmall {
  import opened BlockCacheModel
  import opened BlockCacheRuns
  import opened BlockCacheFreshness

  // ----- one node at most

  /** With room for one node only, a cached key is always found. */
  lemma SingleIsPointed(s: State, r: Request)
    requires Inv(s) && Pointed(s) && (s.capacity == 1 || s.total <= 1)
    ensures Pointed(Next(s, r))
  {
    PointedIsFound(s, r.key);
    if Lookup(s, r.key) == |s.items| && s.free != [] {
      LoadShape(s, r);
    }
  }

  lemma {:induction false} SingleRun(capacity: Size, total: nat, reqs: seq<Request>)
    requires capacity == 1 || total <= 1
    ensures Pointed(After(capacity, total, reqs))
  {
    if reqs != [] {
      var was := reqs[..|reqs| - 1];
      SingleRun(capacity, total, was);
      AfterInv(capacity, total, was);
      SingleIsPointed(After(capacity, total, was), reqs[|reqs| - 1]);
    }
  }

  lemma SingleNeverMisses(capacity: Size, total: nat, reqs: seq<Request>, r: Request)
    requires capacity == 1 || total <= 1
    ensures !Missed(capacity, total, reqs, r)
  {
    SingleRun(capacity, total, reqs);
    PointedIsFound(After(capacity, total, reqs), r.key);
  }

  // ----- one request, by its effect on nodes and buckets

  lemma LoadShape(s: State, r: Request)
    requires Inv(s) && Lookup(s, r.key) == |s.items| && s.free != []
    ensures Answer(s, r) == Loaded
    ensures var t, n := Next(s, r), Slot(s.clock, r.key, s.free[0]);
            && t.items == [n] + (if |s.items| < s.capacity then s.items else s.items[..|s.items| - 1])
            && Hash(r.key, s.capacity) in t.buckets && t.buckets[Hash(r.key, s.capacity)] == n
            && (|s.items| < s.capacity ==> t.buckets == s.buckets[Hash(r.key, s.capacity) := n])
            && t.capacity == s.capacity && t.total == s.total
  {
  }

  lemma HitShape(s: State, r: Request)
    requires Lookup(s, r.key) < |s.items|
    ensures Answer(s, r).Hit? && Next(s, r).items == Fronted(s.items, Lookup(s, r.key)) && Next(s, r).buckets == s.buckets
    ensures Next(s, r).capacity == s.capacity && Next(s, r).total == s.total
  {
  }

  /** The walk starts at the node its bucket points at. */
  lemma StartIs(s: State, h: nat, p: nat)
    requires DistinctIds(s.items) && p < |s.items| && h in s.buckets && s.buckets[h] == s.items[p]
    ensures Start(s, h) == p
  {
    assert s.items[Start(s, h)] == s.items[p];
  }

  /** A key whose bucket points at a node of that key is found there. */
  lemma FoundAtBucket(s: State, key: string)
    requires Inv(s) && Hash(key, s.capacity) in s.buckets && s.buckets[Hash(key, s.capacity)].key == key
    ensures Lookup(s, key) < |s.items| && s.items[Lookup(s, key)] == s.buckets[Hash(key, s.capacity)]
  {
    var h := Hash(key, s.capacity);
    assert BucketOk(s, h);
    assert s.items[Start(s, h)] == s.buckets[h];
  }

  /** After a miss the bucket does not point at a node of the key. */
  lemma MissedAtBucket(s: State, key: string)
    requires Inv(s) && Lookup(s, key) == |s.items| && Hash(key, s.capacity) in s.buckets
    ensures s.buckets[Hash(key, s.capacity)] in s.items && s.buckets[Hash(key, s.capacity)].key != key
  {
    var h := Hash(key, s.capacity);
    assert BucketOk(s, h);
    assert s.items[Start(s, h)] == s.buckets[h];
  }

  // ----- outdated nodes

  /** The cached slots whose key has been loaded again. */
  ghost function Outdated(reqs: seq<Request>, answers: seq<Outcome>, s: State): set<Slot>
    requires |reqs| == |answers|
  {
    set x | x in s.items && !Newest(reqs, answers, x)
  }

  /** What one request does to them. */
  ghost function OutdatedNext(s: State, past: set<Slot>, r: Request): set<Slot> {
    set x | x in Next(s, r).items && (x in past || (x in s.items && x.key == r.key && Answer(s, r) == Loaded))
  }

  lemma NewestAfter(reqs: seq<Request>, answers: seq<Outcome>, x: Slot, r: Request, answer: Outcome)
    requires |reqs| == |answers| && x.id < |reqs|
    ensures Newest(reqs + [r], answers + [answer], x) <==> Newest(reqs, answers, x) && !(answer == Loaded && r.key == x.key)
  {
    var more, ans := reqs + [r], answers + [answer];
    if Newest(more, ans, x) {
      forall k | x.id < k < |reqs| && answers[k] == Loaded
        ensures reqs[k].key != x.key
      {
        assert more[k] == reqs[k] && ans[k] == answers[k];
      }
      assert ans[|reqs|] == answer && more[|reqs|] == r;
    }
  }

  lemma OutdatedStep(reqs: seq<Request>, answers: seq<Outcome>, s: State, r: Request)
    requires Inv(s) && s.clock == |reqs| == |answers|
    ensures Outdated(reqs + [r], answers + [Answer(s, r)], Next(s, r)) == OutdatedNext(s, Outdated(reqs, answers, s), r)
  {
    var t := Next(s, r);
    forall x | x in t.items
      ensures !Newest(reqs + [r], answers + [Answer(s, r)], x) <==>
              x in Outdated(reqs, answers, s) || (x in s.items && x.key == r.key && Answer(s, r) == Loaded)
    {
      var i :| 0 <= i < |t.items| && t.items[i] == x;
      ItemSource(s, r, i);
      if x in s.items {
        NewestAfter(reqs, answers, x, r, Answer(s, r));
      }
    }
  }

  /** A hit on a slot that is not outdated returns what was loaded last. */
  lemma UpToDateHit(capacity: Size, total: nat, reqs: seq<Request>, r: Request)
    requires var s := After(capacity, total, reqs);
             Lookup(s, r.key) < |s.items| ==> s.items[Lookup(s, r.key)] !in Outdated(reqs, Answers(capacity, total, reqs), s)
    ensures !Stale(capacity, total, reqs, r)
  {
    var s, answers := After(capacity, total, reqs), Answers(capacity, total, reqs);
    OriginsKept(capacity, total, reqs);
    if Lookup(s, r.key) < |s.items| {
      var slot := s.items[Lookup(s, r.key)];
      assert Origin(reqs, answers, slot, s) && Newest(reqs, answers, slot);
    }
  }

  // ----- two places

  /** An outdated node stands behind the newer one of its key, at which the bucket points. */
  ghost predicate PairOk(s: State, past: set<Slot>) {
    && (|s.items| < s.capacity ==> forall i :: 0 <= i < |s.items| ==> Hash(s.items[i].key, s.capacity) in s.buckets)
    && (forall x :: x in past ==>
          && |s.items| == 2 && x == s.items[1] && s.items[0].key == x.key && s.items[0] !in past
          && Hash(x.key, s.capacity) in s.buckets && s.buckets[Hash(x.key, s.capacity)] == s.items[0])
  }

  lemma PairOkHit(s: State, past: set<Slot>, r: Request)
    requires Inv(s) && s.capacity <= 2 && PairOk(s, past) && Lookup(s, r.key) < |s.items|
    ensures s.items[Lookup(s, r.key)] !in past
    ensures PairOk(Next(s, r), OutdatedNext(s, past, r))
  {
    var j, t := Lookup(s, r.key), Next(s, r);
    HitShape(s, r);
    if x :| x in past {
      FoundAtBucket(s, x.key);
      assert s.items[0].key == s.items[1].key == r.key;
      assert j == 0 && t.items == s.items;
    }
  }

  lemma PairOkLoad(s: State, past: set<Slot>, r: Request)
    requires Inv(s) && s.capacity <= 2 && PairOk(s, past) && Lookup(s, r.key) == |s.items| && s.free != []
    ensures PairOk(Next(s, r), OutdatedNext(s, past, r))
  {
    LoadShape(s, r);
    var t, h := Next(s, r), Hash(r.key, s.capacity);
    if h in s.buckets {
      MissedAtBucket(s, r.key);
    }
    forall x | x in OutdatedNext(s, past, r)
      ensures |t.items| == 2 && x == t.items[1] && t.items[0].key == x.key && t.items[0] !in OutdatedNext(s, past, r)
      ensures Hash(x.key, s.capacity) in t.buckets && t.buckets[Hash(x.key, s.capacity)] == t.items[0]
    {
      assert x in s.items && x.id < s.clock;
      assert x == s.items[0];
    }
  }

  lemma PairOkNext(s: State, past: set<Slot>, r: Request)
    requires Inv(s) && s.capacity <= 2 && PairOk(s, past) && past <= set x | x in s.items
    ensures PairOk(Next(s, r), OutdatedNext(s, past, r))
  {
    if Lookup(s, r.key) < |s.items| {
      PairOkHit(s, past, r);
    } else if s.free != [] {
      PairOkLoad(s, past, r);
    }
  }

  // ----- three buffers

  /** An outdated node has used up the pool, and its bucket points at the newer node of its key. */
  ghost predicate PoolOk(s: State, past: set<Slot>) {
    && (forall i :: 0 <= i < |s.items| ==> Hash(s.items[i].key, s.capacity) in s.buckets)
    && (forall x :: x in past ==>
          && |s.items| == 3 && Hash(x.key, s.capacity) in s.buckets
          && s.buckets[Hash(x.key, s.capacity)].key == x.key && s.buckets[Hash(x.key, s.capacity)] !in past)
  }

  lemma PoolOkHit(s: State, past: set<Slot>, r: Request)
    requires Inv(s) && PoolOk(s, past) && Lookup(s, r.key) < |s.items|
    ensures s.items[Lookup(s, r.key)] !in past
    ensures PoolOk(Next(s, r), OutdatedNext(s, past, r))
  {
    HitShape(s, r);
    var x := s.items[Lookup(s, r.key)];
    if x in past {
      FoundAtBucket(s, r.key);
    }
  }

  lemma PoolOkLoad(s: State, past: set<Slot>, r: Request)
    requires Inv(s) && s.total <= 3 <= s.capacity && PoolOk(s, past) && Lookup(s, r.key) == |s.items| && s.free != []
    ensures PoolOk(Next(s, r), OutdatedNext(s, past, r))
  {
    LoadShape(s, r);
    var t, h := Next(s, r), Hash(r.key, s.capacity);
    if h in s.buckets {
      MissedAtBucket(s, r.key);
    }
    assert t.items[0].id == s.clock && t.items[0] !in s.items;
    forall x | x in OutdatedNext(s, past, r)
      ensures |t.items| == 3 && x.key == r.key
    {
      assert x in s.items && x.key == r.key;
      assert Hash(x.key, s.capacity) in s.buckets;
      TwoNodes(s.items, x, s.buckets[h]);
    }
  }

  lemma TwoNodes(items: seq<Slot>, x: Slot, y: Slot)
    requires x in items && y in items && x != y
    ensures |items| >= 2
  {
  }

  lemma PoolOkNext(s: State, past: set<Slot>, r: Request)
    requires Inv(s) && s.total <= 3 <= s.capacity && PoolOk(s, past)
    ensures PoolOk(Next(s, r), OutdatedNext(s, past, r))
  {
    if Lookup(s, r.key) < |s.items| {
      PoolOkHit(s, past, r);
    } else if s.free != [] {
      PoolOkLoad(s, past, r);
    }
  }

  // ----- three places and two keys

  /** Three nodes: at `i` the newer and at `j` the outdated one of the same key, at `m` the other key's. */
  ghost predicate Triple(s: State, past: set<Slot>, h: nat, i: nat, j: nat, m: nat) {
    && |s.items| == 3 && i < j < 3 && m < 3 && m != i && m != j
    && s.items[i].key == s.items[j].key != s.items[m].key
    && past == {s.items[j]} && h in s.buckets && s.buckets[h] == s.items[i]
  }

  ghost predicate IsTriple(s: State, past: set<Slot>, h: nat) {
    Triple(s, past, h, 0, 1, 2) || Triple(s, past, h, 0, 2, 1) || Triple(s, past, h, 1, 2, 0)
  }

  /** At most two nodes: none is outdated, and two have different keys. */
  ghost predicate IsFew(s: State, past: set<Slot>, h: nat) {
    && |s.items| <= 2 && past == {} && (s.items != [] ==> h in s.buckets)
    && (|s.items| == 2 ==> s.items[0].key != s.items[1].key)
  }

  ghost predicate KeysAre(s: State, a: string, b: string) {
    forall x :: x in s.items ==> x.key == a || x.key == b
  }

  /** What two colliding keys can bring about in three places. */
  ghost predicate TwoKeysOk(s: State, past: set<Slot>, a: string, b: string) {
    var h := Hash(a, s.capacity);
    KeysAre(s, a, b) && (IsFew(s, past, h) || IsTriple(s, past, h))
  }

  lemma TripleHit(s: State, past: set<Slot>, h: nat, i: nat, j: nat, m: nat, r: Request)
    requires Inv(s) && Triple(s, past, h, i, j, m) && h == Hash(r.key, s.capacity)
    requires r.key == s.items[i].key || (r.key == s.items[m].key && i <= m)
    ensures Lookup(s, r.key) == if r.key == s.items[i].key then i else m
  {
    StartIs(s, h, i);
  }

  lemma TripleMiss(s: State, past: set<Slot>, h: nat, i: nat, j: nat, m: nat, r: Request)
    requires Inv(s) && Triple(s, past, h, i, j, m) && h == Hash(r.key, s.capacity) && r.key == s.items[m].key && m < i
    ensures Lookup(s, r.key) == |s.items|
  {
    StartIs(s, h, i);
  }

  /** Such a node is never the outdated one. */
  lemma TripleFresh(s: State, past: set<Slot>, h: nat, i: nat, j: nat, m: nat, r: Request)
    requires Inv(s) && Triple(s, past, h, i, j, m) && h == Hash(r.key, s.capacity) && Lookup(s, r.key) < |s.items|
    ensures s.items[Lookup(s, r.key)] !in past
  {
    StartIs(s, h, i);
  }

  lemma HitOutdated(s: State, past: set<Slot>, r: Request)
    requires Lookup(s, r.key) < |s.items| && forall x :: x in past ==> x in s.items
    ensures OutdatedNext(s, past, r) == past
  {
    HitShape(s, r);
    var j, t := Lookup(s, r.key), Next(s, r);
    forall x | x in past
      ensures x in t.items
    {
      var i :| 0 <= i < |s.items| && s.items[i] == x;
      assert t.items[if i == j then 0 else if i < j then i + 1 else i] == x;
    }
  }

  lemma HitKeepsKeys(s: State, a: string, b: string, r: Request)
    requires KeysAre(s, a, b) && Lookup(s, r.key) < |s.items|
    ensures KeysAre(Next(s, r), a, b)
  {
    HitShape(s, r);
  }

  lemma LoadKeepsKeys(s: State, a: string, b: string, r: Request)
    requires Inv(s) && KeysAre(s, a, b) && Lookup(s, r.key) == |s.items| && s.free != [] && r.key in {a, b}
    ensures KeysAre(Next(s, r), a, b)
  {
    LoadShape(s, r);
  }

  /** Where the walk starts among few nodes. */
  lemma FewStart(s: State, past: set<Slot>, h: nat) returns (p: nat)
    requires Inv(s) && IsFew(s, past, h) && s.items != []
    ensures p < |s.items| && s.buckets[h] == s.items[p] && Start(s, h) == p
  {
    assert BucketOk(s, h);
    var q :| 0 <= q < |s.items| && s.items[q] == s.buckets[h];
    StartIs(s, h, q);
    p := q;
  }

  lemma FewHit(s: State, past: set<Slot>, r: Request)
    requires Inv(s) && IsFew(s, past, Hash(r.key, s.capacity)) && Lookup(s, r.key) < |s.items|
    ensures IsFew(Next(s, r), OutdatedNext(s, past, r), Hash(r.key, s.capacity))
  {
    HitShape(s, r);
    HitOutdated(s, past, r);
  }

  /** A miss among two nodes is of the key in front. */
  lemma TwoMiss(s: State, past: set<Slot>, a: string, b: string, r: Request)
    requires Inv(s) && IsFew(s, past, Hash(r.key, s.capacity)) && Lookup(s, r.key) == |s.items| && s.items != []
    requires r.key in {a, b} && KeysAre(s, a, b)
    ensures |s.items| == 2 ==> s.items[0].key == r.key
    ensures |s.items| == 1 ==> s.items[0].key != r.key
  {
    var p := FewStart(s, past, Hash(r.key, s.capacity));
    assert s.items[|s.items| - 1].key != r.key;
    assert forall i :: 0 <= i < |s.items| ==> s.items[i] in s.items;
  }

  lemma FewLoad(s: State, past: set<Slot>, a: string, b: string, r: Request)
    requires Inv(s) && s.capacity == 3 && IsFew(s, past, Hash(r.key, 3)) && Lookup(s, r.key) == |s.items| && s.free != []
    requires r.key in {a, b} && KeysAre(s, a, b)
    ensures var t, p := Next(s, r), OutdatedNext(s, past, r); IsFew(t, p, Hash(r.key, 3)) || IsTriple(t, p, Hash(r.key, 3))
  {
    LoadShape(s, r);
    var t := Next(s, r);
    assert t.items[0].id == s.clock && t.items[0] !in s.items;
    if s.items != [] {
      TwoMiss(s, past, a, b, r);
      if |s.items| == 2 {
        assert t.items == [t.items[0], s.items[0], s.items[1]];
        assert OutdatedNext(s, past, r) == {s.items[0]};
        assert Triple(t, OutdatedNext(s, past, r), Hash(r.key, 3), 0, 1, 2);
      }
    }
  }

  /** Three nodes and a hit. */
  lemma TripleHitNext(s: State, past: set<Slot>, h: nat, i: nat, j: nat, m: nat, r: Request)
    requires Inv(s) && Triple(s, past, h, i, j, m) && h == Hash(r.key, s.capacity) && (i, j, m) in {(0, 1, 2), (0, 2, 1), (1, 2, 0)}
    requires r.key == s.items[i].key || (r.key == s.items[m].key && i <= m)
    ensures Lookup(s, r.key) < |s.items| && IsTriple(Next(s, r), OutdatedNext(s, past, r), h)
  {
    TripleHit(s, past, h, i, j, m, r);
    HitShape(s, r);
    HitOutdated(s, past, r);
  }

  /** Three nodes and a load: the outdated one is evicted. */
  lemma TripleLoadNext(s: State, past: set<Slot>, h: nat, r: Request)
    requires Inv(s) && s.capacity == 3 && Triple(s, past, h, 1, 2, 0) && h == Hash(r.key, 3) && r.key == s.items[0].key && s.free != []
    ensures Lookup(s, r.key) == |s.items| && IsTriple(Next(s, r), OutdatedNext(s, past, r), h)
  {
    TripleMiss(s, past, h, 1, 2, 0, r);
    LoadShape(s, r);
    var t := Next(s, r);
    assert t.items == [t.items[0], s.items[0], s.items[1]];
    assert t.items[0].id == s.clock && t.items[0] !in s.items;
    assert OutdatedNext(s, past, r) == {s.items[0]};
  }

  lemma SameNodes(s: State, past: set<Slot>, r: Request)
    requires Lookup(s, r.key) == |s.items| && s.free == [] && forall x :: x in past ==> x in s.items
    ensures OutdatedNext(s, past, r) == past
  {
  }

  lemma TripleNext(s: State, past: set<Slot>, h: nat, i: nat, j: nat, m: nat, r: Request)
    requires Inv(s) && s.capacity == 3 && Triple(s, past, h, i, j, m) && (i, j, m) in {(0, 1, 2), (0, 2, 1), (1, 2, 0)}
    requires h == Hash(r.key, 3) && (r.key == s.items[i].key || r.key == s.items[m].key)
    ensures IsTriple(Next(s, r), OutdatedNext(s, past, r), h)
  {
    if r.key == s.items[i].key || i <= m {
      TripleHitNext(s, past, h, i, j, m, r);
    } else if s.free != [] {
      TripleLoadNext(s, past, h, r);
    } else {
      TripleMiss(s, past, h, 1, 2, 0, r);
      SameNodes(s, past, r);
      assert Triple(Next(s, r), past, h, i, j, m);
    }
  }

  lemma TripleIndices(s: State, past: set<Slot>, h: nat) returns (i: nat, j: nat, m: nat)
    requires IsTriple(s, past, h)
    ensures Triple(s, past, h, i, j, m) && (i, j, m) in {(0, 1, 2), (0, 2, 1), (1, 2, 0)}
    ensures s.items[i] in s.items && s.items[m] in s.items
  {
    if Triple(s, past, h, 0, 1, 2) {
      i, j, m := 0, 1, 2;
    } else if Triple(s, past, h, 0, 2, 1) {
      i, j, m := 0, 2, 1;
    } else {
      i, j, m := 1, 2, 0;
    }
  }

  lemma KeysNext(s: State, a: string, b: string, r: Request)
    requires Inv(s) && KeysAre(s, a, b) && r.key in {a, b}
    ensures KeysAre(Next(s, r), a, b)
  {
    if Lookup(s, r.key) < |s.items| {
      HitKeepsKeys(s, a, b, r);
    } else if s.free != [] {
      LoadKeepsKeys(s, a, b, r);
    }
  }

  lemma FewNext(s: State, past: set<Slot>, a: string, b: string, r: Request)
    requires Inv(s) && s.capacity == 3 && IsFew(s, past, Hash(r.key, 3)) && r.key in {a, b} && KeysAre(s, a, b)
    ensures var t, p := Next(s, r), OutdatedNext(s, past, r); IsFew(t, p, Hash(r.key, 3)) || IsTriple(t, p, Hash(r.key, 3))
  {
    if Lookup(s, r.key) < |s.items| {
      FewHit(s, past, r);
    } else if s.free != [] {
      FewLoad(s, past, a, b, r);
    } else {
      SameNodes(s, past, r);
    }
  }

  lemma TwoKeysOkNext(s: State, past: set<Slot>, a: string, b: string, r: Request)
    requires Inv(s) && s.capacity == 3 && Hash(a, 3) == Hash(b, 3) && r.key in {a, b} && TwoKeysOk(s, past, a, b)
    ensures Next(s, r).capacity == 3 && TwoKeysOk(Next(s, r), OutdatedNext(s, past, r), a, b)
  {
    KeysNext(s, a, b, r);
    if IsFew(s, past, Hash(a, 3)) {
      FewNext(s, past, a, b, r);
    } else {
      var i, j, m := TripleIndices(s, past, Hash(a, 3));
      TripleNext(s, past, Hash(a, 3), i, j, m, r);
    }
  }

  lemma TwoKeysFresh(s: State, past: set<Slot>, a: string, b: string, r: Request)
    requires Inv(s) && s.capacity == 3 && Hash(a, 3) == Hash(b, 3) && r.key in {a, b} && TwoKeysOk(s, past, a, b)
    requires Lookup(s, r.key) < |s.items|
    ensures s.items[Lookup(s, r.key)] !in past
  {
    if !IsFew(s, past, Hash(a, 3)) {
      var i, j, m := TripleIndices(s, past, Hash(a, 3));
      TripleFresh(s, past, Hash(a, 3), i, j, m, r);
    }
  }

  // ----- in every run

  /** The three kinds of small cache, with what holds of their outdated nodes. */
  ghost predicate SmallOk(s: State, past: set<Slot>, keys: set<string>) {
    && (s.capacity <= 2 ==> PairOk(s, past))
    && (s.total <= 3 <= s.capacity ==> PoolOk(s, past))
    && (forall a, b :: s.capacity == 3 && keys == {a, b} && Hash(a, 3) == Hash(b, 3) ==> TwoKeysOk(s, past, a, b))
  }

  lemma SmallOkNext(s: State, past: set<Slot>, keys: set<string>, r: Request)
    requires Inv(s) && SmallOk(s, past, keys) && r.key in keys && forall x :: x in past ==> x in s.items
    ensures SmallOk(Next(s, r), OutdatedNext(s, past, r), keys)
  {
    if s.capacity <= 2 {
      PairOkNext(s, past, r);
    }
    if s.total <= 3 <= s.capacity {
      PoolOkNext(s, past, r);
    }
    forall a, b | s.capacity == 3 && keys == {a, b} && Hash(a, 3) == Hash(b, 3)
      ensures TwoKeysOk(Next(s, r), OutdatedNext(s, past, r), a, b)
    {
      TwoKeysOkNext(s, past, a, b, r);
    }
  }

  lemma {:induction false} SmallRun(capacity: Size, total: nat, keys: set<string>, reqs: seq<Request>)
    requires Over(keys, reqs)
    ensures var s := After(capacity, total, reqs); SmallOk(s, Outdated(reqs, Answers(capacity, total, reqs), s), keys)
  {
    if reqs != [] {
      var was, r := reqs[..|reqs| - 1], reqs[|reqs| - 1];
      assert reqs == was + [r];
      SmallRun(capacity, total, keys, was);
      AfterInv(capacity, total, was);
      RunStep(capacity, total, was, r);
      var s, answers := After(capacity, total, was), Answers(capacity, total, was);
      OutdatedStep(was, answers, s, r);
      SmallOkNext(s, Outdated(was, answers, s), keys, r);
    }
  }

  /** In a cache of at most two places, with a pool of at most three buffers, or with three places and only two keys, a
      hit is never stale, collision or not. */
  lemma SmallNeverStale(capacity: Size, total: nat, keys: set<string>, reqs: seq<Request>, r: Request, a: string, b: string)
    requires Over(keys, reqs) && r.key in keys
    requires capacity <= 2 || total <= 3 || (capacity == 3 && keys == {a, b} && Hash(a, 3) == Hash(b, 3))
    ensures !Stale(capacity, total, reqs, r)
  {
    SmallRun(capacity, total, keys, reqs);
    AfterInv(capacity, total, reqs);
    var s := After(capacity, total, reqs);
    var past := Outdated(reqs, Answers(capacity, total, reqs), s);
    if Lookup(s, r.key) < |s.items| {
      if capacity <= 2 {
        PairOkHit(s, past, r);
      } else if total <= 3 {
        PoolOkHit(s, past, r);
      } else {
        TwoKeysFresh(s, past, a, b, r);
      }
    }
    UpToDateHit(capacity, total, reqs, r);
  }
}
