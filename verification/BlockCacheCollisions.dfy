/** What colliding keys can do to the block cache, for every size of cache and pool. */
module BlockCacheCollisions {
  import opened BlockCacheModel
  import opened BlockCacheRuns
  import opened BlockCacheFreshness
  import opened BlockCacheSmall
  import opened Counting

  // ----- runs seen without their buffers

  /** A node by the number of the request that loaded it and its key. */
  datatype Mark = Mark(id: nat, key: string)

  /** The recency list and the buckets in marks, and the number of loads so far. */
  datatype Sketch = Sketch(marks: seq<Mark>, heads: map<nat, Mark>, loads: nat)

  function MarkOf(x: Slot): Mark {
    Mark(x.id, x.key)
  }

  function FindMark(marks: seq<Mark>, i: nat, key: string): (j: nat)
    requires i <= |marks|
    ensures i <= j <= |marks|
    ensures j < |marks| ==> marks[j].key == key
    ensures forall k :: i <= k < j ==> marks[k].key != key
    decreases |marks| - i
  {
    if i == |marks| || marks[i].key == key then i else FindMark(marks, i + 1, key)
  }

  function HeadPlace(k: Sketch, h: nat): (i: nat)
    ensures i <= |k.marks|
  {
    if h in k.heads then Place(k.marks, k.heads[h]) else |k.marks|
  }

  /** Room for one more mark. */
  function Trimmed(k: Sketch, n: Size): Sketch {
    if |k.marks| < n then k else
      var last := k.marks[|k.marks| - 1];
      var h := Hash(last.key, n);
      k.(marks := k.marks[..|k.marks| - 1], heads := if h in k.heads && k.heads[h] == last then k.heads - {h} else k.heads)
  }

  function Entered(k: Sketch, n: Size, mark: Mark): Sketch {
    Sketch([mark] + k.marks, k.heads[Hash(mark.key, n) := mark], k.loads + 1)
  }

  function SketchStep(k: Sketch, n: Size, id: nat, key: string): Sketch {
    var j := FindMark(k.marks, HeadPlace(k, Hash(key, n)), key);
    if j < |k.marks| then k.(marks := Fronted(k.marks, j)) else Entered(Trimmed(k, n), n, Mark(id, key))
  }

  function SketchRun(n: Size, reqs: seq<Request>): Sketch {
    if reqs == [] then Sketch([], map[], 0)
    else SketchStep(SketchRun(n, reqs[..|reqs| - 1]), n, |reqs| - 1, reqs[|reqs| - 1].key)
  }

  lemma {:induction false} SketchSizes(n: Size, reqs: seq<Request>)
    ensures |SketchRun(n, reqs).marks| <= SketchRun(n, reqs).loads && |SketchRun(n, reqs).marks| <= n
  {
    if reqs != [] {
      SketchSizes(n, reqs[..|reqs| - 1]);
    }
  }

  ghost predicate SameMarks(items: seq<Slot>, marks: seq<Mark>) {
    |items| == |marks| && forall i :: 0 <= i < |items| ==> MarkOf(items[i]) == marks[i]
  }

  ghost predicate SameHeads(buckets: map<nat, Slot>, heads: map<nat, Mark>) {
    buckets.Keys == heads.Keys && forall h :: h in buckets ==> MarkOf(buckets[h]) == heads[h]
  }

  ghost predicate Matches(s: State, k: Sketch) {
    SameMarks(s.items, k.marks) && SameHeads(s.buckets, k.heads)
  }

  lemma FindsMark(items: seq<Slot>, marks: seq<Mark>, i: nat, key: string)
    requires SameMarks(items, marks) && i <= |items|
    ensures Find(items, i, key) == FindMark(marks, i, key)
    decreases |items| - i
  {
    if i < |items| && items[i].key != key {
      FindsMark(items, marks, i + 1, key);
    }
  }

  lemma SamePlace(items: seq<Slot>, marks: seq<Mark>, x: Slot)
    requires SameMarks(items, marks) && DistinctIds(items) && x in items
    ensures Place(items, x) == Place(marks, MarkOf(x))
  {
    var i, j := Place(items, x), Place(marks, MarkOf(x));
    assert marks[i] == MarkOf(x);
    assert items[j].id == items[i].id;
  }

  lemma LookupIs(s: State, k: Sketch, key: string)
    requires Inv(s) && Matches(s, k)
    ensures Lookup(s, key) == FindMark(k.marks, HeadPlace(k, Hash(key, s.capacity)), key)
  {
    var h := Hash(key, s.capacity);
    if h in s.buckets {
      assert BucketOk(s, h);
      SamePlace(s.items, k.marks, s.buckets[h]);
    }
    assert Start(s, h) == HeadPlace(k, h);
    FindsMark(s.items, k.marks, HeadPlace(k, h), key);
  }

  lemma TrimMatches(s: State, k: Sketch)
    requires Matches(s, k) && DistinctIds(s.items) && (forall h :: h in s.buckets ==> s.buckets[h] in s.items)
    ensures Matches(Evict(s), Trimmed(k, s.capacity))
  {
    if |s.items| >= s.capacity {
      var lru := s.items[|s.items| - 1];
      var h := Hash(lru.key, s.capacity);
      assert MarkOf(lru) == k.marks[|k.marks| - 1];
      if h in s.buckets && MarkOf(s.buckets[h]) == MarkOf(lru) {
        assert s.buckets[h].id == lru.id;
        assert s.buckets[h] == lru;
      }
    }
  }

  lemma EnterMatches(s: State, k: Sketch, key: string, buffer: nat)
    requires Matches(s, k)
    ensures Matches(Tick(Insert(s, key, buffer)), Entered(k, s.capacity, Mark(s.clock, key)))
  {
  }

  lemma MatchesHit(s: State, k: Sketch, r: Request)
    requires Inv(s) && Matches(s, k) && Lookup(s, r.key) < |s.items|
    ensures Matches(Next(s, r), SketchStep(k, s.capacity, s.clock, r.key))
  {
    LookupIs(s, k, r.key);
    HitShape(s, r);
  }

  lemma MatchesLoad(s: State, k: Sketch, r: Request)
    requires Inv(s) && Matches(s, k) && |s.items| < s.total && Lookup(s, r.key) == |s.items|
    ensures Matches(Next(s, r), SketchStep(k, s.capacity, s.clock, r.key))
  {
    LookupIs(s, k, r.key);
    var u := Take(s, r.data);
    forall h | h in u.buckets
      ensures u.buckets[h] in u.items
    {
      assert BucketOk(s, h);
    }
    TrimMatches(u, k);
    EnterMatches(Evict(u), Trimmed(k, s.capacity), r.key, s.free[0]);
  }

  lemma MatchesStep(s: State, k: Sketch, r: Request)
    requires Inv(s) && Matches(s, k)
    requires |s.items| < s.total || SketchStep(k, s.capacity, s.clock, r.key).loads == k.loads
    ensures Matches(Next(s, r), SketchStep(k, s.capacity, s.clock, r.key))
  {
    LookupIs(s, k, r.key);
    if Lookup(s, r.key) < |s.items| {
      MatchesHit(s, k, r);
    } else {
      MatchesLoad(s, k, r);
    }
  }

  /** As long as the pool does not run out, the cache does what the sketch says, evictions included. */
  lemma {:induction false} FollowsSketch(capacity: Size, total: nat, reqs: seq<Request>)
    requires capacity < total || SketchRun(capacity, reqs).loads <= total
    ensures Matches(After(capacity, total, reqs), SketchRun(capacity, reqs))
  {
    if reqs != [] {
      var was, r := reqs[..|reqs| - 1], reqs[|reqs| - 1];
      FollowsSketch(capacity, total, was);
      AfterInv(capacity, total, was);
      SketchSizes(capacity, was);
      MatchesStep(After(capacity, total, was), SketchRun(capacity, was), r);
    }
  }

  // ----- stories of colliding keys

  /** A run over `keys` whose first request alone supplied "old", for the key `a`. */
  ghost predicate OldFirst(reqs: seq<Request>, a: string, keys: set<string>) {
    && Over(keys, reqs) && |reqs| > 0 && reqs[0] == Request(a, "old")
    && forall i :: 0 < i < |reqs| ==> reqs[i].data != "old"
  }

  /** Different nodes, loaded by earlier requests. */
  ghost predicate Numbered(marks: seq<Mark>, clock: nat) {
    && (forall i :: 0 <= i < |marks| ==> marks[i].id < clock)
    && (forall i, j :: 0 <= i < j < |marks| ==> marks[i].id != marks[j].id)
  }

  lemma NumberedFront(marks: seq<Mark>, clock: nat, j: nat)
    requires Numbered(marks, clock) && j < |marks|
    ensures Numbered(Fronted(marks, j), clock + 1)
  {
  }

  lemma NumberedAdd(marks: seq<Mark>, clock: nat, key: string, m: nat)
    requires Numbered(marks, clock) && m <= |marks|
    ensures Numbered([Mark(clock, key)] + marks[..m], clock + 1)
  {
  }

  /** A sketch by its list, the place bucket `h` points at, and its loads. */
  ghost predicate Shows(k: Sketch, h: nat, marks: seq<Mark>, p: nat, loads: nat) {
    k.marks == marks && p < |marks| && h in k.heads && k.heads[h] == marks[p] && k.loads == loads
  }

  lemma HeadIs(k: Sketch, h: nat, marks: seq<Mark>, p: nat, loads: nat, clock: nat)
    requires Shows(k, h, marks, p, loads) && Numbered(marks, clock)
    ensures HeadPlace(k, h) == p
  {
    assert marks[Place(marks, marks[p])] == marks[p];
  }

  lemma TouchStep(k: Sketch, n: Size, h: nat, marks: seq<Mark>, p: nat, loads: nat, clock: nat, key: string, j: nat)
    requires Shows(k, h, marks, p, loads) && Numbered(marks, clock) && Hash(key, n) == h
    requires p <= j < |marks| && marks[j].key == key && forall i :: p <= i < j ==> marks[i].key != key
    ensures Shows(SketchStep(k, n, clock, key), h, Fronted(marks, j), if p == j then 0 else p + 1, loads)
  {
    HeadIs(k, h, marks, p, loads, clock);
    assert FindMark(marks, p, key) == j;
  }

  lemma AddStep(k: Sketch, n: Size, h: nat, marks: seq<Mark>, p: nat, loads: nat, clock: nat, key: string)
    requires Shows(k, h, marks, p, loads) && Numbered(marks, clock) && Hash(key, n) == h && |marks| <= n
    requires forall i :: p <= i < |marks| ==> marks[i].key != key
    ensures Shows(SketchStep(k, n, clock, key), h, [Mark(clock, key)] + marks[..if |marks| < n then |marks| else n - 1], 0, loads + 1)
  {
    HeadIs(k, h, marks, p, loads, clock);
    assert FindMark(marks, p, key) == |marks|;
    assert marks[..|marks|] == marks;
  }

  lemma AsideStep(k: Sketch, n: Size, h: nat, marks: seq<Mark>, p: nat, loads: nat, clock: nat, key: string)
    requires Shows(k, h, marks, p, loads) && Hash(key, n) != h && |marks| < n
    requires forall i :: 0 <= i < |marks| ==> marks[i].key != key
    ensures Shows(SketchStep(k, n, clock, key), h, [Mark(clock, key)] + marks[..|marks|], p + 1, loads + 1)
  {
    assert marks[..|marks|] == marks;
    var i := HeadPlace(k, Hash(key, n));
    assert FindMark(marks, i, key) == |marks|;
  }

  /** Where such a run has led. */
  ghost predicate Scene(n: Size, reqs: seq<Request>, h: nat, marks: seq<Mark>, p: nat, loads: nat) {
    Shows(SketchRun(n, reqs), h, marks, p, loads) && Numbered(marks, |reqs|)
  }

  lemma SketchAppend(n: Size, reqs: seq<Request>, r: Request)
    ensures SketchRun(n, reqs + [r]) == SketchStep(SketchRun(n, reqs), n, |reqs|, r.key)
  {
    assert (reqs + [r])[..|reqs|] == reqs;
  }

  lemma OldStaysFirst(reqs: seq<Request>, a: string, keys: set<string>, r: Request)
    requires OldFirst(reqs, a, keys) && r.key in keys && r.data != "old"
    ensures OldFirst(reqs + [r], a, keys)
  {
  }

  lemma Opening(n: Size, a: string, keys: set<string>) returns (reqs: seq<Request>)
    requires a in keys
    ensures OldFirst(reqs, a, keys) && |reqs| == 1 && Scene(n, reqs, Hash(a, n), [Mark(0, a)], 0, 1)
  {
    reqs := [Request(a, "old")];
    SketchAppend(n, [], Request(a, "old"));
    assert [] + [Request(a, "old")] == reqs;
  }

  /** The run goes on with a key of bucket `h` first met at place `j`. */
  lemma Touched(n: Size, reqs: seq<Request>, a: string, keys: set<string>, h: nat, marks: seq<Mark>, p: nat,
                loads: nat, key: string, j: nat)
    returns (more: seq<Request>)
    requires OldFirst(reqs, a, keys) && Scene(n, reqs, h, marks, p, loads) && key in keys && Hash(key, n) == h
    requires p <= j < |marks| && marks[j].key == key && forall i :: p <= i < j ==> marks[i].key != key
    ensures OldFirst(more, a, keys) && |more| == |reqs| + 1
    ensures Scene(n, more, h, Fronted(marks, j), if p == j then 0 else p + 1, loads)
  {
    var r := Request(key, "");
    more := reqs + [r];
    OldStaysFirst(reqs, a, keys, r);
    SketchAppend(n, reqs, r);
    TouchStep(SketchRun(n, reqs), n, h, marks, p, loads, |reqs|, key, j);
    NumberedFront(marks, |reqs|, j);
  }

  /** The run goes on with a key of bucket `h` not met from place `p` on; a full cache drops its last node. */
  lemma Added(n: Size, reqs: seq<Request>, a: string, keys: set<string>, h: nat, marks: seq<Mark>, p: nat, loads: nat, r: Request)
    returns (more: seq<Request>)
    requires OldFirst(reqs, a, keys) && Scene(n, reqs, h, marks, p, loads) && r.key in keys && Hash(r.key, n) == h && r.data != "old"
    requires |marks| <= n && forall i :: p <= i < |marks| ==> marks[i].key != r.key
    ensures OldFirst(more, a, keys) && |more| == |reqs| + 1
    ensures Scene(n, more, h, [Mark(|reqs|, r.key)] + marks[..if |marks| < n then |marks| else n - 1], 0, loads + 1)
  {
    more := reqs + [r];
    OldStaysFirst(reqs, a, keys, r);
    SketchAppend(n, reqs, r);
    AddStep(SketchRun(n, reqs), n, h, marks, p, loads, |reqs|, r.key);
    NumberedAdd(marks, |reqs|, r.key, if |marks| < n then |marks| else n - 1);
  }

  /** The run goes on with a new key of another bucket, while there is room. */
  lemma AddedAside(n: Size, reqs: seq<Request>, a: string, keys: set<string>, h: nat, marks: seq<Mark>, p: nat, loads: nat, r: Request)
    returns (more: seq<Request>)
    requires OldFirst(reqs, a, keys) && Scene(n, reqs, h, marks, p, loads) && r.key in keys && Hash(r.key, n) != h && r.data != "old"
    requires |marks| < n && forall i :: 0 <= i < |marks| ==> marks[i].key != r.key
    ensures OldFirst(more, a, keys) && |more| == |reqs| + 1
    ensures Scene(n, more, h, [Mark(|reqs|, r.key)] + marks[..|marks|], p + 1, loads + 1)
  {
    more := reqs + [r];
    OldStaysFirst(reqs, a, keys, r);
    SketchAppend(n, reqs, r);
    AsideStep(SketchRun(n, reqs), n, h, marks, p, loads, |reqs|, r.key);
    NumberedAdd(marks, |reqs|, r.key, |marks|);
  }

  // ----- the stories

  /** Both keys loaded and the older asked for since: the bucket points past it. */
  lemma Overtaken(n: Size, a: string, b: string, keys: set<string>) returns (reqs: seq<Request>)
    requires n >= 2 && a != b && a in keys && b in keys && Hash(a, n) == Hash(b, n)
    ensures OldFirst(reqs, a, keys) && |reqs| == 3 && Scene(n, reqs, Hash(a, n), [Mark(0, a), Mark(1, b)], 1, 2)
  {
    var h, x, y := Hash(a, n), Mark(0, a), Mark(1, b);
    reqs := Opening(n, a, keys);
    reqs := Added(n, reqs, a, keys, h, [x], 0, 1, Request(b, ""));
    assert [y] + [x][..1] == [y, x];
    reqs := Touched(n, reqs, a, keys, h, [y, x], 0, 2, a, 1);
    assert Fronted([y, x], 1) == [x, y];
  }

  /** The overtaken key loaded again. */
  lemma Duplicated(n: Size, a: string, b: string, keys: set<string>) returns (reqs: seq<Request>)
    requires n >= 3 && a != b && a in keys && b in keys && Hash(a, n) == Hash(b, n)
    ensures OldFirst(reqs, a, keys) && |reqs| == 4 && Scene(n, reqs, Hash(a, n), [Mark(3, a), Mark(0, a), Mark(1, b)], 0, 3)
  {
    var x, y := Mark(0, a), Mark(1, b);
    reqs := Overtaken(n, a, b, keys);
    reqs := Added(n, reqs, a, keys, Hash(a, n), [x, y], 1, 2, Request(a, "new"));
    assert [Mark(3, a)] + [x, y][..2] == [Mark(3, a), x, y];
  }

  /** Four places: both keys loaded twice, the older copy of `a` behind the bucket's node. */
  lemma BothOvertaken(n: Size, a: string, b: string, keys: set<string>) returns (reqs: seq<Request>)
    requires n >= 4 && a != b && a in keys && b in keys && Hash(a, n) == Hash(b, n)
    ensures OldFirst(reqs, a, keys) && |reqs| == 5 && Scene(n, reqs, Hash(a, n), [Mark(1, b), Mark(3, a), Mark(0, a)], 1, 3)
  {
    var marks := [Mark(3, a), Mark(0, a), Mark(1, b)];
    reqs := Duplicated(n, a, b, keys);
    reqs := Touched(n, reqs, a, keys, Hash(a, n), marks, 0, 3, b, 2);
    assert Fronted(marks, 2) == [Mark(1, b), Mark(3, a), Mark(0, a)];
  }

  lemma BothDuplicated(n: Size, a: string, b: string, keys: set<string>) returns (reqs: seq<Request>)
    requires n >= 4 && a != b && a in keys && b in keys && Hash(a, n) == Hash(b, n)
    ensures OldFirst(reqs, a, keys) && |reqs| == 6
    ensures Scene(n, reqs, Hash(a, n), [Mark(5, b), Mark(1, b), Mark(3, a), Mark(0, a)], 0, 4)
  {
    var marks := [Mark(1, b), Mark(3, a), Mark(0, a)];
    reqs := BothOvertaken(n, a, b, keys);
    reqs := Added(n, reqs, a, keys, Hash(a, n), marks, 1, 3, Request(b, ""));
    assert [Mark(5, b)] + marks[..3] == [Mark(5, b), Mark(1, b), Mark(3, a), Mark(0, a)];
  }

  lemma FourPlaces(n: Size, a: string, b: string, keys: set<string>) returns (reqs: seq<Request>)
    requires n >= 4 && a != b && a in keys && b in keys && Hash(a, n) == Hash(b, n)
    ensures OldFirst(reqs, a, keys) && Scene(n, reqs, Hash(a, n), [Mark(3, a), Mark(5, b), Mark(1, b), Mark(0, a)], 1, 4)
  {
    var marks := [Mark(5, b), Mark(1, b), Mark(3, a), Mark(0, a)];
    reqs := BothDuplicated(n, a, b, keys);
    reqs := Touched(n, reqs, a, keys, Hash(a, n), marks, 0, 4, a, 2);
    assert Fronted(marks, 2) == [Mark(3, a), Mark(5, b), Mark(1, b), Mark(0, a)];
  }

  /** Three places and a third key of the same bucket. */
  lemma ThirdAmong(a: string, b: string, c: string, keys: set<string>) returns (reqs: seq<Request>)
    requires a != b && a in keys && b in keys && Hash(a, 3) == Hash(b, 3) == Hash(c, 3) && c in keys && c != a && c != b
    ensures OldFirst(reqs, a, keys) && |reqs| == 5 && Scene(3, reqs, Hash(a, 3), [Mark(4, c), Mark(3, a), Mark(0, a)], 0, 4)
  {
    var marks := [Mark(3, a), Mark(0, a), Mark(1, b)];
    reqs := Duplicated(3, a, b, keys);
    reqs := Added(3, reqs, a, keys, Hash(a, 3), marks, 0, 3, Request(c, ""));
    assert [Mark(4, c)] + marks[..2] == [Mark(4, c), Mark(3, a), Mark(0, a)];
  }

  lemma ThirdInside(a: string, b: string, c: string, keys: set<string>) returns (reqs: seq<Request>)
    requires a != b && a in keys && b in keys && Hash(a, 3) == Hash(b, 3) == Hash(c, 3) && c in keys && c != a && c != b
    ensures OldFirst(reqs, a, keys) && Scene(3, reqs, Hash(a, 3), [Mark(3, a), Mark(4, c), Mark(0, a)], 1, 4)
  {
    var marks := [Mark(4, c), Mark(3, a), Mark(0, a)];
    reqs := ThirdAmong(a, b, c, keys);
    reqs := Touched(3, reqs, a, keys, Hash(a, 3), marks, 0, 4, a, 1);
    assert Fronted(marks, 1) == [Mark(3, a), Mark(4, c), Mark(0, a)];
  }

  /** Three places and a third key of another bucket. */
  lemma ThreeLoaded(a: string, b: string, c: string, keys: set<string>) returns (reqs: seq<Request>)
    requires a != b && a in keys && b in keys && Hash(a, 3) == Hash(b, 3) != Hash(c, 3) && c in keys
    ensures OldFirst(reqs, a, keys) && |reqs| == 3 && Scene(3, reqs, Hash(a, 3), [Mark(2, c), Mark(1, b), Mark(0, a)], 1, 3)
  {
    var h, m2 := Hash(a, 3), [Mark(1, b), Mark(0, a)];
    reqs := Opening(3, a, keys);
    reqs := Added(3, reqs, a, keys, h, [Mark(0, a)], 0, 1, Request(b, ""));
    assert [Mark(1, b)] + [Mark(0, a)][..1] == m2;
    reqs := AddedAside(3, reqs, a, keys, h, m2, 0, 2, Request(c, ""));
    assert [Mark(2, c)] + m2[..2] == [Mark(2, c), Mark(1, b), Mark(0, a)];
  }

  lemma ThirdAside(a: string, b: string, c: string, keys: set<string>) returns (reqs: seq<Request>)
    requires a != b && a in keys && b in keys && Hash(a, 3) == Hash(b, 3) != Hash(c, 3) && c in keys
    ensures OldFirst(reqs, a, keys) && |reqs| == 5 && Scene(3, reqs, Hash(a, 3), [Mark(4, a), Mark(0, a), Mark(2, c)], 0, 4)
  {
    var h, m3, m4 := Hash(a, 3), [Mark(2, c), Mark(1, b), Mark(0, a)], [Mark(0, a), Mark(2, c), Mark(1, b)];
    reqs := ThreeLoaded(a, b, c, keys);
    reqs := Touched(3, reqs, a, keys, h, m3, 1, 3, a, 2);
    assert Fronted(m3, 2) == m4;
    reqs := Added(3, reqs, a, keys, h, m4, 2, 3, Request(a, "new"));
    assert [Mark(4, a)] + m4[..2] == [Mark(4, a), Mark(0, a), Mark(2, c)];
  }

  lemma ThirdPushedOut(a: string, b: string, c: string, keys: set<string>) returns (reqs: seq<Request>)
    requires a != b && a in keys && b in keys && Hash(a, 3) == Hash(b, 3) != Hash(c, 3) && c in keys
    ensures OldFirst(reqs, a, keys) && Scene(3, reqs, Hash(a, 3), [Mark(4, a), Mark(5, b), Mark(0, a)], 1, 5)
  {
    var m5 := [Mark(4, a), Mark(0, a), Mark(2, c)];
    reqs := ThirdAside(a, b, c, keys);
    reqs := Added(3, reqs, a, keys, Hash(a, 3), m5, 0, 4, Request(b, ""));
    var m6 := [Mark(5, b), Mark(4, a), Mark(0, a)];
    assert [Mark(5, b)] + m5[..2] == m6;
    reqs := Touched(3, reqs, a, keys, Hash(a, 3), m6, 0, 5, a, 1);
    assert Fronted(m6, 1) == [Mark(4, a), Mark(5, b), Mark(0, a)];
  }

  // ----- the exact conditions

  /** A list whose walk meets the first load of `a` although a later one is in it. */
  lemma OldIsStale(capacity: Size, total: nat, reqs: seq<Request>, a: string, keys: set<string>, marks: seq<Mark>, p: nat,
                   loads: nat, i: nat, j: nat)
    requires OldFirst(reqs, a, keys) && Scene(capacity, reqs, Hash(a, capacity), marks, p, loads)
    requires capacity < total || loads <= total
    requires p <= j < |marks| && marks[j] == Mark(0, a) && forall k :: p <= k < j ==> marks[k].key != a
    requires i < |marks| && marks[i].key == a && marks[i].id > 0
    ensures Stale(capacity, total, reqs, Request(a, ""))
  {
    var s, answers := After(capacity, total, reqs), Answers(capacity, total, reqs);
    FollowsSketch(capacity, total, reqs);
    AfterInv(capacity, total, reqs);
    OriginsKept(capacity, total, reqs);
    HeadIs(SketchRun(capacity, reqs), Hash(a, capacity), marks, p, loads, |reqs|);
    LookupIs(s, SketchRun(capacity, reqs), a);
    assert FindMark(marks, p, a) == j;
    NotLast(reqs, answers, s, a, keys, s.items[i], s.items[j]);
  }

  lemma NotLast(reqs: seq<Request>, answers: seq<Outcome>, s: State, a: string, keys: set<string>, newer: Slot, x: Slot)
    requires OldFirst(reqs, a, keys) && |reqs| == |answers| && Origins(reqs, answers, s)
    requires newer in s.items && x in s.items && newer.key == x.key == a && x.id == 0 < newer.id
    ensures !LastLoaded(reqs, answers, a, Contents(s, x.buffer))
  {
    assert Origin(reqs, answers, x, s) && Origin(reqs, answers, newer, s);
  }

  lemma StaleWithFour(capacity: Size, total: nat, a: string, b: string, keys: set<string>) returns (reqs: seq<Request>)
    requires capacity >= 4 && total >= 4 && a != b && a in keys && b in keys && Hash(a, capacity) == Hash(b, capacity)
    ensures Over(keys, reqs) && Stale(capacity, total, reqs, Request(a, ""))
  {
    reqs := FourPlaces(capacity, a, b, keys);
    OldIsStale(capacity, total, reqs, a, keys, [Mark(3, a), Mark(5, b), Mark(1, b), Mark(0, a)], 1, 4, 0, 3);
  }

  lemma StaleWithThree(total: nat, a: string, b: string, c: string, keys: set<string>) returns (reqs: seq<Request>)
    requires total >= 4 && a != b && c != a && c != b && {a, b, c} <= keys && Hash(a, 3) == Hash(b, 3)
    ensures Over(keys, reqs) && Stale(3, total, reqs, Request(a, ""))
  {
    assert a in keys && b in keys && c in keys;
    if Hash(c, 3) == Hash(a, 3) {
      reqs := ThirdInside(a, b, c, keys);
      OldIsStale(3, total, reqs, a, keys, [Mark(3, a), Mark(4, c), Mark(0, a)], 1, 4, 0, 2);
    } else {
      reqs := ThirdPushedOut(a, b, c, keys);
      OldIsStale(3, total, reqs, a, keys, [Mark(4, a), Mark(5, b), Mark(0, a)], 1, 5, 0, 2);
    }
  }

  ghost predicate CanBeStale(capacity: Size, total: nat, keys: set<string>) {
    exists reqs: seq<Request>, r: Request :: Over(keys, reqs) && r.key in keys && Stale(capacity, total, reqs, r)
  }

  ghost predicate CanBeMissed(capacity: Size, total: nat, keys: set<string>) {
    exists reqs: seq<Request>, r: Request :: Over(keys, reqs) && r.key in keys && Missed(capacity, total, reqs, r)
  }

  lemma TwoOnly(keys: set<string>, a: string, b: string)
    requires a in keys && b in keys && a != b && |keys| <= 2
    ensures keys == {a, b}
  {
    var rest := keys - {a, b};
    assert keys == rest + {a, b};
    assert |rest| == 0;
  }

  lemma ThirdKey(keys: set<string>, a: string, b: string) returns (c: string)
    requires |keys| >= 3 && a in keys && b in keys
    ensures c in keys && c != a && c != b
  {
    var rest := keys - {a, b};
    if rest == {} {
      assert keys <= {a, b};
      AtMostTwo(keys, a, b);
    }
    c :| c in rest;
  }

  lemma AtMostTwo(keys: set<string>, a: string, b: string)
    requires keys <= {a, b}
    ensures |keys| <= 2
  {
    assert |keys - {a}| <= 1 by {
      assert keys - {a} <= {b};
      if b in keys - {a} { assert keys - {a} == {b}; } else { assert keys - {a} == {}; }
    }
    assert keys == (keys - {a}) + (keys * {a});
  }

  /** The condition under which a hit can return replaced data. */
  ghost predicate StaleRisk(capacity: Size, total: nat, keys: set<string>) {
    Collide(keys, capacity) && total >= 4 && (capacity >= 4 || (capacity == 3 && |keys| >= 3))
  }

  lemma NoRiskNoStale(capacity: Size, total: nat, keys: set<string>, reqs: seq<Request>, r: Request)
    requires !StaleRisk(capacity, total, keys) && Over(keys, reqs) && r.key in keys
    ensures !Stale(capacity, total, reqs, r)
  {
    if !Collide(keys, capacity) {
      CollisionFree(capacity, total, keys, reqs, r);
    } else {
      var a, b :| a in keys && b in keys && a != b && Hash(a, capacity) == Hash(b, capacity);
      if capacity == 3 && |keys| <= 2 {
        TwoOnly(keys, a, b);
      }
      SmallNeverStale(capacity, total, keys, reqs, r, a, b);
    }
  }

  /** For every cache, pool and set of keys: some run answers a request with data that a later load of its key has
      replaced if and only if two of the keys share a bucket, the pool has at least four buffers, and the cache has at
      least four places or, with a third key, three. */
  lemma StaleHitIff(capacity: Size, total: nat, keys: set<string>)
    ensures CanBeStale(capacity, total, keys) <==> StaleRisk(capacity, total, keys)
  {
    if StaleRisk(capacity, total, keys) {
      var a, b :| a in keys && b in keys && a != b && Hash(a, capacity) == Hash(b, capacity);
      var reqs;
      if capacity >= 4 {
        reqs := StaleWithFour(capacity, total, a, b, keys);
      } else {
        var c := ThirdKey(keys, a, b);
        reqs := StaleWithThree(total, a, b, c, keys);
      }
      assert Over(keys, reqs) && Request(a, "").key in keys && Stale(capacity, total, reqs, Request(a, ""));
    } else {
      forall reqs: seq<Request>, r: Request | Over(keys, reqs) && r.key in keys
        ensures !Stale(capacity, total, reqs, r)
      {
        NoRiskNoStale(capacity, total, keys, reqs, r);
      }
    }
  }

  lemma MissedRun(capacity: Size, total: nat, a: string, b: string, keys: set<string>) returns (reqs: seq<Request>)
    requires capacity >= 2 && total >= 2 && a != b && a in keys && b in keys && Hash(a, capacity) == Hash(b, capacity)
    ensures Over(keys, reqs) && Missed(capacity, total, reqs, Request(a, ""))
  {
    var marks := [Mark(0, a), Mark(1, b)];
    reqs := Overtaken(capacity, a, b, keys);
    FollowsSketch(capacity, total, reqs);
    AfterInv(capacity, total, reqs);
    HeadIs(SketchRun(capacity, reqs), Hash(a, capacity), marks, 1, 2, 3);
    LookupIs(After(capacity, total, reqs), SketchRun(capacity, reqs), a);
    assert FindMark(marks, 1, a) == 2;
    assert MarkOf(After(capacity, total, reqs).items[0]) == marks[0];
  }

  /** For every cache, pool and set of keys: some run misses a key that is cached if and only if two of the keys share a
      bucket and cache and pool have room for two. */
  lemma CachedKeyMissedIff(capacity: Size, total: nat, keys: set<string>)
    ensures CanBeMissed(capacity, total, keys) <==> Collide(keys, capacity) && capacity >= 2 && total >= 2
  {
    if Collide(keys, capacity) && capacity >= 2 && total >= 2 {
      var a, b :| a in keys && b in keys && a != b && Hash(a, capacity) == Hash(b, capacity);
      var reqs := MissedRun(capacity, total, a, b, keys);
      assert Over(keys, reqs) && Request(a, "").key in keys && Missed(capacity, total, reqs, Request(a, ""));
    } else {
      forall reqs: seq<Request>, r: Request | Over(keys, reqs) && r.key in keys
        ensures !Missed(capacity, total, reqs, r)
      {
        if !Collide(keys, capacity) {
          CollisionFree(capacity, total, keys, reqs, r);
        } else {
          SingleNeverMisses(capacity, total, reqs, r);
        }
      }
    }
  }

  function Repeated(i: nat): (key: string)
    ensures |key| == i
  {
    seq(i, _ => 'a')
  }

  /** Colliding keys exist for every number of buckets. */
  lemma CollidingKeysExist(n: Size) returns (a: string, b: string)
    ensures a != b && Hash(a, n) == Hash(b, n)
  {
    var hashes: seq<nat> := seq(n + 1, i requires 0 <= i < n + 1 => Hash(Repeated(i), n));
    assert forall i :: 0 <= i < |hashes| ==> hashes[i] < n;
    if forall i, j :: 0 <= i < j < |hashes| ==> hashes[i] != hashes[j] {
      DistinctBounded(hashes, n);
    }
    var i, j :| 0 <= i < j < |hashes| && hashes[i] == hashes[j];
    a, b := Repeated(i), Repeated(j);
  }
}
