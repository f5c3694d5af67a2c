/** The buffer pool and block cache as the program keeps them: a free list, a hash table of node pointers and a
    doubly linked recency list whose `next` links the hash walks share. */
module BlockCache {
  import opened Options
  import opened BlockCacheModel
  import opened RecencyList

  ghost function SlotOf(n: Node): Slot {
    Slot(n.id, n.key, n.buffer)
  }

  ghost function Slots(items: seq<Node>): (r: seq<Slot>)
    ensures |r| == |items| && forall i :: 0 <= i < |r| ==> r[i] == SlotOf(items[i])
  {
    seq(|items|, i requires 0 <= i < |items| => SlotOf(items[i]))
  }

  /** The buckets that point at a node. */
  ghost function Heads(buckets: seq<Node?>): map<nat, Slot> {
    map h: nat | h < |buckets| && buckets[h] != null :: SlotOf(buckets[h])
  }

  /** Every bucket points at a node of the list, or nowhere. */
  ghost predicate AllIn(buckets: seq<Node?>, items: seq<Node>) {
    forall h :: 0 <= h < |buckets| && buckets[h] != null ==> buckets[h] in items
  }

  lemma AllInEntered(buckets: seq<Node?>, items: seq<Node>, node: Node, h: nat)
    requires AllIn(buckets, items) && h < |buckets|
    ensures AllIn(buckets[h := node], [node] + items)
  {
  }

  lemma AllInDropped(buckets: seq<Node?>, items: seq<Node>, h: nat)
    requires AllIn(buckets, items) && h < |buckets| && items != []
    requires forall k :: 0 <= k < |buckets| && buckets[k] == items[|items| - 1] ==> k == h
    ensures AllIn(if buckets[h] == items[|items| - 1] then buckets[h := null] else buckets, items[..|items| - 1])
  {
    assert items == items[..|items| - 1] + [items[|items| - 1]];
  }

  lemma AllInFronted(buckets: seq<Node?>, items: seq<Node>, j: nat)
    requires AllIn(buckets, items) && j < |items|
    ensures AllIn(buckets, [items[j]] + OmitAt(items, j))
  {
    forall h | 0 <= h < |buckets| && buckets[h] != null
      ensures buckets[h] in [items[j]] + OmitAt(items, j)
    {
      var i :| 0 <= i < |items| && items[i] == buckets[h];
      assert ([items[j]] + OmitAt(items, j))[if i == j then 0 else if i < j then i + 1 else i] == items[i];
    }
  }

  lemma HeadsSet(buckets: seq<Node?>, h: nat, node: Node)
    requires h < |buckets|
    ensures Heads(buckets[h := node]) == Heads(buckets)[h := SlotOf(node)]
  {
  }

  lemma HeadsUnset(buckets: seq<Node?>, h: nat)
    requires h < |buckets|
    ensures Heads(buckets[h := null]) == Heads(buckets) - {h}
  {
  }

  /** The place in the list of the node a bucket points at. */
  lemma PlaceOf(items: seq<Node>, k: nat)
    requires k < |items| && DistinctIds(Slots(items))
    ensures Place(Slots(items), SlotOf(items[k])) == k
  {
    assert Slots(items)[k] == SlotOf(items[k]);
    var i := Place(Slots(items), SlotOf(items[k]));
    assert Slots(items)[i].id == Slots(items)[k].id;
  }

  lemma SlotsFronted(items: seq<Node>, j: nat)
    requires j < |items|
    ensures Slots([items[j]] + OmitAt(items, j)) == Fronted(Slots(items), j)
  {
  }

  /** A bucket's node is told apart by its slot. */
  lemma SameNode(items: seq<Node>, m: Node, n: Node)
    requires m in items && n in items && DistinctIds(Slots(items)) && SlotOf(m) == SlotOf(n)
    ensures m == n
  {
    var i :| 0 <= i < |items| && items[i] == m;
    var j :| 0 <= j < |items| && items[j] == n;
    assert Slots(items)[i].id == Slots(items)[j].id;
  }

  /** Dropping the last node and its bucket's pointer is what the model's eviction does. */
  lemma EvictView(s: State, items: seq<Node>, buckets: seq<Node?>, h: nat)
    requires s.items == Slots(items) && s.buckets == Heads(buckets) && |items| >= s.capacity == |buckets|
    requires h == Hash(items[|items| - 1].key, s.capacity)
    requires buckets[h] != null && SlotOf(buckets[h]) == SlotOf(items[|items| - 1]) ==> buckets[h] == items[|items| - 1]
    ensures var lru := items[|items| - 1];
            Evict(s) == s.(
            items := Slots(items[..|items| - 1]),
            buckets := Heads(if buckets[h] == lru then buckets[h := null] else buckets),
            free := [lru.buffer] + s.free,
            data := s.data[lru.buffer := ""])
  {
    HeadsUnset(buckets, h);
    assert Slots(items[..|items| - 1]) == Slots(items)[..|items| - 1];
  }

  lemma InsertView(s: State, items: seq<Node>, buckets: seq<Node?>, node: Node, h: nat)
    requires s.items == Slots(items) && s.buckets == Heads(buckets) && h == Hash(node.key, s.capacity) < |buckets| && node.id == s.clock
    ensures Insert(s, node.key, node.buffer) == s.(items := Slots([node] + items), buckets := Heads(buckets[h := node]))
  {
    HeadsSet(buckets, h, node);
    assert Slots([node] + items) == [SlotOf(node)] + Slots(items);
  }

  /** Following `next` from `head` visits the buffers of `free` and ends. */
  ghost predicate Chained(head: Option<nat>, next: seq<Option<nat>>, free: seq<nat>)
    decreases free
  {
    if free == [] then head == None
    else head == Some(free[0]) && free[0] < |next| && Chained(next[free[0]], next, free[1..])
  }

  /** A link outside the chain can change. */
  lemma {:induction false} ChainedElsewhere(head: Option<nat>, next: seq<Option<nat>>, free: seq<nat>, b: nat, link: Option<nat>)
    requires Chained(head, next, free) && b < |next| && b !in free
    ensures Chained(head, next[b := link], free)
    decreases free
  {
    if free != [] {
      ChainedElsewhere(next[free[0]], next, free[1..], b, link);
    }
  }

  /** The links that createbufferpool makes. */
  function InitialLinks(total: nat): (next: seq<Option<nat>>)
    ensures |next| == total && forall i :: 0 <= i < total ==> next[i] == if i == total - 1 then None else Some(i + 1)
  {
    seq(total, i requires 0 <= i < total => if i == total - 1 then None else Some(i + 1))
  }

  lemma {:induction false} InitialChain(total: nat, free: seq<nat>, k: nat)
    requires k <= total && |free| == total && forall i :: 0 <= i < total ==> free[i] == i
    ensures Chained(if k < total then Some(k) else None, InitialLinks(total), free[k..])
    decreases total - k
  {
    if k < total {
      InitialChain(total, free, k + 1);
      assert free[k..][1..] == free[k + 1..];
    }
  }

  /** hash: the loop over the characters in 32-bit arithmetic. */
  method HashKey(key: string, n: Size) returns (b: nat)
    ensures b == Hash(key, n)
  {
    var h: nat, i := 0, 0;
    while i < |key|
      invariant 0 <= i <= |key| && HashFrom(h, key[i..], n) == Hash(key, n)
    {
      assert key[i..][1..] == key[i + 1..];
      h := (h * 31 + key[i] as nat) % 0x1_0000_0000;
      i := i + 1;
    }
    b := h % n;
  }

  class Cache {
    const capacity: Size
    const total: nat
    const list: List
    var buckets: seq<Node?>
    var count: nat
    /** The free list: its first buffer, the `next` link of every buffer, and the buffers in order. */
    var freeHead: Option<nat>
    var nextFree: seq<Option<nat>>
    ghost var free: seq<nat>
    var freeCount: nat
    var isFree: seq<bool>
    var data: map<nat, string>
    ghost var clock: nat

    ghost function View(): State
      reads this, list`items
    {
      State(capacity, total, Slots(list.items), Heads(buckets), free, data, clock)
    }

    /** The pointers and counters agree with each other. */
    ghost predicate Wired()
      reads this`buckets, this`count, this`free, this`freeCount, this`isFree, this`freeHead, this`nextFree, list, list.nodes
    {
      list.Valid() && BucketsIn() && count == |list.items| && PoolOk()
    }

    /** They stand for a state that keeps the invariant, with the buffers `out` taken from the free list. */
    ghost predicate Sound(out: seq<nat>)
      reads this, list, list.nodes
    {
      Wired() && InvWith(View(), out)
    }

    /** The links, the free counter and the flags agree on the free list. */
    ghost predicate PoolOk()
      reads this`free, this`freeCount, this`isFree, this`freeHead, this`nextFree
    {
      && freeCount == |free| && |isFree| == total && (forall b :: 0 <= b < total ==> (isFree[b] <==> b in free))
      && |nextFree| == total && Chained(freeHead, nextFree, free)
    }

    ghost predicate Valid()
      reads this, list, list.nodes
    {
      Sound([])
    }

    /** createbufferpool and create_lru_cache */
    constructor (capacity: Size, total: nat)
      ensures Valid() && View() == Init(capacity, total) && fresh(list)
    {
      this.capacity, this.total := capacity, total;
      list := new List();
      buckets, count := seq(capacity, _ => null), 0;
      free, freeCount, isFree := seq(total, i => i), total, seq(total, _ => true);
      freeHead, nextFree := if total == 0 then None else Some(0), InitialLinks(total);
      data, clock := map[], 0;
      new;
      InitInv(capacity, total);
      assert View() == Init(capacity, total);
      assert list.Valid();
      assert BucketsIn();
      assert forall b :: 0 <= b < total ==> free[b] == b && isFree[b];
      InitialChain(total, free, 0);
      assert free[0..] == free;
      assert PoolOk();
    }

    ghost predicate BucketsIn()
      reads this`buckets, list`items
    {
      |buckets| == capacity && AllIn(buckets, list.items)
    }

    /** The walk along the `next` links from place `i`. */
    method WalkFrom(start: Node?, key: string, ghost i: nat) returns (node: Node?, ghost j: nat)
      requires list.Valid() && i <= |list.items| && start == At(list.items, i)
      ensures j == Find(Slots(list.items), i, key)
      ensures node == At(list.items, Find(Slots(list.items), i, key))
    {
      node, j := start, i;
      while node != null && node.key != key
        invariant i <= j <= |list.items| && node == At(list.items, j)
        invariant Find(Slots(list.items), j, key) == Find(Slots(list.items), i, key)
        decreases |list.items| - j
      {
        list.Neighbours(j);
        node := node.next;
        j := j + 1;
      }
    }

    /** The walk from the key's bucket. */
    method Walk(key: string) returns (node: Node?, ghost j: nat)
      requires list.Valid() && BucketsIn() && DistinctIds(Slots(list.items))
      ensures j == Lookup(View(), key)
      ensures node == At(list.items, Lookup(View(), key))
    {
      var h := HashKey(key, capacity);
      ghost var i := |list.items|;
      if buckets[h] != null {
        ghost var k :| 0 <= k < |list.items| && list.items[k] == buckets[h];
        PlaceOf(list.items, k);
        i := k;
      }
      assert Start(View(), h) == i;
      node, j := WalkFrom(buckets[h], key, i);
    }

    /** A found node moves to the front. */
    method Touch(node: Node, ghost j: nat)
      requires Wired() && j < |list.items| && list.items[j] == node
      modifies list, list.nodes
      ensures Wired() && list.nodes == old(list.nodes)
      ensures View() == old(View()).(items := Fronted(old(View()).items, j))
    {
      SlotsFronted(list.items, j);
      AllInFronted(buckets, list.items, j);
      list.MoveToFront(node, j);
    }

    /** cache_get */
    method Get(key: string) returns (buffer: Option<nat>)
      requires Wired() && DistinctIds(View().items)
      modifies list, list.nodes
      ensures Wired() && list.nodes == old(list.nodes)
      ensures var s := old(View());
              var j := Lookup(s, key);
              if j < |s.items| then buffer == Some(s.items[j].buffer) && View() == s.(items := Fronted(s.items, j))
              else buffer == None && View() == s
    {
      var node;
      ghost var j;
      node, j := Walk(key);
      if node == null {
        return None;
      }
      Touch(node, j);
      return Some(node.buffer);
    }

    /** acquire_buffer */
    method Acquire() returns (buffer: Option<nat>)
      requires PoolOk() && NoRepeat(free) && forall i :: 0 <= i < |free| ==> free[i] < total
      modifies this`free, this`freeCount, this`isFree, this`freeHead, this`nextFree
      ensures free == if old(free) == [] then [] else old(free)[1..]
      ensures buffer == if old(free) == [] then None else Some(old(free)[0])
      ensures PoolOk()
    {
      if freeCount == 0 {
        return None;
      }
      var b := freeHead.value;
      assert b == free[0] && b !in free[1..];
      ChainedElsewhere(nextFree[b], nextFree, free[1..], b, None);
      freeHead := nextFree[b];
      nextFree := nextFree[b := None];
      free := free[1..];
      isFree := isFree[b := false];
      freeCount := freeCount - 1;
      return Some(b);
    }

    /** release_buffer */
    method Release(buffer: nat)
      requires buffer < total && PoolOk()
      modifies this`free, this`freeCount, this`isFree, this`freeHead, this`nextFree, this`data
      ensures PoolOk()
      ensures free == if buffer in old(free) then old(free) else [buffer] + old(free)
      ensures data == if buffer in old(free) then old(data) else old(data)[buffer := ""]
    {
      if isFree[buffer] {
        return;
      }
      data := data[buffer := ""];
      isFree := isFree[buffer := true];
      ChainedElsewhere(freeHead, nextFree, free, buffer, freeHead);
      nextFree := nextFree[buffer := freeHead];
      freeHead := Some(buffer);
      assert ([buffer] + free)[1..] == free;
      free := [buffer] + free;
      freeCount := freeCount + 1;
    }

    /** What the invariant says of the last node of the list. */
    lemma LastNode(out: seq<nat>)
      requires Sound(out) && list.items != []
      ensures LastOk()
    {
      var n := |list.items| - 1;
      var lru := list.items[n];
      var u := out + Buffers(View());
      assert u[|out| + n] == lru.buffer;
      assert forall i :: 0 <= i < |free| ==> u[|out| + n + 1 + i] == free[i];
      forall h | 0 <= h < capacity && buckets[h] == lru
        ensures h == Hash(lru.key, capacity)
      {
        assert h in View().buckets && BucketOk(View(), h);
      }
      forall h | 0 <= h < capacity && buckets[h] != null && SlotOf(buckets[h]) == SlotOf(lru)
        ensures buckets[h] == lru
      {
        SameNode(list.items, buckets[h], lru);
      }
    }

    /** The pointer and pool updates of the eviction in cacheput. */
    method DropLast()
      requires list.Valid() && |buckets| == capacity && PoolOk() && list.items != []
      requires list.items[|list.items| - 1].buffer < total && list.items[|list.items| - 1].buffer !in free
      requires count == |list.items|
      modifies this, list, list.nodes
      ensures list.Valid() && PoolOk() && list.nodes <= old(list.nodes) && count == old(count) - 1
      ensures list.items == old(list.items[..|list.items| - 1]) && clock == old(clock)
      ensures var lru := old(list.items[|list.items| - 1]);
              var h := Hash(lru.key, capacity);
              && buckets == (if old(buckets)[h] == lru then old(buckets)[h := null] else old(buckets))
              && free == [lru.buffer] + old(free) && data == old(data)[lru.buffer := ""]
    {
      var lru := list.RemoveLru();
      var h := HashKey(lru.key, capacity);
      if buckets[h] == lru {
        buckets := buckets[h := lru.next];
      }
      Release(lru.buffer);
      count := count - 1;
    }

    /** What eviction needs to know of the last node: its buffer is in use, and only its own bucket points at it. */
    ghost predicate LastOk()
      reads this`buckets, this`free, list`items
    {
      list.items != [] &&
      var lru := list.items[|list.items| - 1];
      && lru.buffer < total && lru.buffer !in free
      && (forall h :: 0 <= h < |buckets| && buckets[h] == lru ==> h == Hash(lru.key, capacity))
      && (forall h :: 0 <= h < |buckets| && buckets[h] != null && SlotOf(buckets[h]) == SlotOf(lru) ==> buckets[h] == lru)
    }

    method EvictLast()
      requires Wired() && |list.items| >= capacity && LastOk()
      modifies this, list, list.nodes
      ensures Wired() && View() == Evict(old(View()))
      ensures list.nodes <= old(list.nodes)
    {
      ghost var was, heads := list.items, buckets;
      ghost var h := Hash(was[|was| - 1].key, capacity);
      DropLast();
      assert View() == Evict(old(View())) by {
        EvictView(old(View()), was, heads, h);
      }
      assert BucketsIn() by {
        AllInDropped(heads, was, h);
      }
    }

    /** The eviction in cacheput: drops the last node of a full cache and frees its buffer. */
    method MakeRoom(ghost out: seq<nat>)
      requires Sound(out)
      modifies this, list, list.nodes
      ensures Wired() && View() == Evict(old(View()))
      ensures list.nodes <= old(list.nodes)
    {
      if count >= capacity {
        LastNode(out);
        EvictLast();
      }
    }

    /** The end of cacheput: a new node in its bucket and at the front of the list. */
    method Enter(key: string, buffer: nat)
      requires Wired()
      modifies this`buckets, this`count, list, list.nodes
      ensures Wired() && View() == Insert(old(View()), key, buffer)
      ensures fresh(list.nodes - old(list.nodes))
    {
      var h := HashKey(key, capacity);
      ghost var was, heads := list.items, buckets;
      var node := new Node(key, buffer, clock);
      node.next := buckets[h];
      buckets := buckets[h := node];
      list.AddToFront(node);
      count := count + 1;
      assert View() == Insert(old(View()), key, buffer) by {
        InsertView(old(View()), was, heads, node, h);
      }
      assert BucketsIn() by {
        AllInEntered(heads, was, node, h);
      }
    }

    /** cacheput: false when the key was found after all and only moved to the front. */
    method Put(key: string, buffer: nat) returns (entered: bool)
      requires Sound([buffer])
      modifies this, list, list.nodes
      ensures Wired() && fresh(list.nodes - old(list.nodes))
      ensures entered <==> Lookup(old(View()), key) == |old(View().items)|
      ensures var s := old(View());
              View() == if entered then Insert(Evict(s), key, buffer) else s.(items := Fronted(s.items, Lookup(s, key)))
    {
      var node;
      ghost var j;
      node, j := Walk(key);
      if node != null {
        Touch(node, j);
        return false;
      }
      MakeRoom([buffer]);
      Enter(key, buffer);
      return true;
    }

    lemma FreeOnes()
      requires Inv(View())
      ensures NoRepeat(free) && forall i :: 0 <= i < |free| ==> free[i] < total
    {
      var u := [] + Buffers(View());
      assert forall i :: 0 <= i < |free| ==> u[|list.items| + i] == free[i];
    }

    /** Takes a free buffer, if there is one, and writes the block into it. */
    method Fill(text: string) returns (taken: Option<nat>)
      requires Valid()
      modifies this`free, this`freeCount, this`isFree, this`freeHead, this`nextFree, this`data
      ensures var s := old(View());
              if s.free == [] then taken == None && View() == s && Wired()
              else taken == Some(s.free[0]) && View() == Take(s, text) && Sound([s.free[0]])
    {
      FreeOnes();
      ghost var s := View();
      taken := Acquire();
      if taken.Some? {
        data := data[taken.value := text];
        TakeKeeps(s, text);
        assert View() == Take(s, text);
      }
    }

    /** The part of files that serves a miss; cacheput's own scan then finds nothing either. */
    method Load(key: string, text: string) returns (outcome: Outcome)
      requires Valid() && Lookup(View(), key) == |View().items|
      modifies this, list, list.nodes
      ensures Wired() && fresh(list.nodes - old(list.nodes))
      ensures var s := old(View());
              if s.free == [] then outcome == Exhausted && View() == s
              else outcome == Loaded && View() == Insert(Evict(Take(s, text)), key, s.free[0])
    {
      var taken := Fill(text);
      if taken.None? {
        return Exhausted;
      }
      var entered := Put(key, taken.value);
      assert entered;
      return Loaded;
    }

    method Serve(key: string, text: string) returns (outcome: Outcome)
      requires Valid()
      modifies this, list, list.nodes
      ensures Wired() && fresh(list.nodes - old(list.nodes))
      ensures View() == BlockCacheModel.Serve(old(View()), Request(key, text))
      ensures outcome == Answer(old(View()), Request(key, text))
    {
      var cached := Get(key);
      if cached.Some? {
        outcome := Hit(if cached.value in data then data[cached.value] else "");
      } else {
        outcome := Load(key, text);
      }
    }

    /** files: one request. */
    method Files(key: string, text: string) returns (outcome: Outcome)
      requires Valid()
      modifies this, list, list.nodes
      ensures Valid() && fresh(list.nodes - old(list.nodes))
      ensures View() == Next(old(View()), Request(key, text))
      ensures outcome == Answer(old(View()), Request(key, text))
    {
      ghost var s, r := View(), Request(key, text);
      outcome := Serve(key, text);
      ghost var served := View();
      clock := clock + 1;
      assert View() == Tick(served);
      assert Inv(Next(s, r)) by {
        NextKeepsInv(s, r);
      }
    }
  }
}
