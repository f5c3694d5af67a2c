/** Counting words by chunks in parallel: what the total is, exactly. */
module WordCount {

  /** isspace in the C locale. */
  predicate IsSpace(c: char) {
    c == ' ' || '\t' <= c <= '\r'
  }

  /** Words: the places where a non-space character is not preceded by another. */
  function Words(s: string): nat {
    if s == "" then 0
    else
      var n := |s| - 1;
      Words(s[..n]) + (if !IsSpace(s[n]) && (n == 0 || IsSpace(s[n - 1])) then 1 else 0)
  }

  /** Position `b` lies inside a word of `s`. */
  predicate InsideWord(s: string, b: nat) {
    0 < b < |s| && !IsSpace(s[b - 1]) && !IsSpace(s[b])
  }

  /** Cutting at a position adds a word exactly if the cut is inside one. */
  lemma {:induction false} CutWords(s: string, b: nat)
    requires b <= |s|
    ensures Words(s[..b]) + Words(s[b..]) == Words(s) + (if InsideWord(s, b) then 1 else 0)
  {
    if b == |s| {
      assert s[..b] == s && s[b..] == "";
    } else {
      var n := |s| - 1;
      var front := s[..n];
      CutWords(front, b);
      assert front[..b] == s[..b];
      assert s[b..][..n - b] == s[b..n] == front[b..];
      if b == n {
        assert s[b..] == [s[n]] && front[b..] == "";
        assert [s[n]][..0] == "";
      } else {
        assert s[b..][n - b] == s[n] && s[b..][n - b - 1] == s[n - 1];
        assert InsideWord(front, b) <==> InsideWord(s, b);
      }
    }
  }

  // ----- chunks

  function ChunkStart(size: nat, workers: nat, i: nat): nat
    requires workers > 0
  {
    i * (size / workers)
  }

  function ChunkEnd(size: nat, workers: nat, i: nat): nat
    requires workers > 0
  {
    if i == workers - 1 then size else (i + 1) * (size / workers)
  }

  lemma ChunkBounds(size: nat, workers: nat, i: nat)
    requires workers > 0 && i < workers
    ensures ChunkStart(size, workers, i) <= ChunkEnd(size, workers, i) <= size
    ensures i + 1 < workers ==> ChunkEnd(size, workers, i) == ChunkStart(size, workers, i + 1)
  {
    var c := size / workers;
    ScaleMono(i, i + 1, c);
    ScaleMono(i + 1, workers, c);
    assert workers * c <= size;
  }

  lemma ScaleMono(a: nat, b: nat, c: nat)
    requires a <= b
    ensures a * c <= b * c
  {
  }

  /** Words counted in the first `k` chunks, each on its own. */
  function ChunkSum(s: string, workers: nat, k: nat): nat
    requires workers > 0 && k <= workers
  {
    if k == 0 then 0
    else
      ChunkBounds(|s|, workers, k - 1);
      ChunkSum(s, workers, k - 1) + Words(s[ChunkStart(|s|, workers, k - 1)..ChunkEnd(|s|, workers, k - 1)])
  }

  /** How many of the first `k` chunks start inside a word. */
  function Broken(s: string, workers: nat, k: nat): nat
    requires workers > 0
  {
    if k == 0 then 0 else Broken(s, workers, k - 1) + (if InsideWord(s, ChunkStart(|s|, workers, k - 1)) then 1 else 0)
  }

  /** A chunk that starts past the beginning of the file is not empty. */
  lemma ChunkNotEmpty(size: nat, workers: nat, i: nat)
    requires workers > 0 && i < workers && ChunkStart(size, workers, i) > 0
    ensures ChunkStart(size, workers, i) < ChunkEnd(size, workers, i)
  {
    ChunkBounds(size, workers, i);
    var c := size / workers;
    assert c > 0;
    assert (i + 1) * c == i * c + c;
    ScaleMono(i + 1, workers, c);
    assert workers * c <= size;
  }

  lemma {:induction false} SumOfChunks(s: string, workers: nat, k: nat)
    requires workers > 0 && 0 < k <= workers
    ensures ChunkEnd(|s|, workers, k - 1) <= |s|
    ensures ChunkSum(s, workers, k) == Words(s[..ChunkEnd(|s|, workers, k - 1)]) + Broken(s, workers, k)
  {
    ChunkBounds(|s|, workers, k - 1);
    var a, b := ChunkStart(|s|, workers, k - 1), ChunkEnd(|s|, workers, k - 1);
    assert s[..b][..a] == s[..a] && s[..b][a..] == s[a..b];
    CutWords(s[..b], a);
    assert InsideWord(s[..b], a) <==> InsideWord(s, a) by {
      if a > 0 { ChunkNotEmpty(|s|, workers, k - 1); }
    }
    if k > 1 {
      ChunkBounds(|s|, workers, k - 2);
      SumOfChunks(s, workers, k - 1);
    }
  }

  lemma {:induction false} BrokenBound(s: string, workers: nat, k: nat)
    requires workers > 0 && k <= workers
    ensures Broken(s, workers, k) <= if k == 0 then 0 else k - 1
  {
    if k > 0 {
      BrokenBound(s, workers, k - 1);
    }
  }

  /** The chunk counts add up to the words of the file plus the chunk boundaries inside words, which
      are at most one fewer than the workers. */
  lemma TotalIsExact(s: string, workers: nat)
    requires workers > 0
    ensures ChunkSum(s, workers, workers) == Words(s) + Broken(s, workers, workers)
    ensures Words(s) <= ChunkSum(s, workers, workers) <= Words(s) + workers - 1
  {
    SumOfChunks(s, workers, workers);
    BrokenBound(s, workers, workers);
    assert s[..|s|] == s;
  }

  // ----- threads finishing in any order

  /** The chunk count of worker `i`. */
  function CountOf(s: string, workers: nat, i: nat): nat
    requires workers > 0 && i < workers
  {
    ChunkBounds(|s|, workers, i);
    Words(s[ChunkStart(|s|, workers, i)..ChunkEnd(|s|, workers, i)])
  }

  /** Counts of those of the first `k` workers that have finished. */
  function SumFinished(s: string, workers: nat, finished: set<nat>, k: nat): nat
    requires workers > 0 && k <= workers
  {
    if k == 0 then 0 else SumFinished(s, workers, finished, k - 1) + (if k - 1 in finished then CountOf(s, workers, k - 1) else 0)
  }

  lemma {:induction false} FinishOne(s: string, workers: nat, finished: set<nat>, i: nat, k: nat)
    requires workers > 0 && k <= workers && i !in finished && i < workers
    ensures SumFinished(s, workers, finished + {i}, k) ==
            SumFinished(s, workers, finished, k) + (if i < k then CountOf(s, workers, i) else 0)
  {
    if k > 0 {
      FinishOne(s, workers, finished, i, k - 1);
    }
  }

  lemma {:induction false} NoneFinished(s: string, workers: nat, k: nat)
    requires workers > 0 && k <= workers
    ensures SumFinished(s, workers, {}, k) == 0
  {
    if k > 0 {
      NoneFinished(s, workers, k - 1);
    }
  }

  lemma {:induction false} AllFinished(s: string, workers: nat, finished: set<nat>, k: nat)
    requires workers > 0 && k <= workers && forall i: nat :: i < workers ==> i in finished
    ensures SumFinished(s, workers, finished, k) == ChunkSum(s, workers, k)
  {
    if k > 0 {
      AllFinished(s, workers, finished, k - 1);
    }
  }

  /** worker_thread: the scanning loop counts the words of its chunk. */
  method Worker(data: string, start: nat, end: nat) returns (localCount: nat)
    requires start <= end <= |data|
    ensures localCount == Words(data[start..end])
  {
    var inWord := false;
    localCount := 0;
    var i := start;
    while i < end
      invariant start <= i <= end
      invariant inWord <==> i > start && !IsSpace(data[i - 1])
      invariant localCount + (if inWord then 1 else 0) == Words(data[start..i])
    {
      ghost var s := data[start..i + 1];
      assert s[..|s| - 1] == data[start..i];
      assert i > start ==> s[|s| - 2] == data[i - 1];
      if IsSpace(data[i]) {
        if inWord {
          localCount := localCount + 1;
          inWord := false;
        }
      } else {
        inWord := true;
      }
      i := i + 1;
    }
    if inWord {
      localCount := localCount + 1;
    }
  }

  /** Each worker finishes once, in some order. */
  ghost predicate IsSchedule(order: seq<nat>, workers: nat) {
    && (forall k :: 0 <= k < |order| ==> order[k] < workers)
    && (forall j, k :: 0 <= j < k < |order| ==> order[j] != order[k])
    && (forall i: nat :: i < workers ==> i in order)
  }

  /** The whole program: in whatever order the workers add their counts, the total is the number of
      words plus the number of chunk boundaries that fall inside a word. */
  method CountAll(data: string, workers: nat, order: seq<nat>) returns (globalCount: nat)
    requires workers > 0 && IsSchedule(order, workers)
    ensures globalCount == Words(data) + Broken(data, workers, workers)
    ensures Words(data) <= globalCount <= Words(data) + workers - 1
  {
    globalCount := 0;
    ghost var finished: set<nat> := {};
    NoneFinished(data, workers, workers);
    var chunk := |data| / workers;
    var k := 0;
    while k < |order|
      invariant k <= |order|
      invariant finished == set j | 0 <= j < k :: order[j]
      invariant globalCount == SumFinished(data, workers, finished, workers)
    {
      var i := order[k];
      ChunkBounds(|data|, workers, i);
      var start := i * chunk;
      var end := if i == workers - 1 then |data| else (i + 1) * chunk;
      var localCount := Worker(data, start, end);
      FinishOne(data, workers, finished, i, workers);
      globalCount := globalCount + localCount;
      finished := finished + {i};
      k := k + 1;
    }
    forall i: nat | i < workers
      ensures i in finished
    {
      assert i in order;
      var j :| 0 <= j < |order| && order[j] == i;
    }
    AllFinished(data, workers, finished, workers);
    TotalIsExact(data, workers);
  }
}
