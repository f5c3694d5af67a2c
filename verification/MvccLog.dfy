/** An abstract commit log and what a version chain built from it looks like to a reader. */
module MvccLog {
  import opened Options
  import opened MvccModel

  /** A commit: which transaction (and which of its incarnations, named by start timestamp)
      installed which writes at which timestamp. */
  datatype Entry = Entry(id: nat, start: nat, ts: nat, writes: seq<Write>) {
    predicate WritesKey(k: nat) {
      Writes(writes, k)
    }

    function ValueOf(k: nat): Value
      requires WritesKey(k)
    {
      writes[FindWrite(writes, k)].value
    }
  }

  ghost predicate DistinctKeys(writes: seq<Write>) {
    forall i, j :: 0 <= i < j < |writes| ==> writes[i].key != writes[j].key
  }

  /** Entries that write a common key carry increasing timestamps. */
  ghost predicate OrderedPerKey(log: seq<Entry>) {
    forall i, j, k: nat :: 0 <= i < j < |log| && log[i].WritesKey(k) && log[j].WritesKey(k) ==> log[i].ts < log[j].ts
  }

  ghost predicate LogOk(log: seq<Entry>, ts: nat) {
    && OrderedPerKey(log)
    && (forall i :: 0 <= i < |log| ==> INITIAL_TS < log[i].ts < ts && DistinctKeys(log[i].writes))
  }

  /** The version chain of key `k` after the commits of `log`. */
  function ChainOf(log: seq<Entry>, k: nat): (vs: seq<Version>)
    ensures |vs| >= 1 && vs[0].end == Infinity
  {
    if log == [] then InitialChain()
    else
      var rest := ChainOf(log[..|log| - 1], k);
      var e := log[|log| - 1];
      if e.WritesKey(k) then Push(rest, e.ValueOf(k), e.ts) else rest
  }

  /** Strictly decreasing begin timestamps; each version ends where the next newer one begins;
      the newest is open; the oldest is the initial one. */
  ghost predicate ChainOk(vs: seq<Version>) {
    && |vs| >= 1
    && vs[0].end == Infinity
    && vs[|vs| - 1].begin == INITIAL_TS
    && (forall i, j :: 0 <= i < j < |vs| ==> vs[j].begin < vs[i].begin)
    && (forall i :: 1 <= i < |vs| ==> vs[i].end == At(vs[i - 1].begin))
  }

  /** `seen` is the newest log entry for `k` not above `ts`, given by value and timestamp,
      or the initial value if there is no such entry. */
  ghost predicate IsSnapshot(log: seq<Entry>, k: nat, ts: nat, value: Value, at: nat) {
    || (value == INITIAL_VALUE && at == INITIAL_TS && forall i :: 0 <= i < |log| && log[i].WritesKey(k) ==> log[i].ts > ts)
    || (exists i :: 0 <= i < |log| && IsNewest(log, k, ts, i) && value == log[i].ValueOf(k) && at == log[i].ts)
  }

  ghost predicate IsNewest(log: seq<Entry>, k: nat, ts: nat, i: int) {
    && 0 <= i < |log| && log[i].WritesKey(k) && log[i].ts <= ts
    && forall j :: 0 <= j < |log| && log[j].WritesKey(k) && log[j].ts <= ts ==> log[j].ts <= log[i].ts
  }

  lemma PushKeepsChainOk(vs: seq<Version>, v: Value, c: nat)
    requires ChainOk(vs) && vs[0].begin < c
    ensures ChainOk(Push(vs, v, c))
  {
    var r := Push(vs, v, c);
    assert r[1..][1..] == vs[1..];
    forall i, j | 0 <= i < j < |r|
      ensures r[j].begin < r[i].begin
    {
      assert r[j].begin == vs[j - 1].begin;
      if i > 0 { assert r[i].begin == vs[i - 1].begin; }
    }
    forall i | 1 <= i < |r|
      ensures r[i].end == At(r[i - 1].begin)
    {
      if i >= 2 {
        assert r[i] == vs[i - 1];
        assert r[i - 1].begin == vs[i - 2].begin;
      }
    }
  }

  lemma PrefixOk(log: seq<Entry>, ts: nat)
    requires LogOk(log, ts) && log != []
    ensures LogOk(log[..|log| - 1], ts)
  {
  }

  /** The head of a chain is either the initial version or the last entry for that key. */
  lemma {:induction false} HeadOfChain(log: seq<Entry>, ts: nat, k: nat)
    requires LogOk(log, ts)
    ensures var h := ChainOf(log, k)[0].begin;
            (h == INITIAL_TS || exists i :: 0 <= i < |log| && log[i].WritesKey(k) && log[i].ts == h)
  {
    if log != [] {
      PrefixOk(log, ts);
      var rest := log[..|log| - 1];
      HeadOfChain(rest, ts, k);
      if !log[|log| - 1].WritesKey(k) {
        var h := ChainOf(rest, k)[0].begin;
        if h != INITIAL_TS {
          var i :| 0 <= i < |rest| && rest[i].WritesKey(k) && rest[i].ts == h;
          assert log[i] == rest[i];
        }
      }
    }
  }

  lemma HeadBelowNext(log: seq<Entry>, ts: nat, k: nat)
    requires LogOk(log, ts) && log != [] && log[|log| - 1].WritesKey(k)
    ensures ChainOf(log[..|log| - 1], k)[0].begin < log[|log| - 1].ts
  {
    PrefixOk(log, ts);
    var rest := log[..|log| - 1];
    HeadOfChain(rest, ts, k);
    var h := ChainOf(rest, k)[0].begin;
    if h != INITIAL_TS {
      var i :| 0 <= i < |rest| && rest[i].WritesKey(k) && rest[i].ts == h;
      assert log[i] == rest[i];
    }
  }

  lemma {:induction false} ChainOfIsOk(log: seq<Entry>, ts: nat, k: nat)
    requires LogOk(log, ts)
    ensures ChainOk(ChainOf(log, k))
  {
    if log != [] {
      PrefixOk(log, ts);
      ChainOfIsOk(log[..|log| - 1], ts, k);
      if log[|log| - 1].WritesKey(k) {
        HeadBelowNext(log, ts, k);
        PushKeepsChainOk(ChainOf(log[..|log| - 1], k), log[|log| - 1].ValueOf(k), log[|log| - 1].ts);
      }
    }
  }

  /** A reader at `ts` sees a freshly pushed version exactly when it began no later than `ts`. */
  lemma ScanAfterPush(vs: seq<Version>, v: Value, c: nat, ts: nat)
    requires |vs| >= 1 && vs[0].end == Infinity
    ensures ts >= c ==> Scan(Push(vs, v, c), ts) == Some(Version(v, c, Infinity))
    ensures ts < c && Scan(vs, ts).None? ==> Scan(Push(vs, v, c), ts).None?
    ensures ts < c && Scan(vs, ts).Some? ==>
              && Scan(Push(vs, v, c), ts).Some?
              && Scan(Push(vs, v, c), ts).value.value == Scan(vs, ts).value.value
              && Scan(Push(vs, v, c), ts).value.begin == Scan(vs, ts).value.begin
  {
    var r := Push(vs, v, c);
    assert r[1..][0] == vs[0].(end := At(c));
    assert r[1..][1..] == vs[1..];
  }

  /** Exactly one version of a well-formed chain covers any timestamp a transaction can start at. */
  lemma {:induction false} ExactlyOneCovers(vs: seq<Version>, ts: nat)
    requires ChainOk(vs) && ts >= INITIAL_TS
    ensures exists i :: 0 <= i < |vs| && vs[i].Covers(ts)
    ensures forall i, j :: 0 <= i < j < |vs| && vs[i].Covers(ts) ==> !vs[j].Covers(ts)
  {
    forall i, j | 0 <= i < j < |vs| && vs[i].Covers(ts)
      ensures !vs[j].Covers(ts)
    {
      assert vs[j].end == At(vs[j - 1].begin);
      assert vs[i].begin >= vs[j - 1].begin;
    }
    var n := |vs| - 1;
    while n > 0 && !vs[n].Covers(ts)
      invariant 0 <= n < |vs|
      invariant vs[n].begin <= ts
    {
      assert vs[n].end == At(vs[n - 1].begin);
      n := n - 1;
    }
  }

  lemma SnapshotWithInvisibleLast(log: seq<Entry>, k: nat, ts: nat, value: Value, at: nat)
    requires log != [] && IsSnapshot(log[..|log| - 1], k, ts, value, at)
    requires log[|log| - 1].WritesKey(k) ==> log[|log| - 1].ts > ts
    ensures IsSnapshot(log, k, ts, value, at)
  {
    assert log == log[..|log| - 1] + [log[|log| - 1]];
    LaterEntriesInvisible(log[..|log| - 1], [log[|log| - 1]], k, ts, value, at);
  }

  /** Scanning the chain of a log answers with the newest entry not above `ts`. */
  lemma {:induction false} ScanIsSnapshot(log: seq<Entry>, bound: nat, k: nat, ts: nat)
    requires LogOk(log, bound) && ts >= INITIAL_TS
    ensures var r := Scan(ChainOf(log, k), ts); r.Some? && IsSnapshot(log, k, ts, r.value.value, r.value.begin)
  {
    if log == [] {
    } else {
      PrefixOk(log, bound);
      var rest := log[..|log| - 1];
      var e := log[|log| - 1];
      ScanIsSnapshot(rest, bound, k, ts);
      var r := Scan(ChainOf(rest, k), ts).value;
      if e.WritesKey(k) {
        ScanAfterPush(ChainOf(rest, k), e.ValueOf(k), e.ts, ts);
      }
      if e.WritesKey(k) && e.ts <= ts {
        assert IsNewest(log, k, ts, |log| - 1);
      } else {
        SnapshotWithInvisibleLast(log, k, ts, r.value, r.begin);
      }
    }
  }

  /** The snapshot answer is unique. */
  lemma SnapshotIsUnique(log: seq<Entry>, bound: nat, k: nat, ts: nat, v1: Value, at1: nat, v2: Value, at2: nat)
    requires LogOk(log, bound)
    requires IsSnapshot(log, k, ts, v1, at1) && IsSnapshot(log, k, ts, v2, at2)
    ensures v1 == v2 && at1 == at2
  {
    if i :| 0 <= i < |log| && IsNewest(log, k, ts, i) && v1 == log[i].ValueOf(k) && at1 == log[i].ts {
      var j :| 0 <= j < |log| && IsNewest(log, k, ts, j) && v2 == log[j].ValueOf(k) && at2 == log[j].ts;
      assert i == j;
    }
  }

  /** Entries above `ts` do not affect what a reader at `ts` sees. */
  lemma LaterEntriesInvisible(log: seq<Entry>, more: seq<Entry>, k: nat, ts: nat, value: Value, at: nat)
    requires IsSnapshot(log, k, ts, value, at)
    requires forall i :: 0 <= i < |more| && more[i].WritesKey(k) ==> more[i].ts > ts
    ensures IsSnapshot(log + more, k, ts, value, at)
  {
    var all := log + more;
    assert forall i :: 0 <= i < |all| ==> all[i] == if i < |log| then log[i] else more[i - |log|];
    if i :| 0 <= i < |log| && IsNewest(log, k, ts, i) && value == log[i].ValueOf(k) && at == log[i].ts {
      assert IsNewest(all, k, ts, i);
    }
  }

  /** A longer log whose new entries are invisible at `ts` gives a reader at `ts` the same version. */
  lemma SameScan(log: seq<Entry>, bound: nat, log': seq<Entry>, bound': nat, k: nat, ts: nat)
    requires LogOk(log, bound) && LogOk(log', bound') && log <= log' && ts >= INITIAL_TS
    requires forall i :: |log| <= i < |log'| && log'[i].WritesKey(k) ==> log'[i].ts > ts
    ensures var r := Scan(ChainOf(log, k), ts); var q := Scan(ChainOf(log', k), ts);
            r.Some? && q.Some? && r.value.value == q.value.value && r.value.begin == q.value.begin
  {
    ScanIsSnapshot(log, bound, k, ts);
    ScanIsSnapshot(log', bound', k, ts);
    var r := Scan(ChainOf(log, k), ts).value;
    var q := Scan(ChainOf(log', k), ts).value;
    var more := log'[|log|..];
    assert log' == log + more;
    LaterEntriesInvisible(log, more, k, ts, r.value, r.begin);
    SnapshotIsUnique(log', bound', k, ts, r.value, r.begin, q.value, q.begin);
  }
}
