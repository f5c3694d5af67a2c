/** What holds in every run when critical sections of different threads interleave. */
module MvccInterleaved {
  import opened Options
  import opened MvccModel
  import opened MvccLog
  import opened MvccSections

  ghost predicate Reachable(c: Conf) {
    exists keys, transactions, maxWrites, moves :: c == Run(InitConf(keys, transactions, maxWrites), moves)
  }

  lemma ReachableInv(c: Conf)
    requires Reachable(c)
    ensures Inv(c)
  {
    var keys, transactions, maxWrites, moves :| c == Run(InitConf(keys, transactions, maxWrites), moves);
    InitInv(keys, transactions, maxWrites);
    RunKeepsInv(InitConf(keys, transactions, maxWrites), moves);
  }

  /** In every run every version list has strictly decreasing begin timestamps and intervals that
      meet exactly, so exactly one version covers any timestamp a transaction can start at. */
  lemma ChainsInEveryRun(c: Conf, k: nat, ts: nat)
    requires Reachable(c) && k < |c.s.cells| && ts >= INITIAL_TS
    ensures ChainOk(c.s.cells[k].versions)
    ensures exists i :: 0 <= i < |c.s.cells[k].versions| && c.s.cells[k].versions[i].Covers(ts)
    ensures forall i, j :: 0 <= i < j < |c.s.cells[k].versions| && c.s.cells[k].versions[i].Covers(ts) ==>
              !c.s.cells[k].versions[j].Covers(ts)
  {
    ReachableInv(c);
    ChainOfIsOk(c.log, c.s.ts, k);
    ExactlyOneCovers(c.s.cells[k].versions, ts);
  }

  /** A read answers with the newest installed commit not above the reader's start. */
  lemma ReadIsNewestInstalled(c: Conf, id: nat, k: nat)
    requires Reachable(c) && ReadsChain(c.s, id, k)
    ensures ReadTx(c.s, id, k).Some?
    ensures IsSnapshot(c.log, k, c.s.txs[id].start, ReadTx(c.s, id, k).value, SeenAt(c.s, id, k))
  {
    ReachableInv(c);
    assert ThreadOk(c, id);
    ScanIsSnapshot(c.log, c.s.ts, k, c.s.txs[id].start);
  }

  /** Some other thread drew a commit timestamp before `id` began, and has yet to install a write to `k`. */
  ghost predicate OlderCommitPending(c: Conf, id: nat, k: nat)
    requires ReadsChain(c.s, id, k)
  {
    exists x: nat :: PendingOlder(c, id, k, x)
  }

  ghost predicate PendingOlder(c: Conf, id: nat, k: nat, x: nat)
    requires ReadsChain(c.s, id, k)
  {
    HasThread(c, x) && c.pcs[x].Installing? && c.pcs[x].ts < c.s.txs[id].start && Writes(c.s.txs[x].writes, k)
  }

  /** Both configurations belong to one incarnation of the reader. */
  ghost predicate SameReader(c: Conf, d: Conf, id: nat, k: nat) {
    ReadsChain(c.s, id, k) && ReadsChain(d.s, id, k) && c.s.txs[id].start == d.s.txs[id].start
  }

  /** Between `c` and a later `d`: the log only grew; every new entry, and every pending commit,
      was either already pending in `c` or drew its timestamp since. */
  ghost predicate Later(c: Conf, d: Conf) {
    && |d.s.txs| == |c.s.txs| == |c.pcs| == |d.pcs|
    && |d.s.cells| == |c.s.cells|
    && c.s.ts <= d.s.ts
    && c.log <= d.log
    && (forall i :: |c.log| <= i < |d.log| ==> FromPending(c, d.log[i].id, d.log[i].ts, d.log[i].writes))
    && (forall x: nat :: x < |d.pcs| && d.pcs[x].Installing? ==> FromPending(c, x, d.pcs[x].ts, d.s.txs[x].writes))
  }

  ghost predicate FromPending(c: Conf, x: nat, ts: nat, writes: seq<Write>) {
    ts >= c.s.ts || (HasThread(c, x) && c.pcs[x] == Installing(ts) && c.s.txs[x].writes == writes)
  }

  lemma NextIsLater(c: Conf, d: Conf, m: Move)
    requires Inv(d) && Later(c, d)
    ensures Later(c, Next(d, m))
  {
    var e := Next(d, m);
    forall x: nat | x < |e.pcs| && e.pcs[x].Installing?
      ensures FromPending(c, x, e.pcs[x].ts, e.s.txs[x].writes)
    {
      assert d.pcs[x].Installing? ==> FromPending(c, x, d.pcs[x].ts, d.s.txs[x].writes);
    }
    forall i | |c.log| <= i < |e.log|
      ensures FromPending(c, e.log[i].id, e.log[i].ts, e.log[i].writes)
    {
      if i < |d.log| { assert e.log[i] == d.log[i]; }
    }
  }

  lemma {:induction false} RunIsLater(c: Conf, moves: seq<Move>)
    requires Inv(c)
    ensures Later(c, Run(c, moves)) && Inv(Run(c, moves))
  {
    RunKeepsInv(c, moves);
    if moves != [] {
      var front := moves[..|moves| - 1];
      RunIsLater(c, front);
      NextIsLater(c, Run(c, front), moves[|moves| - 1]);
    }
  }

  lemma StableWithoutPending(c: Conf, d: Conf, id: nat, k: nat)
    requires Inv(c) && Inv(d) && Later(c, d) && SameReader(c, d, id, k)
    requires !OlderCommitPending(c, id, k)
    ensures ReadTx(d.s, id, k) == ReadTx(c.s, id, k)
    ensures SeenAt(d.s, id, k) == SeenAt(c.s, id, k)
  {
    assert ThreadOk(c, id);
    forall i | |c.log| <= i < |d.log| && d.log[i].WritesKey(k)
      ensures d.log[i].ts > c.s.txs[id].start
    {
      var e := d.log[i];
      assert FromPending(c, e.id, e.ts, e.writes);
      assert e.ts < c.s.ts ==> !PendingOlder(c, id, k, e.id);
    }
    SameScan(c.log, c.s.ts, d.log, d.s.ts, k, c.s.txs[id].start);
  }

  /** Installing an older pending commit shows its value to the reader at once. */
  lemma PendingInstallIsSeen(c: Conf, id: nat, k: nat, x: nat)
    requires Inv(c) && ReadsChain(c.s, id, k) && PendingOlder(c, id, k, x)
    ensures var d := Next(c, Install(x));
            && SameReader(c, d, id, k)
            && SeenAt(d.s, id, k) == c.pcs[x].ts
            && SeenAt(d.s, id, k) != SeenAt(c.s, id, k)
            && ReadTx(d.s, id, k) == Some(c.s.txs[x].writes[FindWrite(c.s.txs[x].writes, k)].value)
  {
    assert ThreadOk(c, x) && ThreadOk(c, id);
    var d := Next(c, Install(x));
    InstallKeepsChains(c, x, k);
    assert d.log[..|d.log| - 1] == c.log;
    var e := d.log[|d.log| - 1];
    ScanAfterPush(ChainOf(c.log, k), e.ValueOf(k), e.ts, c.s.txs[id].start);
    InstallKeepsLog(c, x);
    SeenBefore(c.log, d.log, c.s.ts, k, c.s.txs[id].start);
  }

  /** What a reader sees is older than a write appended later. */
  lemma SeenBefore(log: seq<Entry>, longer: seq<Entry>, ts: nat, k: nat, start: nat)
    requires LogOk(log, ts) && LogOk(longer, ts) && |longer| == |log| + 1 && longer[..|log|] == log
    requires longer[|log|].WritesKey(k) && start >= INITIAL_TS
    ensures Scan(ChainOf(log, k), start).Some? && Scan(ChainOf(log, k), start).value.begin < longer[|log|].ts
  {
    ScanIsSnapshot(log, ts, k, start);
    var r := Scan(ChainOf(log, k), start).value;
    assert forall i :: 0 <= i < |log| ==> longer[i] == log[i];
    if i :| 0 <= i < |log| && IsNewest(log, k, start, i) && r.begin == log[i].ts {
      assert longer[i].WritesKey(k);
    }
  }

  /** If the reader lives through `moves`, it reads the same version and value afterwards. */
  ghost predicate StableUnder(c: Conf, moves: seq<Move>, id: nat, k: nat)
    requires ReadsChain(c.s, id, k)
  {
    var d := Run(c, moves);
    SameReader(c, d, id, k) ==> SeenAt(d.s, id, k) == SeenAt(c.s, id, k) && ReadTx(d.s, id, k) == ReadTx(c.s, id, k)
  }

  /** Reads of `k` are repeatable for the rest of the reader's life exactly when no commit that drew
      its timestamp before the reader began is still waiting to install a write to `k`. */
  lemma RepeatableExactlyWhenNonePending(c: Conf, id: nat, k: nat)
    requires Reachable(c) && ReadsChain(c.s, id, k)
    ensures (forall moves :: StableUnder(c, moves, id, k)) <==> !OlderCommitPending(c, id, k)
  {
    ReachableInv(c);
    if !OlderCommitPending(c, id, k) {
      forall moves
        ensures StableUnder(c, moves, id, k)
      {
        RunIsLater(c, moves);
        if SameReader(c, Run(c, moves), id, k) {
          StableWithoutPending(c, Run(c, moves), id, k);
        }
      }
    } else {
      var x: nat :| PendingOlder(c, id, k, x);
      PendingInstallIsSeen(c, id, k, x);
      var moves := [Install(x)];
      assert moves[..0] == [];
      assert Run(c, moves) == Next(c, Install(x));
      assert !StableUnder(c, moves, id, k);
    }
  }

  /** The schedule of the anomaly: transaction 1 draws its commit timestamp, transaction 0 begins
      and reads, transaction 1 installs, transaction 0 reads again. */
  ghost function AnomalyBefore(): Conf {
    Next(Next(Next(Next(Next(InitConf(1, 2, 1), Begin(1)), Acquire(1, 0, "x")), Buffer(1)), Draw(1)), Begin(0))
  }

  lemma AnomalyReachesPending()
    ensures var c := AnomalyBefore();
            c == Conf(State([Cell(InitialChain(), Some(1))], [Tx(Active, 3, []), Tx(Active, 1, [Write(0, "x")])], {}, 4, 1),
                      [Idle, Installing(2)], [])
  {
    var c0 := InitConf(1, 2, 1);
    var idle := Tx(Unused, 0, []);
    assert c0 == Conf(State([Cell(InitialChain(), None)], [idle, idle], {}, 1, 1), [Idle, Idle], []);
    var c1 := Next(c0, Begin(1));
    assert c1 == Conf(State([Cell(InitialChain(), None)], [idle, Tx(Active, 1, [])], {}, 2, 1), [Idle, Idle], []);
    var c2 := Next(c1, Acquire(1, 0, "x"));
    assert c2 == Conf(State([Cell(InitialChain(), Some(1))], [idle, Tx(Active, 1, [])], {}, 2, 1), [Idle, Buffering(0, "x")], []);
    var c3 := Next(c2, Buffer(1));
    assert [] + [Write(0, "x")] == [Write(0, "x")];
    assert c3.s.txs == [idle, Tx(Active, 1, [Write(0, "x")])];
    assert c3.pcs == [Idle, Idle];
    assert c3 == Conf(State([Cell(InitialChain(), Some(1))], [idle, Tx(Active, 1, [Write(0, "x")])], {}, 2, 1), [Idle, Idle], []);
    assert Next(c3, Draw(1)) == Conf(c3.s.(ts := 3), [Idle, Installing(2)], []);
  }

  lemma RepeatableReadFails()
    ensures var c := AnomalyBefore(); var d := Next(c, Install(1));
            && SameReader(c, d, 0, 0)
            && ReadTx(c.s, 0, 0) == Some("-")
            && ReadTx(d.s, 0, 0) == Some("x")
  {
    AnomalyReachesPending();
    var c := AnomalyBefore();
    var d := Next(c, Install(1));
    var w := [Write(0, "x")];
    assert FindWrite(w, 0) == 0;
    assert Push(InitialChain(), "x", 2)[0] == Version("x", 2, Infinity);
    assert w[..0] == [];
    assert InstallAll(c.s.cells, w, 2) == InstallOne(c.s.cells, w[0], 2);
    assert d.s.cells[0].versions == Push(InitialChain(), "x", 2);
  }
}
