/** Whole runs of the transaction machine: how often one transaction can
    commit, and what the background sweeper can change. */
module TransactionRuns {
  import opened Values
  import opened FieldTransforms
  import opened Documents
  import opened Transactions

  // ----- Committing twice -----

  /** The id was handed out and no longer names an active transaction. */
  predicate Spent(s: State, id: TxnId) {
    id in s.issued && (id in s.txns ==> s.txns[id].status != Active)
  }

  lemma StepKeepsSpent(s: State, e: Event, id: TxnId)
    requires Spent(s, id)
    ensures Spent(Exec(s, e).state, id)
  {
    if e.ApplyCommit? && e.call in s.commits {
      var p := s.commits[e.call];
      FinishKeepsSpent(s, e.call, CommitBatch(s.docs, p.project, p.readSet, e.writes, s.clock), id);
    }
  }

  lemma FinishKeepsSpent(s: State, call: nat, batch: Result<Batch, CoreError>, id: TxnId)
    requires Spent(s, id) && call in s.commits
    ensures Spent(Finish(s, call, batch).state, id)
  {
  }

  lemma {:induction false} RunKeepsSpent(s: State, es: seq<Event>, i: nat, j: nat, id: TxnId)
    requires i <= j <= |es| && Spent(Run(s, es[..i]), id)
    ensures Spent(Run(s, es[..j]), id)
    decreases j
  {
    if i < j {
      RunKeepsSpent(s, es, i, j - 1, id);
      RunStep(s, es, j - 1);
      StepKeepsSpent(Run(s, es[..j - 1]), es[j - 1], id);
    }
  }

  lemma CommitSpends(s: State, call: nat, writes: seq<Write>)
    requires PendingInv(s) && CommitsAt(s, call, writes)
    ensures Spent(ExecApply(s, call, writes).state, s.commits[call].txn)
  {
    assert PendingOk(s, s.commits[call]);
  }

  lemma SpentNeverLoads(clock: int, es: seq<Event>, j: nat, id: TxnId)
    requires j < |es| && Spent(Run(Initial(clock), es[..j]), id) && es[j].LoadCommit? && es[j].id == id
    ensures ReplyAt(Initial(clock), es, j) == Loaded(Err(TransactionNotFound))
  {
  }

  /** Event `i` of the run is a commit that succeeds, of transaction `id`. */
  predicate CommitsIn(clock: int, es: seq<Event>, i: nat, id: TxnId) {
    && i < |es| && es[i].ApplyCommit?
    && CommitsAt(Run(Initial(clock), es[..i]), es[i].call, es[i].writes)
    && Run(Initial(clock), es[..i]).commits[es[i].call].txn == id
  }

  lemma SpentAfter(clock: int, es: seq<Event>, i: nat, j: nat, id: TxnId)
    requires i < j <= |es| && CommitsIn(clock, es, i, id)
    ensures Spent(Run(Initial(clock), es[..j]), id)
  {
    SpentRightAfter(clock, es, i, id);
    RunKeepsSpent(Initial(clock), es, i + 1, j, id);
  }

  lemma SpentRightAfter(clock: int, es: seq<Event>, i: nat, id: TxnId)
    requires CommitsIn(clock, es, i, id)
    ensures Spent(Run(Initial(clock), es[..i + 1]), id)
  {
    RunPending(clock, es[..i]);
    CommitSpends(Run(Initial(clock), es[..i]), es[i].call, es[i].writes);
    RunStep(Initial(clock), es, i);
  }

  lemma RunPending(clock: int, es: seq<Event>)
    ensures PendingInv(Run(Initial(clock), es))
  {
    RunKeepsInv(Initial(clock), es);
  }

  /** Once a transaction has committed, every later attempt to commit it is refused. */
  lemma CommittedNeverLoads(clock: int, es: seq<Event>, i: nat, j: nat, id: TxnId)
    requires i < j < |es| && CommitsIn(clock, es, i, id) && es[j].LoadCommit? && es[j].id == id
    ensures ReplyAt(Initial(clock), es, j) == Loaded(Err(TransactionNotFound))
  {
    SpentAfter(clock, es, i, j, id);
    SpentNeverLoads(clock, es, j, id);
  }

  predicate LoadsAt(clock: int, es: seq<Event>, l: nat, call: nat, id: TxnId) {
    l < |es| && es[l].LoadCommit? && es[l].call == call && es[l].id == id &&
      ReplyAt(Initial(clock), es, l) == Loaded(Ok(()))
  }

  lemma StepPending(s: State, e: Event, call: nat)
    requires call in Exec(s, e).state.commits
    ensures
      || (&& e.LoadCommit? && e.call == call && Exec(s, e).reply == Loaded(Ok(()))
          && Exec(s, e).state.commits[call].txn == e.id)
      || (call in s.commits && s.commits[call] == Exec(s, e).state.commits[call])
  {
  }

  /** A pending commit was loaded by some earlier event. */
  lemma {:induction false} PendingWasLoaded(clock: int, es: seq<Event>, n: nat, call: nat) returns (l: nat)
    requires n <= |es| && call in Run(Initial(clock), es[..n]).commits
    ensures l < n && LoadsAt(clock, es, l, call, Run(Initial(clock), es[..n]).commits[call].txn)
    decreases n
  {
    var s, e := Run(Initial(clock), es[..n - 1]), es[n - 1];
    RunStep(Initial(clock), es, n - 1);
    StepPending(s, e, call);
    if e.LoadCommit? && e.call == call && Exec(s, e).reply == Loaded(Ok(())) {
      l := n - 1;
    } else {
      l := PendingWasLoaded(clock, es, n - 1, call);
    }
  }

  /** Two successful commits of one transaction overlap: the second passed its
      status check before the first wrote anything. */
  lemma DoubleCommitOverlaps(clock: int, es: seq<Event>, i: nat, j: nat, id: TxnId) returns (l: nat)
    requires i < j && CommitsIn(clock, es, i, id) && CommitsIn(clock, es, j, id)
    ensures l < i && LoadsAt(clock, es, l, es[j].call, id)
  {
    l := PendingWasLoaded(clock, es, j, es[j].call);
    if i < l {
      CommittedNeverLoads(clock, es, i, l, id);
    }
  }

  /** Event `i` of the run rolls transaction `id` back, and says so. */
  predicate RollsBackIn(clock: int, es: seq<Event>, i: nat, id: TxnId) {
    i < |es| && es[i].RollBack? && es[i].id == id && ReplyAt(Initial(clock), es, i) == RollbackDone(Ok(()))
  }

  lemma SpentAfterRollback(clock: int, es: seq<Event>, i: nat, id: TxnId)
    requires RollsBackIn(clock, es, i, id)
    ensures Spent(Run(Initial(clock), es[..i + 1]), id)
  {
    RunKeepsInv(Initial(clock), es[..i]);
    RunStep(Initial(clock), es, i);
  }

  /** A rolled-back transaction commits only if the commit had passed its status
      check before the rollback. */
  lemma RolledBackCommitOverlaps(clock: int, es: seq<Event>, i: nat, j: nat, id: TxnId) returns (l: nat)
    requires i < j && RollsBackIn(clock, es, i, id) && CommitsIn(clock, es, j, id)
    ensures l < i && LoadsAt(clock, es, l, es[j].call, id)
  {
    l := PendingWasLoaded(clock, es, j, es[j].call);
    if i < l {
      SpentAfterRollback(clock, es, i, id);
      RunKeepsSpent(Initial(clock), es, i + 1, l, id);
      SpentNeverLoads(clock, es, l, id);
    }
  }

  const PROJECT: string := "p"
  const DOC: DocPath := DocPath(PROJECT, "c", "d")
  const TOUCH: seq<Write> := [Update(DOC, map[], None, None, [])]

  lemma TouchCommits(s: State, call: nat)
    requires call in s.commits && s.commits[call].readSet == map[]
    ensures CommitsAt(s, call, TOUCH)
  {
    BatchAccepts(s.docs, s.commits[call].project, map[], TOUCH, s.clock);
    TransformFreeApplies(s.docs, TOUCH, LockAll(s.docs, TOUCH), s.clock);
    assert Plain(TOUCH[0]);
  }

  lemma TouchTwice(s: State)
    requires s.commits == map[0 := Pending(0, PROJECT, map[], 0), 1 := Pending(0, PROJECT, map[], 0)]
    ensures CommitsAt(s, 0, TOUCH)
    ensures var n := ExecApply(s, 0, TOUCH).state; CommitsAt(n, 1, TOUCH) && n.commits[1].txn == 0
  {
    TouchCommits(s, 0);
    var n := ExecApply(s, 0, TOUCH).state;
    assert n.commits == map[1 := Pending(0, PROJECT, map[], 0)];
    TouchCommits(n, 1);
  }

  const OVERLAP: seq<Event> :=
    [Begin(0, PROJECT), LoadCommit(0, 0, PROJECT), LoadCommit(1, 0, PROJECT),
     ApplyCommit(0, TOUCH), ApplyCommit(1, TOUCH)]

  const UNDONE: seq<Event> :=
    [Begin(0, PROJECT), LoadCommit(0, 0, PROJECT), RollBack(0, PROJECT), ApplyCommit(0, TOUCH)]

  lemma BeginAndLoad(es: seq<Event>)
    requires |es| > 2 && es[0] == Begin(0, PROJECT) && es[1] == LoadCommit(0, 0, PROJECT)
    ensures Run(Initial(0), es[..2]) ==
      State(map[], map[0 := Txn(PROJECT, Active, 0, map[])], 0,
            map[], map[0 := Pending(0, PROJECT, map[], 0)], map[0 := PROJECT], [])
  {
    RunStep(Initial(0), es, 0);
    RunStep(Initial(0), es, 1);
    assert es[..0] == [];
  }

  /** Overlapping commits of one transaction can both succeed. */
  lemma OverlappingCommitsSucceed()
    ensures CommitsIn(0, OVERLAP, 3, 0) && CommitsIn(0, OVERLAP, 4, 0)
  {
    BothLoaded();
    TouchTwice(Run(Initial(0), OVERLAP[..3]));
    RunStep(Initial(0), OVERLAP, 3);
  }

  lemma BothLoaded()
    ensures Run(Initial(0), OVERLAP[..3]).commits ==
      map[0 := Pending(0, PROJECT, map[], 0), 1 := Pending(0, PROJECT, map[], 0)]
  {
    BeginAndLoad(OVERLAP);
    RunStep(Initial(0), OVERLAP, 2);
  }

  /** A commit can succeed although its transaction was rolled back, and the
      rollback acknowledged, between the commit's two halves. */
  lemma CommitAfterRollbackSucceeds()
    ensures ReplyAt(Initial(0), UNDONE, 2) == RollbackDone(Ok(())) && CommitsIn(0, UNDONE, 3, 0)
  {
    BeginAndLoad(UNDONE);
    RunStep(Initial(0), UNDONE, 2);
    TouchCommits(Run(Initial(0), UNDONE[..3]), 0);
  }

  // ----- Sweeping -----

  /** No later step can make use of this row. */
  predicate Dead(txn: Txn, clock: int) {
    txn.status != Active || Stored(clock) - txn.startedAt > WINDOW_SECONDS * NANOS
  }

  /** `a` is `b` with some dead transaction rows missing. */
  predicate SimilarTxns(a: Txns, b: Txns, clock: int) {
    && (forall id :: id in a ==> id in b && a[id] == b[id])
    && (forall id :: id in b && id !in a ==> Dead(b[id], clock))
  }

  predicate Similar(s: State, u: State) {
    s == u.(txns := s.txns) && SimilarTxns(s.txns, u.txns, u.clock)
  }

  lemma RecordSimilar(a: Txns, b: Txns, id: TxnId, path: DocPath, version: Option<int>, now: int)
    requires SimilarTxns(a, b, now)
    ensures RecordRead(a, id, path, version, now).result == RecordRead(b, id, path, version, now).result
    ensures SimilarTxns(RecordRead(a, id, path, version, now).txns, RecordRead(b, id, path, version, now).txns, now)
  {
  }

  lemma LoadSimilar(a: Txns, b: Txns, id: TxnId, project: string, now: int)
    requires SimilarTxns(a, b, now)
    ensures Load(a, id, project, now).result == Load(b, id, project, now).result
    ensures SimilarTxns(Load(a, id, project, now).txns, Load(b, id, project, now).txns, now)
  {
  }

  lemma RollbackSimilar(a: Txns, b: Txns, id: TxnId, project: string, now: int)
    requires SimilarTxns(a, b, now)
    ensures SimilarTxns(Rollback(a, id, project).txns, Rollback(b, id, project).txns, now)
  {
  }

  lemma SweepKeepsSimilar(s: State, u: State, ttl: int, retentionDays: int)
    requires Similar(s, u) && ttl >= WINDOW_SECONDS
    ensures Similar(Exec(s, Sweep(ttl, retentionDays)).state, u)
  {
  }

  lemma TickKeepsSimilar(s: State, u: State, nanos: nat)
    requires Similar(s, u)
    ensures Similar(Exec(s, Tick(nanos)).state, Exec(u, Tick(nanos)).state)
  {
    forall txn: Txn | Dead(txn, u.clock) ensures Dead(txn, u.clock + nanos) {
    }
  }

  lemma FinishKeepsSimilar(s: State, u: State, call: nat, batch: Result<Batch, CoreError>)
    requires Similar(s, u) && call in s.commits
    ensures Similar(Finish(s, call, batch).state, Finish(u, call, batch).state)
    ensures Finish(s, call, batch).reply == Finish(u, call, batch).reply
  {
  }

  lemma RecordKeepsSimilar(s: State, u: State, call: nat)
    requires Similar(s, u)
    ensures Similar(ExecRecord(s, call).state, ExecRecord(u, call).state)
    ensures ExecRecord(s, call).reply == ExecRecord(u, call).reply
  {
    if call in s.selects {
      var o := s.selects[call];
      RecordSimilar(s.txns, u.txns, o.txn, o.path, VersionOf(o.seen), s.clock);
    }
  }

  lemma LoadKeepsSimilar(s: State, u: State, call: nat, id: TxnId, project: string)
    requires Similar(s, u)
    ensures Similar(ExecLoad(s, call, id, project).state, ExecLoad(u, call, id, project).state)
    ensures ExecLoad(s, call, id, project).reply == ExecLoad(u, call, id, project).reply
  {
    LoadSimilar(s.txns, u.txns, id, project, s.clock);
  }

  lemma TxnStepKeepsSimilar(s: State, u: State, e: Event)
    requires Similar(s, u) && (e.Begin? || e.RollBack?)
    ensures Similar(Exec(s, e).state, Exec(u, e).state)
    ensures e.Begin? ==> Exec(s, e).reply == Exec(u, e).reply
  {
    if e.RollBack? {
      RollbackSimilar(s.txns, u.txns, e.id, e.project, s.clock);
    }
  }

  lemma StepKeepsSimilar(s: State, u: State, e: Event)
    requires Similar(s, u) && !e.Sweep?
    ensures Similar(Exec(s, e).state, Exec(u, e).state)
    ensures !e.RollBack? ==> Exec(s, e).reply == Exec(u, e).reply
  {
    if e.Tick? {
      TickKeepsSimilar(s, u, e.nanos);
    } else if e.Record? {
      RecordKeepsSimilar(s, u, e.call);
    } else if e.LoadCommit? {
      LoadKeepsSimilar(s, u, e.call, e.id, e.project);
    } else if e.ApplyCommit? {
      if e.call in s.commits {
        var p := s.commits[e.call];
        FinishKeepsSimilar(s, u, e.call, CommitBatch(s.docs, p.project, p.readSet, e.writes, s.clock));
      }
    } else if e.Begin? || e.RollBack? {
      TxnStepKeepsSimilar(s, u, e);
    }
  }

  function Unswept(es: seq<Event>): seq<Event> {
    if es == [] then []
    else Unswept(es[..|es| - 1]) + if es[|es| - 1].Sweep? then [] else [es[|es| - 1]]
  }

  /** The replies of a run, except those of sweeps and rollbacks. */
  function Visible(s: State, es: seq<Event>): seq<Reply> {
    if es == [] then []
    else
      var before, e := es[..|es| - 1], es[|es| - 1];
      Visible(s, before) + if e.Sweep? || e.RollBack? then [] else [Exec(Run(s, before), e).reply]
  }

  predicate SweepsAtLeast(es: seq<Event>, ttl: int) {
    forall i :: 0 <= i < |es| && es[i].Sweep? ==> es[i].ttl >= ttl
  }

  predicate Invisible(clock: int, es: seq<Event>) {
    && Run(Initial(clock), es).docs == Run(Initial(clock), Unswept(es)).docs
    && Visible(Initial(clock), es) == Visible(Initial(clock), Unswept(es))
  }

  lemma {:induction false} SweptRunSimilar(clock: int, es: seq<Event>)
    requires SweepsAtLeast(es, WINDOW_SECONDS)
    ensures Similar(Run(Initial(clock), es), Run(Initial(clock), Unswept(es)))
    ensures Visible(Initial(clock), es) == Visible(Initial(clock), Unswept(es))
  {
    if es != [] {
      var before, e := es[..|es| - 1], es[|es| - 1];
      SweptRunSimilar(clock, before);
      var s, u := Run(Initial(clock), before), Run(Initial(clock), Unswept(before));
      if e.Sweep? {
        SweepKeepsSimilar(s, u, e.ttl, e.retentionDays);
        assert Unswept(es) == Unswept(before);
      } else {
        StepKeepsSimilar(s, u, e);
        assert Unswept(es)[..|Unswept(es)| - 1] == Unswept(before);
      }
    }
  }

  const EARLY: seq<Event> := [Begin(0, PROJECT), Tick(WINDOW_SECONDS * NANOS)]

  function EarlySweep(ttl: int, retentionDays: int): seq<Event> {
    EARLY + [Sweep(ttl, retentionDays), LoadCommit(0, 0, PROJECT)]
  }

  lemma EarlySweepShows(ttl: int, retentionDays: int)
    requires ttl < WINDOW_SECONDS
    ensures !Invisible(0, EarlySweep(ttl, retentionDays))
  {
    var es := EarlySweep(ttl, retentionDays);
    RefusedAfterSweep(ttl, retentionDays);
    LoadedWithoutSweep(ttl, retentionDays);
    var swept, unswept := Visible(Initial(0), es), Visible(Initial(0), Unswept(es));
    assert swept[|swept| - 1] != unswept[|unswept| - 1];
  }

  lemma RefusedAfterSweep(ttl: int, retentionDays: int)
    requires ttl < WINDOW_SECONDS
    ensures var v := Visible(Initial(0), EarlySweep(ttl, retentionDays));
      v != [] && v[|v| - 1] == Loaded(Err(TransactionNotFound))
  {
    var es := EarlySweep(ttl, retentionDays);
    EarlyState();
    assert es[..3][..2] == EARLY && es == es[..3] + [LoadCommit(0, 0, PROJECT)];
    assert Run(Initial(0), es[..3]).txns == map[];
    LastReply(Initial(0), es[..3], LoadCommit(0, 0, PROJECT));
  }

  lemma EarlySweepUnswept(ttl: int, retentionDays: int)
    ensures Unswept(EarlySweep(ttl, retentionDays)) == EARLY + [LoadCommit(0, 0, PROJECT)]
  {
    var es := EarlySweep(ttl, retentionDays);
    EarlyUnswept();
    assert es[..3][..2] == EARLY && |es| == 4;
    calc {
      Unswept(es);
      Unswept(es[..3]) + [es[3]];
      (Unswept(es[..3][..2]) + []) + [es[3]];
      EARLY + [es[3]];
    }
  }

  lemma LoadedWithoutSweep(ttl: int, retentionDays: int)
    ensures var v := Visible(Initial(0), Unswept(EarlySweep(ttl, retentionDays)));
      v != [] && v[|v| - 1] == Loaded(Ok(()))
  {
    EarlySweepUnswept(ttl, retentionDays);
    LastReply(Initial(0), EARLY, LoadCommit(0, 0, PROJECT));
    EarlyState();
  }

  lemma LastReply(s: State, before: seq<Event>, e: Event)
    requires !e.Sweep? && !e.RollBack?
    ensures Visible(s, before + [e]) == Visible(s, before) + [Exec(Run(s, before), e).reply]
  {
    assert (before + [e])[..|before|] == before;
  }

  lemma EarlyUnswept()
    ensures Unswept(EARLY) == EARLY
  {
    assert EARLY[..1] == [Begin(0, PROJECT)] && EARLY[..1][..0] == [];
    calc {
      Unswept(EARLY);
      Unswept(EARLY[..1]) + [EARLY[1]];
      (Unswept([]) + [Begin(0, PROJECT)]) + [EARLY[1]];
    }
  }

  lemma EarlyState()
    ensures Run(Initial(0), EARLY) ==
      State(map[], map[0 := Txn(PROJECT, Active, 0, map[])], WINDOW_SECONDS * NANOS,
            map[], map[], map[0 := PROJECT], [])
  {
    assert EARLY[..2] == EARLY && EARLY[..0] == [];
    RunStep(Initial(0), EARLY, 0);
    RunStep(Initial(0), EARLY, 1);
  }

  /** Sweeps with at least a given time-to-live leave every document and every reply but
      rollbacks' as they would be without sweeps, over all runs, exactly when
      the time-to-live is at least the sixty seconds a transaction may be used. */
  lemma SweepsInvisibleIff(ttl: int)
    ensures ttl >= WINDOW_SECONDS <==>
      forall clock: int, es: seq<Event> :: SweepsAtLeast(es, ttl) ==> Invisible(clock, es)
  {
    if ttl >= WINDOW_SECONDS {
      forall clock: int, es: seq<Event> | SweepsAtLeast(es, ttl) ensures Invisible(clock, es) {
        SweptRunSimilar(clock, es);
      }
    } else {
      EarlySweepShows(ttl, 30);
      assert SweepsAtLeast(EarlySweep(ttl, 30), ttl);
    }
  }
}
