/** Optimistic transactions over the documents table, as a state machine: each
    event is one statement or one database transaction of some call, so calls
    interleave freely between their events. */
module Transactions {
  import opened Values
  import opened FieldTransforms
  import opened Documents

  datatype Status = Active | Committed | Expired | RolledBack

  datatype Txn = Txn(project: string, status: Status, startedAt: int, readSet: ReadSet)

  /** Transaction ids are UUIDs; only their distinctness matters. */
  type TxnId = nat

  type Txns = map<TxnId, Txn>

  /** A transaction may be used for sixty seconds. */
  const WINDOW_SECONDS: int := 60

  datatype Change<T> = Change(txns: Txns, result: Result<T, CoreError>)

  // ----- The transactions table -----

  function Began(txns: Txns, id: TxnId, project: string, now: int): Txns {
    txns[id := Txn(project, Active, Stored(now), map[])]
  }

  function VersionOf(seen: Option<Row>): Option<int> {
    if seen.Some? then Some(seen.value.version) else None
  }

  function RecordRead(txns: Txns, id: TxnId, path: DocPath, version: Option<int>, now: int): Change<()> {
    if && id in txns && txns[id].project == path.project && txns[id].status == Active
       && Stored(now) - txns[id].startedAt < WINDOW_SECONDS * NANOS
    then Change(txns[id := txns[id].(readSet := txns[id].readSet[ReadKey(path) := version])], Ok(()))
    else Change(txns, Err(TransactionNotFound))
  }

  /** The first half of a commit: the transaction must be active and young. */
  function Load(txns: Txns, id: TxnId, project: string, now: int): Change<ReadSet> {
    if id !in txns || txns[id].project != project || txns[id].status != Active then
      Change(txns, Err(TransactionNotFound))
    else if now - txns[id].startedAt > WINDOW_SECONDS * NANOS then
      Change(txns[id := txns[id].(status := Expired)], Err(TransactionNotFound))
    else Change(txns, Ok(txns[id].readSet))
  }

  function MarkCommitted(txns: Txns, id: TxnId): Txns {
    if id in txns then txns[id := txns[id].(status := Committed)] else txns
  }

  function Rollback(txns: Txns, id: TxnId, project: string): Change<()> {
    if id in txns && txns[id].project == project && txns[id].status == Active then
      Change(txns[id := txns[id].(status := RolledBack)], Ok(()))
    else Change(txns, Err(TransactionNotFound))
  }

  predicate Reclaimable(txn: Txn, ttl: int, now: int) {
    Stored(now) - txn.startedAt > ttl * NANOS && txn.status == Active
  }

  const DAY_SECONDS: int := 86_400

  predicate Purgeable(txn: Txn, retentionDays: int, now: int) {
    txn.status != Active && Stored(now) - txn.startedAt > retentionDays * DAY_SECONDS * NANOS
  }

  /** The sweeper deletes abandoned active rows and old finished ones. */
  function Swept(txns: Txns, ttl: int, retentionDays: int, now: int): Txns {
    map id | id in txns && !Reclaimable(txns[id], ttl, now) && !Purgeable(txns[id], retentionDays, now) :: txns[id]
  }

  /** How long a row has been there, in nanoseconds of the sweeper's clock. */
  function Age(txn: Txn, now: int): int {
    Stored(now) - txn.startedAt
  }

  /** A sweep keeps exactly the active rows no older than the time-to-live and the
      finished ones no older than the retention days, and changes none of them. */
  lemma SweepKeepsIff(txns: Txns, ttl: int, retentionDays: int, now: int, id: TxnId)
    ensures id in Swept(txns, ttl, retentionDays, now) <==>
      && id in txns
      && (txns[id].status == Active ==> Age(txns[id], now) <= ttl * 1_000_000_000)
      && (txns[id].status != Active ==> Age(txns[id], now) <= retentionDays * 24 * 60 * 60 * 1_000_000_000)
    ensures id in Swept(txns, ttl, retentionDays, now) ==> Swept(txns, ttl, retentionDays, now)[id] == txns[id]
  {
  }

  // ----- Events -----

  /** A document as a transactional read saw it. */
  datatype Observation = Observation(txn: TxnId, path: DocPath, seen: Option<Row>)

  /** A commit past its status check: the read set it loaded, and how much of the log that covers. */
  datatype Pending = Pending(txn: TxnId, project: string, readSet: ReadSet, upto: nat)

  /** `selects` and `commits` hold the calls between two of their events. `issued`
      and `log` are history: the ids handed out and the reads answered. */
  datatype State = State(
    docs: Table,
    txns: Txns,
    clock: int,
    selects: map<nat, Observation>,
    commits: map<nat, Pending>,
    issued: map<TxnId, string>,
    log: seq<Observation>)

  function Initial(clock: int): State {
    State(map[], map[], clock, map[], map[], map[], [])
  }

  datatype Event =
    | Tick(nanos: nat)
    | CreateDocument(path: DocPath, fields: Fields)
    | UpdateOne(path: DocPath, fields: Fields, precondition: Option<Precondition>)
    | DeleteOne(path: DocPath)
    | Begin(id: TxnId, project: string)
    | Select(call: nat, id: TxnId, path: DocPath)
    | Record(call: nat)
    | LoadCommit(call: nat, id: TxnId, project: string)
    | ApplyCommit(call: nat, writes: seq<Write>)
    | RollBack(id: TxnId, project: string)
    | Sweep(ttl: int, retentionDays: int)

  datatype Reply =
    | Silent
    | Wrote(write: Result<WriteResult, CoreError>)
    | Deleted(delete: Result<(), CoreError>)
    | Started(id: TxnId)
    | Answered(read_: Result<Option<Row>, CoreError>)
    | Loaded(load: Result<(), CoreError>)
    | CommitDone(commit: Result<seq<WriteResult>, CoreError>)
    | RollbackDone(rollback: Result<(), CoreError>)

  datatype Next = Next(state: State, reply: Reply)

  function Exec(s: State, e: Event): Next {
    match e
    case Tick(nanos) => Next(s.(clock := s.clock + nanos), Silent)
    case CreateDocument(path, fields) =>
      var o := Create(s.docs, path, fields, s.clock);
      Next(s.(docs := o.table), Wrote(o.result))
    case UpdateOne(path, fields, pre) =>
      var o := UpdateDocument(s.docs, path, fields, pre, s.clock);
      Next(s.(docs := o.table), Wrote(o.result))
    case DeleteOne(path) =>
      var o := DeleteDocument(s.docs, path, None, s.clock);
      Next(s.(docs := o.table), Deleted(o.result))
    case Begin(id, project) =>
      // Ids are never handed out twice.
      if id in s.issued then Next(s, Silent)
      else Next(s.(txns := Began(s.txns, id, project, s.clock), issued := s.issued[id := project]), Started(id))
    case Select(call, id, path) =>
      Next(s.(selects := s.selects[call := Observation(id, path, Read(s.docs, path))]), Silent)
    case Record(call) => ExecRecord(s, call)
    case LoadCommit(call, id, project) => ExecLoad(s, call, id, project)
    case ApplyCommit(call, writes) => ExecApply(s, call, writes)
    case RollBack(id, project) =>
      var c := Rollback(s.txns, id, project);
      Next(s.(txns := c.txns), RollbackDone(c.result))
    case Sweep(ttl, retentionDays) =>
      Next(s.(txns := Swept(s.txns, ttl, retentionDays, s.clock)), Silent)
  }

  function ExecRecord(s: State, call: nat): Next {
    if call !in s.selects then Next(s, Silent)
    else
      var o := s.selects[call];
      var c := RecordRead(s.txns, o.txn, o.path, VersionOf(o.seen), s.clock);
      var t := s.(selects := s.selects - {call}, txns := c.txns);
      match c.result
      case Ok(_) => Next(t.(log := s.log + [o]), Answered(Ok(o.seen)))
      case Err(e) => Next(t, Answered(Err(e)))
  }

  function ExecLoad(s: State, call: nat, id: TxnId, project: string): Next {
    var c := Load(s.txns, id, project, s.clock);
    match c.result
    case Ok(readSet) =>
      Next(s.(txns := c.txns, commits := s.commits[call := Pending(id, project, readSet, |s.log|)]), Loaded(Ok(())))
    case Err(e) => Next(s.(txns := c.txns), Loaded(Err(e)))
  }

  function ExecApply(s: State, call: nat, writes: seq<Write>): Next {
    if call !in s.commits then Next(s, Silent)
    else
      var p := s.commits[call];
      Finish(s, call, CommitBatch(s.docs, p.project, p.readSet, writes, s.clock))
  }

  /** The end of a commit whose batch came out as `batch`. */
  function Finish(s: State, call: nat, batch: Result<Batch, CoreError>): Next
    requires call in s.commits
  {
    var t := s.(commits := s.commits - {call});
    match batch
    case Err(e) => Next(t, CommitDone(Err(e)))
    case Ok(b) => Next(t.(docs := b.table, txns := MarkCommitted(s.txns, s.commits[call].txn)),
      CommitDone(Ok(b.results)))
  }

  function Run(s: State, es: seq<Event>): State {
    if es == [] then s else Exec(Run(s, es[..|es| - 1]), es[|es| - 1]).state
  }

  /** The reply to event `i` of a run. */
  function ReplyAt(s: State, es: seq<Event>, i: nat): Reply
    requires i < |es|
  {
    Exec(Run(s, es[..i]), es[i]).reply
  }

  lemma RunStep(s: State, es: seq<Event>, i: nat)
    requires i < |es|
    ensures Run(s, es[..i + 1]) == Exec(Run(s, es[..i]), es[i]).state
  {
    assert es[..i + 1][..i] == es[..i];
  }

  // ----- Rows only move forward -----

  /** Every row of `t` is still in `u`, either untouched or with a higher version. */
  predicate Evolves(t: Table, u: Table) {
    forall path :: path in t ==>
      && path in u && u[path].createTime == t[path].createTime
      && (u[path] == t[path] || u[path].version > t[path].version)
  }

  lemma {:induction false} WritesEvolve(t: Table, ws: seq<Write>, locks: seq<Option<Fields>>, now: int)
    requires |locks| == |ws| && ApplyWrites(t, ws, locks, now).Ok?
    ensures Evolves(t, ApplyWrites(t, ws, locks, now).value.table)
    decreases |ws|
  {
    if ws != [] {
      var first := ApplyWrite(t, ws[0], locks[0], now).value.table;
      WritesEvolve(first, ws[1..], locks[1..], now);
      EvolvesTransitive(t, first, ApplyWrites(t, ws, locks, now).value.table);
    }
  }

  lemma EvolvesTransitive(t: Table, u: Table, v: Table)
    requires Evolves(t, u) && Evolves(u, v)
    ensures Evolves(t, v)
  {
  }

  lemma BatchEvolves(t: Table, project: string, readSet: ReadSet, ws: seq<Write>, now: int)
    requires CommitBatch(t, project, readSet, ws, now).Ok?
    ensures Evolves(t, CommitBatch(t, project, readSet, ws, now).value.table)
  {
    WritesEvolve(t, ws, LockAll(t, ws), now);
  }

  lemma CreateEvolves(t: Table, path: DocPath, fields: Fields, now: int)
    ensures Evolves(t, Create(t, path, fields, now).table)
  {
  }

  lemma UpdateEvolves(t: Table, path: DocPath, fields: Fields, pre: Option<Precondition>, now: int)
    ensures Evolves(t, UpdateDocument(t, path, fields, pre, now).table)
  {
  }

  lemma DeleteEvolves(t: Table, path: DocPath, pre: Option<Precondition>, now: int)
    ensures Evolves(t, DeleteDocument(t, path, pre, now).table)
  {
  }

  predicate Refused(reply: Reply) {
    || (reply.Wrote? && reply.write.Err?) || (reply.Deleted? && reply.delete.Err?)
    || (reply.CommitDone? && reply.commit.Err?)
  }

  /** A step moves rows forward only, and one that answers with an error moves none. */
  lemma StepEvolves(s: State, e: Event)
    ensures Evolves(s.docs, Exec(s, e).state.docs)
    ensures Refused(Exec(s, e).reply) ==> Exec(s, e).state.docs == s.docs
  {
    if e.ApplyCommit? {
      if e.call in s.commits {
        var p := s.commits[e.call];
        if CommitBatch(s.docs, p.project, p.readSet, e.writes, s.clock).Ok? {
          BatchEvolves(s.docs, p.project, p.readSet, e.writes, s.clock);
        }
      }
    } else if e.CreateDocument? {
      CreateEvolves(s.docs, e.path, e.fields, s.clock);
    } else if e.UpdateOne? {
      UpdateEvolves(s.docs, e.path, e.fields, e.precondition, s.clock);
    } else if e.DeleteOne? {
      DeleteEvolves(s.docs, e.path, None, s.clock);
    }
  }

  lemma {:induction false} ChainEvolves(tables: seq<Table>, i: nat, j: nat)
    requires i <= j < |tables| && forall k :: 0 <= k < |tables| - 1 ==> Evolves(tables[k], tables[k + 1])
    ensures Evolves(tables[i], tables[j])
    decreases j
  {
    if i < j {
      ChainEvolves(tables, i, j - 1);
      assert Evolves(tables[j - 1], tables[j - 1 + 1]);
      EvolvesTransitive(tables[i], tables[j - 1], tables[j]);
    }
  }

  lemma EventEvolves(s: State, es: seq<Event>, k: nat)
    requires k < |es|
    ensures Evolves(Run(s, es[..k]).docs, Run(s, es[..k + 1]).docs)
  {
    RunStep(s, es, k);
    StepEvolves(Run(s, es[..k]), es[k]);
  }

  lemma RunEvolves(s: State, es: seq<Event>, i: nat, j: nat)
    requires i <= j <= |es|
    ensures Evolves(Run(s, es[..i]).docs, Run(s, es[..j]).docs)
  {
    var tables := seq(|es| + 1, k requires 0 <= k <= |es| => Run(s, es[..k]).docs);
    forall k | 0 <= k < |es| ensures Evolves(tables[k], tables[k + 1]) {
      EventEvolves(s, es, k);
    }
    ChainEvolves(tables, i, j);
  }

  /** Over every run a row is never lost and each change raises its version, so
      two moments that show one version of a document show the same row. */
  lemma VersionsIdentifyRows(s: State, es: seq<Event>, i: nat, j: nat, path: DocPath)
    requires i <= j <= |es| && path in Run(s, es[..i]).docs
    ensures path in Run(s, es[..j]).docs
    ensures var before, after := Run(s, es[..i]).docs[path], Run(s, es[..j]).docs[path];
      && before.version <= after.version && (before.version == after.version ==> before == after)
      && before.createTime == after.createTime
  {
    RunEvolves(s, es, i, j);
  }

  lemma {:induction false} WritesKeepAligned(t: Table, ws: seq<Write>, locks: seq<Option<Fields>>, now: int)
    requires |locks| == |ws| && ApplyWrites(t, ws, locks, now).Ok? && Aligned(t)
    ensures Aligned(ApplyWrites(t, ws, locks, now).value.table)
    decreases |ws|
  {
    if ws != [] {
      WritesKeepAligned(ApplyWrite(t, ws[0], locks[0], now).value.table, ws[1..], locks[1..], now);
    }
  }

  lemma StepKeepsAligned(s: State, e: Event)
    requires Aligned(s.docs)
    ensures Aligned(Exec(s, e).state.docs)
  {
    if e.ApplyCommit? && e.call in s.commits {
      var p := s.commits[e.call];
      if CommitBatch(s.docs, p.project, p.readSet, e.writes, s.clock).Ok? {
        WritesKeepAligned(s.docs, e.writes, LockAll(s.docs, e.writes), s.clock);
      }
    }
  }

  /** In every run the stored update times are whole microseconds. */
  lemma {:induction false} RunAligned(clock: int, es: seq<Event>)
    ensures Aligned(Run(Initial(clock), es).docs)
  {
    if es != [] {
      RunAligned(clock, es[..|es| - 1]);
      StepKeepsAligned(Run(Initial(clock), es[..|es| - 1]), es[|es| - 1]);
    }
  }

  // ----- What a run keeps -----

  /** The row seen is the current one or an older version of it. */
  predicate StillExplains(t: Table, o: Observation) {
    o.seen.Some? ==>
      && !o.seen.value.deleted && o.path in t
      && (t[o.path] == o.seen.value || t[o.path].version > o.seen.value.version)
  }

  /** The read set that the observations of `id` leave behind. */
  function ReadsOf(log: seq<Observation>, id: TxnId): ReadSet {
    if log == [] then map[]
    else
      var last, before := log[|log| - 1], ReadsOf(log[..|log| - 1], id);
      if last.txn == id then before[ReadKey(last.path) := VersionOf(last.seen)] else before
  }

  predicate SeenInv(s: State) {
    && (forall k :: 0 <= k < |s.log| ==> StillExplains(s.docs, s.log[k]))
    && (forall call :: call in s.selects ==> StillExplains(s.docs, s.selects[call]))
  }

  predicate LogInv(s: State) {
    forall k :: 0 <= k < |s.log| ==> s.log[k].txn in s.issued && s.issued[s.log[k].txn] == s.log[k].path.project
  }

  predicate TxnInv(s: State) {
    forall id :: id in s.txns ==>
      id in s.issued && s.issued[id] == s.txns[id].project && s.txns[id].readSet == ReadsOf(s.log, id)
  }

  predicate PendingInv(s: State) {
    forall call :: call in s.commits ==> PendingOk(s, s.commits[call])
  }

  predicate PendingOk(s: State, p: Pending) {
    && p.txn in s.issued && s.issued[p.txn] == p.project
    && p.upto <= |s.log| && p.readSet == ReadsOf(s.log[..p.upto], p.txn)
  }

  predicate Inv(s: State) {
    SeenInv(s) && LogInv(s) && TxnInv(s) && PendingInv(s)
  }

  lemma EvolutionKeepsSeen(s: State, n: State)
    requires SeenInv(s) && Evolves(s.docs, n.docs) && n.log == s.log && n.selects == s.selects
    ensures SeenInv(n)
  {
    forall o: Observation | StillExplains(s.docs, o) ensures StillExplains(n.docs, o) {
    }
  }

  lemma ReadingKeepsSeen(s: State, e: Event)
    requires SeenInv(s) && (e.Record? || e.Select?)
    ensures SeenInv(Exec(s, e).state)
  {
    var n := Exec(s, e).state;
    assert n.docs == s.docs;
    forall k | 0 <= k < |n.log| ensures StillExplains(n.docs, n.log[k]) {
      if k == |s.log| {
        assert StillExplains(s.docs, s.selects[e.call]);
      }
    }
  }

  lemma StepKeepsSeen(s: State, e: Event)
    requires SeenInv(s)
    ensures SeenInv(Exec(s, e).state)
  {
    if e.Record? || e.Select? {
      ReadingKeepsSeen(s, e);
    } else {
      StepEvolves(s, e);
      EvolutionKeepsSeen(s, Exec(s, e).state);
    }
  }

  lemma {:induction false} NoReads(log: seq<Observation>, id: TxnId)
    requires forall k :: 0 <= k < |log| ==> log[k].txn != id
    ensures ReadsOf(log, id) == map[]
  {
    if log != [] {
      NoReads(log[..|log| - 1], id);
    }
  }

  lemma ReadsOfPush(log: seq<Observation>, o: Observation, id: TxnId)
    ensures ReadsOf(log + [o], id) ==
      if o.txn == id then ReadsOf(log, id)[ReadKey(o.path) := VersionOf(o.seen)] else ReadsOf(log, id)
  {
    assert (log + [o])[..|log|] == log;
  }

  lemma RecordKeepsInv(s: State, call: nat)
    requires LogInv(s) && TxnInv(s) && PendingInv(s)
    ensures var n := ExecRecord(s, call).state; LogInv(n) && TxnInv(n) && PendingInv(n)
  {
    if call in s.selects {
      var o, n := s.selects[call], ExecRecord(s, call).state;
      if n.log != s.log {
        forall id | id in n.txns ensures n.txns[id].readSet == ReadsOf(n.log, id) {
          ReadsOfPush(s.log, o, id);
        }
        forall c | c in n.commits ensures PendingOk(n, n.commits[c]) {
          assert PendingOk(s, s.commits[c]);
          assert n.log[..s.commits[c].upto] == s.log[..s.commits[c].upto];
        }
      }
    }
  }

  lemma LoadKeepsInv(s: State, call: nat, id: TxnId, project: string)
    requires LogInv(s) && TxnInv(s) && PendingInv(s)
    ensures var n := ExecLoad(s, call, id, project).state; LogInv(n) && TxnInv(n) && PendingInv(n)
  {
    var n := ExecLoad(s, call, id, project).state;
    assert s.log[..|s.log|] == s.log;
    forall c | c in n.commits ensures PendingOk(n, n.commits[c]) {
      assert c in s.commits ==> PendingOk(s, s.commits[c]);
    }
  }

  /** A step that leaves the history alone and changes at most the status of transactions. */
  lemma StatusKeepsInv(s: State, n: State)
    requires LogInv(s) && TxnInv(s) && PendingInv(s)
    requires n.log == s.log && n.issued == s.issued
    requires forall call :: call in n.commits ==> call in s.commits && n.commits[call] == s.commits[call]
    requires forall id :: id in n.txns ==>
      id in s.txns && n.txns[id].project == s.txns[id].project && n.txns[id].readSet == s.txns[id].readSet
    ensures LogInv(n) && TxnInv(n) && PendingInv(n)
  {
    forall call | call in n.commits ensures PendingOk(n, n.commits[call]) {
      assert PendingOk(s, s.commits[call]);
    }
  }

  lemma FinishKeepsInv(s: State, call: nat, batch: Result<Batch, CoreError>)
    requires LogInv(s) && TxnInv(s) && PendingInv(s) && call in s.commits
    ensures var n := Finish(s, call, batch).state; LogInv(n) && TxnInv(n) && PendingInv(n)
  {
    StatusKeepsInv(s, Finish(s, call, batch).state);
  }

  lemma BeginKeepsInv(s: State, id: TxnId, project: string)
    requires LogInv(s) && TxnInv(s) && PendingInv(s)
    ensures var n := Exec(s, Begin(id, project)).state; LogInv(n) && TxnInv(n) && PendingInv(n)
  {
    var n := Exec(s, Begin(id, project)).state;
    if id !in s.issued {
      NoReads(s.log, id);
    }
    forall c | c in n.commits ensures PendingOk(n, n.commits[c]) {
      assert PendingOk(s, s.commits[c]);
    }
  }

  lemma OtherKeepsInv(s: State, e: Event)
    requires LogInv(s) && TxnInv(s) && PendingInv(s)
    requires !e.Begin? && !e.Record? && !e.LoadCommit? && !e.ApplyCommit?
    ensures var n := Exec(s, e).state; LogInv(n) && TxnInv(n) && PendingInv(n)
  {
    StatusKeepsInv(s, Exec(s, e).state);
  }

  lemma StepKeepsInv(s: State, e: Event)
    requires Inv(s)
    ensures Inv(Exec(s, e).state)
  {
    StepKeepsSeen(s, e);
    if e.Begin? {
      BeginKeepsInv(s, e.id, e.project);
    } else if e.Record? {
      RecordKeepsInv(s, e.call);
    } else if e.LoadCommit? {
      LoadKeepsInv(s, e.call, e.id, e.project);
    } else if e.ApplyCommit? {
      if e.call in s.commits {
        var p := s.commits[e.call];
        FinishKeepsInv(s, e.call, CommitBatch(s.docs, p.project, p.readSet, e.writes, s.clock));
      }
    } else {
      OtherKeepsInv(s, e);
    }
  }

  lemma {:induction false} RunKeepsInv(s: State, es: seq<Event>)
    requires Inv(s)
    ensures Inv(Run(s, es))
  {
    if es != [] {
      RunKeepsInv(s, es[..|es| - 1]);
      StepKeepsInv(Run(s, es[..|es| - 1]), es[|es| - 1]);
    }
  }

  // ----- Committed reads -----

  predicate CommitsAt(s: State, call: nat, writes: seq<Write>) {
    call in s.commits && ExecApply(s, call, writes).reply.CommitDone? && ExecApply(s, call, writes).reply.commit.Ok?
  }

  /** `k` is the transaction's latest read under its key among the first `upto` log entries. */
  predicate Latest(log: seq<Observation>, upto: nat, k: nat) {
    && k < upto <= |log|
    && forall l :: k < l < upto && log[l].txn == log[k].txn ==> ReadKey(log[l].path) != ReadKey(log[k].path)
  }

  lemma {:induction false} LatestIsRecorded(log: seq<Observation>, upto: nat, k: nat)
    requires Latest(log, upto, k)
    ensures ReadKey(log[k].path) in ReadsOf(log[..upto], log[k].txn)
    ensures ReadsOf(log[..upto], log[k].txn)[ReadKey(log[k].path)] == VersionOf(log[k].seen)
    decreases upto
  {
    assert log[..upto][..upto - 1] == log[..upto - 1];
    if k < upto - 1 {
      LatestIsRecorded(log, upto - 1, k);
    }
  }

  lemma ReadMatches(t: Table, o: Observation)
    requires StillExplains(t, o) && '/' !in o.path.id &&
      ReadHolds(t, o.path.project, ReadKey(o.path), VersionOf(o.seen))
    ensures Read(t, o.path) == o.seen
  {
    ReadKeyRoundTripsIff(o.path);
  }

  /** A commit that succeeds leaves no doubt about its reads: repeated at the
      moment of the commit, each would be answered as it was. */
  lemma CommittedReadsHold(clock: int, es: seq<Event>, call: nat, writes: seq<Write>, k: nat)
    requires CommitsAt(Run(Initial(clock), es), call, writes)
    requires var s := Run(Initial(clock), es);
      Latest(s.log, s.commits[call].upto, k) && s.log[k].txn == s.commits[call].txn
    requires '/' !in Run(Initial(clock), es).log[k].path.id
    ensures Read(Run(Initial(clock), es).docs, Run(Initial(clock), es).log[k].path) ==
      Run(Initial(clock), es).log[k].seen
  {
    RunKeepsInv(Initial(clock), es);
    ReadsHoldAtCommit(Run(Initial(clock), es), call, writes, k);
  }

  lemma ReadsHoldAtCommit(s: State, call: nat, writes: seq<Write>, k: nat)
    requires Inv(s) && CommitsAt(s, call, writes)
    requires Latest(s.log, s.commits[call].upto, k) && s.log[k].txn == s.commits[call].txn && '/' !in s.log[k].path.id
    ensures Read(s.docs, s.log[k].path) == s.log[k].seen
  {
    var p, o := s.commits[call], s.log[k];
    assert PendingOk(s, p);
    BatchAccepts(s.docs, p.project, p.readSet, writes, s.clock);
    LatestIsRecorded(s.log, p.upto, k);
    assert ReadHolds(s.docs, p.project, ReadKey(o.path), p.readSet[ReadKey(o.path)]);
    ReadMatches(s.docs, o);
  }

  /** The reads a committing transaction made before its commit was loaded. */
  predicate OwnRead(s: State, call: nat, k: int) {
    call in s.commits && 0 <= k < |s.log| && k < s.commits[call].upto && s.log[k].txn == s.commits[call].txn
  }

  lemma {:induction false} LatestExists(log: seq<Observation>, upto: nat, k: nat) returns (l: nat)
    requires k < upto <= |log|
    ensures k <= l && Latest(log, upto, l) && log[l].txn == log[k].txn && ReadKey(log[l].path) == ReadKey(log[k].path)
    decreases upto - k
  {
    if m :| k < m < upto && log[m].txn == log[k].txn && ReadKey(log[m].path) == ReadKey(log[k].path) {
      l := LatestExists(log, upto, m);
    } else {
      l := k;
    }
  }

  ghost predicate AllReadsHold(s: State, call: nat) {
    forall k :: OwnRead(s, call, k) ==> Read(s.docs, s.log[k].path) == s.log[k].seen
  }

  /** The transaction never saw one document in two states. */
  ghost predicate ConsistentReads(s: State, call: nat) {
    forall k, l :: OwnRead(s, call, k) && OwnRead(s, call, l) && s.log[k].path == s.log[l].path ==>
      s.log[k].seen == s.log[l].seen
  }

  ghost predicate SlashFreeReads(s: State, call: nat) {
    forall k :: OwnRead(s, call, k) ==> '/' !in s.log[k].path.id
  }

  lemma OwnReadHolds(s: State, call: nat, writes: seq<Write>, k: nat)
    requires Inv(s) && CommitsAt(s, call, writes) && SlashFreeReads(s, call) && ConsistentReads(s, call) &&
      OwnRead(s, call, k)
    ensures Read(s.docs, s.log[k].path) == s.log[k].seen
  {
    assert PendingOk(s, s.commits[call]);
    var l := LatestExists(s.log, s.commits[call].upto, k);
    assert OwnRead(s, call, l);
    SameKeySamePath(s.log[k].path, s.log[l].path);
    ReadsHoldAtCommit(s, call, writes, l);
  }

  /** Every read of a committing transaction holds at its commit exactly when
      the transaction never saw one document in two states. */
  lemma AllReadsHoldIff(clock: int, es: seq<Event>, call: nat, writes: seq<Write>)
    requires CommitsAt(Run(Initial(clock), es), call, writes) && SlashFreeReads(Run(Initial(clock), es), call)
    ensures AllReadsHold(Run(Initial(clock), es), call) <==> ConsistentReads(Run(Initial(clock), es), call)
  {
    var s := Run(Initial(clock), es);
    RunKeepsInv(Initial(clock), es);
    if ConsistentReads(s, call) {
      forall k | OwnRead(s, call, k) ensures Read(s.docs, s.log[k].path) == s.log[k].seen {
        OwnReadHolds(s, call, writes, k);
      }
    }
  }

  lemma SameKeySamePath(a: DocPath, b: DocPath)
    requires a.project == b.project && ReadKey(a) == ReadKey(b) && '/' !in a.id && '/' !in b.id
    ensures a == b
  {
    ReadKeyRoundTripsIff(a);
    ReadKeyRoundTripsIff(b);
  }

  lemma {:induction false} OneWriteOneVersion(t: Table, ws: seq<Write>, locks: seq<Option<Fields>>, now: int, i: nat)
    requires |locks| == |ws| && ApplyWrites(t, ws, locks, now).Ok? && i < |ws| && ws[i].path in t
    requires forall j :: 0 <= j < |ws| && j != i ==> ws[j].path != ws[i].path
    ensures ws[i].path in ApplyWrites(t, ws, locks, now).value.table
    ensures ApplyWrites(t, ws, locks, now).value.table[ws[i].path].version == t[ws[i].path].version + 1
    decreases |ws|
  {
    var first := ApplyWrite(t, ws[0], locks[0], now).value.table;
    if i > 0 {
      OneWriteOneVersion(first, ws[1..], locks[1..], now, i - 1);
    } else {
      assert forall j :: 0 <= j < |ws[1..]| ==> ws[1..][j] == ws[j + 1];
      OthersKeepRow(first, ws[1..], locks[1..], now, ws[0].path);
    }
  }

  /** No update is lost: a transaction that read a document and writes it once
      commits the version right after the one it read. */
  lemma NoLostUpdate(clock: int, es: seq<Event>, call: nat, writes: seq<Write>, k: nat, i: nat)
    requires CommitsAt(Run(Initial(clock), es), call, writes)
    requires var s := Run(Initial(clock), es);
      Latest(s.log, s.commits[call].upto, k) && s.log[k].txn == s.commits[call].txn
    requires var o := Run(Initial(clock), es).log[k];
      '/' !in o.path.id && o.seen.Some? && i < |writes| && writes[i].path == o.path
    requires forall j :: 0 <= j < |writes| && j != i ==> writes[j].path != writes[i].path
    ensures var o, docs := Run(Initial(clock), es).log[k], ExecApply(Run(Initial(clock), es), call, writes).state.docs;
      o.path in docs && docs[o.path].version == o.seen.value.version + 1
  {
    CommittedReadsHold(clock, es, call, writes, k);
    var s := Run(Initial(clock), es);
    OneWriteOneVersion(s.docs, writes, LockAll(s.docs, writes), s.clock, i);
  }
}
