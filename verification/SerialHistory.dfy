/** Serializability: a run of interleaved calls against the serial execution in
    which each committed transaction happens all at once, at its commit. */
module SerialHistory {
  import opened Values
  import opened FieldTransforms
  import opened Documents
  import opened Transactions

  /** A serial step: a single-document operation, or a whole transaction that
      makes its reads, sees what `observed` says, and writes its batch. */
  datatype Step =
    | Single(event: Event, clock: int, reply: Reply)
    | Atomic(observed: seq<Observation>, project: string, writes: seq<Write>, clock: int, results: seq<WriteResult>)

  predicate IsSingle(e: Event) {
    e.CreateDocument? || e.UpdateOne? || e.DeleteOne?
  }

  function SingleTable(t: Table, e: Event, clock: int, reply: Reply): Option<Table> {
    match e
    case CreateDocument(path, fields) =>
      var o := Create(t, path, fields, clock);
      if reply == Wrote(o.result) then Some(o.table) else None
    case UpdateOne(path, fields, pre) =>
      var o := UpdateDocument(t, path, fields, pre, clock);
      if reply == Wrote(o.result) then Some(o.table) else None
    case DeleteOne(path) =>
      var o := DeleteDocument(t, path, None, clock);
      if reply == Deleted(o.result) then Some(o.table) else None
    case _ => None
  }

  predicate Answers(t: Table, observed: seq<Observation>) {
    forall o <- observed :: Read(t, o.path) == o.seen
  }

  /** The table after one serial step; None when the step would have read or
      answered something else. A transaction is given no read set to check. */
  function Perform(t: Table, step: Step): Option<Table> {
    match step
    case Single(e, clock, reply) => SingleTable(t, e, clock, reply)
    case Atomic(observed, project, writes, clock, results) =>
      if !Answers(t, observed) then None
      else Accepted(CommitBatch(t, project, map[], writes, clock), results)
  }

  function Accepted(batch: Result<Batch, CoreError>, results: seq<WriteResult>): Option<Table> {
    if batch.Ok? && batch.value.results == results then Some(batch.value.table) else None
  }

  function SerialRun(t: Table, steps: seq<Step>): Option<Table> {
    if steps == [] then Some(t)
    else
      match SerialRun(t, steps[..|steps| - 1])
      case None => None
      case Some(u) => Perform(u, steps[|steps| - 1])
  }

  /** The reads of transaction `id`, in the order they were answered. */
  function ReadsBy(log: seq<Observation>, id: TxnId): seq<Observation> {
    if log == [] then []
    else ReadsBy(log[..|log| - 1], id) + if log[|log| - 1].txn == id then [log[|log| - 1]] else []
  }

  /** What an event contributes to the serial execution. */
  function StepsOf(s: State, e: Event): seq<Step> {
    if IsSingle(e) then [Single(e, s.clock, Exec(s, e).reply)]
    else if e.ApplyCommit? && CommitsAt(s, e.call, e.writes) then [AtomicOf(s, e.call, e.writes)]
    else []
  }

  function AtomicOf(s: State, call: nat, writes: seq<Write>): Step
    requires CommitsAt(s, call, writes)
  {
    var p := s.commits[call];
    var upto := if p.upto <= |s.log| then p.upto else |s.log|;
    Atomic(ReadsBy(s.log[..upto], p.txn), p.project, writes, s.clock, ExecApply(s, call, writes).reply.commit.value)
  }

  /** The serial execution of a run: its single operations and its successful
      commits, in the order they took effect. */
  function History(s: State, es: seq<Event>): seq<Step> {
    if es == [] then []
    else History(s, es[..|es| - 1]) + StepsOf(Run(s, es[..|es| - 1]), es[|es| - 1])
  }

  // ----- One event -----

  lemma {:induction false} ReadsByMembers(log: seq<Observation>, id: TxnId, o: Observation)
    ensures o in ReadsBy(log, id) <==> o in log && o.txn == id
  {
    if log != [] {
      ReadsByMembers(log[..|log| - 1], id, o);
      assert log == log[..|log| - 1] + [log[|log| - 1]];
    }
  }

  lemma AnswersIsAllReadsHold(s: State, call: nat, t: Table)
    requires call in s.commits && s.commits[call].upto <= |s.log| && t == s.docs
    ensures Answers(t, ReadsBy(s.log[..s.commits[call].upto], s.commits[call].txn)) <==> AllReadsHold(s, call)
  {
    var p := s.commits[call];
    var own := s.log[..p.upto];
    if AllReadsHold(s, call) {
      forall o <- ReadsBy(own, p.txn) ensures Read(t, o.path) == o.seen {
        ReadsByMembers(own, p.txn, o);
        var k :| 0 <= k < |own| && own[k] == o;
        assert OwnRead(s, call, k);
      }
    }
    if Answers(t, ReadsBy(own, p.txn)) {
      forall k | OwnRead(s, call, k) ensures Read(t, s.log[k].path) == s.log[k].seen {
        assert own[k] == s.log[k];
        ReadsByMembers(own, p.txn, s.log[k]);
      }
    }
  }

  lemma QuietKeepsDocs(s: State, e: Event)
    requires StepsOf(s, e) == []
    ensures Exec(s, e).state.docs == s.docs
  {
  }

  lemma SingleSteps(s: State, e: Event)
    requires IsSingle(e)
    ensures Perform(s.docs, StepsOf(s, e)[0]) == Some(Exec(s, e).state.docs)
  {
  }

  /** At its commit a transaction happens all at once exactly when its reads agree. */
  lemma AtomicSteps(clock: int, es: seq<Event>, call: nat, writes: seq<Write>)
    requires CommitsAt(Run(Initial(clock), es), call, writes) && SlashFreeReads(Run(Initial(clock), es), call)
    ensures var s := Run(Initial(clock), es);
      Perform(s.docs, AtomicOf(s, call, writes)) ==
      if ConsistentReads(s, call) then Some(ExecApply(s, call, writes).state.docs) else None
  {
    var s := Run(Initial(clock), es);
    RunKeepsInv(Initial(clock), es);
    var p := s.commits[call];
    assert PendingOk(s, p);
    AnswersIsAllReadsHold(s, call, s.docs);
    AllReadsHoldIff(clock, es, call, writes);
    BatchAccepts(s.docs, p.project, p.readSet, writes, s.clock);
    BatchAccepts(s.docs, p.project, map[], writes, s.clock);
  }

  // ----- Whole runs -----

  predicate SlashFree(es: seq<Event>) {
    forall e <- es :: e.Select? ==> '/' !in e.path.id
  }

  predicate SlashFreeState(s: State) {
    && (forall k :: 0 <= k < |s.log| ==> '/' !in s.log[k].path.id)
    && (forall call :: call in s.selects ==> '/' !in s.selects[call].path.id)
  }

  lemma StepKeepsSlashFree(s: State, e: Event)
    requires SlashFreeState(s) && (e.Select? ==> '/' !in e.path.id)
    ensures SlashFreeState(Exec(s, e).state)
  {
  }

  lemma {:induction false} RunKeepsSlashFree(clock: int, es: seq<Event>)
    requires SlashFree(es)
    ensures SlashFreeState(Run(Initial(clock), es))
  {
    if es != [] {
      RunKeepsSlashFree(clock, es[..|es| - 1]);
      StepKeepsSlashFree(Run(Initial(clock), es[..|es| - 1]), es[|es| - 1]);
    }
  }

  /** Event `i` of the run, if it is a successful commit, ends a transaction
      that never saw one document in two states. */
  ghost predicate ConsistentAt(clock: int, es: seq<Event>, i: nat)
    requires i < |es|
  {
    var s := Run(Initial(clock), es[..i]);
    es[i].ApplyCommit? && CommitsAt(s, es[i].call, es[i].writes) ==> ConsistentReads(s, es[i].call)
  }

  ghost predicate AllConsistent(clock: int, es: seq<Event>) {
    forall i :: 0 <= i < |es| ==> ConsistentAt(clock, es, i)
  }

  lemma ConsistentPrefix(clock: int, es: seq<Event>)
    requires es != []
    ensures AllConsistent(clock, es) <==> AllConsistent(clock, es[..|es| - 1]) && ConsistentAt(clock, es, |es| - 1)
  {
    var before := es[..|es| - 1];
    forall i | 0 <= i < |before| ensures ConsistentAt(clock, before, i) == ConsistentAt(clock, es, i) {
      assert before[..i] == es[..i];
    }
  }

  lemma LastStep(t: Table, steps: seq<Step>, more: seq<Step>)
    requires |more| <= 1
    ensures SerialRun(t, steps + more) ==
      if more == [] || SerialRun(t, steps).None? then SerialRun(t, steps)
      else Perform(SerialRun(t, steps).value, more[0])
  {
    if more == [] {
      assert steps + more == steps;
    } else {
      assert (steps + more)[..|steps|] == steps;
    }
  }

  /** Every run is serial in commit order exactly when each committed
      transaction saw each document in one state only: executing the single
      operations and, at its commit, each transaction all at once is then
      possible, every read and every reply is what it was, and the documents
      are the same at every point. */
  lemma {:induction false} SerialInCommitOrderIff(clock: int, es: seq<Event>)
    requires SlashFree(es)
    ensures SerialRun(map[], History(Initial(clock), es)) ==
      if AllConsistent(clock, es) then Some(Run(Initial(clock), es).docs) else None
  {
    if es != [] {
      var before, e := es[..|es| - 1], es[|es| - 1];
      var s := Run(Initial(clock), before);
      SerialInCommitOrderIff(clock, before);
      ConsistentPrefix(clock, es);
      LastStep(map[], History(Initial(clock), before), StepsOf(s, e));
      EventSteps(clock, before, e);
    }
  }

  lemma EventSteps(clock: int, before: seq<Event>, e: Event)
    requires SlashFree(before)
    ensures var s := Run(Initial(clock), before);
      && |StepsOf(s, e)| <= 1
      && (StepsOf(s, e) == [] ==> Exec(s, e).state.docs == s.docs)
      && (e.ApplyCommit? && CommitsAt(s, e.call, e.writes) <==> StepsOf(s, e) != [] && !IsSingle(e))
      && (StepsOf(s, e) != [] ==>
            Perform(s.docs, StepsOf(s, e)[0]) ==
            if IsSingle(e) || ConsistentReads(s, e.call) then Some(Exec(s, e).state.docs) else None)
  {
    var s := Run(Initial(clock), before);
    if StepsOf(s, e) == [] {
      QuietKeepsDocs(s, e);
    } else if IsSingle(e) {
      SingleSteps(s, e);
    } else {
      RunKeepsSlashFree(clock, before);
      AtomicSteps(clock, before, e.call, e.writes);
    }
  }

  // ----- A run that is not serial -----

  const DOC: DocPath := DocPath("p", "c", "d")

  /** A transaction reads a document, someone else updates it, the transaction
      reads it again, and commits. */
  const TWICE: seq<Event> := [
    CreateDocument(DOC, map[]), Begin(0, "p"), Select(0, 0, DOC), Record(0),
    UpdateOne(DOC, map[], None), Select(1, 0, DOC), Record(1), LoadCommit(0, 0, "p")]

  function RowAt(version: int): Row {
    Row(map[], version, 0, 0, false)
  }

  function Seen(version: int): Observation {
    Observation(0, DOC, Some(RowAt(version)))
  }

  function Reading(version: int, log: seq<Observation>, recorded: ReadSet): State {
    State(map[DOC := RowAt(version)], map[0 := Txn("p", Active, 0, recorded)], 0, map[], map[], map[0 := "p"], log)
  }

  lemma ReadOnce(s: State, call: nat, version: int, log: seq<Observation>, recorded: ReadSet)
    requires s == Reading(version, log, recorded)
    ensures Exec(Exec(s, Select(call, 0, DOC)).state, Record(call)).state ==
      Reading(version, log + [Seen(version)], recorded[ReadKey(DOC) := Some(version)])
  {
    var t := Exec(s, Select(call, 0, DOC)).state;
    assert t == s.(selects := map[call := Seen(version)]);
    assert map[call := Seen(version)] - {call} == map[];
    assert s.txns[0 := Txn("p", Active, 0, recorded[ReadKey(DOC) := Some(version)])] ==
      map[0 := Txn("p", Active, 0, recorded[ReadKey(DOC) := Some(version)])];
  }

  lemma FirstRead()
    ensures Run(Initial(0), TWICE[..4]) == Reading(1, [Seen(1)], map[ReadKey(DOC) := Some(1)])
  {
    assert TWICE[..0] == [];
    RunStep(Initial(0), TWICE, 0);
    RunStep(Initial(0), TWICE, 1);
    assert Run(Initial(0), TWICE[..2]) == Reading(1, [], map[]);
    RunStep(Initial(0), TWICE, 2);
    RunStep(Initial(0), TWICE, 3);
    ReadOnce(Run(Initial(0), TWICE[..2]), 0, 1, [], map[]);
    assert [] + [Seen(1)] == [Seen(1)];
  }

  lemma SecondRead()
    ensures Run(Initial(0), TWICE[..7]) == Reading(2, [Seen(1), Seen(2)], map[ReadKey(DOC) := Some(2)])
  {
    FirstRead();
    RunStep(Initial(0), TWICE, 4);
    assert Run(Initial(0), TWICE[..5]) == Reading(2, [Seen(1)], map[ReadKey(DOC) := Some(1)]);
    RunStep(Initial(0), TWICE, 5);
    RunStep(Initial(0), TWICE, 6);
    ReadOnce(Run(Initial(0), TWICE[..5]), 1, 2, [Seen(1)], map[ReadKey(DOC) := Some(1)]);
    assert [Seen(1)] + [Seen(2)] == [Seen(1), Seen(2)];
    assert map[ReadKey(DOC) := Some(1)][ReadKey(DOC) := Some(2)] == map[ReadKey(DOC) := Some(2)];
  }

  lemma CommitsUnseen(s: State, call: nat)
    requires call in s.commits && s.commits[call] == Pending(0, "p", map[ReadKey(DOC) := Some(2)], 2)
    requires s.docs == map[DOC := RowAt(2)]
    ensures CommitsAt(s, call, [])
  {
    ReadKeyRoundTripsIff(DOC);
    BatchAccepts(s.docs, "p", s.commits[call].readSet, [], s.clock);
  }

  lemma SawBoth(s: State)
    requires s == Reading(2, [Seen(1), Seen(2)], map[ReadKey(DOC) := Some(2)]).(commits := s.commits)
    requires s.commits == map[0 := Pending(0, "p", map[ReadKey(DOC) := Some(2)], 2)]
    ensures CommitsAt(s, 0, []) && !ConsistentReads(s, 0) && !AllReadsHold(s, 0)
  {
    CommitsUnseen(s, 0);
    assert OwnRead(s, 0, 0) && OwnRead(s, 0, 1) && s.log[0] == Seen(1) && s.log[1] == Seen(2);
  }

  lemma LoadedTwice()
    ensures var s := Run(Initial(0), TWICE);
      CommitsAt(s, 0, []) && !ConsistentReads(s, 0) && !AllReadsHold(s, 0)
  {
    SecondRead();
    RunStep(Initial(0), TWICE, 7);
    assert TWICE[..8] == TWICE;
    SawBoth(Run(Initial(0), TWICE));
  }

  /** It commits although it saw the document in two states, and although no
      serial execution would have shown it both. */
  lemma InconsistentReadsCommit()
    ensures SlashFree(TWICE) && CommitsAt(Run(Initial(0), TWICE), 0, [])
    ensures !ConsistentReads(Run(Initial(0), TWICE), 0) && !AllReadsHold(Run(Initial(0), TWICE), 0)
    ensures SerialRun(map[], History(Initial(0), TWICE + [ApplyCommit(0, [])])).None?
  {
    LoadedTwice();
    var es := TWICE + [ApplyCommit(0, [])];
    assert es[..8] == TWICE && !ConsistentAt(0, es, 8);
    SerialInCommitOrderIff(0, es);
  }
}
