/** The life of a transaction over whole runs: when it began, what its status
    says happened to it, and for how long it can be used. */
module TxnLifecycle {
  import opened Values
  import opened FieldTransforms
  import opened Documents
  import opened Transactions

  const MINUTE: int := 60 * 1_000_000_000

  /** The event commits the transaction. */
  predicate CommitsTxn(s: State, e: Event, id: TxnId) {
    e.ApplyCommit? && CommitsAt(s, e.call, e.writes) && s.commits[e.call].txn == id
  }

  predicate RollsBack(s: State, e: Event, id: TxnId) {
    e.RollBack? && e.id == id && Exec(s, e).reply == RollbackDone(Ok(()))
  }

  /** The event asks to commit a transaction that is more than a minute old. */
  predicate FindsExpired(s: State, e: Event, id: TxnId) {
    && e.LoadCommit? && e.id == id && id in s.txns && s.txns[id].project == e.project
    && s.txns[id].status == Active && s.clock - s.txns[id].startedAt > MINUTE
  }

  /** A step changes the status of a transaction only by committing it, rolling it
      back or finding it expired, and never its project or starting time. */
  lemma StepStatus(s: State, e: Event, id: TxnId)
    requires id in s.txns && id in s.issued && id in Exec(s, e).state.txns
    ensures var before, after := s.txns[id], Exec(s, e).state.txns[id];
      && after.project == before.project && after.startedAt == before.startedAt
      && after.status ==
         if CommitsTxn(s, e, id) then Committed
         else if RollsBack(s, e, id) then RolledBack
         else if FindsExpired(s, e, id) then Expired
         else before.status
  {
  }

  /** A new transaction is active, has read nothing, and starts in the current microsecond. */
  lemma BeginStarts(s: State, id: TxnId, project: string)
    requires id !in s.issued
    ensures var n := Exec(s, Begin(id, project)).state;
      && id in n.txns && n.txns[id].project == project && n.txns[id].status == Active && n.txns[id].readSet == map[]
      && n.txns[id].startedAt % MICRO == 0 && n.txns[id].startedAt <= s.clock < n.txns[id].startedAt + MICRO
  {
  }

  predicate Usable(s: State, id: TxnId, project: string) {
    id in s.txns && s.txns[id].project == project && s.txns[id].status == Active
  }

  /** A commit gets past its status check exactly while the transaction is active
      and at most a minute old; a rollback exactly while it is active. */
  lemma UsedWhileActive(s: State, call: nat, id: TxnId, project: string)
    ensures Exec(s, LoadCommit(call, id, project)).reply == Loaded(Ok(())) <==>
      Usable(s, id, project) && s.clock - s.txns[id].startedAt <= MINUTE
    ensures Exec(s, RollBack(id, project)).reply == RollbackDone(Ok(())) <==> Usable(s, id, project)
  {
  }

  /** A read is recorded exactly while the transaction of the document's project is
      active and less than a minute old. */
  lemma ReadsWhileYoung(s: State, call: nat)
    requires call in s.selects
    ensures var o, reply := s.selects[call], Exec(s, Record(call)).reply;
      && (reply == Answered(Ok(o.seen)) <==>
          Usable(s, o.txn, o.path.project) && Stored(s.clock) - s.txns[o.txn].startedAt < MINUTE)
      && (reply != Answered(Ok(o.seen)) ==> reply == Answered(Err(TransactionNotFound)))
  {
  }

  // ----- Runs -----

  lemma StepKeepsIssued(s: State, e: Event, id: TxnId)
    requires forall x :: x in s.txns ==> x in s.issued
    requires id in Exec(s, e).state.txns && !(e.Begin? && e.id == id && id !in s.issued)
    ensures id in s.txns
  {
  }

  predicate BeginsAt(clock: int, es: seq<Event>, i: nat, id: TxnId) {
    i < |es| && es[i].Begin? && es[i].id == id && ReplyAt(Initial(clock), es, i) == Started(id)
  }

  /** Every transaction in the table began once, in the microsecond it carries. */
  lemma {:induction false} TxnBegan(clock: int, es: seq<Event>, n: nat, id: TxnId) returns (i: nat)
    requires n <= |es| && id in Run(Initial(clock), es[..n]).txns
    ensures i < n && BeginsAt(clock, es, i, id)
    ensures var txn := Run(Initial(clock), es[..n]).txns[id];
      txn.project == es[i].project && txn.startedAt == Stored(Run(Initial(clock), es[..i]).clock)
    decreases n
  {
    var s, e := Run(Initial(clock), es[..n - 1]), es[n - 1];
    RunStep(Initial(clock), es, n - 1);
    RunKeepsInv(Initial(clock), es[..n - 1]);
    if e.Begin? && e.id == id && id !in s.issued {
      i := n - 1;
    } else {
      StepKeepsIssued(s, e, id);
      StepStatus(s, e, id);
      i := TxnBegan(clock, es, n - 1, id);
    }
  }

  /** A transaction is committed within a minute of its beginning, under the
      project it was begun for: its status check comes no later. */
  lemma CommitsWithinAMinute(clock: int, es: seq<Event>, j: nat) returns (i: nat)
    requires j < |es| && es[j].LoadCommit? && ReplyAt(Initial(clock), es, j) == Loaded(Ok(()))
    ensures i < j && BeginsAt(clock, es, i, es[j].id) && es[i].project == es[j].project
    ensures Run(Initial(clock), es[..j]).clock - Run(Initial(clock), es[..i]).clock <= MINUTE
  {
    var s := Run(Initial(clock), es[..j]);
    UsedWhileActive(s, es[j].call, es[j].id, es[j].project);
    i := TxnBegan(clock, es, j, es[j].id);
  }

  // ----- What a commit validates -----

  lemma ReadHoldsIff(t: Table, path: DocPath, version: Option<int>)
    requires '/' !in path.id
    ensures ReadHolds(t, path.project, ReadKey(path), version) <==> VersionOf(Read(t, path)) == version
  {
    ReadKeyRoundTripsIff(path);
  }

  /** Every key of a read set has a latest read behind it. */
  lemma {:induction false} KeyHasLatest(log: seq<Observation>, upto: nat, id: TxnId, key: string) returns (k: nat)
    requires upto <= |log| && key in ReadsOf(log[..upto], id)
    ensures Latest(log, upto, k) && log[k].txn == id && ReadKey(log[k].path) == key
    decreases upto
  {
    var n := upto - 1;
    assert log[..upto][..n] == log[..n];
    if log[n].txn == id && ReadKey(log[n].path) == key {
      k := n;
    } else {
      k := KeyHasLatest(log, n, id, key);
    }
  }

  ghost predicate LatestReadsRepeat(s: State, call: nat) {
    forall k: nat :: OwnRead(s, call, k) && Latest(s.log, s.commits[call].upto, k) ==>
      Read(s.docs, s.log[k].path) == s.log[k].seen
  }

  lemma RepeatedReadsHold(s: State, call: nat)
    requires Inv(s) && call in s.commits && SlashFreeReads(s, call) && LatestReadsRepeat(s, call)
    ensures ReadsHold(s.docs, s.commits[call].project, s.commits[call].readSet)
  {
    var p := s.commits[call];
    assert PendingOk(s, p);
    forall key | key in p.readSet ensures ReadHolds(s.docs, p.project, key, p.readSet[key]) {
      var k := KeyHasLatest(s.log, p.upto, p.txn, key);
      assert OwnRead(s, call, k);
      LatestIsRecorded(s.log, p.upto, k);
      ReadHoldsIff(s.docs, s.log[k].path, p.readSet[key]);
    }
  }

  lemma HeldReadsRepeat(s: State, call: nat)
    requires Inv(s) && call in s.commits && SlashFreeReads(s, call)
    requires ReadsHold(s.docs, s.commits[call].project, s.commits[call].readSet)
    ensures LatestReadsRepeat(s, call)
  {
    var p := s.commits[call];
    assert PendingOk(s, p);
    forall k: nat | OwnRead(s, call, k) && Latest(s.log, p.upto, k)
      ensures Read(s.docs, s.log[k].path) == s.log[k].seen
    {
      LatestIsRecorded(s.log, p.upto, k);
      assert ReadHolds(s.docs, p.project, ReadKey(s.log[k].path), p.readSet[ReadKey(s.log[k].path)]);
      ReadMatches(s.docs, s.log[k]);
    }
  }

  /** In every run a commit's recorded reads are found to hold exactly when each
      latest read of the transaction would be answered again as it was. */
  lemma ReadsHoldIff(clock: int, es: seq<Event>, call: nat)
    requires call in Run(Initial(clock), es).commits && SlashFreeReads(Run(Initial(clock), es), call)
    ensures var s := Run(Initial(clock), es);
      ReadsHold(s.docs, s.commits[call].project, s.commits[call].readSet) <==> LatestReadsRepeat(s, call)
  {
    var s := Run(Initial(clock), es);
    RunKeepsInv(Initial(clock), es);
    if LatestReadsRepeat(s, call) {
      RepeatedReadsHold(s, call);
    } else if ReadsHold(s.docs, s.commits[call].project, s.commits[call].readSet) {
      HeldReadsRepeat(s, call);
    }
  }
}
