/** Whole runs of the transaction machine, seen through one document: a read
    returns what the last accepted write to it left, and of the commits that
    expect one version of it only one succeeds. */
module ContentRuns {
  import opened Values
  import opened FieldTransforms
  import opened Documents
  import opened Transactions
  import opened WrittenContent

  // ----- What an event leaves in a document -----

  /** The index of the last write to `path`. */
  function LastWrite(ws: seq<Write>, path: DocPath): (i: Option<nat>)
    ensures i.Some? ==> LastTo(ws, i.value) && ws[i.value].path == path
    ensures i.None? ==> forall k :: 0 <= k < |ws| ==> ws[k].path != path
  {
    if ws == [] then None
    else if ws[|ws| - 1].path == path then Some(|ws| - 1)
    else LastWrite(ws[..|ws| - 1], path)
  }

  predicate Accepted(reply: Reply) {
    || (reply.Wrote? && reply.write.Ok?) || (reply.Deleted? && reply.delete.Ok?)
    || (reply.CommitDone? && reply.commit.Ok?)
  }

  /** `fields` are what the event was accepted to write into the document. */
  ghost predicate Writes(s: State, e: Event, path: DocPath, fields: Fields) {
    Accepted(Exec(s, e).reply) &&
    match e
    case CreateDocument(p, given) => p == path && fields == given
    case UpdateOne(p, given, _) => p == path && fields == given
    case ApplyCommit(_, ws) =>
      var i := LastWrite(ws, path);
      i.Some? && Results(ws[i.value], Content(s.docs, path), s.clock, fields)
    case _ => false
  }

  /** The event was accepted to delete the document. */
  predicate Deletes(s: State, e: Event, path: DocPath) {
    Accepted(Exec(s, e).reply) &&
    match e
    case DeleteOne(p) => p == path
    case ApplyCommit(_, ws) =>
      var i := LastWrite(ws, path);
      i.Some? && ws[i.value].Delete?
    case _ => false
  }

  /** The event names the document in something it was accepted to do. */
  predicate Touches(s: State, e: Event, path: DocPath) {
    Accepted(Exec(s, e).reply) &&
    match e
    case CreateDocument(p, _) => p == path
    case UpdateOne(p, _, _) => p == path
    case DeleteOne(p) => p == path
    case ApplyCommit(_, ws) => exists k :: 0 <= k < |ws| && ws[k].path == path
    case _ => false
  }

  lemma CommitContent(s: State, call: nat, ws: seq<Write>, path: DocPath)
    requires call in s.commits && CommitsAt(s, call, ws)
    ensures var u := ExecApply(s, call, ws).state.docs;
      match LastWrite(ws, path)
      case None => SameRow(s.docs, u, path)
      case Some(i) =>
        && (ws[i].Delete? <==> Read(u, path).None?)
        && (!ws[i].Delete? ==> Results(ws[i], Content(s.docs, path), s.clock, Content(u, path)))
  {
    var p := s.commits[call];
    if LastWrite(ws, path).Some? {
      BatchIsRead(s.docs, p.project, p.readSet, ws, s.clock, LastWrite(ws, path).value);
    } else {
      BatchKeepsOthers(s.docs, p.project, p.readSet, ws, s.clock, path);
    }
  }

  /** Each step leaves in a document what it was accepted to write there, nothing
      live if it was accepted to delete it, and otherwise what was there. */
  lemma StepContent(s: State, e: Event, path: DocPath)
    ensures var u := Exec(s, e).state.docs;
      && (!Touches(s, e, path) ==> SameRow(s.docs, u, path))
      && (Deletes(s, e, path) ==> Read(u, path).None?)
      && (Touches(s, e, path) && !Deletes(s, e, path) ==> Read(u, path).Some? && Writes(s, e, path, Content(u, path)))
  {
    match e
    case CreateDocument(p, fields) => CreateIsRead(s.docs, p, fields, s.clock);
    case UpdateOne(p, fields, pre) => UpdateIsRead(s.docs, p, fields, pre, s.clock);
    case DeleteOne(p) => DeleteIsGone(s.docs, p, None, map[], s.clock, s.clock);
    case ApplyCommit(call, ws) =>
      if Accepted(Exec(s, e).reply) {
        CommitContent(s, call, ws, path);
      }
    case _ =>
  }

  // ----- Runs -----

  predicate TouchedAt(clock: int, es: seq<Event>, k: nat, path: DocPath) {
    k < |es| && Touches(Run(Initial(clock), es[..k]), es[k], path)
  }

  lemma {:induction false} QuietKeepsRow(clock: int, es: seq<Event>, i: nat, j: nat, path: DocPath)
    requires i <= j <= |es| && forall k :: i <= k < j ==> !TouchedAt(clock, es, k, path)
    ensures SameRow(Run(Initial(clock), es[..i]).docs, Run(Initial(clock), es[..j]).docs, path)
    decreases j
  {
    if i < j {
      QuietKeepsRow(clock, es, i, j - 1, path);
      RunStep(Initial(clock), es, j - 1);
      assert !TouchedAt(clock, es, j - 1, path);
      StepContent(Run(Initial(clock), es[..j - 1]), es[j - 1], path);
    }
  }

  /** Over every run a document reads as the last event that touched it left it:
      gone after a delete, else with the fields that event wrote. */
  lemma ReadsLastWrite(clock: int, es: seq<Event>, i: nat, j: nat, path: DocPath)
    requires i < j <= |es| && TouchedAt(clock, es, i, path)
    requires forall k :: i < k < j ==> !TouchedAt(clock, es, k, path)
    ensures var s, docs := Run(Initial(clock), es[..i]), Run(Initial(clock), es[..j]).docs;
      if Deletes(s, es[i], path) then Read(docs, path).None?
      else Read(docs, path).Some? && Writes(s, es[i], path, Content(docs, path))
  {
    RunStep(Initial(clock), es, i);
    StepContent(Run(Initial(clock), es[..i]), es[i], path);
    QuietKeepsRow(clock, es, i + 1, j, path);
  }

  /** And a document that was never touched is not there. */
  lemma NeverWrittenIsAbsent(clock: int, es: seq<Event>, path: DocPath)
    requires forall k :: 0 <= k < |es| ==> !TouchedAt(clock, es, k, path)
    ensures Read(Run(Initial(clock), es).docs, path).None?
  {
    QuietKeepsRow(clock, es, 0, |es|, path);
    assert es[..0] == [] && es[..|es|] == es;
  }

  /** A deleted document that nobody wrote since cannot be deleted again. */
  lemma SecondDeleteRefused(clock: int, es: seq<Event>, i: nat, j: nat, path: DocPath)
    requires i < j < |es| && TouchedAt(clock, es, i, path) && Deletes(Run(Initial(clock), es[..i]), es[i], path)
    requires forall k :: i < k < j ==> !TouchedAt(clock, es, k, path)
    requires es[j] == DeleteOne(path)
    ensures ReplyAt(Initial(clock), es, j) == Deleted(Err(DocumentNotFound))
  {
    ReadsLastWrite(clock, es, i, j, path);
  }

  lemma StepSelects(s: State, e: Event, call: nat)
    requires call in Exec(s, e).state.selects
    ensures
      || (e.Select? && e.call == call &&
          Exec(s, e).state.selects[call] == Observation(e.id, e.path, Read(s.docs, e.path)))
      || (call in s.selects && s.selects[call] == Exec(s, e).state.selects[call])
  {
  }

  lemma {:induction false} SelectWasRead(clock: int, es: seq<Event>, n: nat, call: nat) returns (i: nat)
    requires n <= |es| && call in Run(Initial(clock), es[..n]).selects
    ensures i < n && es[i].Select? && es[i].call == call
    ensures Run(Initial(clock), es[..n]).selects[call] ==
      Observation(es[i].id, es[i].path, Read(Run(Initial(clock), es[..i]).docs, es[i].path))
    decreases n
  {
    var s, e := Run(Initial(clock), es[..n - 1]), es[n - 1];
    RunStep(Initial(clock), es, n - 1);
    StepSelects(s, e, call);
    if e.Select? && e.call == call {
      i := n - 1;
    } else {
      i := SelectWasRead(clock, es, n - 1, call);
    }
  }

  /** A transactional read answers what stood in the document when it looked. */
  lemma AnswerIsRead(clock: int, es: seq<Event>, j: nat, seen: Option<Row>) returns (i: nat)
    requires j < |es| && es[j].Record? && ReplyAt(Initial(clock), es, j) == Answered(Ok(seen))
    ensures i < j && es[i].Select? && es[i].call == es[j].call
    ensures seen == Read(Run(Initial(clock), es[..i]).docs, es[i].path)
  {
    i := SelectWasRead(clock, es, j, es[j].call);
  }

  // ----- Expected versions -----

  /** Event `i` is a commit that succeeds and writes `path`, of its own project,
      expecting version `v`. */
  predicate CommitsVersion(clock: int, es: seq<Event>, i: nat, k: nat, path: DocPath, v: int) {
    && i < |es| && es[i].ApplyCommit?
    && var s := Run(Initial(clock), es[..i]);
       && es[i].call in s.commits && CommitsAt(s, es[i].call, es[i].writes)
       && s.commits[es[i].call].project == path.project
       && k < |es[i].writes| && !es[i].writes[k].Transform?
       && es[i].writes[k].path == path && es[i].writes[k].version == Some(v)
  }

  lemma {:induction false} WritesRaise(t: Table, ws: seq<Write>, locks: seq<Option<Fields>>, now: int, k: nat)
    requires |locks| == |ws| && ApplyWrites(t, ws, locks, now).Ok? && k < |ws| && ws[k].path in t
    ensures ws[k].path in ApplyWrites(t, ws, locks, now).value.table
    ensures ApplyWrites(t, ws, locks, now).value.table[ws[k].path].version > t[ws[k].path].version
    decreases |ws|
  {
    var first := ApplyWrite(t, ws[0], locks[0], now).value.table;
    if k > 0 {
      WritesRaise(first, ws[1..], locks[1..], now, k - 1);
    } else {
      WritesEvolve(first, ws[1..], locks[1..], now);
    }
  }

  lemma CommitMovesVersion(clock: int, es: seq<Event>, i: nat, k: nat, path: DocPath, v: int)
    requires CommitsVersion(clock, es, i, k, path, v)
    ensures HasVersion(Run(Initial(clock), es[..i]).docs, path, v)
    ensures var docs := Run(Initial(clock), es[..i + 1]).docs; path in docs && docs[path].version > v
  {
    var s := Run(Initial(clock), es[..i]);
    var p, ws := s.commits[es[i].call], es[i].writes;
    CommitAcceptsIff(s.docs, p.project, p.readSet, ws, s.clock);
    assert Admits(s.docs, p.project, ws[k]);
    BatchAccepts(s.docs, p.project, p.readSet, ws, s.clock);
    WritesRaise(s.docs, ws, LockAll(s.docs, ws), s.clock, k);
    RunStep(Initial(clock), es, i);
  }

  /** Of all commits that write a document expecting the same version of it, at
      most one succeeds. */
  lemma VersionCommitsOnce(clock: int, es: seq<Event>, i: nat, k: nat, j: nat, l: nat, path: DocPath, v: int)
    requires i < j && CommitsVersion(clock, es, i, k, path, v)
    ensures !CommitsVersion(clock, es, j, l, path, v)
  {
    if CommitsVersion(clock, es, j, l, path, v) {
      CommitMovesVersion(clock, es, i, k, path, v);
      CommitMovesVersion(clock, es, j, l, path, v);
      VersionsIdentifyRows(Initial(clock), es, i + 1, j, path);
      assert false;
    }
  }
}
