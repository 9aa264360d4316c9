/** What can be read after a write: the effect of each operation on the content
    of the table, of a committed batch, and of every run. */
module WrittenContent {
  import opened Values
  import opened FieldTransforms
  import opened Documents
  import opened Transactions

  // ----- Single documents -----

  /** Every other document is as it was. */
  ghost predicate OnlyAt(t: Table, u: Table, path: DocPath) {
    forall other :: other != path ==> SameRow(t, u, other)
  }

  /** The document reads as `fields` written at `now`; a new one starts at
      version 1, an old one keeps its creation time. */
  ghost predicate WrittenAt(t: Table, u: Table, path: DocPath, fields: Fields, now: int) {
    && Read(u, path).Some? && OnlyAt(t, u, path)
    && var row := Read(u, path).value;
       && row.fields == fields && row.updateTime == Stored(now)
       && (path in t ==> row.version == t[path].version + 1 && row.createTime == t[path].createTime)
       && (path !in t ==> row.version == 1 && row.createTime == Stored(now))
  }

  /** A create succeeds exactly where there is no row, not even a deleted one,
      and what it was given is then what a read returns. */
  lemma CreateIsRead(t: Table, path: DocPath, fields: Fields, now: int)
    ensures var o := Create(t, path, fields, now);
      && (o.result.Ok? <==> path !in t)
      && (o.result.Ok? ==> WrittenAt(t, o.table, path, fields, now))
      && (o.result.Ok? ==> o.result.value.updateTime == Stored(now) && o.result.value.createTime == Some(Stored(now)))
      && (o.result.Err? ==> o.table == t && o.result.error == AlreadyExists)
  {
  }

  /** What a single update asks of the document. */
  predicate Asked(t: Table, path: DocPath, pre: Option<Precondition>) {
    match pre
    case None => true
    case Some(MustExist) => Read(t, path).Some?
    case Some(MustNotExist) => path !in t
    case Some(UpdateTime(seconds, nanos)) =>
      && Read(t, path).Some? && ToInstant(seconds, nanos).Some?
      && var instant := ToInstant(seconds, nanos).value;
         t[path].updateTime % MICRO == 0 && t[path].updateTime <= instant < t[path].updateTime + MICRO
  }

  lemma SameMicrosecond(kept: int, instant: int)
    ensures kept == Stored(instant) <==> kept % MICRO == 0 && kept <= instant < kept + MICRO
  {
  }

  lemma UpdateAnswers(t: Table, path: DocPath, fields: Fields, pre: Option<Precondition>, now: int)
    ensures UpdateDocument(t, path, fields, pre, now).result.Ok? <==> Asked(t, path, pre)
  {
    if pre.Some? && pre.value.UpdateTime? {
      var instant := ToInstant(pre.value.seconds, pre.value.nanos);
      if Read(t, path).Some? && instant.Some? {
        SameMicrosecond(t[path].updateTime, instant.value);
      }
    }
  }

  lemma UpsertIsRead(t: Table, path: DocPath, fields: Fields, now: int)
    ensures WrittenAt(t, Upserted(t, path, fields, now), path, fields, now)
  {
  }

  /** A single update succeeds exactly when its precondition is met, and what it
      was given is then what a read returns. */
  lemma UpdateIsRead(t: Table, path: DocPath, fields: Fields, pre: Option<Precondition>, now: int)
    ensures var o := UpdateDocument(t, path, fields, pre, now);
      && (o.result.Ok? <==> Asked(t, path, pre))
      && (o.result.Ok? ==> WrittenAt(t, o.table, path, fields, now) && o.result.value.updateTime == Stored(now))
      && (o.result.Err? ==> o.table == t)
  {
    UpdateAnswers(t, path, fields, pre, now);
    UpsertIsRead(t, path, fields, now);
    var o := UpdateDocument(t, path, fields, pre, now);
    assert o.result.Ok? ==> o.table == Upserted(t, path, fields, now);
  }

  /** A refused update says why: no such instant, no live document, another
      update time, or a row that is already there. */
  lemma UpdateRefusals(t: Table, path: DocPath, fields: Fields, pre: Precondition, now: int)
    requires UpdateDocument(t, path, fields, Some(pre), now).result.Err?
    ensures var e := UpdateDocument(t, path, fields, Some(pre), now).result.error;
      && (e == InvalidArgument <==> pre.UpdateTime? && ToInstant(pre.seconds, pre.nanos).None?)
      && (e == DocumentNotFound <==> e != InvalidArgument && !pre.MustNotExist? && Read(t, path).None?)
      && (e == OccConflict <==> e != InvalidArgument && pre.UpdateTime? && Read(t, path).Some?)
      && (e == AlreadyExists <==> pre.MustNotExist?)
  {
  }

  /** A single delete succeeds exactly on a live document; nothing is read there
      afterwards, a second delete is refused, and so is a create. */
  lemma DeleteIsGone(t: Table, path: DocPath, pre: Option<Precondition>, fields: Fields, now: int, later: int)
    ensures var o := DeleteDocument(t, path, pre, now);
      && (o.result.Ok? <==> Read(t, path).Some?)
      && (o.result.Ok? ==> path in o.table && Read(o.table, path).None? && OnlyAt(t, o.table, path))
      && (o.result.Ok? ==> o.table[path].version == t[path].version + 1 && o.table[path].updateTime == Stored(now))
      && (o.result.Ok? ==> DeleteDocument(o.table, path, pre, later).result == Err(DocumentNotFound))
      && (o.result.Ok? ==> Create(o.table, path, fields, later).result == Err(AlreadyExists))
      && (o.result.Err? ==> o.table == t && o.result.error == DocumentNotFound)
  {
  }

  // ----- Batches -----

  /** What is stored in a live document, and nothing elsewhere. */
  function Content(t: Table, path: DocPath): Fields {
    match Read(t, path) case Some(row) => row.fields case None => map[]
  }

  /** What the document holds after the write, field by field: a plain update's
      own fields; with transforms, their result on the old content overlaid with
      the update's fields where they name a field, the update's fields elsewhere. */
  ghost predicate Results(w: Write, stored: Fields, now: int, fields: Fields) {
    match w
    case Delete(_, _, _) => false
    case Transform(_, ts) =>
      ApplyAll(stored, map[], ts, now).Ok? && fields == ApplyAll(stored, map[], ts, now).value.fields
    case Update(_, given, _, _, ts) =>
      var overlaid := ApplyAll(stored + given, map[], ts, now);
      overlaid.Ok? && (ts == [] ==> fields == given) && forall f ::
        Lookup(fields, f) == Lookup(if Targets(ts, f) then overlaid.value.fields else given, f)
  }

  lemma LocksAreContent(t: Table, ws: seq<Write>, i: nat)
    requires i < |ws|
    ensures LockAll(t, ws)[i] == Locked(t, ws[i])
  {
    if i > 0 {
      LocksAreContent(t, ws[1..], i - 1);
    }
  }

  lemma NewFieldsAreResults(t: Table, w: Write, now: int)
    requires !w.Delete? && NewFields(w, Locked(t, w), now).Ok?
    ensures Results(w, Content(t, w.path), now, NewFields(w, Locked(t, w), now).value.fields)
  {
    if w.Update? {
      var fields := NewFields(w, Locked(t, w), now).value.fields;
      forall f
        ensures var overlaid := ApplyAll(Content(t, w.path) + w.fields, map[], w.transforms, now);
          overlaid.Ok? && Lookup(fields, f) ==
            Lookup(if Targets(w.transforms, f) then overlaid.value.fields else w.fields, f)
      {
        UpdateTransformsReadStored(w.fields, Content(t, w.path), w.transforms, now, f);
      }
    }
  }

  /** After a commit each document reads as its last write left it, and the
      documents the batch does not name are untouched. */
  lemma BatchIsRead(t: Table, project: string, readSet: ReadSet, ws: seq<Write>, now: int, i: nat)
    requires CommitBatch(t, project, readSet, ws, now).Ok? && LastTo(ws, i)
    ensures var u := CommitBatch(t, project, readSet, ws, now).value.table;
      && (ws[i].Delete? <==> Read(u, ws[i].path).None?)
      && (!ws[i].Delete? ==>
        Results(ws[i], Content(t, ws[i].path), now, Content(u, ws[i].path)) && u[ws[i].path].updateTime == Stored(now))
  {
    BatchAccepts(t, project, readSet, ws, now);
    LastWriteShows(t, ws, LockAll(t, ws), now, i);
    LocksAreContent(t, ws, i);
    if !ws[i].Delete? {
      NewFieldsAreResults(t, ws[i], now);
    }
  }

  lemma BatchKeepsOthers(t: Table, project: string, readSet: ReadSet, ws: seq<Write>, now: int, path: DocPath)
    requires CommitBatch(t, project, readSet, ws, now).Ok? && forall i :: 0 <= i < |ws| ==> ws[i].path != path
    ensures SameRow(t, CommitBatch(t, project, readSet, ws, now).value.table, path)
  {
    BatchAccepts(t, project, readSet, ws, now);
    OthersKeepRow(t, ws, LockAll(t, ws), now, path);
  }

  // ----- When a commit accepts -----

  predicate HasVersion(t: Table, path: DocPath, version: int) {
    Read(t, path).Some? && Read(t, path).value.version == version
  }

  /** What a commit asks for one write: its precondition on its own document, its
      version on the document under the commit's project. */
  predicate Admits(t: Table, project: string, w: Write) {
    !w.Transform? ==>
      && DeleteAllowed(t, w.path, w.precondition)
      && (w.version.Some? ==> HasVersion(t, DocPath(project, w.path.collection, w.path.id), w.version.value))
  }

  lemma PassesIff(t: Table, project: string, w: Write)
    ensures Passes(t, project, w) <==> Admits(t, project, w)
  {
  }

  lemma {:induction false} AppliesIff(t: Table, ws: seq<Write>, locks: seq<Option<Fields>>, now: int)
    requires |locks| == |ws|
    ensures ApplyWrites(t, ws, locks, now).Ok? <==>
      forall i :: 0 <= i < |ws| && !ws[i].Delete? ==> NewFields(ws[i], locks[i], now).Ok?
    decreases |ws|
  {
    if ws != [] {
      var first := ApplyWrite(t, ws[0], locks[0], now);
      if first.Ok? {
        AppliesIff(first.value.table, ws[1..], locks[1..], now);
        if ApplyWrites(t, ws, locks, now).Err? {
          var i :| 0 <= i < |ws[1..]| && !ws[1..][i].Delete? && NewFields(ws[1..][i], locks[1..][i], now).Err?;
          assert ws[i + 1] == ws[1..][i] && locks[i + 1] == locks[1..][i];
        } else {
          forall i | 0 <= i < |ws| && !ws[i].Delete? ensures NewFields(ws[i], locks[i], now).Ok? {
            assert i > 0 ==> ws[i] == ws[1..][i - 1] && locks[i] == locks[1..][i - 1];
          }
        }
      }
    }
  }

  ghost predicate Transformable(t: Table, w: Write, now: int) {
    w.Delete? || exists fields :: Results(w, Content(t, w.path), now, fields)
  }

  lemma NewFieldsIff(t: Table, w: Write, now: int)
    requires !w.Delete?
    ensures NewFields(w, Locked(t, w), now).Ok? <==> Transformable(t, w, now)
  {
    if NewFields(w, Locked(t, w), now).Ok? {
      NewFieldsAreResults(t, w, now);
    } else if w.Update? {
      UpdateTransformsReadStored(w.fields, Content(t, w.path), w.transforms, now, "");
    }
  }

  /** A batch is committed exactly when every write's precondition and version
      hold of the table before the commit, the recorded reads hold, and every
      transform applies to what is stored. */
  lemma CommitAcceptsIff(t: Table, project: string, readSet: ReadSet, ws: seq<Write>, now: int)
    ensures CommitBatch(t, project, readSet, ws, now).Ok? <==>
      && ReadsHold(t, project, readSet)
      && forall i :: 0 <= i < |ws| ==> Admits(t, project, ws[i]) && Transformable(t, ws[i], now)
  {
    BatchAccepts(t, project, readSet, ws, now);
    AppliesIff(t, ws, LockAll(t, ws), now);
    forall i | 0 <= i < |ws|
      ensures Passes(t, project, ws[i]) <==> Admits(t, project, ws[i])
      ensures Transformable(t, ws[i], now) <==> (ws[i].Delete? || NewFields(ws[i], LockAll(t, ws)[i], now).Ok?)
    {
      PassesIff(t, project, ws[i]);
      LocksAreContent(t, ws, i);
      if !ws[i].Delete? {
        NewFieldsIff(t, ws[i], now);
      }
    }
  }

  /** A single write without precondition, transforms or reads behind it is
      committed exactly when the document has the version it expects. */
  lemma VersionedWriteIff(t: Table, project: string, w: Write, version: int, now: int)
    requires !w.Transform? && w.version == Some(version) && w.precondition.None? && (w.Update? ==> w.transforms == [])
    ensures CommitBatch(t, project, map[], [w], now).Ok? <==>
      HasVersion(t, DocPath(project, w.path.collection, w.path.id), version)
  {
    CommitAcceptsIff(t, project, map[], [w], now);
    assert [w][0] == w;
    if w.Update? {
      NewFieldsIff(t, w, now);
    }
  }

  /** An update-time precondition that does not hold. */
  predicate TimeFails(t: Table, w: Write) {
    && !w.Transform? && w.precondition.Some? && w.precondition.value.UpdateTime?
    && !DeleteAllowed(t, w.path, w.precondition)
  }

  predicate FirstTimeFailure(t: Table, ws: seq<Write>, i: nat) {
    i < |ws| && TimeFails(t, ws[i]) && forall j :: 0 <= j < i ==> !TimeFails(t, ws[j])
  }

  lemma TimeCheck(t: Table, project: string, w: Write)
    ensures CheckWrite(Times, t, project, w) ==
      if TimeFails(t, w) then Some(if NoInstant(w) then InvalidArgument else TransactionAborted) else None
  {
  }

  lemma {:induction false} FirstTimeCheck(t: Table, project: string, ws: seq<Write>, i: nat)
    requires FirstTimeFailure(t, ws, i)
    ensures CheckAll(Times, t, project, ws) == Some(if NoInstant(ws[i]) then InvalidArgument else TransactionAborted)
  {
    TimeCheck(t, project, ws[0]);
    if i > 0 {
      assert forall j :: 0 <= j < i ==> ws[1..][j] == ws[j + 1];
      FirstTimeCheck(t, project, ws[1..], i - 1);
    }
  }

  lemma {:induction false} OtherCheck(phase: Phase, t: Table, project: string, ws: seq<Write>)
    requires phase != Times
    ensures CheckAll(phase, t, project, ws) in [None, Some(TransactionAborted)]
  {
    if ws != [] {
      OtherCheck(phase, t, project, ws[1..]);
    }
  }

  /** A refused batch says why: the first update-time precondition that fails
      decides, by whether it names an instant; after that a failed check or read
      aborts, and a batch that passes them all has a transform that does not apply. */
  lemma CommitRefusals(t: Table, project: string, readSet: ReadSet, ws: seq<Write>, now: int)
    requires CommitBatch(t, project, readSet, ws, now).Err?
    ensures var e := CommitBatch(t, project, readSet, ws, now).error;
      && (forall i: nat :: FirstTimeFailure(t, ws, i) ==>
            e == if NoInstant(ws[i]) then InvalidArgument else TransactionAborted)
      && ((forall w <- ws :: !TimeFails(t, w)) ==>
        e == if (forall w <- ws :: Admits(t, project, w)) && ReadsHold(t, project, readSet)
             then InvalidArgument else TransactionAborted)
  {
    forall w <- ws ensures Passes(t, project, w) <==> Admits(t, project, w) {
      PassesIff(t, project, w);
    }
    forall i: nat | FirstTimeFailure(t, ws, i)
      ensures CheckAll(Times, t, project, ws) == Some(if NoInstant(ws[i]) then InvalidArgument else TransactionAborted)
    {
      FirstTimeCheck(t, project, ws, i);
    }
    forall w <- ws ensures CheckWrite(Times, t, project, w).None? <==> !TimeFails(t, w) {
      TimeCheck(t, project, w);
    }
    OtherCheck(Existence, t, project, ws);
    OtherCheck(Versions, t, project, ws);
    ChecksFailIff(Times, t, project, ws);
    ChecksFailIff(Existence, t, project, ws);
    ChecksFailIff(Versions, t, project, ws);
    ApplyErrors(t, ws, LockAll(t, ws), now);
  }

  lemma ChecksFailIff(phase: Phase, t: Table, project: string, ws: seq<Write>)
    ensures CheckAll(phase, t, project, ws).Some? <==> exists w <- ws :: CheckWrite(phase, t, project, w).Some?
  {
    CheckAllPasses(phase, t, project, ws);
    if CheckAll(phase, t, project, ws).Some? {
      var i :| 0 <= i < |ws| && CheckWrite(phase, t, project, ws[i]).Some?;
      assert ws[i] in ws;
    }
  }

  predicate NoInstant(w: Write) {
    && !w.Transform? && w.precondition.Some? && w.precondition.value.UpdateTime?
    && ToInstant(w.precondition.value.seconds, w.precondition.value.nanos).None?
  }

  lemma {:induction false} TransformErrors(fields: Fields, seed: Fields, ts: seq<FieldTransform>, now: int)
    ensures ApplyAll(fields, seed, ts, now).Err? ==> ApplyAll(fields, seed, ts, now).error == InvalidArgument
    decreases |ts|
  {
    if ts != [] {
      var first := Apply(Seeded(fields, seed, ts[0].path), ts[0], now);
      if first.Ok? {
        TransformErrors(first.value.fields, seed, ts[1..], now);
      }
    }
  }

  lemma {:induction false} ApplyErrors(t: Table, ws: seq<Write>, locks: seq<Option<Fields>>, now: int)
    requires |locks| == |ws|
    ensures ApplyWrites(t, ws, locks, now).Err? ==> ApplyWrites(t, ws, locks, now).error == InvalidArgument
    decreases |ws|
  {
    if ws != [] {
      if !ws[0].Delete? {
        var stored := if locks[0].Some? then locks[0].value else map[];
        TransformErrors(stored, map[], ws[0].transforms, now);
        if ws[0].Update? {
          TransformErrors(ws[0].fields, stored, ws[0].transforms, now);
        }
      }
      var first := ApplyWrite(t, ws[0], locks[0], now);
      if first.Ok? {
        ApplyErrors(first.value.table, ws[1..], locks[1..], now);
      }
    }
  }
}
