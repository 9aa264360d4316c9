/** The documents table: the single-document operations, and the batch a
    transaction commits. A table is a value here; module Backend holds it in a
    field and runs the same operations in place. */
module Documents {
  import opened Values
  import opened FieldTransforms

  datatype DocPath = DocPath(project: string, collection: string, id: string)

  /** A row is never removed: a deleted document keeps its row, marked `deleted`. */
  datatype Row = Row(fields: Fields, version: int, createTime: int, updateTime: int, deleted: bool)

  type Table = map<DocPath, Row>

  datatype Precondition = UpdateTime(seconds: int, nanos: int) | MustExist | MustNotExist

  datatype WriteResult = WriteResult(updateTime: int, createTime: Option<int>, reported: seq<FieldValue>)

  // ----- Time -----

  const MICRO: int := 1000

  /** Times are nanoseconds; the time columns keep whole microseconds. */
  function Stored(now: int): (kept: int)
    ensures kept % MICRO == 0 && kept <= now < kept + MICRO
  {
    now - now % MICRO
  }

  const MIN_SECONDS: int := -8_334_601_228_800
  const MAX_SECONDS: int := 8_210_266_876_799

  /** A client's (seconds, nanos) as an instant, when it denotes one. */
  function ToInstant(seconds: int, nanos: int): Option<int> {
    if 0 <= nanos < NANOS && MIN_SECONDS <= seconds <= MAX_SECONDS then Some(seconds * NANOS + nanos) else None
  }

  /** No two pairs denote one instant. */
  lemma InstantsAreUnique(s1: int, n1: int, s2: int, n2: int)
    requires ToInstant(s1, n1).Some? && ToInstant(s1, n1) == ToInstant(s2, n2)
    ensures s1 == s2 && n1 == n2
  {
    assert (s1 - s2) * NANOS == n2 - n1;
  }

  // ----- Single documents -----

  predicate Live(t: Table, path: DocPath) {
    path in t && !t[path].deleted
  }

  function Read(t: Table, path: DocPath): Option<Row> {
    if Live(t, path) then Some(t[path]) else None
  }

  function Inserted(t: Table, path: DocPath, fields: Fields, now: int): Table {
    t[path := Row(fields, 1, Stored(now), Stored(now), false)]
  }

  function Overwritten(t: Table, path: DocPath, fields: Fields, now: int): Table
    requires path in t
  {
    t[path := Row(fields, t[path].version + 1, t[path].createTime, Stored(now), false)]
  }

  function Upserted(t: Table, path: DocPath, fields: Fields, now: int): Table {
    if path in t then Overwritten(t, path, fields, now) else Inserted(t, path, fields, now)
  }

  function Tombstoned(t: Table, path: DocPath, now: int): Table
    requires path in t
  {
    t[path := t[path].(deleted := true, version := t[path].version + 1, updateTime := Stored(now))]
  }

  datatype Outcome<T> = Outcome(table: Table, result: Result<T, CoreError>)

  function Create(t: Table, path: DocPath, fields: Fields, now: int): Outcome<WriteResult> {
    if path in t then Outcome(t, Err(AlreadyExists))
    else Outcome(Inserted(t, path, fields, now), Ok(WriteResult(Stored(now), Some(Stored(now)), [])))
  }

  function UpdateDocument(
      t: Table, path: DocPath, fields: Fields, pre: Option<Precondition>, now: int): Outcome<WriteResult> {
    var done := Ok(WriteResult(Stored(now), None, []));
    match pre
    case None => Outcome(Upserted(t, path, fields, now), done)
    case Some(UpdateTime(seconds, nanos)) => (
      match ToInstant(seconds, nanos)
      case None => Outcome(t, Err(InvalidArgument))
      case Some(instant) =>
        if !Live(t, path) then Outcome(t, Err(DocumentNotFound))
        else if t[path].updateTime != Stored(instant) then Outcome(t, Err(OccConflict))
        else Outcome(Overwritten(t, path, fields, now), done))
    case Some(MustExist) =>
      if Live(t, path) then Outcome(Overwritten(t, path, fields, now), done) else Outcome(t, Err(DocumentNotFound))
    case Some(MustNotExist) =>
      if path in t then Outcome(t, Err(AlreadyExists)) else Outcome(Inserted(t, path, fields, now), done)
  }

  /** The precondition a caller passes with a delete is not looked at. */
  function DeleteDocument(t: Table, path: DocPath, pre: Option<Precondition>, now: int): Outcome<()> {
    if Live(t, path) then Outcome(Tombstoned(t, path, now), Ok(())) else Outcome(t, Err(DocumentNotFound))
  }

  // ----- A commit's batch -----

  datatype Write =
    | Update(path: DocPath, fields: Fields, version: Option<int>, precondition: Option<Precondition>,
             transforms: seq<FieldTransform>)
    | Delete(path: DocPath, version: Option<int>, precondition: Option<Precondition>)
    | Transform(path: DocPath, transforms: seq<FieldTransform>)

  /** The three passes over the batch that come before any write. */
  datatype Phase = Times | Existence | Versions

  /** The version check looks the document up under the commit's own project. */
  function Localized(project: string, path: DocPath): DocPath {
    DocPath(project, path.collection, path.id)
  }

  function CheckWrite(phase: Phase, t: Table, project: string, w: Write): Option<CoreError> {
    if w.Transform? then None
    else
      match phase
      case Times =>
        if w.precondition.None? || !w.precondition.value.UpdateTime? then None
        else (
          match ToInstant(w.precondition.value.seconds, w.precondition.value.nanos)
          case None => Some(InvalidArgument)
          case Some(instant) =>
            if Live(t, w.path) && t[w.path].updateTime == instant then None else Some(TransactionAborted))
      case Existence =>
        if w.precondition == Some(MustExist) && !Live(t, w.path) then Some(TransactionAborted)
        else if w.precondition == Some(MustNotExist) && Live(t, w.path) then Some(TransactionAborted)
        else None
      case Versions =>
        if w.version.None? then None
        else
          var path := Localized(project, w.path);
          if Live(t, path) && t[path].version == w.version.value then None else Some(TransactionAborted)
  }

  function CheckAll(phase: Phase, t: Table, project: string, ws: seq<Write>): Option<CoreError> {
    if ws == [] then None
    else if CheckWrite(phase, t, project, ws[0]).Some? then CheckWrite(phase, t, project, ws[0])
    else CheckAll(phase, t, project, ws[1..])
  }

  /** The stored fields a write's transforms start from, read before any write is applied. */
  function Locked(t: Table, w: Write): Option<Fields> {
    if w.Transform? || (w.Update? && w.transforms != []) then
      Some(if Live(t, w.path) then t[w.path].fields else map[])
    else None
  }

  function LockAll(t: Table, ws: seq<Write>): (locks: seq<Option<Fields>>)
    ensures |locks| == |ws|
  {
    if ws == [] then [] else [Locked(t, ws[0])] + LockAll(t, ws[1..])
  }

  function NewFields(w: Write, locked: Option<Fields>, now: int): Result<Applied, CoreError>
    requires !w.Delete?
  {
    var stored := if locked.Some? then locked.value else map[];
    if w.Transform? then ApplyAll(stored, map[], w.transforms, now)
    else if w.transforms == [] then Ok(Applied(w.fields, []))
    else ApplyAll(w.fields, stored, w.transforms, now)
  }

  datatype Batch = Batch(table: Table, results: seq<WriteResult>)

  function ApplyWrite(t: Table, w: Write, locked: Option<Fields>, now: int): Result<Batch, CoreError> {
    if w.Delete? then
      Ok(Batch(if w.path in t then Tombstoned(t, w.path, now) else t, [WriteResult(now, None, [])]))
    else
      match NewFields(w, locked, now)
      case Err(e) => Err(e)
      case Ok(applied) =>
        Ok(Batch(Upserted(t, w.path, applied.fields, now), [WriteResult(now, None, applied.reported)]))
  }

  function ApplyWrites(t: Table, ws: seq<Write>, locks: seq<Option<Fields>>, now: int): Result<Batch, CoreError>
    requires |locks| == |ws|
    decreases |ws|
  {
    if ws == [] then Ok(Batch(t, []))
    else
      match ApplyWrite(t, ws[0], locks[0], now)
      case Err(e) => Err(e)
      case Ok(first) => Then(first.results, ApplyWrites(first.table, ws[1..], locks[1..], now))
  }

  function Then(results: seq<WriteResult>, rest: Result<Batch, CoreError>): Result<Batch, CoreError> {
    match rest
    case Err(e) => Err(e)
    case Ok(b) => Ok(Batch(b.table, results + b.results))
  }

  lemma ThenTwice(a: seq<WriteResult>, b: seq<WriteResult>, r: Result<Batch, CoreError>)
    ensures Then(a, Then(b, r)) == Then(a + b, r) && Then([], r) == r
  {
    if r.Ok? {
      assert a + (b + r.value.results) == (a + b) + r.value.results && [] + r.value.results == r.value.results;
    }
  }

  type ReadSet = map<string, Option<int>>

  /** The read-set key of a document, and the document a key is taken to name. */
  function ReadKey(path: DocPath): string {
    path.collection + "/" + path.id
  }

  function LastSlash(key: string): (r: Option<nat>)
    ensures r.Some? ==> r.value < |key| && key[r.value] == '/' && '/' !in key[r.value + 1..]
    ensures r.None? ==> '/' !in key
  {
    if key == "" then None
    else if key[|key| - 1] == '/' then Some(|key| - 1)
    else LastSlash(key[..|key| - 1])
  }

  function KeyPath(project: string, key: string): Option<DocPath> {
    var at := LastSlash(key);
    if at.None? then None else Some(DocPath(project, key[..at.value], key[at.value + 1..]))
  }

  predicate ReadHolds(t: Table, project: string, key: string, version: Option<int>) {
    var path := KeyPath(project, key);
    path.None? ||
    match version
    case Some(v) => Live(t, path.value) && t[path.value].version == v
    case None => !Live(t, path.value)
  }

  predicate ReadsHold(t: Table, project: string, readSet: ReadSet) {
    forall key :: key in readSet ==> ReadHolds(t, project, key, readSet[key])
  }

  /** The writes of a commit: every check, then every lock, then every write. */
  function CommitBatch(
      t: Table, project: string, readSet: ReadSet, ws: seq<Write>, now: int): Result<Batch, CoreError> {
    if CheckAll(Times, t, project, ws).Some? then Err(CheckAll(Times, t, project, ws).value)
    else if CheckAll(Existence, t, project, ws).Some? then Err(CheckAll(Existence, t, project, ws).value)
    else if CheckAll(Versions, t, project, ws).Some? then Err(CheckAll(Versions, t, project, ws).value)
    else if !ReadsHold(t, project, readSet) then Err(TransactionAborted)
    else ApplyWrites(t, ws, LockAll(t, ws), now)
  }

  // ----- A batch against one write at a time -----

  predicate Passes(t: Table, project: string, w: Write) {
    && CheckWrite(Times, t, project, w).None?
    && CheckWrite(Existence, t, project, w).None?
    && CheckWrite(Versions, t, project, w).None?
  }

  /** One write: checked and started from `t`, applied to `u`. */
  function WriteFrom(t: Table, u: Table, project: string, w: Write, now: int): Option<Batch> {
    if !Passes(t, project, w) then None
    else
      match ApplyWrite(u, w, Locked(t, w), now)
      case Err(_) => None
      case Ok(b) => Some(b)
  }

  function Followed(results: seq<WriteResult>, rest: Option<Batch>): Option<Batch> {
    match rest
    case None => None
    case Some(b) => Some(Batch(b.table, results + b.results))
  }

  /** The reference: each write is checked, read and applied before the next is looked at. */
  function OneByOne(t: Table, project: string, ws: seq<Write>, now: int): Option<Batch>
    decreases |ws|
  {
    if ws == [] then Some(Batch(t, []))
    else
      match WriteFrom(t, t, project, ws[0], now)
      case None => None
      case Some(first) => Followed(first.results, OneByOne(first.table, project, ws[1..], now))
  }

  /** Every write checked and started from `t` while `u` takes the writes. */
  function AllFrom(t: Table, u: Table, project: string, ws: seq<Write>, now: int): Option<Batch>
    decreases |ws|
  {
    if ws == [] then Some(Batch(u, []))
    else
      match WriteFrom(t, u, project, ws[0], now)
      case None => None
      case Some(first) => Followed(first.results, AllFrom(t, first.table, project, ws[1..], now))
  }

  predicate SameRow(t: Table, u: Table, path: DocPath) {
    (path in t <==> path in u) && (path in t ==> t[path] == u[path])
  }

  /** The tables agree on every row that `w` is checked against or starts from. */
  predicate SameFor(t: Table, u: Table, project: string, w: Write) {
    SameRow(t, u, w.path) && SameRow(t, u, Localized(project, w.path))
  }

  function Paths(ws: seq<Write>): seq<DocPath> {
    seq(|ws|, i requires 0 <= i < |ws| => ws[i].path)
  }

  /** No write touches a row that a later write of the batch looks at. */
  predicate Separated(project: string, paths: seq<DocPath>) {
    forall i, j :: 0 <= i < j < |paths| ==> paths[i] != paths[j] && paths[i] != Localized(project, paths[j])
  }

  lemma {:induction false} CheckAllPasses(phase: Phase, t: Table, project: string, ws: seq<Write>)
    ensures CheckAll(phase, t, project, ws).None? <==>
      forall i :: 0 <= i < |ws| ==> CheckWrite(phase, t, project, ws[i]).None?
  {
    if ws != [] {
      CheckAllPasses(phase, t, project, ws[1..]);
      if CheckAll(phase, t, project, ws).None? {
        forall i | 0 <= i < |ws| ensures CheckWrite(phase, t, project, ws[i]).None? {
          assert i > 0 ==> ws[i] == ws[1..][i - 1];
        }
      } else if CheckWrite(phase, t, project, ws[0]).None? {
        var i :| 0 <= i < |ws[1..]| && CheckWrite(phase, t, project, ws[1..][i]).Some?;
        assert ws[i + 1] == ws[1..][i];
      }
    }
  }

  lemma BatchAccepts(t: Table, project: string, readSet: ReadSet, ws: seq<Write>, now: int)
    ensures CommitBatch(t, project, readSet, ws, now).Ok? <==>
      && (forall i :: 0 <= i < |ws| ==> Passes(t, project, ws[i]))
      && ReadsHold(t, project, readSet)
      && ApplyWrites(t, ws, LockAll(t, ws), now).Ok?
    ensures CommitBatch(t, project, readSet, ws, now).Ok? ==>
      CommitBatch(t, project, readSet, ws, now) == ApplyWrites(t, ws, LockAll(t, ws), now)
  {
    CheckAllPasses(Times, t, project, ws);
    CheckAllPasses(Existence, t, project, ws);
    CheckAllPasses(Versions, t, project, ws);
  }

  lemma WriteTouchesItsRow(t: Table, w: Write, locked: Option<Fields>, now: int, path: DocPath)
    requires ApplyWrite(t, w, locked, now).Ok? && path != w.path
    ensures SameRow(t, ApplyWrite(t, w, locked, now).value.table, path)
  {
  }

  lemma SameFromEither(t: Table, u: Table, project: string, w: Write, now: int)
    requires SameFor(t, u, project, w)
    ensures WriteFrom(t, u, project, w, now) == WriteFrom(u, u, project, w, now)
  {
  }

  lemma StillSame(t: Table, u: Table, project: string, ws: seq<Write>, now: int, i: nat)
    requires 0 < i < |ws| && Separated(project, Paths(ws)) && SameFor(t, u, project, ws[i])
    requires WriteFrom(u, u, project, ws[0], now).Some?
    ensures SameFor(t, WriteFrom(u, u, project, ws[0], now).value.table, project, ws[i])
  {
    assert Paths(ws)[0] != Paths(ws)[i] && Paths(ws)[0] != Localized(project, Paths(ws)[i]);
    WriteTouchesItsRow(u, ws[0], Locked(u, ws[0]), now, ws[i].path);
    WriteTouchesItsRow(u, ws[0], Locked(u, ws[0]), now, Localized(project, ws[i].path));
  }

  /** Looking at `t` is as good as looking at the table being written, as long
      as the two agree on the rows the batch looks at. */
  lemma {:induction false} LookingBack(t: Table, u: Table, project: string, ws: seq<Write>, now: int)
    requires Separated(project, Paths(ws))
    requires forall i :: 0 <= i < |ws| ==> SameFor(t, u, project, ws[i])
    ensures OneByOne(u, project, ws, now) == AllFrom(t, u, project, ws, now)
    decreases |ws|
  {
    if ws != [] {
      SameFromEither(t, u, project, ws[0], now);
      var first := WriteFrom(u, u, project, ws[0], now);
      if first.Some? {
        forall i | 0 <= i < |ws[1..]| ensures SameFor(t, first.value.table, project, ws[1..][i]) {
          StillSame(t, u, project, ws, now, i + 1);
        }
        SeparatedTail(project, ws);
        LookingBack(t, first.value.table, project, ws[1..], now);
      }
    }
  }

  /** Three passes of checks and one of locks are one pass that does all four. */
  lemma {:induction false} PassesFuse(t: Table, u: Table, project: string, ws: seq<Write>, now: int)
    ensures AllFrom(t, u, project, ws, now).Some? <==>
      (forall i :: 0 <= i < |ws| ==> Passes(t, project, ws[i])) && ApplyWrites(u, ws, LockAll(t, ws), now).Ok?
    ensures AllFrom(t, u, project, ws, now).Some? ==>
      AllFrom(t, u, project, ws, now).value == ApplyWrites(u, ws, LockAll(t, ws), now).value
    decreases |ws|
  {
    if ws != [] {
      PassesTail(t, project, ws);
      assert LockAll(t, ws)[0] == Locked(t, ws[0]) && LockAll(t, ws)[1..] == LockAll(t, ws[1..]);
      var first := ApplyWrite(u, ws[0], Locked(t, ws[0]), now);
      if first.Ok? {
        PassesFuse(t, first.value.table, project, ws[1..], now);
      }
    }
  }

  lemma SeparatedTail(project: string, ws: seq<Write>)
    requires ws != [] && Separated(project, Paths(ws))
    ensures Separated(project, Paths(ws[1..]))
  {
    assert Paths(ws[1..]) == Paths(ws)[1..];
  }

  lemma PassesTail(t: Table, project: string, ws: seq<Write>)
    requires ws != []
    ensures (forall i :: 0 <= i < |ws| ==> Passes(t, project, ws[i])) <==>
      Passes(t, project, ws[0]) && forall i :: 0 <= i < |ws[1..]| ==> Passes(t, project, ws[1..][i])
  {
    if forall i :: 0 <= i < |ws| ==> Passes(t, project, ws[i]) {
    } else {
      var i :| 0 <= i < |ws| && !Passes(t, project, ws[i]);
      assert i > 0 ==> ws[1..][i - 1] == ws[i];
    }
  }

  /** Committing the batch accepts exactly when its reads hold and every write
      passes in turn, and then leaves the same table and the same results. */
  ghost predicate BatchIsSequential(t: Table, project: string, readSet: ReadSet, ws: seq<Write>, now: int) {
    var batch, single := CommitBatch(t, project, readSet, ws, now), OneByOne(t, project, ws, now);
    && (batch.Ok? <==> ReadsHold(t, project, readSet) && single.Some?)
    && (batch.Ok? ==> batch.value == single.value)
  }

  lemma SeparatedBatchIsSequential(t: Table, project: string, readSet: ReadSet, ws: seq<Write>, now: int)
    requires Separated(project, Paths(ws))
    ensures BatchIsSequential(t, project, readSet, ws, now)
  {
    BatchAccepts(t, project, readSet, ws, now);
    LookingBack(t, t, project, ws, now);
    PassesFuse(t, t, project, ws, now);
  }

  // ----- Batches that are not separated -----

  predicate Plain(w: Write) {
    w.Update? && w.version.None? && w.precondition.None? && w.transforms == []
  }

  lemma {:induction false} TransformFreeApplies(t: Table, ws: seq<Write>, locks: seq<Option<Fields>>, now: int)
    requires |locks| == |ws| && forall i :: 0 <= i < |ws| ==> ws[i].Update? && ws[i].transforms == []
    ensures ApplyWrites(t, ws, locks, now).Ok?
    decreases |ws|
  {
    if ws != [] {
      TransformFreeApplies(Upserted(t, ws[0].path, ws[0].fields, now), ws[1..], locks[1..], now);
    }
  }

  lemma {:induction false} SecondCreateRefused(t: Table, project: string, ws: seq<Write>, j: nat, now: int)
    requires j < |ws| && ws[j].Update? && ws[j].precondition == Some(MustNotExist)
    requires forall i :: 0 <= i < |ws| ==> ws[i].Update?
    requires Live(t, ws[j].path) || exists i :: 0 <= i < j && ws[i].path == ws[j].path
    ensures OneByOne(t, project, ws, now).None?
    decreases |ws|
  {
    if j == 0 {
      assert CheckWrite(Existence, t, project, ws[0]).Some?;
    } else if Passes(t, project, ws[0]) && ApplyWrite(t, ws[0], Locked(t, ws[0]), now).Ok? {
      var u := ApplyWrite(t, ws[0], Locked(t, ws[0]), now).value.table;
      assert ws[1..][j - 1] == ws[j];
      if !Live(u, ws[j].path) {
        var i :| 0 <= i < j && ws[i].path == ws[j].path;
        assert ws[1..][i - 1].path == ws[j].path;
      }
      SecondCreateRefused(u, project, ws[1..], j - 1, now);
    }
  }

  lemma {:induction false} PlainAccepted(t: Table, project: string, ws: seq<Write>, now: int)
    requires forall i :: 0 <= i < |ws| ==> Plain(ws[i])
    ensures OneByOne(t, project, ws, now).Some?
    decreases |ws|
  {
    if ws != [] {
      assert Passes(t, project, ws[0]);
      PlainAccepted(Upserted(t, ws[0].path, ws[0].fields, now), project, ws[1..], now);
    }
  }

  lemma {:induction false} FirstVersionAccepted(
      t: Table, project: string, ws: seq<Write>, j: nat, local: DocPath, now: int)
    requires j < |ws| && ws[j].Update? && ws[j].version == Some(1) && ws[j].precondition.None? && ws[j].transforms == []
    requires local == Localized(project, ws[j].path)
    requires forall i :: 0 <= i < |ws| && i != j ==> Plain(ws[i])
    requires forall i, k :: 0 <= i < k < |ws| ==> ws[i].path != ws[k].path
    requires || (Live(t, local) && t[local].version == 1 && forall i :: 0 <= i < j ==> ws[i].path != local)
             || (local !in t && exists i :: 0 <= i < j && ws[i].path == local)
    ensures OneByOne(t, project, ws, now).Some?
    decreases |ws|
  {
    var u, rest := Upserted(t, ws[0].path, ws[0].fields, now), ws[1..];
    assert Passes(t, project, ws[0]);
    if j == 0 {
      PlainAccepted(u, project, rest, now);
    } else {
      assert rest[j - 1] == ws[j];
      if ws[0].path == local {
        assert forall i :: 0 <= i < j - 1 ==> rest[i] == ws[i + 1];
      } else if local !in t {
        var i :| 0 <= i < j && ws[i].path == local;
        assert rest[i - 1].path == local;
      }
      FirstVersionAccepted(u, project, rest, j - 1, local, now);
    }
  }

  /** Plain updates of `paths`, except that write `j` is `special`. */
  function Probe(paths: seq<DocPath>, j: nat, special: Write): seq<Write> {
    seq(|paths|, i requires 0 <= i < |paths| => if i == j then special else Update(paths[i], map[], None, None, []))
  }

  lemma DuplicateBreaks(project: string, paths: seq<DocPath>, i: nat, j: nat) returns (ws: seq<Write>)
    requires i < j < |paths| && paths[i] == paths[j]
    ensures Paths(ws) == paths && !BatchIsSequential(map[], project, map[], ws, 0)
  {
    ws := Probe(paths, j, Update(paths[j], map[], None, Some(MustNotExist), []));
    assert ws[i].path == ws[j].path;
    SecondCreateRefused(map[], project, ws, j, 0);
    BatchAccepts(map[], project, map[], ws, 0);
    TransformFreeApplies(map[], ws, LockAll(map[], ws), 0);
  }

  lemma RelocationBreaks(project: string, paths: seq<DocPath>, i: nat, j: nat) returns (ws: seq<Write>)
    requires i < j < |paths| && paths[i] == Localized(project, paths[j])
    requires forall k, l :: 0 <= k < l < |paths| ==> paths[k] != paths[l]
    ensures Paths(ws) == paths && !BatchIsSequential(map[], project, map[], ws, 0)
  {
    ws := Probe(paths, j, Update(paths[j], map[], Some(1), None, []));
    assert forall k, l :: 0 <= k < l < |ws| ==>
      ws[k].path == paths[k] && ws[l].path == paths[l] && paths[k] != paths[l];
    assert ws[i].path == paths[i];
    FirstVersionAccepted(map[], project, ws, j, paths[i], 0);
    BatchAccepts(map[], project, map[], ws, 0);
    assert !Passes(map[], project, ws[j]);
  }

  /** The documents a batch writes decide whether committing it can ever differ
      from writing one document at a time. */
  lemma BatchIsSequentialIff(project: string, paths: seq<DocPath>)
    ensures Separated(project, paths) <==>
      forall t: Table, readSet: ReadSet, ws: seq<Write>, now: int ::
        Paths(ws) == paths ==> BatchIsSequential(t, project, readSet, ws, now)
  {
    if Separated(project, paths) {
      forall t: Table, readSet: ReadSet, ws: seq<Write>, now: int | Paths(ws) == paths
        ensures BatchIsSequential(t, project, readSet, ws, now)
      {
        SeparatedBatchIsSequential(t, project, readSet, ws, now);
      }
    } else if i, j :| 0 <= i < j < |paths| && paths[i] == paths[j] {
      var ws := DuplicateBreaks(project, paths, i, j);
    } else {
      var i, j :| 0 <= i < j < |paths| && (paths[i] == paths[j] || paths[i] == Localized(project, paths[j]));
      var ws := RelocationBreaks(project, paths, i, j);
    }
  }

  // ----- Read-set keys -----

  lemma {:induction false} NoEarlierThan(key: string, at: nat)
    requires at < |key| && key[at] == '/'
    ensures LastSlash(key).Some? && LastSlash(key).value >= at
  {
    if key[|key| - 1] != '/' {
      NoEarlierThan(key[..|key| - 1], at);
    }
  }

  /** A key leads back to the document it was made from exactly when the document id holds no '/'. */
  lemma ReadKeyRoundTripsIff(path: DocPath)
    ensures KeyPath(path.project, ReadKey(path)) == Some(path) <==> '/' !in path.id
  {
    var key, at := ReadKey(path), |path.collection|;
    assert key[at] == '/' && key[..at] == path.collection && key[at + 1..] == path.id;
    var last := LastSlash(key).value;
    NoEarlierThan(key, at);
    if at < last {
      assert key[at + 1..][last - at - 1] == '/';
    }
  }

  // ----- A commit against the single-document operations -----

  /** "Must not exist" means no row to the single-document operations and no
      live document to a commit: they agree unless the document was deleted. */
  lemma CreationAgreesIff(t: Table, path: DocPath, fields: Fields, project: string, now: int)
    ensures Create(t, path, fields, now).result.Ok? ==
      UpdateDocument(t, path, fields, Some(MustNotExist), now).result.Ok?
    ensures (Create(t, path, fields, now).result.Ok? <==>
             CommitBatch(t, project, map[], [Update(path, fields, None, Some(MustNotExist), [])], now).Ok?)
      <==> !(path in t && t[path].deleted)
  {
    var w := Update(path, fields, None, Some(MustNotExist), []);
    BatchAccepts(t, project, map[], [w], now);
    TransformFreeApplies(t, [w], LockAll(t, [w]), now);
    assert Passes(t, project, w) <==> !Live(t, path);
    assert [w][0] == w;
  }

  /** What a commit asks of a document before it deletes it. */
  predicate DeleteAllowed(t: Table, path: DocPath, pre: Option<Precondition>) {
    match pre
    case None => true
    case Some(MustExist) => Live(t, path)
    case Some(MustNotExist) => !Live(t, path)
    case Some(UpdateTime(seconds, nanos)) => Live(t, path) && ToInstant(seconds, nanos) == Some(t[path].updateTime)
  }

  lemma CommitDeletes(t: Table, path: DocPath, pre: Option<Precondition>, project: string, now: int)
    ensures CommitBatch(t, project, map[], [Delete(path, None, pre)], now).Ok? <==> DeleteAllowed(t, path, pre)
    ensures DeleteAllowed(t, path, pre) ==>
      CommitBatch(t, project, map[], [Delete(path, None, pre)], now).value.table ==
      if path in t then Tombstoned(t, path, now) else t
  {
    var w := Delete(path, None, pre);
    BatchAccepts(t, project, map[], [w], now);
    assert [w][0] == w && [w][1..] == [] && LockAll(t, [w]) == [None];
    assert Passes(t, project, w) <==> DeleteAllowed(t, path, pre);
    var first := if path in t then Tombstoned(t, path, now) else t;
    assert ApplyWrites(first, [], [], now) == Ok(Batch(first, []));
    assert LockAll(t, [w])[1..] == [];
  }

  /** A single delete wants a live document and looks at no precondition; a
      commit's delete wants just its precondition. They answer alike exactly
      when the document is live and the precondition true, or neither holds,
      and then leave the same table when they delete. */
  lemma DeletionAgreesIff(t: Table, path: DocPath, pre: Option<Precondition>, project: string, now: int)
    ensures var single, batch := DeleteDocument(t, path, pre, now),
                                 CommitBatch(t, project, map[], [Delete(path, None, pre)], now);
      && ((single.result.Ok? <==> batch.Ok?) <==>
          match pre
          case None => Live(t, path)
          case Some(MustExist) => true
          case Some(MustNotExist) => false
          case Some(UpdateTime(seconds, nanos)) =>
            Live(t, path) ==> ToInstant(seconds, nanos) == Some(t[path].updateTime))
      && (single.result.Ok? && batch.Ok? ==> single.table == batch.value.table)
  {
    CommitDeletes(t, path, pre, project, now);
  }

  predicate Aligned(t: Table) {
    forall path :: path in t ==> t[path].updateTime % MICRO == 0
  }

  lemma CommitUpdates(t: Table, path: DocPath, fields: Fields, pre: Precondition, project: string, now: int)
    requires pre.UpdateTime?
    ensures CommitBatch(t, project, map[], [Update(path, fields, None, Some(pre), [])], now).Ok? <==>
      Live(t, path) && ToInstant(pre.seconds, pre.nanos) == Some(t[path].updateTime)
  {
    var w := Update(path, fields, None, Some(pre), []);
    BatchAccepts(t, project, map[], [w], now);
    TransformFreeApplies(t, [w], LockAll(t, [w]), now);
    assert [w][0] == w;
  }

  lemma NanosDecide(seconds: int, nanos: int)
    ensures (seconds * NANOS + nanos) % MICRO == nanos % MICRO
  {
    assert seconds * NANOS + nanos == MICRO * (seconds * 1_000_000) + nanos;
  }

  /** Both accept the precondition, or neither does. */
  predicate SameAnswer(t: Table, path: DocPath, fields: Fields, pre: Precondition, project: string, now: int) {
    UpdateDocument(t, path, fields, Some(pre), now).result.Ok? <==>
    CommitBatch(t, project, map[], [Update(path, fields, None, Some(pre), [])], now).Ok?
  }

  lemma WholeMicrosAgree(t: Table, path: DocPath, fields: Fields, pre: Precondition, project: string, now: int)
    requires Aligned(t) && pre.UpdateTime?
    requires ToInstant(pre.seconds, pre.nanos).None? || pre.nanos % MICRO == 0
    ensures SameAnswer(t, path, fields, pre, project, now)
  {
    CommitUpdates(t, path, fields, pre, project, now);
    NanosDecide(pre.seconds, pre.nanos);
  }

  lemma StoredIsWhole(now: int)
    ensures Stored(now) % MICRO == 0 && (Stored(now) == now <==> now % MICRO == 0)
  {
  }

  /** A row written at the start of the microsecond tells the two apart. */
  lemma RowTellsApart(
      t: Table, path: DocPath, fields: Fields, pre: Precondition, instant: int, project: string, now: int)
    requires pre.UpdateTime? && ToInstant(pre.seconds, pre.nanos) == Some(instant) && instant % MICRO != 0
    requires t == map[path := Row(map[], 1, Stored(instant), Stored(instant), false)]
    ensures Aligned(t) && !SameAnswer(t, path, fields, pre, project, now)
  {
    StoredIsWhole(instant);
    CommitUpdates(t, path, fields, pre, project, now);
  }

  lemma FractionsDiffer(path: DocPath, fields: Fields, pre: Precondition, project: string, now: int) returns (t: Table)
    requires pre.UpdateTime? && ToInstant(pre.seconds, pre.nanos).Some? && pre.nanos % MICRO != 0
    ensures Aligned(t) && !SameAnswer(t, path, fields, pre, project, now)
  {
    var instant := ToInstant(pre.seconds, pre.nanos).value;
    NanosDecide(pre.seconds, pre.nanos);
    t := map[path := Row(map[], 1, Stored(instant), Stored(instant), false)];
    RowTellsApart(t, path, fields, pre, instant, project, now);
  }

  /** An update-time precondition means the same to a commit and to a single
      update, whatever is stored, exactly when it names a whole microsecond. */
  lemma UpdateTimeAgreesIff(path: DocPath, fields: Fields, pre: Precondition, project: string, now: int)
    requires pre.UpdateTime?
    ensures ToInstant(pre.seconds, pre.nanos).None? || pre.nanos % MICRO == 0 <==>
      forall t: Table :: Aligned(t) ==> SameAnswer(t, path, fields, pre, project, now)
  {
    if ToInstant(pre.seconds, pre.nanos).None? || pre.nanos % MICRO == 0 {
      forall t: Table | Aligned(t) ensures SameAnswer(t, path, fields, pre, project, now) {
        WholeMicrosAgree(t, path, fields, pre, project, now);
      }
    } else {
      var t := FractionsDiffer(path, fields, pre, project, now);
    }
  }

  predicate LastTo(ws: seq<Write>, i: nat) {
    i < |ws| && forall j :: i < j < |ws| ==> ws[j].path != ws[i].path
  }

  /** What a write leaves in its row: nothing live after a delete, else its new
      fields, stamped with the time of the write. */
  predicate Shows(t: Table, w: Write, locked: Option<Fields>, now: int) {
    if w.Delete? then Read(t, w.path).None?
    else
      var content := NewFields(w, locked, now);
      && Read(t, w.path).Some? && t[w.path].updateTime == Stored(now)
      && content.Ok? && t[w.path].fields == content.value.fields
  }

  predicate Reports(r: WriteResult, w: Write, locked: Option<Fields>, now: int) {
    r.updateTime == now && (!w.Delete? ==>
      NewFields(w, locked, now).Ok? && r.reported == NewFields(w, locked, now).value.reported)
  }

  lemma WriteShows(t: Table, w: Write, locked: Option<Fields>, now: int)
    requires ApplyWrite(t, w, locked, now).Ok?
    ensures var b := ApplyWrite(t, w, locked, now).value;
      Shows(b.table, w, locked, now) && |b.results| == 1 && Reports(b.results[0], w, locked, now)
  {
  }

  /** After a committed batch, the last write to a document is what its row shows. */
  lemma {:induction false} LastWriteShows(t: Table, ws: seq<Write>, locks: seq<Option<Fields>>, now: int, i: nat)
    requires |locks| == |ws| && ApplyWrites(t, ws, locks, now).Ok? && LastTo(ws, i)
    ensures var b := ApplyWrites(t, ws, locks, now).value;
      && |b.results| == |ws| && Reports(b.results[i], ws[i], locks[i], now)
      && Shows(b.table, ws[i], locks[i], now)
    decreases |ws|
  {
    var first := ApplyWrite(t, ws[0], locks[0], now).value;
    WriteShows(t, ws[0], locks[0], now);
    if i > 0 {
      LastWriteShows(first.table, ws[1..], locks[1..], now, i - 1);
    } else {
      assert forall j :: 0 <= j < |ws[1..]| ==> ws[1..][j] == ws[j + 1];
      OthersKeepRow(first.table, ws[1..], locks[1..], now, ws[0].path);
    }
  }

  lemma {:induction false} OthersKeepRow(t: Table, ws: seq<Write>, locks: seq<Option<Fields>>, now: int, path: DocPath)
    requires |locks| == |ws| && ApplyWrites(t, ws, locks, now).Ok?
    requires forall j :: 0 <= j < |ws| ==> ws[j].path != path
    ensures SameRow(t, ApplyWrites(t, ws, locks, now).value.table, path) &&
      |ApplyWrites(t, ws, locks, now).value.results| == |ws|
    decreases |ws|
  {
    if ws != [] {
      WriteTouchesItsRow(t, ws[0], locks[0], now, path);
      OthersKeepRow(ApplyWrite(t, ws[0], locks[0], now).value.table, ws[1..], locks[1..], now, path);
    }
  }

  /** The update time a commit returns works as the precondition of the next
      single update; as the precondition of the next commit it works exactly
      when the commit's clock reading was a whole microsecond. */
  lemma ReturnedTimeUsableIff(
      t: Table, project: string, readSet: ReadSet, ws: seq<Write>, now: int, i: nat, next: Fields, later: int)
    requires CommitBatch(t, project, readSet, ws, now).Ok?
    requires LastTo(ws, i) && !ws[i].Delete?
    requires ToInstant(now / NANOS, now % NANOS).Some?
    ensures |CommitBatch(t, project, readSet, ws, now).value.results| == |ws|
    ensures var b := CommitBatch(t, project, readSet, ws, now).value;
      var pre := Some(UpdateTime(b.results[i].updateTime / NANOS, b.results[i].updateTime % NANOS));
      && UpdateDocument(b.table, ws[i].path, next, pre, later).result.Ok?
      && (CommitBatch(b.table, project, map[], [Update(ws[i].path, next, None, pre, [])], later).Ok? <==>
          now % MICRO == 0)
  {
    BatchAccepts(t, project, readSet, ws, now);
    LastWriteShows(t, ws, LockAll(t, ws), now, i);
    var b := CommitBatch(t, project, readSet, ws, now).value;
    var w := Update(ws[i].path, next, None, Some(UpdateTime(now / NANOS, now % NANOS)), []);
    BatchAccepts(b.table, project, map[], [w], later);
    TransformFreeApplies(b.table, [w], LockAll(b.table, [w]), later);
    assert [w][0] == w;
    assert now / NANOS * NANOS + now % NANOS == now;
  }
}
