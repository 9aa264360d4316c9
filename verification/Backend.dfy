/** The Postgres storage adapter: an object that holds the documents and
    transactions tables and updates them in place. */
module Backend {
  import opened Values
  import opened FieldTransforms
  import opened Documents
  import opened Transactions

  datatype Called = Called(docs: Table, txns: Txns, result: Result<seq<WriteResult>, CoreError>)

  /** A whole commit call: its status check reads the clock at `loaded`, its database transaction at `applied`. */
  function CommitCall(
      docs: Table, txns: Txns, project: string, id: TxnId, writes: seq<Write>, loaded: int, applied: int): Called {
    var c := Load(txns, id, project, loaded);
    match c.result
    case Err(e) => Called(docs, c.txns, Err(e))
    case Ok(readSet) => Finished(docs, c.txns, id, CommitBatch(docs, project, readSet, writes, applied))
  }

  function Finished(docs: Table, txns: Txns, id: TxnId, batch: Result<Batch, CoreError>): Called {
    match batch
    case Err(e) => Called(docs, txns, Err(e))
    case Ok(b) => Called(b.table, MarkCommitted(txns, id), Ok(b.results))
  }

  /** Runs the transforms of one write over `fields`. */
  method TransformFields(fields: Fields, seed: Fields, ts: seq<FieldTransform>, now: int)
      returns (r: Result<Applied, CoreError>)
    ensures r == ApplyAll(fields, seed, ts, now)
  {
    var merged, reported := fields, [];
    var i := 0;
    assert ts[0..] == ts;
    PrependedTwice([], [], ApplyAll(fields, seed, ts, now));
    while i < |ts|
      invariant 0 <= i <= |ts|
      invariant ApplyAll(fields, seed, ts, now) == Prepended(reported, ApplyAll(merged, seed, ts[i..], now))
    {
      assert ts[i..][0] == ts[i] && ts[i..][1..] == ts[i + 1..];
      ghost var step := Apply(Seeded(merged, seed, ts[i].path), ts[i], now);
      if step.Ok? {
        PrependedTwice(reported, step.value.reported, ApplyAll(step.value.fields, seed, ts[i + 1..], now));
      }
      if ts[i].path !in merged && ts[i].path in seed {
        merged := merged[ts[i].path := seed[ts[i].path]];
      }
      match Compute(Lookup(merged, ts[i].path), ts[i], now) {
        case Err(e) => return Err(e);
        case Ok(c) =>
          if c.field.Some? {
            merged := merged[ts[i].path := c.field.value];
          }
          if c.reported.Some? {
            reported := reported + [c.reported.value];
          }
      }
      i := i + 1;
    }
    assert reported + [] == reported;
    return Ok(Applied(merged, reported));
  }

  lemma LockNext(docs: Table, writes: seq<Write>, i: nat, locks: seq<Option<Fields>>)
    requires i < |writes|
    ensures locks + LockAll(docs, writes[i..]) == (locks + [Locked(docs, writes[i])]) + LockAll(docs, writes[i + 1..])
  {
    assert writes[i..][0] == writes[i] && writes[i..][1..] == writes[i + 1..];
  }

  class PostgresBackend {
    var docs: Table
    var txns: Txns

    constructor ()
      ensures docs == map[] && txns == map[]
    {
      docs, txns := map[], map[];
    }

    method GetDocument(path: DocPath, txn: Option<TxnId>, now: int) returns (r: Result<Option<Row>, CoreError>)
      modifies this`txns
      ensures txn.None? ==> txns == old(txns) && r == Ok(Read(docs, path))
      ensures txn.Some? ==>
        var c := RecordRead(old(txns), txn.value, path, VersionOf(Read(docs, path)), now);
        txns == c.txns && r == if c.result.Ok? then Ok(Read(docs, path)) else Err(c.result.error)
    {
      var row := if path in docs && !docs[path].deleted then Some(docs[path]) else None;
      if txn.Some? {
        var id := txn.value;
        if id !in txns || txns[id].project != path.project || txns[id].status != Active ||
          Stored(now) - txns[id].startedAt >= 60 * NANOS {
          return Err(TransactionNotFound);
        }
        var version := if row.Some? then Some(row.value.version) else None;
        txns := txns[id := txns[id].(readSet := txns[id].readSet[ReadKey(path) := version])];
      }
      return Ok(row);
    }

    method CreateDocument(path: DocPath, fields: Fields, now: int) returns (r: Result<WriteResult, CoreError>)
      modifies this`docs
      ensures Outcome(docs, r) == Create(old(docs), path, fields, now)
    {
      if path in docs {
        return Err(AlreadyExists);
      }
      docs := docs[path := Row(fields, 1, Stored(now), Stored(now), false)];
      return Ok(WriteResult(docs[path].updateTime, Some(docs[path].createTime), []));
    }

    /** The insert-or-overwrite statement that updates share. */
    method Upsert(path: DocPath, fields: Fields, now: int)
      modifies this`docs
      ensures docs == Upserted(old(docs), path, fields, now)
    {
      if path in docs {
        var row := docs[path];
        docs := docs[path := Row(fields, row.version + 1, row.createTime, Stored(now), false)];
      } else {
        docs := docs[path := Row(fields, 1, Stored(now), Stored(now), false)];
      }
    }

    method UpdateOne(path: DocPath, fields: Fields, pre: Option<Precondition>, now: int)
        returns (r: Result<WriteResult, CoreError>)
      modifies this`docs
      ensures Outcome(docs, r) == UpdateDocument(old(docs), path, fields, pre, now)
    {
      var live := path in docs && !docs[path].deleted;
      match pre {
        case None =>
        case Some(UpdateTime(seconds, nanos)) =>
          var instant := ToInstant(seconds, nanos);
          if instant.None? {
            return Err(InvalidArgument);
          }
          if !(live && docs[path].updateTime == Stored(instant.value)) {
            return Err(if live then OccConflict else DocumentNotFound);
          }
        case Some(MustExist) =>
          if !live {
            return Err(DocumentNotFound);
          }
        case Some(MustNotExist) =>
          if path in docs {
            return Err(AlreadyExists);
          }
      }
      Upsert(path, fields, now);
      return Ok(WriteResult(Stored(now), None, []));
    }

    method DeleteOne(path: DocPath, pre: Option<Precondition>, now: int) returns (r: Result<(), CoreError>)
      modifies this`docs
      ensures Outcome(docs, r) == DeleteDocument(old(docs), path, pre, now)
    {
      if path !in docs || docs[path].deleted {
        return Err(DocumentNotFound);
      }
      docs := docs[path := docs[path].(deleted := true, version := docs[path].version + 1, updateTime := Stored(now))];
      return Ok(());
    }

    method BeginTransaction(id: TxnId, project: string, now: int)
      requires id !in txns
      modifies this`txns
      ensures txns == Began(old(txns), id, project, now)
    {
      txns := txns[id := Txn(project, Active, Stored(now), map[])];
    }

    // ----- The passes of a commit -----

    method VerifyUpdateTimes(project: string, writes: seq<Write>) returns (e: Option<CoreError>)
      ensures e == CheckAll(Times, docs, project, writes)
    {
      var i := 0;
      assert writes[0..] == writes;
      while i < |writes|
        invariant 0 <= i <= |writes|
        invariant CheckAll(Times, docs, project, writes) == CheckAll(Times, docs, project, writes[i..])
      {
        var w := writes[i];
        assert writes[i..][0] == w && writes[i..][1..] == writes[i + 1..];
        if !w.Transform? && w.precondition.Some? && w.precondition.value.UpdateTime? {
          var expected := ToInstant(w.precondition.value.seconds, w.precondition.value.nanos);
          if expected.None? {
            return Some(InvalidArgument);
          }
          if w.path !in docs || docs[w.path].deleted || docs[w.path].updateTime != expected.value {
            return Some(TransactionAborted);
          }
        }
        i := i + 1;
      }
      return None;
    }

    method VerifyExistence(project: string, writes: seq<Write>) returns (e: Option<CoreError>)
      ensures e == CheckAll(Existence, docs, project, writes)
    {
      var i := 0;
      assert writes[0..] == writes;
      while i < |writes|
        invariant 0 <= i <= |writes|
        invariant CheckAll(Existence, docs, project, writes) == CheckAll(Existence, docs, project, writes[i..])
      {
        var w := writes[i];
        assert writes[i..][0] == w && writes[i..][1..] == writes[i + 1..];
        if !w.Transform? && w.precondition.Some? && !w.precondition.value.UpdateTime? {
          var exists_ := w.path in docs && !docs[w.path].deleted;
          if exists_ != w.precondition.value.MustExist? {
            return Some(TransactionAborted);
          }
        }
        i := i + 1;
      }
      return None;
    }

    method VerifyVersions(project: string, writes: seq<Write>) returns (e: Option<CoreError>)
      ensures e == CheckAll(Versions, docs, project, writes)
    {
      var i := 0;
      assert writes[0..] == writes;
      while i < |writes|
        invariant 0 <= i <= |writes|
        invariant CheckAll(Versions, docs, project, writes) == CheckAll(Versions, docs, project, writes[i..])
      {
        var w := writes[i];
        assert writes[i..][0] == w && writes[i..][1..] == writes[i + 1..];
        if !w.Transform? && w.version.Some? {
          var path := DocPath(project, w.path.collection, w.path.id);
          if path !in docs || docs[path].deleted || docs[path].version != w.version.value {
            return Some(TransactionAborted);
          }
        }
        i := i + 1;
      }
      return None;
    }

    method VerifyReads(project: string, readSet: ReadSet) returns (ok: bool)
      ensures ok <==> ReadsHold(docs, project, readSet)
    {
      var keys := readSet.Keys;
      while keys != {}
        invariant keys <= readSet.Keys
        invariant forall key :: key in readSet && key !in keys ==> ReadHolds(docs, project, key, readSet[key])
        decreases |keys|
      {
        var key :| key in keys;
        keys := keys - {key};
        var path := KeyPath(project, key);
        if path.Some? {
          var row := if path.value in docs && !docs[path.value].deleted then Some(docs[path.value].version) else None;
          if row != readSet[key] {
            return false;
          }
        }
      }
      return true;
    }

    method LockFields(writes: seq<Write>) returns (locks: seq<Option<Fields>>)
      ensures locks == LockAll(docs, writes)
    {
      locks := [];
      var i := 0;
      assert writes[0..] == writes;
      while i < |writes|
        invariant 0 <= i <= |writes|
        invariant LockAll(docs, writes) == locks + LockAll(docs, writes[i..])
      {
        var w := writes[i];
        var lock := None;
        if w.Transform? || (w.Update? && |w.transforms| > 0) {
          lock := Some(if w.path in docs && !docs[w.path].deleted then docs[w.path].fields else map[]);
        }
        LockNext(docs, writes, i, locks);
        locks := locks + [lock];
        i := i + 1;
      }
    }

    method ApplyOne(w: Write, locked: Option<Fields>, now: int) returns (r: Result<WriteResult, CoreError>)
      modifies this`docs
      ensures match ApplyWrite(old(docs), w, locked, now)
        case Err(e) => r == Err(e) && docs == old(docs)
        case Ok(b) => r.Ok? && b == Batch(docs, [r.value])
    {
      if w.Delete? {
        if w.path in docs {
          var row := docs[w.path];
          docs := docs[w.path := row.(deleted := true, version := row.version + 1, updateTime := Stored(now))];
        }
        return Ok(WriteResult(now, None, []));
      }
      var stored := if locked.Some? then locked.value else map[];
      var applied: Result<Applied, CoreError>;
      if w.Transform? {
        applied := TransformFields(stored, map[], w.transforms, now);
      } else if |w.transforms| == 0 {
        applied := Ok(Applied(w.fields, []));
      } else {
        applied := TransformFields(w.fields, stored, w.transforms, now);
      }
      if applied.Err? {
        return Err(applied.error);
      }
      Upsert(w.path, applied.value.fields, now);
      return Ok(WriteResult(now, None, applied.value.reported));
    }

    /** Applies the writes in order. An error rolls the database transaction
        back, so that `docs` shows none of them. */
    method ApplyBatch(writes: seq<Write>, locks: seq<Option<Fields>>, now: int)
        returns (r: Result<seq<WriteResult>, CoreError>)
      requires |locks| == |writes|
      modifies this`docs
      ensures match ApplyWrites(old(docs), writes, locks, now)
        case Err(e) => r == Err(e) && docs == old(docs)
        case Ok(b) => r == Ok(b.results) && docs == b.table
    {
      var before, results := docs, [];
      var i := 0;
      assert writes[0..] == writes && locks[0..] == locks;
      ThenTwice([], [], ApplyWrites(docs, writes, locks, now));
      while i < |writes|
        invariant 0 <= i <= |writes|
        invariant ApplyWrites(before, writes, locks, now) ==
          Then(results, ApplyWrites(docs, writes[i..], locks[i..], now))
      {
        assert writes[i..][0] == writes[i] && writes[i..][1..] == writes[i + 1..];
        assert locks[i..][0] == locks[i] && locks[i..][1..] == locks[i + 1..];
        var one := ApplyOne(writes[i], locks[i], now);
        if one.Err? {
          docs := before;
          return Err(one.error);
        }
        ThenTwice(results, [one.value], ApplyWrites(docs, writes[i + 1..], locks[i + 1..], now));
        results := results + [one.value];
        i := i + 1;
      }
      assert results + [] == results;
      return Ok(results);
    }

    method CommitTransaction(project: string, id: TxnId, writes: seq<Write>, loaded: int, applied: int)
      returns (r: Result<seq<WriteResult>, CoreError>)
      modifies this
      ensures Called(docs, txns, r) == CommitCall(old(docs), old(txns), project, id, writes, loaded, applied)
    {
      if id !in txns || txns[id].project != project || txns[id].status != Active {
        return Err(TransactionNotFound);
      }
      if loaded - txns[id].startedAt > 60 * NANOS {
        txns := txns[id := txns[id].(status := Expired)];
        return Err(TransactionNotFound);
      }
      var e := VerifyUpdateTimes(project, writes);
      if e.Some? {
        return Err(e.value);
      }
      e := VerifyExistence(project, writes);
      if e.Some? {
        return Err(e.value);
      }
      e := VerifyVersions(project, writes);
      if e.Some? {
        return Err(e.value);
      }
      var unchanged_ := VerifyReads(project, txns[id].readSet);
      if !unchanged_ {
        return Err(TransactionAborted);
      }
      var locks := LockFields(writes);
      r := ApplyBatch(writes, locks, applied);
      if r.Ok? {
        txns := txns[id := txns[id].(status := Committed)];
      }
    }

    method RollbackTransaction(project: string, id: TxnId) returns (r: Result<(), CoreError>)
      modifies this`txns
      ensures Change(txns, r) == Rollback(old(txns), id, project)
    {
      if id !in txns || txns[id].project != project || txns[id].status != Active {
        return Err(TransactionNotFound);
      }
      txns := txns[id := txns[id].(status := RolledBack)];
      return Ok(());
    }

    /** One sweep; the count is of both deletes together. */
    method SweepOnce(ttl: int, retentionDays: int, now: int) returns (deleted: nat)
      modifies this`txns
      ensures txns == Swept(old(txns), ttl, retentionDays, now)
      ensures deleted == |old(txns)| - |txns|
    {
      var abandoned := set id | id in txns && Reclaimable(txns[id], ttl, now);
      DropCount(txns, abandoned);
      txns := txns - abandoned;
      var finished := set id | id in txns && Purgeable(txns[id], retentionDays, now);
      DropCount(txns, finished);
      SweepIsTwoDeletes(old(txns), ttl, retentionDays, now, abandoned, finished);
      txns := txns - finished;
      deleted := |abandoned| + |finished|;
    }
  }

  lemma SweepIsTwoDeletes(
      txns: Txns, ttl: int, retentionDays: int, now: int, abandoned: set<TxnId>, finished: set<TxnId>)
    requires abandoned == set id | id in txns && Reclaimable(txns[id], ttl, now)
    requires finished == set id | id in txns - abandoned && Purgeable((txns - abandoned)[id], retentionDays, now)
    ensures (txns - abandoned) - finished == Swept(txns, ttl, retentionDays, now)
  {
    var left, swept := (txns - abandoned) - finished, Swept(txns, ttl, retentionDays, now);
    assert forall id :: id in left <==> id in swept;
  }

  lemma DropCount(txns: Txns, ids: set<TxnId>)
    requires ids <= txns.Keys
    ensures |txns - ids| == |txns| - |ids|
  {
    assert (txns - ids).Keys == txns.Keys - ids;
    assert |(txns - ids).Keys| == |txns - ids| && |txns.Keys| == |txns|;
  }

  lemma FinishMatches(s: State, call: nat, batch: Result<Batch, CoreError>)
    requires call in s.commits
    ensures var n, c := Finish(s, call, batch), Finished(s.docs, s.txns, s.commits[call].txn, batch);
      n.state == s.(docs := c.docs, txns := c.txns, commits := s.commits - {call}) && n.reply == CommitDone(c.result)
  {
  }

  /** A commit call is two events of the transaction machine with time passing between them. */
  lemma CommitCallIsTwoEvents(s: State, call: nat, project: string, id: TxnId, writes: seq<Write>, wait: nat)
    requires call !in s.commits
    ensures var loaded := ExecLoad(s, call, id, project);
      var applied := ExecApply(loaded.state.(clock := s.clock + wait), call, writes);
      var c := CommitCall(s.docs, s.txns, project, id, writes, s.clock, s.clock + wait);
      && applied.state == s.(docs := c.docs, txns := c.txns, clock := s.clock + wait)
      && (if loaded.reply == Loaded(Ok(())) then applied.reply == CommitDone(c.result)
          else c.result == Err(TransactionNotFound))
  {
    var c := Load(s.txns, id, project, s.clock);
    if c.result.Ok? {
      var waiting := ExecLoad(s, call, id, project).state.(clock := s.clock + wait);
      assert waiting.commits - {call} == s.commits;
      FinishMatches(waiting, call, CommitBatch(s.docs, project, c.result.value, writes, s.clock + wait));
    }
  }
}
