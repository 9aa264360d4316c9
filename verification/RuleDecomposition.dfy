/** The allow clauses of a match block (access_control/rules_file.rs): each
    condition has its captured names rewritten, must parse, and is put into the
    read or the write bucket of its verbs. */
module RuleDecomposition {
  import opened Values
  import opened PathRewrite

  datatype Verb = Read | Get | List | Write | Create | Update | Delete

  predicate IsRead(v: Verb) {
    v.Read? || v.Get? || v.List?
  }

  datatype Clause = Clause(verbs: seq<Verb>, condition: string)

  datatype Buckets = Buckets(read_: Option<string>, write: Option<string>)

  datatype DecomposeError = UnparsableCondition | ConflictingVerbConditions

  predicate Named(names: seq<string>) {
    forall i :: 0 <= i < |names| ==> names[i] != ""
  }

  /** The clause grants some verb of the bucket. */
  predicate Grants(c: Clause, reading: bool) {
    exists v <- c.verbs :: IsRead(v) == reading
  }

  /** Two clauses that share a bucket have the same rewritten condition. */
  predicate AgreeOn(c: Clause, d: Clause, names: seq<string>)
    requires Named(names)
  {
    (forall reading {:trigger Grants(c, reading)} :: Grants(c, reading) && Grants(d, reading) ==>
      RewriteAll(c.condition, names) == RewriteAll(d.condition, names))
  }

  /** The bucket holds the one condition of the clauses that grant it. */
  predicate BucketOf(b: Option<string>, clauses: seq<Clause>, reading: bool, names: seq<string>)
    requires Named(names)
  {
    && (b.None? ==> forall c <- clauses :: !Grants(c, reading))
    && (b.Some? ==> exists c <- clauses :: Grants(c, reading) && RewriteAll(c.condition, names) == b.value)
    && (b.Some? ==> forall c <- clauses :: Grants(c, reading) ==> RewriteAll(c.condition, names) == b.value)
  }

  predicate Consistent(clauses: seq<Clause>, names: seq<string>)
    requires Named(names)
  {
    forall i, j :: 0 <= i < j < |clauses| ==> AgreeOn(clauses[i], clauses[j], names)
  }

  method RewriteCondition(condition: string, names: seq<string>) returns (rewritten: string)
    requires Named(names)
    ensures rewritten == RewriteAll(condition, names)
  {
    rewritten := condition;
    var i := 0;
    assert names[0..] == names;
    while i < |names|
      invariant 0 <= i <= |names|
      invariant RewriteAll(condition, names) == RewriteAll(rewritten, names[i..])
    {
      assert names[i..][0] == names[i] && names[i..][1..] == names[i + 1..];
      rewritten := RewritePathVariable(rewritten, names[i]);
      i := i + 1;
    }
  }

  /** Puts one rewritten condition into the buckets of its verbs; None is a conflict. */
  method FileClause(verbs: seq<Verb>, rewritten: string, before: Buckets) returns (after: Option<Buckets>)
    ensures after == Filed(verbs, rewritten, before)
  {
    var b := before;
    var i := 0;
    while i < |verbs|
      invariant 0 <= i <= |verbs|
      invariant Filed(verbs[..i], rewritten, before) == Some(b)
    {
      assert verbs[..i + 1] == verbs[..i] + [verbs[i]];
      FiledNext(verbs, i);
      var bucket := if IsRead(verbs[i]) then b.read_ else b.write;
      if bucket.Some? && bucket.value != rewritten {
        FiledStops(verbs, rewritten, before, i + 1);
        return None;
      }
      b := if IsRead(verbs[i]) then b.(read_ := Some(rewritten)) else b.(write := Some(rewritten));
      i := i + 1;
    }
    assert verbs[..i] == verbs;
    return Some(b);
  }

  function Fill(b: Option<string>, granted: bool, rewritten: string): Option<Option<string>> {
    if !granted then Some(b) else if b.Some? && b.value != rewritten then None else Some(Some(rewritten))
  }

  /** Each bucket a clause grants is empty or already holds the same condition. */
  function Filed(verbs: seq<Verb>, rewritten: string, b: Buckets): Option<Buckets> {
    var r := Fill(b.read_, Grants(Clause(verbs, ""), true), rewritten);
    var w := Fill(b.write, Grants(Clause(verbs, ""), false), rewritten);
    if r.None? || w.None? then None else Some(Buckets(r.value, w.value))
  }

  lemma FiledNext(verbs: seq<Verb>, i: nat)
    requires i < |verbs|
    ensures forall reading :: Grants(Clause(verbs[..i + 1], ""), reading) <==>
      Grants(Clause(verbs[..i], ""), reading) || IsRead(verbs[i]) == reading
  {
    forall reading ensures Grants(Clause(verbs[..i + 1], ""), reading) <==>
      Grants(Clause(verbs[..i], ""), reading) || IsRead(verbs[i]) == reading
    {
      assert verbs[..i + 1] == verbs[..i] + [verbs[i]];
      if Grants(Clause(verbs[..i + 1], ""), reading) {
        var v :| v in verbs[..i + 1] && IsRead(v) == reading;
        assert v in verbs[..i] || v == verbs[i];
      }
    }
  }

  lemma FiledStops(verbs: seq<Verb>, rewritten: string, b: Buckets, i: nat)
    requires i <= |verbs| && Filed(verbs[..i], rewritten, b).None?
    ensures Filed(verbs, rewritten, b).None?
  {
    assert forall v :: v in verbs[..i] ==> v in verbs;
  }

  lemma GrantsVerbsOnly(c: Clause, reading: bool)
    ensures Grants(c, reading) == Grants(Clause(c.verbs, ""), reading)
  {
  }

  predicate AllParse(clauses: seq<Clause>, names: seq<string>, parses: string -> bool)
    requires Named(names)
  {
    forall c <- clauses :: parses(RewriteAll(c.condition, names))
  }

  lemma FiledKeepsBuckets(clauses: seq<Clause>, i: nat, b: Buckets, names: seq<string>)
    requires Named(names) && i < |clauses|
    requires BucketOf(b.read_, clauses[..i], true, names) && BucketOf(b.write, clauses[..i], false, names)
    ensures var after := Filed(clauses[i].verbs, RewriteAll(clauses[i].condition, names), b);
      if after.Some? then
        && BucketOf(after.value.read_, clauses[..i + 1], true, names)
        && BucketOf(after.value.write, clauses[..i + 1], false, names)
      else exists k :: 0 <= k < i && !AgreeOn(clauses[k], clauses[i], names)
  {
    var c, text := clauses[i], RewriteAll(clauses[i].condition, names);
    GrantsVerbsOnly(c, true);
    GrantsVerbsOnly(c, false);
    FillKeepsBucket(clauses, i, b.read_, true, names);
    FillKeepsBucket(clauses, i, b.write, false, names);
  }

  lemma FillKeepsBucket(clauses: seq<Clause>, i: nat, b: Option<string>, reading: bool, names: seq<string>)
    requires Named(names) && i < |clauses| && BucketOf(b, clauses[..i], reading, names)
    ensures var after := Fill(b, Grants(clauses[i], reading), RewriteAll(clauses[i].condition, names));
      if after.Some? then BucketOf(after.value, clauses[..i + 1], reading, names)
      else exists k :: 0 <= k < i && !AgreeOn(clauses[k], clauses[i], names)
  {
    assert clauses[..i + 1] == clauses[..i] + [clauses[i]];
    if b.Some? {
      var c :| c in clauses[..i] && Grants(c, reading) && RewriteAll(c.condition, names) == b.value;
      var k :| 0 <= k < i && clauses[k] == c;
    }
  }

  lemma BucketsMeanConsistent(clauses: seq<Clause>, b: Buckets, names: seq<string>)
    requires Named(names) && BucketOf(b.read_, clauses, true, names) && BucketOf(b.write, clauses, false, names)
    ensures Consistent(clauses, names)
  {
    forall i, j | 0 <= i < j < |clauses| ensures AgreeOn(clauses[i], clauses[j], names) {
      assert clauses[i] in clauses && clauses[j] in clauses;
    }
  }

  /** Clause `i` is the first that does not parse or contradicts an earlier one. */
  ghost predicate FirstBad(
    clauses: seq<Clause>, i: nat, names: seq<string>, parses: string -> bool, e: DecomposeError)
    requires Named(names)
  {
    && i < |clauses| && AllParse(clauses[..i], names, parses) && Consistent(clauses[..i], names)
    && if !parses(RewriteAll(clauses[i].condition, names)) then e == UnparsableCondition
       else e == ConflictingVerbConditions && exists k :: 0 <= k < i && !AgreeOn(clauses[k], clauses[i], names)
  }

  /** A block decomposes exactly when every rewritten condition parses and no
      bucket is given two different ones; each bucket then holds the rewritten
      condition of the clauses that grant it, and is empty when none does. */
  method DecomposeClauses(clauses: seq<Clause>, names: seq<string>, parses: string -> bool)
    returns (r: Result<Buckets, DecomposeError>)
    requires Named(names)
    ensures r.Ok? <==> AllParse(clauses, names, parses) && Consistent(clauses, names)
    ensures r.Ok? ==> BucketOf(r.value.read_, clauses, true, names) && BucketOf(r.value.write, clauses, false, names)
    ensures r.Err? ==> exists i :: FirstBad(clauses, i, names, parses, r.error)
  {
    var b := Buckets(None, None);
    var i := 0;
    while i < |clauses|
      invariant 0 <= i <= |clauses|
      invariant AllParse(clauses[..i], names, parses)
      invariant BucketOf(b.read_, clauses[..i], true, names) && BucketOf(b.write, clauses[..i], false, names)
    {
      assert clauses[i] in clauses && clauses[..i + 1] == clauses[..i] + [clauses[i]];
      var rewritten := RewriteCondition(clauses[i].condition, names);
      BucketsMeanConsistent(clauses[..i], b, names);
      if !parses(rewritten) {
        assert FirstBad(clauses, i, names, parses, UnparsableCondition);
        return Err(UnparsableCondition);
      }
      FiledKeepsBuckets(clauses, i, b, names);
      var after := FileClause(clauses[i].verbs, rewritten, b);
      if after.None? {
        assert FirstBad(clauses, i, names, parses, ConflictingVerbConditions);
        return Err(ConflictingVerbConditions);
      }
      b := after.value;
      i := i + 1;
    }
    assert clauses[..i] == clauses;
    BucketsMeanConsistent(clauses, b, names);
    return Ok(b);
  }

  /** The read bucket is for `read`, `get` and `list`; the write bucket for `write`,
      `create`, `update` and `delete`. */
  lemma VerbsOfBuckets(c: Clause)
    ensures Grants(c, true) <==> Read in c.verbs || Get in c.verbs || List in c.verbs
    ensures Grants(c, false) <==> Write in c.verbs || Create in c.verbs || Update in c.verbs || Delete in c.verbs
  {
    if Read in c.verbs { assert IsRead(Read); }
    if Get in c.verbs { assert IsRead(Get); }
    if List in c.verbs { assert IsRead(List); }
    if Write in c.verbs { assert !IsRead(Write); }
    if Create in c.verbs { assert !IsRead(Create); }
    if Update in c.verbs { assert !IsRead(Update); }
    if Delete in c.verbs { assert !IsRead(Delete); }
  }
}
