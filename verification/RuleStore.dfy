/** The stored rule patterns of a project: the overlap check that every import
    must pass (embyr-server admin/handlers/access_rules.rs) keeps the store
    free of ambiguity, so no two rules of one kind and depth claim the same
    document. */
module RuleStore {
  import opened Values
  import opened PathRouting

  /** A stored pattern: the ancestor of a fixed-depth rule, or the prefix of a
      recursive one. */
  datatype Entry = Entry(pattern: Pattern, recursive: bool, rule: string)

  datatype ShapeError = RecursiveNotTerminal | RecursiveOddPrefix | NestedPath

  // ----- Shapes -----

  function SegmentError(segments: Pattern, i: nat): Option<ShapeError>
    requires i < |segments|
  {
    if segments[i].RecursiveWildcard? then
      if i != |segments| - 1 then Some(RecursiveNotTerminal)
      else if i % 2 != 0 then Some(RecursiveOddPrefix)
      else None
    else if i % 2 == 0 && !segments[i].Literal? then Some(NestedPath)
    else None
  }

  predicate FirstError(segments: Pattern, i: nat, e: Option<ShapeError>) {
    && i < |segments|
    && SegmentError(segments, i) == e
    && forall j :: 0 <= j < i ==> SegmentError(segments, j).None?
  }

  method ValidateSegmentShape(segments: Pattern) returns (e: Option<ShapeError>)
    ensures e.None? <==> forall i :: 0 <= i < |segments| ==> SegmentError(segments, i).None?
    ensures e.Some? ==> exists i :: FirstError(segments, i, e)
  {
    for i := 0 to |segments|
      invariant forall j :: 0 <= j < i ==> SegmentError(segments, j).None?
    {
      e := SegmentError(segments, i);
      if e.Some? {
        assert FirstError(segments, i, e);
        return;
      }
    }
    e := None;
  }

  predicate ValidShape(segments: Pattern) {
    segments != [] && forall i :: 0 <= i < |segments| ==> SegmentError(segments, i).None?
  }

  /** What a match block becomes: a rule for one top-level collection, which has
      a table of its own, or a stored pattern. */
  datatype Target = OneCollection(name: string, rule: string) | Stored(entry: Entry)

  /** The ancestor/leaf split of `decompose_block`. */
  function TargetOf(segments: Pattern, rule: string): Target
    requires ValidShape(segments)
  {
    var n := |segments|;
    if segments[n - 1].RecursiveWildcard? then Stored(Entry(segments[..n - 1], true, rule))
    else if n <= 2 then assert SegmentError(segments, 0).None?; OneCollection(segments[0].text, rule)
    else Stored(Entry(if n % 2 == 0 then segments[..n - 1] else segments, false, rule))
  }

  /** What storing requires of an entry: collection names literal, a document
      depth for prefixes and the depth of a nested collection for ancestors. */
  predicate WellShaped(e: Entry) {
    && LiteralCollections(e.pattern) && (e.recursive <==> |e.pattern| % 2 == 0)
    && (!e.recursive ==> |e.pattern| >= 3)
  }

  /** Every segment list that passes validation is stored well shaped, unless it
      names one top-level collection; that is the case of one or two segments
      that do not end in a recursive wildcard. */
  lemma ValidShapesAreStoredWellShaped(segments: Pattern, rule: string)
    requires ValidShape(segments)
    ensures TargetOf(segments, rule).Stored? ==> WellShaped(TargetOf(segments, rule).entry)
    ensures TargetOf(segments, rule).OneCollection? <==> |segments| <= 2 && !segments[|segments| - 1].RecursiveWildcard?
  {
    assert SegmentError(segments, |segments| - 1).None?;
    if TargetOf(segments, rule).Stored? {
      var e := TargetOf(segments, rule).entry;
      forall i | 0 <= i < |e.pattern|
        ensures !e.pattern[i].RecursiveWildcard? && (i % 2 == 0 ==> e.pattern[i].Literal?)
      {
        assert e.pattern[i] == segments[i] && SegmentError(segments, i).None?;
      }
    }
  }

  /** The patterns among the targets of a file; only these are checked for overlap. */
  function Patterns(targets: seq<Target>): seq<Entry> {
    if targets == [] then []
    else (if targets[0].Stored? then [targets[0].entry] else []) + Patterns(targets[1..])
  }

  lemma PatternsNext(targets: seq<Target>, i: nat, file: seq<Entry>)
    requires i < |targets|
    ensures file + Patterns(targets[i..]) ==
      (if targets[i].Stored? then file + [targets[i].entry] else file) + Patterns(targets[i + 1..])
  {
    var rest := targets[i..];
    assert rest[0] == targets[i] && rest[1..] == targets[i + 1..];
  }

  method CollectPatterns(targets: seq<Target>) returns (file: seq<Entry>)
    ensures file == Patterns(targets)
  {
    file := [];
    assert targets[0..] == targets;
    for i := 0 to |targets|
      invariant Patterns(targets) == file + Patterns(targets[i..])
    {
      PatternsNext(targets, i, file);
      if targets[i].Stored? {
        file := file + [targets[i].entry];
      }
    }
  }

  lemma {:induction false} PatternsWellShaped(targets: seq<Target>)
    requires forall t <- targets :: t.Stored? ==> WellShaped(t.entry)
    ensures forall e <- Patterns(targets) :: WellShaped(e)
  {
    if targets != [] {
      PatternsWellShaped(targets[1..]);
    }
  }

  // ----- The import check -----

  function ReachOf(e: Entry): Pattern {
    if e.recursive then e.pattern else FixedDepthFullReach(e.pattern)
  }

  /** Neither entry makes the other ambiguous. */
  predicate Coexist(e: Entry, f: Entry) {
    if !e.recursive && !f.recursive then !StructurallyOverlap(e.pattern, f.pattern)
    else Classify(ReachOf(e), ReachOf(f)) != AmbiguousOverlap
  }

  predicate SameKey(e: Entry, f: Entry) {
    e.pattern == f.pattern && e.recursive == f.recursive
  }

  /** Two fixed-depth entries are compared across imports only when the index
      puts them in one bucket. */
  predicate SameBucket(e: Entry, f: Entry) {
    |e.pattern| == |f.pattern| && LiteralSkeleton(e.pattern) == LiteralSkeleton(f.pattern)
  }

  /** A stored entry is a re-import, in another bucket, or no obstacle. */
  predicate Admissible(e: Entry, s: Entry) {
    SameKey(e, s) || (!e.recursive && !s.recursive && !SameBucket(e, s)) || Coexist(e, s)
  }

  /** `check_pattern_overlap` finds nothing: within the file every pair coexists,
      and against the store every compared pair does. A stored entry with the
      same key is a re-import, not an overlap. */
  predicate AcceptsImport(stored: seq<Entry>, file: seq<Entry>) {
    && (forall i, j :: 0 <= i < j < |file| ==> Coexist(file[i], file[j]))
    && (forall e <- file, s <- stored :: Admissible(e, s))
  }

  /** The pair loops of `check_pattern_overlap`. */
  method CheckPatternOverlap(stored: seq<Entry>, file: seq<Entry>) returns (accepted: bool)
    ensures accepted == AcceptsImport(stored, file)
  {
    for i := 0 to |file|
      invariant forall k, l :: 0 <= k < i && k < l < |file| ==> Coexist(file[k], file[l])
    {
      for j := i + 1 to |file|
        invariant forall l :: i < l < j ==> Coexist(file[i], file[l])
      {
        if !Coexist(file[i], file[j]) {
          return false;
        }
      }
    }
    for i := 0 to |file|
      invariant forall k, l :: 0 <= k < i && 0 <= l < |stored| ==> Admissible(file[k], stored[l])
    {
      for j := 0 to |stored|
        invariant forall l :: 0 <= l < j ==> Admissible(file[i], stored[l])
      {
        if !Admissible(file[i], stored[j]) {
          assert file[i] in file && stored[j] in stored;
          return false;
        }
      }
    }
    return true;
  }

  /** Insert or replace by key. */
  function Upsert(stored: seq<Entry>, e: Entry): seq<Entry> {
    if stored == [] then [e]
    else if SameKey(stored[0], e) then [e] + stored[1..]
    else [stored[0]] + Upsert(stored[1..], e)
  }

  function UpsertAll(stored: seq<Entry>, file: seq<Entry>): seq<Entry>
    decreases |file|
  {
    if file == [] then stored else UpsertAll(Upsert(stored, file[0]), file[1..])
  }

  /** The invariant of the store. */
  predicate Unambiguous(stored: seq<Entry>) {
    && (forall e <- stored :: WellShaped(e))
    && forall i, j :: 0 <= i < j < |stored| ==> Coexist(stored[i], stored[j])
  }

  lemma CoexistSymmetric(e: Entry, f: Entry)
    requires WellShaped(e) && WellShaped(f)
    ensures Coexist(e, f) == Coexist(f, e)
  {
    if !e.recursive && !f.recursive {
      assert StructurallyOverlap(e.pattern, f.pattern) <==> StructurallyOverlap(f.pattern, e.pattern);
    } else {
      ClassifyIsExact(ReachOf(e), ReachOf(f));
      ClassifyIsExact(ReachOf(f), ReachOf(e));
    }
  }

  /** An entry never coexists with another of its own key. */
  lemma SameKeyClashes(e: Entry, f: Entry)
    requires WellShaped(e) && SameKey(e, f)
    ensures !Coexist(e, f)
  {
    assert StructurallyOverlap(e.pattern, e.pattern);
  }

  /** Skipping entries of another bucket skips no overlap. */
  lemma BucketsDoNotOverlap(e: Entry, s: Entry)
    requires WellShaped(e) && WellShaped(s) && !e.recursive && !s.recursive && !SameBucket(e, s)
    ensures Coexist(e, s)
  {
    if StructurallyOverlap(e.pattern, s.pattern) { OverlapSharesKey(e.pattern, s.pattern); }
  }

  /** `e` coexists with every stored entry of another key. */
  predicate Fits(stored: seq<Entry>, e: Entry) {
    forall s <- stored :: SameKey(e, s) || Coexist(e, s)
  }

  lemma {:induction false} UpsertMembers(stored: seq<Entry>, e: Entry)
    ensures forall x <- Upsert(stored, e) :: x == e || x in stored
  {
    if stored != [] { UpsertMembers(stored[1..], e); }
  }

  lemma {:induction false} UpsertKeepsUnambiguous(stored: seq<Entry>, e: Entry)
    requires Unambiguous(stored) && WellShaped(e) && Fits(stored, e)
    ensures Unambiguous(Upsert(stored, e))
  {
    if stored != [] {
      var s, rest := stored[0], stored[1..];
      assert Unambiguous(rest);
      if SameKey(s, e) {
        assert forall x <- rest :: Coexist(s, x);
        forall x <- rest ensures Coexist(e, x) {
          if SameKey(e, x) { SameKeyClashes(s, x); }
        }
      } else {
        UpsertKeepsUnambiguous(rest, e);
        UpsertMembers(rest, e);
        CoexistSymmetric(s, e);
        assert Coexist(s, e);
        assert forall x <- rest :: Coexist(s, x);
        assert forall x <- Upsert(rest, e) :: Coexist(s, x);
      }
    }
  }

  lemma {:induction false} UpsertAllKeepsUnambiguous(stored: seq<Entry>, file: seq<Entry>)
    requires Unambiguous(stored) && forall e <- file :: WellShaped(e) && Fits(stored, e)
    requires forall i, j :: 0 <= i < j < |file| ==> Coexist(file[i], file[j])
    ensures Unambiguous(UpsertAll(stored, file))
    decreases |file|
  {
    if file != [] {
      var e, rest := file[0], file[1..];
      UpsertKeepsUnambiguous(stored, e);
      UpsertMembers(stored, e);
      forall x <- rest ensures Fits(Upsert(stored, e), x) {
        CoexistSymmetric(e, x);
      }
      UpsertAllKeepsUnambiguous(Upsert(stored, e), rest);
    }
  }

  /** Every accepted import keeps the store free of ambiguity. */
  lemma ImportKeepsUnambiguous(stored: seq<Entry>, file: seq<Entry>)
    requires Unambiguous(stored) && AcceptsImport(stored, file) && forall e <- file :: WellShaped(e)
    ensures Unambiguous(UpsertAll(stored, file))
  {
    forall e <- file, s <- stored ensures SameKey(e, s) || Coexist(e, s) {
      if !e.recursive && !s.recursive && !SameBucket(e, s) { BucketsDoNotOverlap(e, s); }
    }
    UpsertAllKeepsUnambiguous(stored, file);
  }

  function AfterImport(stored: seq<Entry>, file: seq<Entry>): seq<Entry> {
    if AcceptsImport(stored, file) then UpsertAll(stored, file) else stored
  }

  function AfterImports(stored: seq<Entry>, files: seq<seq<Entry>>): seq<Entry>
    decreases |files|
  {
    if files == [] then stored else AfterImports(AfterImport(stored, files[0]), files[1..])
  }

  /** No sequence of imports, accepted or refused, makes the store ambiguous. */
  lemma {:induction false} ImportsKeepUnambiguous(stored: seq<Entry>, files: seq<seq<Entry>>)
    requires Unambiguous(stored) && forall file <- files, e <- file :: WellShaped(e)
    ensures Unambiguous(AfterImports(stored, files))
    decreases |files|
  {
    if files != [] {
      assert files[0] in files;
      if AcceptsImport(stored, files[0]) { ImportKeepsUnambiguous(stored, files[0]); }
      assert forall file <- files[1..] :: file in files;
      ImportsKeepUnambiguous(AfterImport(stored, files[0]), files[1..]);
    }
  }

  // ----- What the stored rules claim -----

  /** The entry claims a document of collection `ancestor`, named `doc` when known. */
  predicate Claims(e: Entry, ancestor: Path, doc: Option<string>) {
    if e.recursive then doc.Some? && Reaches(e.pattern, ancestor + [doc.value]) else Accepts(e.pattern, ancestor)
  }

  /** Two rules of one kind and depth claim the same document. */
  predicate Clash(e: Entry, f: Entry, ancestor: Path, doc: Option<string>) {
    && Claims(e, ancestor, doc) && Claims(f, ancestor, doc)
    && e.recursive == f.recursive && |e.pattern| == |f.pattern|
  }

  lemma UnambiguousNeverClashes(stored: seq<Entry>, i: nat, j: nat, ancestor: Path, doc: Option<string>)
    requires Unambiguous(stored) && i < j < |stored|
    ensures !Clash(stored[i], stored[j], ancestor, doc)
  {
    var e, f := stored[i], stored[j];
    if Clash(e, f, ancestor, doc) {
      if e.recursive {
        ClassifyIsExact(e.pattern, f.pattern);
      } else {
        BindsWhatItAccepts(e.pattern, ancestor);
        BindsWhatItAccepts(f.pattern, ancestor);
        OverlapIff(e.pattern, f.pattern);
      }
    }
  }

  /** A fixed-depth rule and a recursive one are refused together, although no
      document is claimed by both, exactly when the recursive prefix reaches
      below the fixed rule's documents, agrees with it at every shared position,
      and the fixed rule is narrower at one of them. */
  lemma RefusedInVainIff(e: Entry, f: Entry)
    requires WellShaped(e) && WellShaped(f) && !e.recursive && f.recursive
    ensures var reach := ReachOf(e);
      !Coexist(e, f) && !Shared(e, f) <==>
      |f.pattern| > |reach| && Compatible(reach, f.pattern) && !GeneralizesAll(reach, f.pattern)
  {
    var reach := ReachOf(e);
    FixedDepthComparison(f.pattern, e.pattern);
    ClassifyIsExact(reach, f.pattern);
    SharedIsReached(e, f);
  }

  /** Some document is claimed by both. */
  ghost predicate Shared(e: Entry, f: Entry) {
    exists ancestor: Path, name: string :: Claims(e, ancestor, Some(name)) && Claims(f, ancestor, Some(name))
  }

  lemma SharedIsReached(e: Entry, f: Entry)
    requires WellShaped(e) && WellShaped(f) && !e.recursive && f.recursive
    ensures Shared(e, f) <==> exists path :: Reaches(f.pattern, path) && Accepts(ReachOf(e), path)
  {
    if ancestor: Path, name: string :| Claims(e, ancestor, Some(name)) && Claims(f, ancestor, Some(name)) {
      assert Accepts(ReachOf(e), ancestor + [name]);
    }
    if path :| Reaches(f.pattern, path) && Accepts(ReachOf(e), path) {
      var ancestor, name := path[..|path| - 1], path[|path| - 1];
      assert path == ancestor + [name];
      assert forall i :: 0 <= i < |e.pattern| ==> e.pattern[i] == ReachOf(e)[i];
      assert Claims(e, ancestor, Some(name)) && Claims(f, ancestor, Some(name));
    }
  }

  const FIXED: Entry := Entry([Literal("a"), Literal("k"), Literal("b")], false, "")
  const DEEPER: Entry :=
    Entry([Literal("a"), Wildcard("x"), Literal("b"), Literal("l"), Literal("c"), Wildcard("z")], true, "")

  /** `/a/k/b` and `/a/{x}/b/l/c/{z}/{rest=**}` share no document, and one file may not hold both. */
  lemma RefusedInVain()
    ensures WellShaped(FIXED) && WellShaped(DEEPER) && !Shared(FIXED, DEEPER) && !AcceptsImport([], [FIXED, DEEPER])
  {
    var reach := ReachOf(FIXED);
    assert reach == [Literal("a"), Literal("k"), Literal("b"), Wildcard("")];
    assert !Generalizes(reach[1], DEEPER.pattern[1]);
    assert Compatible(reach, DEEPER.pattern);
    RefusedInVainIff(FIXED, DEEPER);
    assert [FIXED, DEEPER][0] == FIXED && [FIXED, DEEPER][1] == DEEPER;
  }

  // ----- What a match path means -----

  /** The documents a match path is written for: those it spells, those of the
      collection it ends in, or everything at and below its fixed prefix. */
  predicate WrittenFor(segments: Pattern, path: Path) {
    var n := |segments|;
    if n > 0 && segments[n - 1].RecursiveWildcard? then Reaches(segments[..n - 1], path)
    else if n % 2 == 0 then Accepts(segments, path)
    else path != [] && Accepts(segments, path[..|path| - 1])
  }

  ghost predicate ClaimsWhatIsWritten(segments: Pattern, e: Entry) {
    forall ancestor: Path, name: string ::
      Claims(e, ancestor, Some(name)) <==> WrittenFor(segments, ancestor + [name])
  }

  lemma AcceptsSplit(segments: Pattern, ancestor: Path, name: string)
    requires segments != []
    ensures var n := |segments| - 1;
      Accepts(segments, ancestor + [name]) <==>
        Accepts(segments[..n], ancestor) && SegmentAccepts(segments[n], name)
  {
    var n, path := |segments| - 1, ancestor + [name];
    if Accepts(segments[..n], ancestor) && SegmentAccepts(segments[n], name) {
      forall i | 0 <= i < |segments| ensures SegmentAccepts(segments[i], path[i]) {
        assert i < n ==> SegmentAccepts(segments[..n][i], ancestor[i]);
      }
    }
    if Accepts(segments, path) {
      assert forall i :: 0 <= i < n ==> SegmentAccepts(segments[i], path[i]);
      assert path[n] == name;
    }
  }

  /** A stored rule claims exactly the documents its match path is written for,
      except that a literal document id at its end is dropped: the rule then
      claims every document of the collection. */
  lemma StoredClaimsIff(segments: Pattern, rule: string)
    requires ValidShape(segments) && TargetOf(segments, rule).Stored?
    ensures TargetOf(segments, rule).entry.rule == rule
    ensures ClaimsWhatIsWritten(segments, TargetOf(segments, rule).entry) <==>
      |segments| % 2 == 1 || !segments[|segments| - 1].Literal?
  {
    var n, e := |segments|, TargetOf(segments, rule).entry;
    assert SegmentError(segments, n - 1).None?;
    forall ancestor: Path, name: string
      ensures n % 2 == 0 ==> (Accepts(segments, ancestor + [name]) <==>
        Accepts(segments[..n - 1], ancestor) && SegmentAccepts(segments[n - 1], name))
      ensures (ancestor + [name])[..|ancestor + [name]| - 1] == ancestor
    {
      AcceptsSplit(segments, ancestor, name);
    }
    if n % 2 == 0 && segments[n - 1].Literal? {
      LiteralLeafIsDropped(segments, e);
    }
  }

  lemma LiteralLeafIsDropped(segments: Pattern, e: Entry)
    requires ValidShape(segments) && |segments| % 2 == 0 && segments[|segments| - 1].Literal?
    requires e.pattern == segments[..|segments| - 1] && !e.recursive
    ensures !ClaimsWhatIsWritten(segments, e)
  {
    var n := |segments|;
    var ancestor, other := Sample(e.pattern, _ => ""), segments[n - 1].text + "x";
    forall i | 0 <= i < n - 1 ensures SegmentAccepts(e.pattern[i], ancestor[i]) {
      assert SegmentError(segments, i).None? && e.pattern[i] == segments[i];
    }
    assert Claims(e, ancestor, Some(other));
    AcceptsSplit(segments, ancestor, other);
  }

  /** A rule for one top-level collection keeps the collection and the rule. */
  lemma OneCollectionKept(segments: Pattern, rule: string)
    requires ValidShape(segments) && TargetOf(segments, rule).OneCollection?
    ensures segments[0] == Literal(TargetOf(segments, rule).name) && TargetOf(segments, rule).rule == rule
  {
    assert SegmentError(segments, 0).None?;
  }

  /** Why a shape is refused: a recursive wildcard before the end, one in the
      place of a document id, or a capture in the place of a collection name. */
  lemma ShapeErrors(segments: Pattern, i: nat)
    requires i < |segments|
    ensures SegmentError(segments, i) == Some(RecursiveNotTerminal) <==>
      segments[i] == RecursiveWildcard && i + 1 < |segments|
    ensures SegmentError(segments, i) == Some(RecursiveOddPrefix) <==>
      segments[i] == RecursiveWildcard && i + 1 == |segments| && i % 2 == 1
    ensures SegmentError(segments, i) == Some(NestedPath) <==> segments[i].Wildcard? && i % 2 == 0
  {
  }

  // ----- Importing a file again -----

  lemma {:induction false} UpsertKeepsOthers(stored: seq<Entry>, e: Entry, x: Entry)
    requires x in stored && !SameKey(x, e)
    ensures x in Upsert(stored, e)
  {
    if stored[0] != x && !SameKey(stored[0], e) {
      UpsertKeepsOthers(stored[1..], e, x);
    }
  }

  lemma {:induction false} UpsertStores(stored: seq<Entry>, e: Entry)
    ensures e in Upsert(stored, e)
  {
    if stored != [] && !SameKey(stored[0], e) {
      UpsertStores(stored[1..], e);
    }
  }

  lemma DistinctKeys(e: Entry, f: Entry)
    requires WellShaped(e) && Coexist(e, f)
    ensures !SameKey(e, f) && !SameKey(f, e)
  {
    if SameKey(e, f) {
      SameKeyClashes(e, f);
    }
  }

  /** Everything an accepted file holds is stored afterwards, and nothing else is new. */
  lemma {:induction false} UpsertAllStores(stored: seq<Entry>, file: seq<Entry>, x: Entry)
    requires forall e <- file :: WellShaped(e)
    requires forall i, j :: 0 <= i < j < |file| ==> Coexist(file[i], file[j])
    ensures x in file ==> x in UpsertAll(stored, file)
    ensures x in stored && (forall e <- file :: !SameKey(x, e)) ==> x in UpsertAll(stored, file)
    ensures x in UpsertAll(stored, file) ==> x in file || x in stored
    decreases |file|
  {
    if file != [] {
      var e, rest := file[0], file[1..];
      UpsertAllStores(Upsert(stored, e), rest, x);
      UpsertMembers(stored, e);
      UpsertStores(stored, e);
      if x in stored && !SameKey(x, e) {
        UpsertKeepsOthers(stored, e, x);
      }
      forall f <- rest ensures !SameKey(e, f) {
        DistinctKeys(e, f);
      }
      assert file == [e] + rest;
    }
  }

  lemma {:induction false} UpsertAgain(stored: seq<Entry>, e: Entry)
    requires Unambiguous(stored) && e in stored
    ensures Upsert(stored, e) == stored
  {
    if stored[0] == e {
      assert [e] + stored[1..] == stored;
    } else {
      var i :| 0 < i < |stored| && stored[i] == e;
      DistinctKeys(stored[0], stored[i]);
      assert stored[1..][i - 1] == e && Unambiguous(stored[1..]);
      UpsertAgain(stored[1..], e);
    }
  }

  lemma {:induction false} UpsertAllAgain(stored: seq<Entry>, file: seq<Entry>)
    requires Unambiguous(stored) && forall e <- file :: e in stored
    ensures UpsertAll(stored, file) == stored
    decreases |file|
  {
    if file != [] {
      UpsertAgain(stored, file[0]);
      UpsertAllAgain(stored, file[1..]);
    }
  }

  lemma SameFileAdmissible(file: seq<Entry>, e: Entry, s: Entry)
    requires e in file && s in file && forall x <- file :: WellShaped(x)
    requires forall i, j :: 0 <= i < j < |file| ==> Coexist(file[i], file[j])
    ensures Admissible(e, s)
  {
    if e != s {
      var i, j :| 0 <= i < |file| && 0 <= j < |file| && file[i] == e && file[j] == s;
      CoexistSymmetric(e, s);
    }
  }

  /** An accepted file is stored whole, and importing it again is accepted and changes nothing. */
  lemma ReimportChangesNothing(stored: seq<Entry>, file: seq<Entry>)
    requires Unambiguous(stored) && AcceptsImport(stored, file) && forall e <- file :: WellShaped(e)
    ensures var after := AfterImport(stored, file);
      (forall e <- file :: e in after) && AcceptsImport(after, file) && AfterImport(after, file) == after
  {
    var after := AfterImport(stored, file);
    ImportKeepsUnambiguous(stored, file);
    forall e <- file ensures e in after {
      UpsertAllStores(stored, file, e);
    }
    forall e <- file, s <- after ensures Admissible(e, s) {
      UpsertAllStores(stored, file, s);
      if s in file {
        SameFileAdmissible(file, e, s);
      }
    }
    UpsertAllAgain(after, file);
  }
}
