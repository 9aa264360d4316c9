/** Which stored rule a request is given (embyr-server grpc/handler.rs). The
    collection path of the request is read by the scanner of match paths, so a
    document id can be taken for a wildcard: the routing methods are specified
    for every collection path, and `RoutingAgreesIff` says for which of them
    the routed rules are the rules that claim the document. */
module RequestRouting {
  import opened Values
  import opened PathRouting
  import opened PathParsing
  import opened RuleStore

  datatype Route = BadPath | NoRule | Routed(entry: Entry, bindings: Bindings) | InvariantViolated

  // ----- Which entries a request finds -----

  /** The segments the entry is matched against. */
  function Matched(e: Entry, ancestor: Pattern, doc: Option<string>): Pattern {
    if e.recursive && doc.Some? then ancestor + [Literal(doc.value)] else ancestor
  }

  /** A recursive prefix binds the document path; a fixed-depth ancestor is in
      the bucket of the request's and binds it. */
  predicate Finds(e: Entry, ancestor: Pattern, doc: Option<string>) {
    if e.recursive then doc.Some? && BindPrefix(e.pattern, Matched(e, ancestor, doc)).Some?
    else
      && |e.pattern| == |ancestor| && LiteralSkeleton(e.pattern) == LiteralSkeleton(ancestor)
      && Bind(e.pattern, ancestor).Some?
  }

  predicate Collide(e: Entry, f: Entry, ancestor: Pattern, doc: Option<string>) {
    && Finds(e, ancestor, doc) && Finds(f, ancestor, doc)
    && e.recursive == f.recursive && |e.pattern| == |f.pattern|
  }

  /** The scan meets entry `j` when the deepest of its kind so far is just as deep. */
  predicate Tie(entries: seq<Entry>, i: nat, j: nat, ancestor: Pattern, doc: Option<string>) {
    && i < j < |entries| && Collide(entries[i], entries[j], ancestor, doc)
    && forall k :: 0 <= k < j && entries[k].recursive == entries[j].recursive && Finds(entries[k], ancestor, doc) ==>
         |entries[k].pattern| <= |entries[j].pattern|
  }

  /** What the request sees of the entry, for any collection path. */
  predicate Hits(e: Entry, collection: string, doc: Option<string>) {
    ParsePath(collection).Some? && Finds(e, ParsePath(collection).value, doc)
  }

  // ----- When the request finds what claims its document -----

  /** The whole path is read as it is spelled. */
  predicate PlainPath(segs: Path) {
    PlainCollections(segs) && PlainIds(segs)
  }

  lemma PlainParses(collection: string)
    requires PlainPath(Split(collection))
    ensures ParsePath(collection) == Some(Concrete(Split(collection)))
  {
    var segs := Split(collection);
    PlainStart(collection);
    assert forall i :: 0 <= i < |segs| ==> Plain(segs[i]);
    assert ParseSegments(segs).value == Concrete(segs);
  }

  lemma FindsIffClaims(e: Entry, path: Path, doc: Option<string>)
    requires WellShaped(e)
    ensures Finds(e, Concrete(path), doc) <==> Claims(e, path, doc)
  {
    if e.recursive {
      if doc.Some? {
        assert Matched(e, Concrete(path), doc) == Concrete(path + [doc.value]);
        BindsWhatItAccepts(e.pattern, path + [doc.value]);
      }
    } else {
      BindsWhatItAccepts(e.pattern, path);
      IndexLosesNothing(e.pattern, path);
    }
  }

  ghost predicate Agrees(collection: string, doc: Option<string>) {
    forall e :: WellShaped(e) ==> (Hits(e, collection, doc) <==> Claims(e, Split(collection), doc))
  }

  /** The rule written out for this one path; recursive where the depth asks for it. */
  function RuleFor(segs: Path): Entry {
    Entry(Concrete(segs), |segs| % 2 == 0, "")
  }

  lemma RuleForClaims(segs: Path, doc: Option<string>)
    requires |segs| > 1 && (|segs| % 2 == 1 || doc.Some?)
    ensures WellShaped(RuleFor(segs)) && Claims(RuleFor(segs), segs, doc)
  {
  }

  /** An id that reads as a recursive wildcard hides the path's own rule. */
  lemma HiddenRule(segs: Path, parsed: Pattern, i: nat, doc: Option<string>)
    requires |parsed| == |segs| && i < |segs| && parsed[i].RecursiveWildcard?
    ensures !Finds(RuleFor(segs), parsed, doc)
  {
    var e := RuleFor(segs);
    assert Matched(e, parsed, doc)[i] == parsed[i];
    assert !PositionsCompatible(e.pattern[i], Matched(e, parsed, doc)[i]);
  }

  /** The same path, but for one id. */
  function Other(segs: Path, i: nat): Path
    requires i < |segs|
  {
    segs[i := segs[i] + "x"]
  }

  /** Every segment of the request is read as it is spelled or as a wildcard,
      the collection names as they are spelled. */
  predicate Loose(segs: Path, parsed: Pattern) {
    && |parsed| == |segs|
    && (forall k :: 0 <= k < |segs| ==> parsed[k].Wildcard? || parsed[k] == Literal(segs[k]))
    && (forall k :: 0 <= k < |segs| && k % 2 == 0 ==> parsed[k].Literal?)
  }

  lemma OtherOverlaps(segs: Path, parsed: Pattern, i: nat)
    requires Loose(segs, parsed) && i < |segs| && parsed[i].Wildcard?
    ensures StructurallyOverlap(Concrete(Other(segs, i)), parsed)
    ensures LiteralSkeleton(Concrete(Other(segs, i))) == LiteralSkeleton(parsed)
  {
    var p := Concrete(Other(segs, i));
    assert forall k :: 0 <= k < |segs| ==> PositionsCompatible(p[k], parsed[k]);
    assert LiteralCollections(p) && LiteralCollections(parsed);
    OverlapSharesKey(p, parsed);
  }

  /** An id that reads as a wildcard finds the rule of another document. */
  lemma ForeignRule(segs: Path, parsed: Pattern, i: nat, doc: Option<string>)
    requires Loose(segs, parsed) && i < |segs| && i % 2 == 1 && parsed[i].Wildcard?
    requires |segs| % 2 == 1 || doc.Some?
    ensures var e := RuleFor(Other(segs, i));
      WellShaped(e) && !Claims(e, segs, doc) && Finds(e, parsed, doc)
  {
    var e := RuleFor(Other(segs, i));
    RuleForClaims(Other(segs, i), doc);
    assert e.pattern[i] == Literal(segs[i] + "x") && !SegmentAccepts(e.pattern[i], segs[i]);
    OtherOverlaps(segs, parsed, i);
    var m := Matched(e, parsed, doc);
    assert forall k :: 0 <= k < |segs| ==> m[k] == parsed[k];
    assert Compatible(e.pattern, m);
  }

  lemma PlainAgrees(collection: string, doc: Option<string>)
    requires PlainPath(Split(collection))
    ensures Agrees(collection, doc)
  {
    PlainParses(collection);
    forall e | WellShaped(e) ensures Hits(e, collection, doc) <==> Claims(e, Split(collection), doc) {
      FindsIffClaims(e, Split(collection), doc);
    }
  }

  lemma LooseUnlessRecursive(segs: Path)
    requires PlainCollections(segs) && ParseSegments(segs).Some?
    ensures Loose(segs, ParseSegments(segs).value) || !NoRecursive(ParseSegments(segs).value)
  {
    var parsed := ParseSegments(segs).value;
    assert forall k :: 0 <= k < |segs| ==> parsed[k] == ParseSegment(segs[k]).value;
  }

  lemma SomeRuleDiffers(segs: Path, parsed: Pattern, doc: Option<string>) returns (e: Entry)
    requires PlainCollections(segs) && !PlainIds(segs) && (|segs| % 2 == 1 || doc.Some?)
    requires ParseSegments(segs) == Some(parsed)
    ensures WellShaped(e) && Finds(e, parsed, doc) != Claims(e, segs, doc)
  {
    LooseUnlessRecursive(segs);
    if i :| 0 <= i < |parsed| && parsed[i].RecursiveWildcard? {
      e := RuleFor(segs);
      RuleForClaims(segs, doc);
      HiddenRule(segs, parsed, i, doc);
    } else {
      var i :| 0 <= i < |segs| && i % 2 == 1 && !Plain(segs[i]);
      assert parsed[i] == ParseSegment(segs[i]).value;
      e := RuleFor(Other(segs, i));
      ForeignRule(segs, parsed, i, doc);
    }
  }

  /** With an id that is not read as it is spelled, some rule is hidden or foreign. */
  lemma NotPlainDisagrees(collection: string, doc: Option<string>) returns (e: Entry)
    requires var segs := Split(collection);
      PlainCollections(segs) && !PlainIds(segs) && (|segs| % 2 == 1 || doc.Some?)
    ensures WellShaped(e) && Hits(e, collection, doc) != Claims(e, Split(collection), doc)
  {
    var segs := Split(collection);
    PlainStart(collection);
    if ParseSegments(segs).Some? {
      e := SomeRuleDiffers(segs, ParseSegments(segs).value, doc);
    } else {
      e := RuleFor(segs);
      RuleForClaims(segs, doc);
    }
  }

  /** With plain collection names, a request finds exactly the rules that claim
      its document if and only if every document id on the way is read as the
      literal it spells. (A collection path of even length names no collection;
      without a document id it finds and is claimed by nothing.) */
  lemma RoutingAgreesIff(collection: string, doc: Option<string>)
    requires PlainCollections(Split(collection))
    ensures Agrees(collection, doc) <==>
      PlainIds(Split(collection)) || (|Split(collection)| % 2 == 0 && doc.None?)
  {
    if PlainIds(Split(collection)) {
      PlainAgrees(collection, doc);
    } else if |Split(collection)| % 2 == 1 || doc.Some? {
      var e := NotPlainDisagrees(collection, doc);
    } else {
      PlainStart(collection);
    }
  }

  /** The collection `under` of document `id` of the collection `top`. */
  function Subcollection(top: string, id: string, under: string): string {
    JoinSlash([top, id, under])
  }

  lemma SubcollectionParses(top: string, id: string, under: string)
    requires '/' !in top && '/' !in id && '/' !in under && Plain(top) && Plain(under)
    ensures Split(Subcollection(top, id, under)) == [top, id, under]
    ensures ParseSegment(id).Some? ==>
      ParsePath(Subcollection(top, id, under)) == Some([Literal(top), ParseSegment(id).value, Literal(under)])
  {
    var segs := [top, id, under];
    SplitJoined(segs);
    PlainStart(JoinSlash(segs));
    if ParseSegment(id).Some? {
      assert ParseSegments(segs).value == [Literal(top), ParseSegment(id).value, Literal(under)];
    }
  }

  /** A stored `top/{u}/under` claims every document of the subcollection, and a
      request under an id that reads as a recursive wildcard finds no rule. */
  lemma RuleIsLost(top: string, id: string, under: string, name: string)
    requires '/' !in top && '/' !in id && '/' !in under && Plain(top) && Plain(under)
    requires ParseSegment(id) == Some(RecursiveWildcard)
    ensures var e := Entry([Literal(top), Wildcard("u"), Literal(under)], false, "");
      var collection := Subcollection(top, id, under);
      && Unambiguous([e]) && Claims(e, Split(collection), Some(name))
      && ParsePath(collection).Some? && !Hits(e, collection, Some(name))
  {
    var e := Entry([Literal(top), Wildcard("u"), Literal(under)], false, "");
    SubcollectionParses(top, id, under);
    assert !PositionsCompatible(e.pattern[1], RecursiveWildcard);
  }

  lemma WildcardFindsEach(top: string, wild: PathSegment, under: string, k: string, doc: Option<string>)
    requires wild.Wildcard?
    ensures var e := Entry([Literal(top), Literal(k), Literal(under)], false, "");
      Finds(e, [Literal(top), wild, Literal(under)], doc)
  {
    var p, parsed := [Literal(top), Literal(k), Literal(under)], [Literal(top), wild, Literal(under)];
    assert LiteralCollections(p) && LiteralCollections(parsed) && StructurallyOverlap(p, parsed);
    OverlapSharesKey(p, parsed);
  }

  /** Stored `top/k/under` and `top/l/under` claim no document together, and a
      request under an id that reads as a wildcard finds both. */
  lemma RulesCollide(top: string, id: string, under: string, k: string, l: string, name: string)
    requires '/' !in top && '/' !in id && '/' !in under && Plain(top) && Plain(under) && k != l
    requires ParseSegment(id).Some? && ParseSegment(id).value.Wildcard?
    ensures var e := Entry([Literal(top), Literal(k), Literal(under)], false, "");
      var f := Entry([Literal(top), Literal(l), Literal(under)], false, "");
      var collection := Subcollection(top, id, under);
      && Unambiguous([e, f])
      && ParsePath(collection).Some? && Collide(e, f, ParsePath(collection).value, Some(name))
  {
    var e := Entry([Literal(top), Literal(k), Literal(under)], false, "");
    var f := Entry([Literal(top), Literal(l), Literal(under)], false, "");
    SubcollectionParses(top, id, under);
    assert !PositionsCompatible(e.pattern[1], f.pattern[1]);
    WildcardFindsEach(top, ParseSegment(id).value, under, k, Some(name));
    WildcardFindsEach(top, ParseSegment(id).value, under, l, Some(name));
  }

  /** Ids of both kinds. */
  lemma IdsReadAsWildcards()
    ensures ParseSegment("a**b") == Some(RecursiveWildcard) && ParseSegment("{x}") == Some(Wildcard("x"))
  {
    assert "a**b"[1] == '*' && "a**b"[2] == '*';
    assert "{x}"[1..2] == "x";
  }

  // ----- A collection name that is not read as it is spelled -----

  predicate SlashFreeTexts(p: Pattern) {
    forall g <- p :: g.Literal? ==> '/' !in g.text
  }

  lemma {:induction false} SkeletonParts(p: Pattern)
    requires SlashFreeTexts(p)
    ensures SlashFree(EvenLiterals(p)) && |EvenLiterals(p)| <= (|p| + 1) / 2
    ensures |EvenLiterals(p)| == (|p| + 1) / 2 <==> forall i :: 0 <= i < |p| && i % 2 == 0 ==> p[i].Literal?
  {
    if p != [] {
      var n := |p| - 1;
      SkeletonParts(p[..n]);
      if forall i :: 0 <= i < n && i % 2 == 0 ==> p[..n][i].Literal? {
        assert forall i :: 0 <= i < n ==> p[..n][i] == p[i];
      } else {
        var i :| 0 <= i < n && i % 2 == 0 && !p[..n][i].Literal?;
        assert p[i] == p[..n][i];
      }
    }
  }

  /** Skeletons of slash-free names are equal only when the names are. */
  lemma SkeletonsDiffer(a: seq<string>, b: seq<string>)
    requires SlashFree(a) && SlashFree(b) && |a| < |b| && |b| >= 2
    ensures JoinSlash(a) != JoinSlash(b)
  {
    SplitJoined(b);
    if a == [] {
      assert Split("") == [""];
    } else {
      SplitJoined(a);
    }
  }

  /** A request whose collection name reads as a wildcard finds no fixed-depth rule. */
  lemma WildcardCollectionFindsNone(e: Entry, ancestor: Pattern, doc: Option<string>, i: nat)
    requires WellShaped(e) && !e.recursive && SlashFreeTexts(e.pattern) && SlashFreeTexts(ancestor)
    requires i < |ancestor| && i % 2 == 0 && !ancestor[i].Literal?
    ensures !Finds(e, ancestor, doc)
  {
    SkeletonParts(e.pattern);
    SkeletonParts(ancestor);
    if |e.pattern| == |ancestor| {
      SkeletonsDiffer(EvenLiterals(ancestor), EvenLiterals(e.pattern));
    }
  }

  // ----- Outcomes -----

  /** The outcome is decided by the entries the request finds: the only
      fixed-depth one, else the deepest recursive one, else none; it is a
      violation exactly when the scan ties. */
  ghost predicate GivesTheFoundRule(r: Route, entries: seq<Entry>, ancestor: Pattern, doc: Option<string>) {
    && !r.BadPath?
    && (r.NoRule? <==> forall e <- entries :: !Finds(e, ancestor, doc))
    && (r.InvariantViolated? <==>
      exists i: nat, j: nat :: Tie(entries, i, j, ancestor, doc) &&
        (entries[j].recursive ==> forall e <- entries :: Finds(e, ancestor, doc) ==> e.recursive))
    && (r.Routed? ==>
      && r.entry in entries && Finds(r.entry, ancestor, doc)
      && r.bindings == Captures(r.entry.pattern, Matched(r.entry, ancestor, doc))
      && (forall e <- entries :: Finds(e, ancestor, doc) && e.recursive == r.entry.recursive ==>
            e == r.entry || (e.recursive && |e.pattern| < |r.entry.pattern|))
      && (r.entry.recursive ==> forall e <- entries :: Finds(e, ancestor, doc) ==> e.recursive))
  }

  /** The outcome is decided by the rules that claim the document, without violation. */
  predicate GivesTheClaimingRule(r: Route, entries: seq<Entry>, path: Path, doc: Option<string>) {
    && !r.BadPath? && !r.InvariantViolated?
    && (r.NoRule? <==> forall e <- entries :: !Claims(e, path, doc))
    && (r.Routed? ==>
      && r.entry in entries && Claims(r.entry, path, doc)
      && r.bindings == Captures(r.entry.pattern, Concrete(if r.entry.recursive then path + [doc.value] else path))
      && (forall e <- entries :: Claims(e, path, doc) && e.recursive == r.entry.recursive ==>
            e == r.entry || (e.recursive && |e.pattern| < |r.entry.pattern|))
      && (r.entry.recursive ==> forall e <- entries :: Claims(e, path, doc) ==> e.recursive))
  }

  /** On an unambiguous store a literal path never finds two rules of one kind and depth. */
  lemma LiteralsNeverCollide(entries: seq<Entry>, i: nat, j: nat, path: Path, doc: Option<string>)
    requires Unambiguous(entries) && i < j < |entries|
    ensures !Collide(entries[i], entries[j], Concrete(path), doc)
  {
    FindsIffClaims(entries[i], path, doc);
    FindsIffClaims(entries[j], path, doc);
    UnambiguousNeverClashes(entries, i, j, path, doc);
  }

  /** So what a literal path is given is the rule that claims the document. */
  lemma FoundRuleClaims(r: Route, entries: seq<Entry>, path: Path, doc: Option<string>)
    requires Unambiguous(entries) && GivesTheFoundRule(r, entries, Concrete(path), doc)
    ensures GivesTheClaimingRule(r, entries, path, doc)
  {
    forall e <- entries ensures Finds(e, Concrete(path), doc) <==> Claims(e, path, doc) {
      FindsIffClaims(e, path, doc);
    }
    forall i, j | 0 <= i < j < |entries| ensures !Collide(entries[i], entries[j], Concrete(path), doc) {
      LiteralsNeverCollide(entries, i, j, path, doc);
    }
    if r.Routed? && r.entry.recursive {
      assert Matched(r.entry, Concrete(path), doc) == Concrete(path + [doc.value]);
    }
  }

  // ----- Routing -----

  class RoutingTable {
    var entries: seq<Entry>

    ghost predicate Valid()
      reads this
    {
      forall e <- entries :: WellShaped(e)
    }

    constructor ()
      ensures entries == [] && Valid() && Unambiguous(entries)
    {
      entries := [];
    }

    method Import(targets: seq<Target>) returns (accepted: bool)
      requires Valid() && forall t <- targets :: t.Stored? ==> WellShaped(t.entry)
      modifies this
      ensures accepted == AcceptsImport(old(entries), Patterns(targets))
      ensures entries == AfterImport(old(entries), Patterns(targets))
      ensures old(Unambiguous(entries)) ==> Unambiguous(entries)
    {
      var file := CollectPatterns(targets);
      PatternsWellShaped(targets);
      accepted := CheckPatternOverlap(entries, file);
      if accepted {
        if Unambiguous(entries) { ImportKeepsUnambiguous(entries, file); }
        entries := UpsertAll(entries, file);
      }
    }

    /** The fixed-depth rules, narrowed by the index before binding. */
    method ResolveFixed(ancestor: Pattern, doc: Option<string>) returns (r: Route)
      ensures r != BadPath
      ensures r == NoRule <==> forall e <- entries :: !e.recursive ==> !Finds(e, ancestor, doc)
      ensures r == InvariantViolated <==>
        exists i: nat, j: nat :: Tie(entries, i, j, ancestor, doc) && !entries[j].recursive
      ensures r.Routed? ==>
        r.entry in entries && !r.entry.recursive && Finds(r.entry, ancestor, doc) &&
        r.bindings == Captures(r.entry.pattern, ancestor) &&
        forall e <- entries :: !e.recursive && Finds(e, ancestor, doc) ==> e == r.entry
    {
      var skeleton := LiteralSkeleton(ancestor);
      var matched: Option<(nat, Bindings)> := None;
      for i := 0 to |entries|
        invariant matched.None? ==> forall k :: 0 <= k < i && !entries[k].recursive ==>
          !Finds(entries[k], ancestor, doc)
        invariant matched.Some? ==>
          var m := matched.value.0;
          m < i && !entries[m].recursive && Finds(entries[m], ancestor, doc) &&
          matched.value.1 == Captures(entries[m].pattern, ancestor) &&
          forall k :: 0 <= k < i && k != m && !entries[k].recursive ==> !Finds(entries[k], ancestor, doc)
      {
        var e := entries[i];
        if !e.recursive && |e.pattern| == |ancestor| && LiteralSkeleton(e.pattern) == skeleton {
          var bindings := BindAncestor(e.pattern, ancestor);
          if bindings.Some? {
            if matched.Some? {
              assert Tie(entries, matched.value.0, i, ancestor, doc);
              return InvariantViolated;
            }
            matched := Some((i, bindings.value));
          }
        }
      }
      r := if matched.Some? then Routed(entries[matched.value.0], matched.value.1) else NoRule;
    }

    /** The deepest recursive prefix, scanned in storage order. */
    method ResolveRecursive(ancestor: Pattern, doc: Option<string>) returns (r: Route)
      requires doc.Some?
      ensures r != BadPath
      ensures r == NoRule <==> forall e <- entries :: e.recursive ==> !Finds(e, ancestor, doc)
      ensures r == InvariantViolated <==>
        exists i: nat, j: nat :: Tie(entries, i, j, ancestor, doc) && entries[j].recursive
      ensures r.Routed? ==>
        r.entry in entries && r.entry.recursive && Finds(r.entry, ancestor, doc) &&
        r.bindings == Captures(r.entry.pattern, Matched(r.entry, ancestor, doc)) &&
        forall e <- entries :: e.recursive && Finds(e, ancestor, doc) ==>
          e == r.entry || |e.pattern| < |r.entry.pattern|
    {
      var full := ancestor + [Literal(doc.value)];
      var best: Option<(nat, Bindings)> := None;
      for i := 0 to |entries|
        invariant best.None? ==> forall k :: 0 <= k < i && entries[k].recursive ==> !Finds(entries[k], ancestor, doc)
        invariant best.Some? ==>
          var m := best.value.0;
          m < i && entries[m].recursive && Finds(entries[m], ancestor, doc) &&
          best.value.1 == Captures(entries[m].pattern, full) &&
          forall k :: 0 <= k < i && k != m && entries[k].recursive && Finds(entries[k], ancestor, doc) ==>
            |entries[k].pattern| < |entries[m].pattern|
        invariant forall k: nat, l: nat :: l < i && entries[l].recursive ==> !Tie(entries, k, l, ancestor, doc)
      {
        var e := entries[i];
        if e.recursive && |e.pattern| <= |full| {
          var bound := BindRecursivePrefix(e.pattern, full);
          if bound.Some? {
            if best.Some? && |entries[best.value.0].pattern| == |e.pattern| {
              assert Tie(entries, best.value.0, i, ancestor, doc);
              return InvariantViolated;
            }
            if best.None? || |entries[best.value.0].pattern| < |e.pattern| {
              best := Some((i, bound.value.0));
            }
          }
        }
      }
      r := if best.Some? then Routed(entries[best.value.0], best.value.1) else NoRule;
    }

    /** The fixed-depth rules first, then the recursive ones; for every request. */
    method Resolve(collection: string, doc: Option<string>) returns (r: Route)
      ensures ParsePath(collection).None? ==> r == BadPath
      ensures ParsePath(collection).Some? ==> GivesTheFoundRule(r, entries, ParsePath(collection).value, doc)
    {
      var parsed := ParsePath(collection);
      if parsed.None? {
        return BadPath;
      }
      r := ResolveFixed(parsed.value, doc);
      if r == NoRule && doc.Some? {
        r := ResolveRecursive(parsed.value, doc);
      }
    }

    /** On an unambiguous store, a request whose path is read as it is spelled is
        given the rule that claims the document, and none only if none does. */
    method RouteDocument(collection: string, doc: Option<string>) returns (r: Route)
      requires Unambiguous(entries)
      ensures ParsePath(collection).None? ==> r == BadPath
      ensures ParsePath(collection).Some? ==> GivesTheFoundRule(r, entries, ParsePath(collection).value, doc)
      ensures PlainPath(Split(collection)) ==> GivesTheClaimingRule(r, entries, Split(collection), doc)
    {
      r := Resolve(collection, doc);
      if PlainPath(Split(collection)) {
        PlainParses(collection);
        FoundRuleClaims(r, entries, Split(collection), doc);
      }
    }
  }
}
