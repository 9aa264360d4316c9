/** Matching of path patterns (access_control/path_routing.rs): overlap, binding,
    containment of recursive prefixes and the routing index key, each related
    to the concrete paths the patterns accept. */
module PathRouting {
  import opened Values

  datatype PathSegment = Literal(text: string) | Wildcard(name: string) | RecursiveWildcard

  type Pattern = seq<PathSegment>

  type Path = seq<string>

  type Bindings = map<string, string>

  function Concrete(path: Path): Pattern {
    seq(|path|, i requires 0 <= i < |path| => Literal(path[i]))
  }

  // ----- Primitives -----

  predicate PositionsCompatible(a: PathSegment, b: PathSegment) {
    if a.RecursiveWildcard? || b.RecursiveWildcard? then false
    else if a.Literal? && b.Literal? then a.text == b.text
    else true
  }

  predicate Compatible(a: Pattern, b: Pattern)
    requires |a| <= |b|
  {
    forall i :: 0 <= i < |a| ==> PositionsCompatible(a[i], b[i])
  }

  predicate StructurallyOverlap(a: Pattern, b: Pattern) {
    |a| == |b| && Compatible(a, b)
  }

  /** What the wildcards of `p` capture, the last capture of a name winning. */
  function Captures(p: Pattern, c: Pattern): Bindings
    requires |p| <= |c|
  {
    if p == [] then map[] else
    var n := |p| - 1;
    var before := Captures(p[..n], c);
    if p[n].Wildcard? && c[n].Literal? then before[p[n].name := c[n].text] else before
  }

  function Bind(p: Pattern, c: Pattern): Option<Bindings> {
    if |p| == |c| && Compatible(p, c) then Some(Captures(p, c)) else None
  }

  method BindAncestor(p: Pattern, c: Pattern) returns (r: Option<Bindings>)
    ensures r == Bind(p, c)
  {
    if |p| != |c| { return None; }
    var bindings: Bindings := map[];
    for i := 0 to |p|
      invariant forall j :: 0 <= j < i ==> PositionsCompatible(p[j], c[j])
      invariant bindings == Captures(p[..i], c)
    {
      assert p[..i + 1][..i] == p[..i];
      if !PositionsCompatible(p[i], c[i]) { return None; }
      if p[i].Wildcard? && c[i].Literal? { bindings := bindings[p[i].name := c[i].text]; }
    }
    assert p[..|p|] == p;
    r := Some(bindings);
  }

  /** A prefix binds the leading positions of a document path; the rest is the remainder. */
  function BindPrefix(p: Pattern, c: Pattern): Option<(Bindings, nat)> {
    if |p| <= |c| && Compatible(p, c) then Some((Captures(p, c), |c| - |p|)) else None
  }

  method BindRecursivePrefix(p: Pattern, c: Pattern) returns (r: Option<(Bindings, nat)>)
    ensures r == BindPrefix(p, c)
  {
    if |c| < |p| { return None; }
    var bindings: Bindings := map[];
    for i := 0 to |p|
      invariant forall j :: 0 <= j < i ==> PositionsCompatible(p[j], c[j])
      invariant bindings == Captures(p[..i], c)
    {
      assert p[..i + 1][..i] == p[..i];
      if !PositionsCompatible(p[i], c[i]) { return None; }
      if p[i].Wildcard? && c[i].Literal? { bindings := bindings[p[i].name := c[i].text]; }
    }
    assert p[..|p|] == p;
    r := Some((bindings, |c| - |p|));
  }

  predicate Generalizes(general: PathSegment, specific: PathSegment) {
    if general.Literal? && specific.Literal? then general.text == specific.text
    else general.Wildcard?
  }

  function FixedDepthFullReach(ancestor: Pattern): Pattern {
    ancestor + [Wildcard("")]
  }

  datatype PrefixRelation = Disjoint | Contains(deeperIsB: bool) | AmbiguousOverlap

  predicate GeneralizesAll(shorter: Pattern, longer: Pattern)
    requires |shorter| <= |longer|
  {
    forall i :: 0 <= i < |shorter| ==> Generalizes(shorter[i], longer[i])
  }

  function Classify(a: Pattern, b: Pattern): PrefixRelation {
    if |a| == |b| then
      if StructurallyOverlap(a, b) then AmbiguousOverlap else Disjoint
    else
      var (shorter, longer) := if |a| < |b| then (a, b) else (b, a);
      if GeneralizesAll(shorter, longer) then Contains(|a| < |b|)
      else if Compatible(shorter, longer) then AmbiguousOverlap
      else Disjoint
  }

  // ----- Meaning: the concrete paths a pattern accepts -----

  predicate SegmentAccepts(g: PathSegment, s: string) {
    g.Wildcard? || g == Literal(s)
  }

  predicate Accepts(p: Pattern, path: Path) {
    |p| == |path| && forall i :: 0 <= i < |p| ==> SegmentAccepts(p[i], path[i])
  }

  /** Document paths at or below a prefix. */
  predicate Reaches(p: Pattern, path: Path) {
    |p| <= |path| && forall i :: 0 <= i < |p| ==> SegmentAccepts(p[i], path[i])
  }

  predicate NoRecursive(p: Pattern) {
    forall g <- p :: !g.RecursiveWildcard?
  }

  /** A path accepted by `p`, with `fill` at its wildcards. */
  function Sample(p: Pattern, fill: int -> string): Path {
    seq(|p|, i requires 0 <= i < |p| => if p[i].Literal? then p[i].text else fill(i))
  }

  lemma BindsWhatItAccepts(p: Pattern, path: Path)
    ensures Bind(p, Concrete(path)).Some? <==> Accepts(p, path)
    ensures BindPrefix(p, Concrete(path)).Some? <==> Reaches(p, path)
    ensures BindPrefix(p, Concrete(path)).Some? ==> |p| + BindPrefix(p, Concrete(path)).value.1 == |path|
  {
    var c := Concrete(path);
    assert forall i :: 0 <= i < |p| && i < |c| ==> (PositionsCompatible(p[i], c[i]) <==> SegmentAccepts(p[i], path[i]));
  }

  /** A path both accept, when every position is compatible. */
  function Common(a: Pattern, b: Pattern): Path
    requires |a| <= |b|
  {
    seq(|b|, i requires 0 <= i < |b| =>
      if i < |a| && a[i].Literal? then a[i].text else if b[i].Literal? then b[i].text else "")
  }

  /** Compatible positions are exactly a shared path, for patterns of any shape
      on the common positions. */
  lemma CompatibleMeansShared(a: Pattern, b: Pattern)
    requires |a| <= |b| && NoRecursive(b[|a|..])
    ensures Compatible(a, b) <==> exists path :: Reaches(a, path) && Reaches(b, path)
  {
    if Compatible(a, b) {
      forall i | 0 <= i < |b| ensures SegmentAccepts(b[i], Common(a, b)[i]) {
        if i >= |a| { assert b[i] == b[|a|..][i - |a|]; }
      }
      assert Reaches(a, Common(a, b)) && Reaches(b, Common(a, b));
    }
    if path :| Reaches(a, path) && Reaches(b, path) {
      forall i | 0 <= i < |a| ensures PositionsCompatible(a[i], b[i]) {
        assert SegmentAccepts(a[i], path[i]) && SegmentAccepts(b[i], path[i]);
      }
    }
  }

  /** Overlap detection is exact, for any patterns. */
  lemma OverlapIff(a: Pattern, b: Pattern)
    ensures StructurallyOverlap(a, b)
       <==> exists path :: Bind(a, Concrete(path)).Some? && Bind(b, Concrete(path)).Some?
  {
    if StructurallyOverlap(a, b) {
      CompatibleMeansShared(a, b);
      var path :| Reaches(a, path) && Reaches(b, path);
      var cut := path[..|a|];
      BindsWhatItAccepts(a, cut);
      BindsWhatItAccepts(b, cut);
    }
    if path :| Bind(a, Concrete(path)).Some? && Bind(b, Concrete(path)).Some? {
      BindsWhatItAccepts(a, path);
      BindsWhatItAccepts(b, path);
      CompatibleMeansShared(a, b);
    }
  }

  // ----- Binding and substitution are inverse -----

  predicate DistinctNames(p: Pattern) {
    forall i, j :: 0 <= i < j < |p| && p[i].Wildcard? && p[j].Wildcard? ==> p[i].name != p[j].name
  }

  /** `path` is `p` with its wildcards replaced by what `m` gives them. */
  predicate Instantiates(p: Pattern, m: Bindings, path: Path) {
    |p| == |path| &&
    forall i :: 0 <= i < |p| ==>
      match p[i]
      case Literal(s) => path[i] == s
      case Wildcard(n) => n in m && m[n] == path[i]
      case RecursiveWildcard => false
  }

  lemma {:induction false} CapturesLast(p: Pattern, c: Pattern, i: nat)
    requires |p| <= |c| && i < |p| && p[i].Wildcard? && c[i].Literal?
    requires forall j :: i < j < |p| && p[j].Wildcard? ==> p[j].name != p[i].name
    ensures p[i].name in Captures(p, c) && Captures(p, c)[p[i].name] == c[i].text
  {
    var n := |p| - 1;
    if i < n { CapturesLast(p[..n], c, i); }
  }

  ghost predicate RoundTrips(p: Pattern) {
    forall path :: Bind(p, Concrete(path)).Some? ==> Instantiates(p, Bind(p, Concrete(path)).value, path)
  }

  /** Every returned binding gives the path back if and only if wildcard names
      are pairwise distinct (a pattern with a recursive wildcard binds nothing). */
  lemma BindRoundTripsIff(p: Pattern)
    ensures RoundTrips(p) <==> DistinctNames(p) || !NoRecursive(p)
  {
    if !NoRecursive(p) {
      forall path ensures Bind(p, Concrete(path)).None? {
        var i :| 0 <= i < |p| && p[i].RecursiveWildcard?;
        assert |p| == |Concrete(path)| ==> !PositionsCompatible(p[i], Concrete(path)[i]);
      }
    } else if DistinctNames(p) {
      forall path | Bind(p, Concrete(path)).Some?
        ensures Instantiates(p, Bind(p, Concrete(path)).value, path)
      {
        var c := Concrete(path);
        forall i | 0 <= i < |p| && p[i].Wildcard?
          ensures p[i].name in Captures(p, c) && Captures(p, c)[p[i].name] == path[i]
        {
          CapturesLast(p, c, i);
        }
        assert forall i :: 0 <= i < |p| ==> PositionsCompatible(p[i], c[i]);
      }
    } else {
      var i, j :| 0 <= i < j < |p| && p[i].Wildcard? && p[j].Wildcard? && p[i].name == p[j].name;
      var path := Sample(p, k => if k == i then "a" else "b");
      assert Accepts(p, path);
      BindsWhatItAccepts(p, path);
      assert path[i] == "a" && path[j] == "b";
    }
  }

  /** A refused path is no instance of the pattern under any binding. */
  lemma NoneMeansNoInstance(p: Pattern, path: Path, m: Bindings)
    requires Bind(p, Concrete(path)).None?
    ensures !Instantiates(p, m, path)
  {
    if Instantiates(p, m, path) {
      assert Accepts(p, path);
      BindsWhatItAccepts(p, path);
    }
  }

  // ----- Prefix classification is exact -----

  ghost predicate ReachSubset(inner: Pattern, outer: Pattern) {
    forall path :: Reaches(inner, path) ==> Reaches(outer, path)
  }

  ghost predicate ReachesMeet(a: Pattern, b: Pattern) {
    exists path :: Reaches(a, path) && Reaches(b, path)
  }

  lemma GeneralizesMeansContains(shorter: Pattern, longer: Pattern)
    requires |shorter| <= |longer| && NoRecursive(shorter) && NoRecursive(longer)
    ensures GeneralizesAll(shorter, longer) <==> ReachSubset(longer, shorter)
  {
    if GeneralizesAll(shorter, longer) {
      forall path | Reaches(longer, path) ensures Reaches(shorter, path) {
        forall i | 0 <= i < |shorter| ensures SegmentAccepts(shorter[i], path[i]) {
          assert Generalizes(shorter[i], longer[i]) && SegmentAccepts(longer[i], path[i]);
        }
      }
    } else {
      var i :| 0 <= i < |shorter| && !Generalizes(shorter[i], longer[i]);
      var path := Sample(longer, k => if k == i then shorter[i].text + "x" else "");
      assert Reaches(longer, path) && !SegmentAccepts(shorter[i], path[i]);
    }
  }

  /** Disjoint, Contains and AmbiguousOverlap say exactly how the reaches of two
      recursive prefixes relate. */
  lemma ClassifyIsExact(a: Pattern, b: Pattern)
    requires NoRecursive(a) && NoRecursive(b)
    ensures Classify(a, b) == Disjoint <==> !ReachesMeet(a, b)
    ensures Classify(a, b).Contains? <==>
      |a| != |b| && ReachSubset(if |a| < |b| then b else a, if |a| < |b| then a else b)
    ensures Classify(a, b).Contains? ==> Classify(a, b).deeperIsB == (|a| < |b|)
    ensures Classify(a, b) == AmbiguousOverlap <==>
      ReachesMeet(a, b) &&
      (|a| == |b| || !ReachSubset(if |a| < |b| then b else a, if |a| < |b| then a else b))
  {
    var (shorter, longer) := if |a| < |b| then (a, b) else (b, a);
    CompatibleMeansShared(shorter, longer);
    GeneralizesMeansContains(shorter, longer);
    if |a| == |b| {
      assert StructurallyOverlap(a, b) <==> Compatible(b, a);
    }
    if GeneralizesAll(shorter, longer) {
      assert Compatible(shorter, longer);
    }
  }

  /** The recursive wildcard must be excluded: a wildcard generalizes it. */
  lemma RecursiveWildcardIsMisclassified()
    ensures Classify([Wildcard("w")], [RecursiveWildcard, Literal("x")]).Contains?
    ensures !ReachesMeet([Wildcard("w")], [RecursiveWildcard, Literal("x")])
  {
    assert forall path :: Reaches([RecursiveWildcard, Literal("x")], path) ==>
      SegmentAccepts([RecursiveWildcard, Literal("x")][0], path[0]);
  }

  /** A fixed-depth pattern reaches documents of exactly its depth, so against it
      "disjoint" is exact if and only if the prefix is no longer than the reach
      or differs from it at some position they share. */
  lemma FixedDepthComparison(prefix: Pattern, ancestor: Pattern)
    requires NoRecursive(prefix) && NoRecursive(ancestor)
    ensures var reach := FixedDepthFullReach(ancestor);
      (Classify(prefix, reach) == Disjoint <==> !exists path :: Reaches(prefix, path) && Accepts(reach, path))
      <==> |prefix| <= |reach| || !Compatible(reach, prefix)
  {
    var reach := FixedDepthFullReach(ancestor);
    ClassifyIsExact(prefix, reach);
    if path :| Reaches(prefix, path) && Reaches(reach, path) {
      if |prefix| <= |reach| {
        assert Reaches(prefix, path[..|reach|]) && Accepts(reach, path[..|reach|]);
      }
    }
    assert forall path :: Accepts(reach, path) ==> Reaches(reach, path);
  }

  // ----- The deepest matching prefix is unique -----

  ghost predicate PairwiseResolved(prefixes: seq<Pattern>) {
    forall i, j :: 0 <= i < j < |prefixes| ==> Classify(prefixes[i], prefixes[j]) != AmbiguousOverlap
  }

  /** Any two of them that match one path are nested, the longer inside the shorter. */
  lemma MatchesFormChain(prefixes: seq<Pattern>, i: nat, j: nat, path: Path)
    requires PairwiseResolved(prefixes) && forall p <- prefixes :: NoRecursive(p)
    requires i < j < |prefixes| && Reaches(prefixes[i], path) && Reaches(prefixes[j], path)
    ensures |prefixes[i]| != |prefixes[j]|
    ensures |prefixes[i]| < |prefixes[j]| ==> ReachSubset(prefixes[j], prefixes[i])
    ensures |prefixes[j]| < |prefixes[i]| ==> ReachSubset(prefixes[i], prefixes[j])
  {
    ClassifyIsExact(prefixes[i], prefixes[j]);
    assert ReachesMeet(prefixes[i], prefixes[j]);
  }

  lemma LongestMatch(prefixes: seq<Pattern>, path: Path) returns (m: nat)
    requires exists i :: 0 <= i < |prefixes| && Reaches(prefixes[i], path)
    ensures m < |prefixes| && Reaches(prefixes[m], path)
    ensures forall k :: 0 <= k < |prefixes| && Reaches(prefixes[k], path) ==> |prefixes[k]| <= |prefixes[m]|
  {
    m :| m < |prefixes| && Reaches(prefixes[m], path);
    for n := 0 to |prefixes|
      invariant m < |prefixes| && Reaches(prefixes[m], path)
      invariant forall k :: 0 <= k < n && Reaches(prefixes[k], path) ==> |prefixes[k]| <= |prefixes[m]|
    {
      if Reaches(prefixes[n], path) && |prefixes[n]| > |prefixes[m]| {
        m := n;
      }
    }
  }

  /** So a path that is reached at all has one deepest prefix, strictly longer
      than every other that reaches it and contained in each of them. */
  lemma DeepestMatchIsUnique(prefixes: seq<Pattern>, path: Path) returns (m: nat)
    requires PairwiseResolved(prefixes) && forall p <- prefixes :: NoRecursive(p)
    requires exists i :: 0 <= i < |prefixes| && Reaches(prefixes[i], path)
    ensures m < |prefixes| && Reaches(prefixes[m], path)
    ensures forall k :: 0 <= k < |prefixes| && k != m && Reaches(prefixes[k], path) ==>
      |prefixes[k]| < |prefixes[m]| && ReachSubset(prefixes[m], prefixes[k])
  {
    m := LongestMatch(prefixes, path);
    forall k | 0 <= k < |prefixes| && k != m && Reaches(prefixes[k], path)
      ensures |prefixes[k]| < |prefixes[m]| && ReachSubset(prefixes[m], prefixes[k])
    {
      if k < m {
        MatchesFormChain(prefixes, k, m, path);
      } else {
        MatchesFormChain(prefixes, m, k, path);
      }
    }
  }

  // ----- The routing index -----

  /** Collection-name positions are literal, and nothing is recursive. */
  predicate LiteralCollections(p: Pattern) {
    NoRecursive(p) && forall i :: 0 <= i < |p| && i % 2 == 0 ==> p[i].Literal?
  }

  function EvenLiterals(p: Pattern): seq<string> {
    if p == [] then [] else
    var n := |p| - 1;
    EvenLiterals(p[..n]) + (if n % 2 == 0 && p[n].Literal? then [p[n].text] else [])
  }

  function LiteralSkeleton(p: Pattern): string {
    JoinSlash(EvenLiterals(p))
  }

  /** Overlapping patterns carry the same index key; so does a path and a
      pattern that binds it. */
  lemma {:induction false} OverlapSharesKey(a: Pattern, b: Pattern)
    requires LiteralCollections(a) && LiteralCollections(b) && StructurallyOverlap(a, b)
    ensures EvenLiterals(a) == EvenLiterals(b)
  {
    if a != [] {
      var n := |a| - 1;
      OverlapSharesKey(a[..n], b[..n]);
      assert PositionsCompatible(a[n], b[n]);
    }
  }

  /** Narrowing by segment count and skeleton loses nothing: the narrowed
      candidates that bind are exactly the stored patterns that bind. */
  lemma IndexLosesNothing(p: Pattern, path: Path)
    requires LiteralCollections(p)
    ensures Bind(p, Concrete(path)).Some? ==>
      |p| == |path| && LiteralSkeleton(p) == LiteralSkeleton(Concrete(path))
  {
    if Bind(p, Concrete(path)).Some? {
      OverlapSharesKey(p, Concrete(path));
    }
  }
}
