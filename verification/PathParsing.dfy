/** Splitting a path text into segments (access_control/rules_file.rs). The
    same scanner reads the match paths of a rules file, the stored patterns and
    the collection path of every request. */
module PathParsing {
  import opened Values
  import opened PathRouting

  function Split(s: string): (parts: seq<string>)
    ensures parts != []
  {
    if s == "" then [""] else
    var rest := Split(s[1..]);
    if s[0] == '/' then [""] + rest else [[s[0]] + rest[0]] + rest[1..]
  }

  predicate SlashFree(parts: seq<string>) {
    forall part <- parts :: '/' !in part
  }

  lemma {:induction false} SplitIsSlashFree(s: string)
    ensures SlashFree(Split(s))
  {
    if s != "" { SplitIsSlashFree(s[1..]); }
  }

  lemma {:induction false} SplitPrepends(part: string, rest: string)
    requires '/' !in part
    ensures Split(part + "/" + rest) == [part] + Split(rest)
  {
    var s := part + "/" + rest;
    if part == "" {
      assert s[1..] == rest;
    } else {
      assert s[1..] == part[1..] + "/" + rest && part == [part[0]] + part[1..];
      SplitPrepends(part[1..], rest);
    }
  }

  lemma {:induction false} SplitOfPart(part: string)
    requires '/' !in part
    ensures Split(part) == [part]
  {
    if part != "" {
      SplitOfPart(part[1..]);
      assert part == [part[0]] + part[1..];
    }
  }

  /** Splitting undoes joining. */
  lemma {:induction false} SplitJoined(parts: seq<string>)
    requires parts != [] && SlashFree(parts)
    ensures Split(JoinSlash(parts)) == parts
  {
    if |parts| == 1 {
      SplitOfPart(parts[0]);
    } else {
      SplitPrepends(parts[0], JoinSlash(parts[1..]));
      SplitJoined(parts[1..]);
    }
  }

  predicate Braced(seg: string) {
    |seg| >= 2 && seg[0] == '{' && seg[|seg| - 1] == '}'
  }

  predicate HasDoubleStar(seg: string) {
    exists i :: 0 <= i < |seg| - 1 && seg[i] == '*' && seg[i + 1] == '*'
  }

  predicate EndsRecursive(name: string) {
    |name| >= 3 && name[|name| - 3..] == "=**"
  }

  /** `parse_one_segment`; no segment is a syntax error. */
  function ParseSegment(seg: string): Option<PathSegment> {
    if Braced(seg) then
      var inner := seg[1..|seg| - 1];
      if EndsRecursive(inner) then Some(RecursiveWildcard)
      else if inner == "" then None
      else Some(Wildcard(inner))
    else if HasDoubleStar(seg) then Some(RecursiveWildcard)
    else if seg == "" then None
    else Some(Literal(seg))
  }

  /** The segment is `{name}`. */
  predicate Spells(seg: string, name: string) {
    seg == "{" + name + "}"
  }

  ghost predicate EndsWith(s: string, tail: string) {
    exists front :: s == front + tail
  }

  ghost predicate Around(s: string, middle: string) {
    exists front, back :: s == front + middle + back
  }

  lemma BracedIff(seg: string)
    ensures Braced(seg) <==> exists name :: Spells(seg, name)
  {
    if Braced(seg) {
      assert Spells(seg, seg[1..|seg| - 1]);
    }
  }

  lemma EndsRecursiveIff(name: string)
    ensures EndsRecursive(name) <==> EndsWith(name, "=**")
  {
    if EndsRecursive(name) {
      assert name == name[..|name| - 3] + "=**";
    }
    if front :| name == front + "=**" {
      assert name[|name| - 3..] == "=**";
    }
  }

  lemma DoubleStarIff(seg: string)
    ensures HasDoubleStar(seg) <==> Around(seg, "**")
  {
    if i :| 0 <= i < |seg| - 1 && seg[i] == '*' && seg[i + 1] == '*' {
      assert seg == seg[..i] + "**" + seg[i + 2..];
    }
    if front, back :| seg == front + "**" + back {
      assert seg[|front|] == '*' && seg[|front| + 1] == '*';
    }
  }

  /** How a segment is read: `{name}` captures, `{...=**}` and a bare `**` take
      the rest, `{}` and nothing are errors, and all else stands for itself. */
  lemma SegmentReads(seg: string, name: string)
    ensures ParseSegment(seg) == Some(Wildcard(name)) <==> Spells(seg, name) && name != "" && !EndsWith(name, "=**")
    ensures ParseSegment(seg) == Some(Literal(name)) <==>
      seg == name != "" && !Around(seg, "**") && !exists inner :: Spells(seg, inner)
    ensures ParseSegment(seg) == Some(RecursiveWildcard) <==>
      if exists inner :: Spells(seg, inner) then exists inner :: Spells(seg, inner) && EndsWith(inner, "=**")
      else Around(seg, "**")
    ensures ParseSegment(seg) == None <==> seg == "" || seg == "{}"
  {
    BracedIff(seg);
    DoubleStarIff(seg);
    if Braced(seg) {
      var inner := seg[1..|seg| - 1];
      assert Spells(seg, inner) && forall other :: Spells(seg, other) ==> other == inner;
      EndsRecursiveIff(inner);
    }
  }

  function ParseSegments(segs: Path): Option<Pattern> {
    if forall seg <- segs :: ParseSegment(seg).Some?
    then Some(seq(|segs|, i requires 0 <= i < |segs| => ParseSegment(segs[i]).value))
    else None
  }

  /** `parse_path_segments`: one leading slash is dropped. */
  function ParsePath(text: string): Option<Pattern> {
    var stripped := if text != "" && text[0] == '/' then text[1..] else text;
    if stripped == "" then None else ParseSegments(Split(stripped))
  }

  // ----- Stored patterns -----

  function RenderSegment(g: PathSegment): string
    requires !g.RecursiveWildcard?
  {
    if g.Literal? then g.text else "{" + g.name + "}"
  }

  /** `render_ancestor_pattern`. */
  function Render(p: Pattern): string
    requires NoRecursive(p)
  {
    JoinSlash(seq(|p|, i requires 0 <= i < |p| => RenderSegment(p[i])))
  }

  lemma RenderedSegment(seg: string)
    requires ParseSegment(seg).Some? && !ParseSegment(seg).value.RecursiveWildcard?
    ensures RenderSegment(ParseSegment(seg).value) == seg
  {
    if Braced(seg) {
      assert seg == "{" + seg[1..|seg| - 1] + "}";
    }
  }

  lemma JoinedStartsWithFirst(parts: seq<string>)
    requires parts != [] && parts[0] != ""
    ensures JoinSlash(parts) != "" && JoinSlash(parts)[0] == parts[0][0]
  {
  }

  /** A text of parsable segments parses to what they parse to. */
  lemma JoinedParses(segs: Path)
    requires segs != [] && SlashFree(segs) && ParseSegment(segs[0]).Some?
    ensures ParsePath(JoinSlash(segs)) == ParseSegments(segs)
  {
    JoinedStartsWithFirst(segs);
    SplitJoined(segs);
  }

  lemma ParsedPrefix(segs: Path, n: nat)
    requires ParseSegments(segs).Some? && n <= |segs|
    ensures ParseSegments(segs[..n]) == Some(ParseSegments(segs).value[..n])
  {
    assert forall seg <- segs[..n] :: seg in segs;
    assert ParseSegments(segs[..n]).value == ParseSegments(segs).value[..n];
  }

  lemma RenderingSpells(segs: Path)
    requires segs != [] && SlashFree(segs) && ParseSegments(segs).Some? && NoRecursive(ParseSegments(segs).value)
    ensures Render(ParseSegments(segs).value) == JoinSlash(segs)
  {
    var p := ParseSegments(segs).value;
    forall i | 0 <= i < |p| ensures RenderSegment(p[i]) == segs[i] {
      assert p[i] == ParseSegment(segs[i]).value && p[i] in p;
      RenderedSegment(segs[i]);
    }
    assert seq(|p|, i requires 0 <= i < |p| => RenderSegment(p[i])) == segs;
  }

  /** Every pattern a rules file can store, the ancestor or prefix of a match
      path, is read back from its stored text unchanged. */
  lemma StoredPatternsReparse(text: string, n: nat)
    requires ParsePath(text).Some? && 0 < n <= |ParsePath(text).value| && NoRecursive(ParsePath(text).value[..n])
    ensures ParsePath(Render(ParsePath(text).value[..n])) == Some(ParsePath(text).value[..n])
  {
    var stripped := if text[0] == '/' then text[1..] else text;
    var segs := Split(stripped);
    SplitIsSlashFree(stripped);
    ParsedPrefix(segs, n);
    RenderingSpells(segs[..n]);
    JoinedParses(segs[..n]);
  }

  // ----- Texts that name documents -----

  /** The text is read as the literal it spells. */
  predicate Plain(seg: string) {
    ParseSegment(seg) == Some(Literal(seg))
  }

  predicate PlainCollections(segs: Path) {
    forall i :: 0 <= i < |segs| && i % 2 == 0 ==> Plain(segs[i])
  }

  predicate PlainIds(segs: Path) {
    forall i :: 0 <= i < |segs| && i % 2 == 1 ==> Plain(segs[i])
  }

  /** A path that starts with a plain name has no slash to drop. */
  lemma PlainStart(text: string)
    requires Plain(Split(text)[0])
    ensures ParsePath(text) == ParseSegments(Split(text))
  {
  }
}
