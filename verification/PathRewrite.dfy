/** Rewriting of captured path variables in condition text
    (access_control/rules_file.rs): one pass per name, compared with a single
    simultaneous whole-word substitution. */
module PathRewrite {

  predicate IsWordChar(c: char) {
    'a' <= c <= 'z' || 'A' <= c <= 'Z' || '0' <= c <= '9' || c == '_'
  }

  predicate IsIdentifier(w: string) {
    w != "" && forall i :: 0 <= i < |w| ==> IsWordChar(w[i])
  }

  const PREFIX: string := "request.path."

  // ----- One pass -----

  /** `name` stands at `i` as a whole word. */
  predicate MatchesAt(s: string, name: string, i: nat) {
    && i + |name| <= |s| && s[i..i + |name|] == name
    && (i == 0 || !IsWordChar(s[i - 1]))
    && (i + |name| == |s| || !IsWordChar(s[i + |name|]))
  }

  /** The pass from position `i`, putting `to` for each whole word `name`. */
  function RewriteFrom(s: string, name: string, to: string, i: nat): string
    requires name != "" && i <= |s|
    decreases |s| - i
  {
    if i == |s| then ""
    else if MatchesAt(s, name, i) then to + RewriteFrom(s, name, to, i + |name|)
    else [s[i]] + RewriteFrom(s, name, to, i + 1)
  }

  function Rewrite(s: string, name: string): string
    requires name != ""
  {
    RewriteFrom(s, name, PREFIX + name, 0)
  }

  method RewritePathVariable(s: string, name: string) returns (r: string)
    requires name != ""
    ensures r == Rewrite(s, name)
  {
    r := "";
    var i, to := 0, PREFIX + name;
    while i < |s|
      invariant 0 <= i <= |s| && Rewrite(s, name) == r + RewriteFrom(s, name, to, i)
    {
      if MatchesAt(s, name, i) {
        assert r + (to + RewriteFrom(s, name, to, i + |name|)) == (r + to) + RewriteFrom(s, name, to, i + |name|);
        r := r + to;
        i := i + |name|;
      } else {
        assert r + ([s[i]] + RewriteFrom(s, name, to, i + 1)) == (r + [s[i]]) + RewriteFrom(s, name, to, i + 1);
        r := r + [s[i]];
        i := i + 1;
      }
    }
  }

  /** `decompose_block`'s loop: one pass per captured name, in pattern order. */
  function RewriteAll(s: string, names: seq<string>): string
    requires forall i :: 0 <= i < |names| ==> names[i] != ""
    decreases |names|
  {
    if names == [] then s else RewriteAll(Rewrite(s, names[0]), names[1..])
  }

  // ----- Text as words and separators -----

  datatype Piece = Word(w: string) | Other(c: char)

  predicate WellFormed(ps: seq<Piece>) {
    && (forall p <- ps :: if p.Word? then IsIdentifier(p.w) else !IsWordChar(p.c))
    && forall i :: 0 < i < |ps| ==> !(ps[i - 1].Word? && ps[i].Word?)
  }

  function Text(p: Piece): string {
    match p case Word(w) => w case Other(c) => [c]
  }

  function Flatten(ps: seq<Piece>): string {
    if ps == [] then "" else Text(ps[0]) + Flatten(ps[1..])
  }

  function WordLength(s: string): (n: nat)
    ensures n <= |s| && (forall c <- s[..n] :: IsWordChar(c)) && (n < |s| ==> !IsWordChar(s[n]))
  {
    if s != "" && IsWordChar(s[0]) then 1 + WordLength(s[1..]) else 0
  }

  /** The maximal words of a text and the characters between them. */
  function Pieces(s: string): seq<Piece>
    decreases |s|
  {
    if s == "" then [] else
    var n := WordLength(s);
    if n > 0 then [Word(s[..n])] + Pieces(s[n..]) else [Other(s[0])] + Pieces(s[1..])
  }

  lemma WordFirst(w: string, rest: string, ps: seq<Piece>)
    requires IsIdentifier(w) && WellFormed(ps) && Flatten(ps) == rest && (ps != [] ==> !ps[0].Word?)
    ensures WellFormed([Word(w)] + ps) && Flatten([Word(w)] + ps) == w + rest
  {
    assert ([Word(w)] + ps)[1..] == ps;
  }

  lemma OtherFirst(c: char, rest: string, ps: seq<Piece>)
    requires !IsWordChar(c) && WellFormed(ps) && Flatten(ps) == rest
    ensures WellFormed([Other(c)] + ps) && Flatten([Other(c)] + ps) == [c] + rest
  {
    assert ([Other(c)] + ps)[1..] == ps;
  }

  lemma FirstWord(s: string, n: nat)
    requires 0 < n <= |s| && (forall c <- s[..n] :: IsWordChar(c)) && (n < |s| ==> !IsWordChar(s[n]))
    ensures IsIdentifier(s[..n]) && s[..n] + s[n..] == s && IsWordChar(s[0])
    ensures n < |s| ==> s[n..] != "" && !IsWordChar(s[n..][0])
  {
    forall i | 0 <= i < n ensures IsWordChar(s[..n][i]) {
      assert s[..n][i] in s[..n];
    }
    assert s[..n][0] == s[0];
  }

  lemma {:induction false} PiecesSpell(s: string)
    ensures WellFormed(Pieces(s)) && Flatten(Pieces(s)) == s
    ensures s != "" ==> Pieces(s) != [] && (Pieces(s)[0].Word? <==> IsWordChar(s[0]))
    decreases |s|
  {
    if s != "" {
      var n := WordLength(s);
      if n > 0 {
        PiecesSpell(s[n..]);
        FirstWord(s, n);
        WordFirst(s[..n], s[n..], Pieces(s[n..]));
      } else {
        PiecesSpell(s[1..]);
        assert [s[0]] + s[1..] == s;
        OtherFirst(s[0], s[1..], Pieces(s[1..]));
      }
    }
  }

  /** What a captured word becomes. */
  function Expansion(w: string): seq<Piece> {
    [Word("request"), Other('.'), Word("path"), Other('.'), Word(w)]
  }

  function Substitute(p: Piece, names: set<string>): seq<Piece> {
    if p.Word? && p.w in names then Expansion(p.w) else [p]
  }

  function SubstituteAll(ps: seq<Piece>, names: set<string>): seq<Piece> {
    if ps == [] then [] else Substitute(ps[0], names) + SubstituteAll(ps[1..], names)
  }

  /** Every whole word among `names` replaced at once. */
  function Simultaneous(s: string, names: set<string>): string {
    Flatten(SubstituteAll(Pieces(s), names))
  }

  lemma {:induction false} FlattenConcat(ps: seq<Piece>, qs: seq<Piece>)
    ensures Flatten(ps + qs) == Flatten(ps) + Flatten(qs)
  {
    if ps == [] {
      assert ps + qs == qs;
    } else {
      calc {
        Flatten(ps + qs);
        { assert (ps + qs)[1..] == ps[1..] + qs; }
        Text(ps[0]) + Flatten(ps[1..] + qs);
        { FlattenConcat(ps[1..], qs); }
        Text(ps[0]) + (Flatten(ps[1..]) + Flatten(qs));
        Flatten(ps) + Flatten(qs);
      }
    }
  }

  lemma ExpansionSpells(w: string)
    ensures Flatten(Expansion(w)) == PREFIX + w
  {
    var e := Expansion(w);
    assert e[1..][1..][1..][1..] == [Word(w)];
    assert Flatten([Word(w)]) == w by { assert [Word(w)][1..] == []; }
    assert Flatten(e[4..]) == w;
    assert e[3..][1..] == e[4..] && e[2..][1..] == e[3..] && e[1..][1..] == e[2..];
    assert Flatten(e[3..]) == "." + w;
    assert Flatten(e[2..]) == "path" + "." + w;
    assert Flatten(e[1..]) == "." + "path" + "." + w;
    assert Flatten(e) == "request" + "." + "path" + "." + w;
  }

  // ----- A pass rewrites exactly the words equal to the name -----

  /** Inside a word nothing matches, so it is copied to its end. */
  lemma {:induction false} CopiesWord(s: string, name: string, to: string, i: nat, end: nat)
    requires IsIdentifier(name) && 0 < i <= end <= |s|
    requires forall k :: i - 1 <= k < end ==> IsWordChar(s[k])
    ensures RewriteFrom(s, name, to, i) == s[i..end] + RewriteFrom(s, name, to, end)
    decreases end - i
  {
    if i < end {
      calc {
        RewriteFrom(s, name, to, i);
        { assert !MatchesAt(s, name, i); }
        [s[i]] + RewriteFrom(s, name, to, i + 1);
        { CopiesWord(s, name, to, i + 1, end); }
        [s[i]] + (s[i + 1..end] + RewriteFrom(s, name, to, end));
        { assert s[i..end] == [s[i]] + s[i + 1..end]; }
        s[i..end] + RewriteFrom(s, name, to, end);
      }
    }
  }

  /** At the start of a word the name matches exactly when it is the word. */
  lemma MatchIsWord(s: string, name: string, i: nat, end: nat)
    requires IsIdentifier(name) && i < end <= |s|
    requires forall k :: i <= k < end ==> IsWordChar(s[k])
    requires (i == 0 || !IsWordChar(s[i - 1])) && (end == |s| || !IsWordChar(s[end]))
    ensures MatchesAt(s, name, i) <==> s[i..end] == name
  {
    if MatchesAt(s, name, i) {
      var stop := i + |name|;
      assert forall k :: i <= k < stop ==> s[k] == name[k - i];
      assert stop == end;
    }
  }

  /** At the start of the word ending at `end`, the pass rewrites it or copies it. */
  lemma PassesWord(s: string, name: string, to: string, i: nat, end: nat)
    requires IsIdentifier(name) && i < end <= |s|
    requires forall k :: i <= k < end ==> IsWordChar(s[k])
    requires (i == 0 || !IsWordChar(s[i - 1])) && (end == |s| || !IsWordChar(s[end]))
    ensures RewriteFrom(s, name, to, i)
         == (if s[i..end] == name then to else s[i..end]) + RewriteFrom(s, name, to, end)
  {
    MatchIsWord(s, name, i, end);
    if s[i..end] != name {
      calc {
        RewriteFrom(s, name, to, i);
        [s[i]] + RewriteFrom(s, name, to, i + 1);
        { CopiesWord(s, name, to, i + 1, end); }
        [s[i]] + (s[i + 1..end] + RewriteFrom(s, name, to, end));
        { assert s[i..end] == [s[i]] + s[i + 1..end]; }
        s[i..end] + RewriteFrom(s, name, to, end);
      }
    }
  }

  /** `before` does not run into a word starting after it. */
  predicate Boundary(before: string, isWord: bool) {
    isWord && before != "" ==> !IsWordChar(before[|before| - 1])
  }

  lemma WordSlice(before: string, w: string, rest: string)
    requires IsIdentifier(w) && Boundary(before, true) && (rest != "" ==> !IsWordChar(rest[0]))
    ensures var s, i, end := before + (w + rest), |before|, |before| + |w|;
      && s[i..end] == w && (forall k :: i <= k < end ==> IsWordChar(s[k]))
      && (i == 0 || !IsWordChar(s[i - 1])) && (end == |s| || !IsWordChar(s[end]))
  {
    var s, i, end := before + (w + rest), |before|, |before| + |w|;
    assert forall k :: i <= k < end ==> s[k] == w[k - i];
    assert rest != "" ==> s[end] == rest[0];
  }

  lemma PassesWordPiece(before: string, w: string, rest: string, name: string, to: string)
    requires IsIdentifier(name) && IsIdentifier(w) && Boundary(before, true)
    requires rest != "" ==> !IsWordChar(rest[0])
    ensures var s := before + (w + rest);
      RewriteFrom(s, name, to, |before|)
      == (if w == name then to else w) + RewriteFrom(s, name, to, |before| + |w|)
  {
    WordSlice(before, w, rest);
    PassesWord(before + (w + rest), name, to, |before|, |before| + |w|);
  }

  lemma PassesOther(before: string, c: char, rest: string, name: string, to: string)
    requires IsIdentifier(name) && !IsWordChar(c)
    ensures var s := before + ([c] + rest);
      RewriteFrom(s, name, to, |before|) == [c] + RewriteFrom(s, name, to, |before| + 1)
  {
    var s := before + ([c] + rest);
    assert s[|before|] == c && !MatchesAt(s, name, |before|);
  }

  lemma SingleSpells(p: Piece)
    ensures Flatten([p]) == Text(p)
  {
    assert [p][1..] == [] && Text(p) + "" == Text(p);
  }

  lemma SubstitutionSpells(p: Piece, name: string)
    ensures Flatten(Substitute(p, {name})) == if p == Word(name) then PREFIX + name else Text(p)
  {
    SingleSpells(p);
    ExpansionSpells(name);
  }

  /** One piece: the pass moves over its text and emits its substitution. */
  lemma PassesPiece(before: string, p: Piece, rest: string, name: string, to: string)
    requires IsIdentifier(name) && Boundary(before, p.Word?)
    requires if p.Word? then IsIdentifier(p.w) else !IsWordChar(p.c)
    requires p.Word? && rest != "" ==> !IsWordChar(rest[0])
    ensures var s := before + (Text(p) + rest);
      RewriteFrom(s, name, to, |before|)
      == (if p == Word(name) then to else Text(p)) + RewriteFrom(s, name, to, |before| + |Text(p)|)
  {
    if p.Word? {
      PassesWordPiece(before, p.w, rest, name, to);
    } else {
      PassesOther(before, p.c, rest, name, to);
    }
  }

  function Replace(ps: seq<Piece>, name: string, to: string): string {
    if ps == [] then "" else (if ps[0] == Word(name) then to else Text(ps[0])) + Replace(ps[1..], name, to)
  }

  lemma FlattenStarts(ps: seq<Piece>)
    requires WellFormed(ps) && ps != [] && !ps[0].Word?
    ensures Flatten(ps) != "" && !IsWordChar(Flatten(ps)[0])
  {}

  lemma WellFormedTail(ps: seq<Piece>)
    requires WellFormed(ps) && ps != []
    ensures WellFormed(ps[1..]) && (|ps| > 1 ==> !(ps[0].Word? && ps[1].Word?))
  {
  }

  lemma BoundaryAfter(before: string, ps: seq<Piece>)
    requires WellFormed(ps) && ps != []
    ensures Boundary(before + Text(ps[0]), |ps| > 1 && ps[1].Word?)
    ensures ps[0].Word? && Flatten(ps[1..]) != "" ==> !IsWordChar(Flatten(ps[1..])[0])
  {
    WellFormedTail(ps);
    if ps[0].Word? && |ps| > 1 { FlattenStarts(ps[1..]); }
  }

  lemma Regroup(a: string, b: string, c: string)
    ensures a + (b + c) == (a + b) + c && |a + b| == |a| + |b|
  {
  }

  /** The pass moves over the first piece. */
  lemma PassStep(before: string, ps: seq<Piece>, after: string, name: string, to: string)
    requires ps != [] && WellFormed(ps) && IsIdentifier(name)
    requires Boundary(before, ps[0].Word?) && after == Flatten(ps[1..])
    ensures RewriteFrom(before + Flatten(ps), name, to, |before|)
         == (if ps[0] == Word(name) then to else Text(ps[0])) +
            RewriteFrom((before + Text(ps[0])) + after, name, to, |before + Text(ps[0])|)
  {
    var t := Text(ps[0]);
    assert Flatten(ps) == t + after && ps[0] in ps;
    BoundaryAfter(before, ps);
    PassesPiece(before, ps[0], after, name, to);
    Regroup(before, t, after);
  }

  lemma {:induction false} PassReplaces(before: string, ps: seq<Piece>, name: string, to: string)
    requires WellFormed(ps) && IsIdentifier(name) && Boundary(before, ps != [] && ps[0].Word?)
    ensures RewriteFrom(before + Flatten(ps), name, to, |before|) == Replace(ps, name, to)
    decreases |ps|
  {
    if ps == [] {
      assert before + "" == before;
    } else {
      WellFormedTail(ps);
      BoundaryAfter(before, ps);
      PassStep(before, ps, Flatten(ps[1..]), name, to);
      PassReplaces(before + Text(ps[0]), ps[1..], name, to);
    }
  }

  lemma {:induction false} ReplaceIsSubstitution(ps: seq<Piece>, name: string)
    ensures Replace(ps, name, PREFIX + name) == Flatten(SubstituteAll(ps, {name}))
  {
    if ps != [] {
      ReplaceIsSubstitution(ps[1..], name);
      SubstitutionSpells(ps[0], name);
      FlattenConcat(Substitute(ps[0], {name}), SubstituteAll(ps[1..], {name}));
    }
  }

  /** A pass over well-formed pieces substitutes the name, and only it. */
  lemma PassSubstitutes(ps: seq<Piece>, name: string)
    requires WellFormed(ps) && IsIdentifier(name)
    ensures Rewrite(Flatten(ps), name) == Flatten(SubstituteAll(ps, {name}))
  {
    PassReplaces("", ps, name, PREFIX + name);
    assert "" + Flatten(ps) == Flatten(ps);
    ReplaceIsSubstitution(ps, name);
  }

  // ----- Several passes -----

  function PassAll(ps: seq<Piece>, names: seq<string>): seq<Piece>
    decreases |names|
  {
    if names == [] then ps else PassAll(SubstituteAll(ps, {names[0]}), names[1..])
  }

  predicate Identifiers(names: seq<string>) {
    forall i :: 0 <= i < |names| ==> IsIdentifier(names[i])
  }

  lemma WellFormedConcat(ps: seq<Piece>, qs: seq<Piece>)
    requires WellFormed(ps) && WellFormed(qs)
    requires ps != [] && qs != [] ==> !(ps[|ps| - 1].Word? && qs[0].Word?)
    ensures WellFormed(ps + qs)
  {}

  lemma PieceWellFormed(p: Piece, names: set<string>)
    requires WellFormed([p])
    ensures WellFormed(Substitute(p, names))
  {
    assert p in [p];
  }

  lemma {:induction false} SubstitutionWellFormed(ps: seq<Piece>, names: set<string>)
    requires WellFormed(ps)
    ensures WellFormed(SubstituteAll(ps, names))
    ensures ps != [] ==> SubstituteAll(ps, names) != [] && SubstituteAll(ps, names)[0].Word? == ps[0].Word?
  {
    if ps != [] {
      var p := ps[0];
      assert WellFormed(ps[1..]) && (|ps| > 1 ==> !(p.Word? && ps[1].Word?));
      SubstitutionWellFormed(ps[1..], names);
      assert WellFormed([p]);
      PieceWellFormed(p, names);
      WellFormedConcat(Substitute(p, names), SubstituteAll(ps[1..], names));
    }
  }

  /** The passes on text are the passes on pieces. */
  lemma {:induction false} RewriteAllIsPassAll(ps: seq<Piece>, names: seq<string>)
    requires WellFormed(ps) && Identifiers(names)
    ensures RewriteAll(Flatten(ps), names) == Flatten(PassAll(ps, names))
    decreases |names|
  {
    if names != [] {
      PassSubstitutes(ps, names[0]);
      SubstitutionWellFormed(ps, {names[0]});
      RewriteAllIsPassAll(SubstituteAll(ps, {names[0]}), names[1..]);
    }
  }

  // ----- When the passes are one simultaneous substitution -----

  /** No later name is an earlier one, or a word that rewriting introduces. */
  predicate Independent(names: seq<string>) {
    forall i, j :: 0 <= i < j < |names| ==> !Retouches(names[i], names[j])
  }

  /** Rewriting `later` changes what rewriting `earlier` produced. */
  predicate Retouches(earlier: string, later: string) {
    later == earlier || later == "request" || later == "path"
  }

  function AsSet(names: seq<string>): set<string> {
    set i | 0 <= i < |names| :: names[i]
  }

  lemma {:induction false} SubstituteConcat(ps: seq<Piece>, qs: seq<Piece>, names: set<string>)
    ensures SubstituteAll(ps + qs, names) == SubstituteAll(ps, names) + SubstituteAll(qs, names)
  {
    if ps == [] {
      assert ps + qs == qs;
    } else {
      calc {
        SubstituteAll(ps + qs, names);
        { assert (ps + qs)[1..] == ps[1..] + qs; }
        Substitute(ps[0], names) + SubstituteAll(ps[1..] + qs, names);
        { SubstituteConcat(ps[1..], qs, names); }
        Substitute(ps[0], names) + (SubstituteAll(ps[1..], names) + SubstituteAll(qs, names));
        SubstituteAll(ps, names) + SubstituteAll(qs, names);
      }
    }
  }

  lemma {:induction false} Untouched(ps: seq<Piece>, name: string)
    requires Word(name) !in ps
    ensures SubstituteAll(ps, {name}) == ps
  {
    if ps != [] { Untouched(ps[1..], name); }
  }

  lemma SubstituteOne(p: Piece, names: set<string>)
    ensures SubstituteAll([p], names) == Substitute(p, names)
  {
    assert [p][1..] == [] && Substitute(p, names) + [] == Substitute(p, names);
  }

  /** One more pass extends the simultaneous substitution by its name. */
  lemma {:induction false} PassExtends(ps: seq<Piece>, before: set<string>, name: string)
    requires forall e <- before :: !Retouches(e, name)
    ensures SubstituteAll(SubstituteAll(ps, before), {name}) == SubstituteAll(ps, before + {name})
  {
    if ps != [] {
      var p, more := ps[0], ps[1..];
      PassExtends(more, before, name);
      SubstituteConcat(Substitute(p, before), SubstituteAll(more, before), {name});
      if p.Word? && p.w in before {
        Untouched(Expansion(p.w), name);
      } else {
        SubstituteOne(p, {name});
      }
    }
  }

  lemma {:induction false} PassesExtend(ps: seq<Piece>, before: set<string>, names: seq<string>)
    requires Independent(names) && forall e <- before, i :: 0 <= i < |names| ==> !Retouches(e, names[i])
    ensures PassAll(SubstituteAll(ps, before), names) == SubstituteAll(ps, before + AsSet(names))
    decreases |names|
  {
    if names == [] {
      assert before + AsSet(names) == before;
    } else {
      PassExtends(ps, before, names[0]);
      PassesExtend(ps, before + {names[0]}, names[1..]);
      assert before + {names[0]} + AsSet(names[1..]) == before + AsSet(names) by {
        assert forall n :: n in AsSet(names) <==> n == names[0] || n in AsSet(names[1..]);
      }
    }
  }

  lemma {:induction false} NothingSubstituted(ps: seq<Piece>)
    ensures SubstituteAll(ps, {}) == ps
  {
    if ps != [] { NothingSubstituted(ps[1..]); }
  }

  /** A pass never shortens, keeps every word, and where it rewrites it adds the
      prefix and its two words. */
  lemma {:induction false} PassGrows(ps: seq<Piece>, name: string)
    ensures var qs := SubstituteAll(ps, {name});
      && |Flatten(qs)| >= |Flatten(ps)| + (if Word(name) in ps then |PREFIX| else 0)
      && (forall p <- ps :: p in qs)
      && (Word(name) in ps ==> Word("request") in qs && Word("path") in qs)
  {
    if ps != [] {
      var p, more := ps[0], ps[1..];
      PassGrows(more, name);
      SubstitutionSpells(p, name);
      FlattenConcat(Substitute(p, {name}), SubstituteAll(more, {name}));
      if p == Word(name) {
        assert Expansion(name)[0] == Word("request") && Expansion(name)[2] == Word("path") && Expansion(name)[4] == p;
      }
    }
  }

  lemma {:induction false} PassesGrow(ps: seq<Piece>, names: seq<string>)
    ensures |Flatten(PassAll(ps, names))| >= |Flatten(ps)|
    ensures forall k :: 0 <= k < |names| && Word(names[k]) in ps ==>
      |Flatten(PassAll(ps, names))| >= |Flatten(ps)| + |PREFIX|
    decreases |names|
  {
    if names != [] {
      var qs := SubstituteAll(ps, {names[0]});
      PassGrows(ps, names[0]);
      PassesGrow(qs, names[1..]);
      forall k | 0 <= k < |names| && Word(names[k]) in ps
        ensures |Flatten(PassAll(ps, names))| >= |Flatten(ps)| + |PREFIX|
      {
        if k > 0 { assert names[k] == names[1..][k - 1] && Word(names[k]) in qs; }
      }
    }
  }

  lemma RetouchedIsPresent(ps: seq<Piece>, name: string, later: string)
    requires Word(name) in ps && Retouches(name, later)
    ensures Word(later) in SubstituteAll(ps, {name})
  {
    PassGrows(ps, name);
  }

  lemma {:induction false} RetouchedGrowsTwice(
      ps: seq<Piece>, names: seq<string>, i: nat, j: nat, earlier: string, later: string)
    requires i < j < |names| && names[i] == earlier && names[j] == later
    requires Word(earlier) in ps && Retouches(earlier, later)
    ensures |Flatten(PassAll(ps, names))| >= |Flatten(ps)| + 2 * |PREFIX|
    decreases |names|
  {
    if i == 0 {
      RetouchedAtOnce(ps, names, j, earlier, later);
    } else {
      var qs, rest := SubstituteAll(ps, {names[0]}), names[1..];
      assert Word(earlier) in qs && |Flatten(qs)| >= |Flatten(ps)| by {
        PassGrows(ps, names[0]);
      }
      RetouchedGrowsTwice(qs, rest, i - 1, j - 1, earlier, later);
      assert PassAll(ps, names) == PassAll(qs, rest);
    }
  }

  lemma RetouchedAtOnce(ps: seq<Piece>, names: seq<string>, j: nat, earlier: string, later: string)
    requires 0 < j < |names| && names[0] == earlier && names[j] == later
    requires Word(earlier) in ps && Retouches(earlier, later)
    ensures |Flatten(PassAll(ps, names))| >= |Flatten(ps)| + 2 * |PREFIX|
  {
    PassGrows(ps, earlier);
    RetouchedIsPresent(ps, earlier, later);
    PassesGrow(SubstituteAll(ps, {earlier}), names[1..]);
    assert names[1..][j - 1] == later;
  }

  lemma IdentifierIsOnePiece(w: string)
    requires IsIdentifier(w)
    ensures Pieces(w) == [Word(w)]
  {
    var n := WordLength(w);
    assert n == |w| && w[..n] == w && w[n..] == "";
  }

  ghost predicate PassesAreSimultaneous(names: seq<string>)
    requires Identifiers(names)
  {
    forall s :: RewriteAll(s, names) == Simultaneous(s, AsSet(names))
  }

  /** For identifier names, passes in this order equal one simultaneous
      whole-word substitution on every text if and only if no later name repeats
      an earlier one or is `request` or `path`. */
  lemma PassesAreSimultaneousIff(names: seq<string>)
    requires Identifiers(names)
    ensures PassesAreSimultaneous(names) <==> Independent(names)
  {
    if Independent(names) {
      forall s ensures RewriteAll(s, names) == Simultaneous(s, AsSet(names)) {
        var ps := Pieces(s);
        PiecesSpell(s);
        RewriteAllIsPassAll(ps, names);
        NothingSubstituted(ps);
        PassesExtend(ps, {}, names);
        assert {} + AsSet(names) == AsSet(names);
      }
    } else {
      var i, j :| 0 <= i < j < |names| && Retouches(names[i], names[j]);
      var w := names[i];
      var ps := [Word(w)];
      IdentifierIsOnePiece(w);
      PiecesSpell(w);
      RewriteAllIsPassAll(ps, names);
      RetouchedGrowsTwice(ps, names, i, j, w, names[j]);
      assert w in AsSet(names);
      SubstituteOne(Word(w), AsSet(names));
      ExpansionSpells(w);
      assert RewriteAll(w, names) != Simultaneous(w, AsSet(names));
    }
  }

  /** So the order of distinct captured names other than `request` and `path`
      does not matter. */
  lemma OrderDoesNotMatter(s: string, names: seq<string>, other: seq<string>)
    requires Identifiers(names) && Identifiers(other) && Independent(names) && Independent(other)
    requires AsSet(names) == AsSet(other)
    ensures RewriteAll(s, names) == RewriteAll(s, other)
  {
    PassesAreSimultaneousIff(names);
    PassesAreSimultaneousIff(other);
  }
}
