/** What rewriting the captured names does to a rule as it is read afterwards:
    the condition's lexemes (access_control/mod.rs) before and after the passes
    of access_control/rules_file.rs. */
module RewrittenRules {
  import opened Values
  import opened Conditions
  import opened PathRewrite

  // ----- Lexemes -----

  /** A run of words and dots, a run that is a literal segment of a document
      path, the fixed `database` of `$(database)`, a quoted text, the head of
      `exists(` or `get(`, or one character. */
  datatype Lexeme =
    | Dotted(run: seq<Piece>)
    | Segment(run: seq<Piece>)
    | Marker
    | Quoted(quote: char, content: seq<Piece>)
    | Unclosed(quote: char, content: seq<Piece>)
    | CallHead(name: string)
    | Symbol(c: char)

  predicate InRun(p: Piece) {
    p.Word? || p.c == '.'
  }

  predicate IsQuote(p: Piece) {
    p == Other('"') || p == Other('\'')
  }

  /** How many pieces at the front form a run of words and dots. */
  function RunLength(ps: seq<Piece>): (n: nat)
    ensures n <= |ps| && (forall p <- ps[..n] :: InRun(p)) && (n < |ps| ==> !InRun(ps[n]))
  {
    if ps != [] && InRun(ps[0]) then 1 + RunLength(ps[1..]) else 0
  }

  /** Where the quote `q` next stands. */
  function QuoteAt(ps: seq<Piece>, q: Piece): (n: Option<nat>)
    ensures n.Some? ==> n.value < |ps| && ps[n.value] == q && q !in ps[..n.value]
    ensures n.None? ==> q !in ps
  {
    if ps == [] then None
    else if ps[0] == q then Some(0)
    else
      match QuoteAt(ps[1..], q)
      case None => None
      case Some(n) => Some(n + 1)
  }

  /** The first lexeme, how many pieces it takes, and how many parentheses of a
      cross-document call are open after it. */
  datatype Taken = Taken(lexeme: Lexeme, length: nat, depth: nat)

  predicate StartsCall(ps: seq<Piece>) {
    |ps| > 1 && (ps[0] == Word("exists") || ps[0] == Word("get")) && ps[1] == Other('(')
  }

  const DATABASE: string := "database"

  /** A run directly inside a cross-document call is a path segment; one inside
      `$(...)` is a reference or the marker of the current database. */
  function RunLexeme(run: seq<Piece>, depth: nat): Lexeme {
    if depth == 1 then Segment(run)
    else if depth > 1 && run == [Word(DATABASE)] then Marker
    else Dotted(run)
  }

  /** Inside a cross-document call there are no quotes. */
  function Take(ps: seq<Piece>, depth: nat): (t: Taken)
    requires ps != []
    ensures 0 < t.length <= |ps|
  {
    var n := RunLength(ps);
    if depth == 0 && StartsCall(ps) then Taken(CallHead(ps[0].w), 2, 1)
    else if n > 0 then Taken(RunLexeme(ps[..n], depth), n, depth)
    else if depth == 0 && IsQuote(ps[0]) then TakeQuoted(ps)
    else
      Taken(Symbol(ps[0].c), 1, if depth == 0 then 0 else Nested(ps[0].c, depth))
  }

  function Nested(c: char, depth: nat): nat
    requires depth > 0
  {
    if c == '(' then depth + 1 else if c == ')' then depth - 1 else depth
  }

  function TakeQuoted(ps: seq<Piece>): (t: Taken)
    requires ps != [] && IsQuote(ps[0])
    ensures 0 < t.length <= |ps|
  {
    match QuoteAt(ps[1..], ps[0])
    case None => Taken(Unclosed(ps[0].c, ps[1..]), |ps|, 0)
    case Some(n) => Taken(Quoted(ps[0].c, ps[1..n + 1]), n + 2, 0)
  }

  function LexPieces(ps: seq<Piece>, depth: nat): seq<Lexeme>
    decreases |ps|
  {
    if ps == [] then []
    else
      var t := Take(ps, depth);
      [t.lexeme] + LexPieces(ps[t.length..], t.depth)
  }

  function Lex(s: string): seq<Lexeme> {
    LexPieces(Pieces(s), 0)
  }

  // ----- The original with the names bound -----

  predicate NoneNamed(ps: seq<Piece>, names: set<string>) {
    forall p <- ps :: p.Word? ==> p.w !in names
  }

  /** A name that stands alone becomes a reference to the path variable. */
  function Bound(l: Lexeme, names: set<string>): Lexeme {
    if l.Dotted? && |l.run| == 1 && l.run[0].Word? && l.run[0].w in names then Dotted(Expansion(l.run[0].w)) else l
  }

  function BoundAll(ls: seq<Lexeme>, names: set<string>): seq<Lexeme> {
    if ls == [] then [] else [Bound(ls[0], names)] + BoundAll(ls[1..], names)
  }

  /** The names stand alone in this lexeme or not at all. */
  predicate Clean(l: Lexeme, names: set<string>) {
    match l
    case Dotted(run) => |run| == 1 || NoneNamed(run, names)
    case Segment(run) => NoneNamed(run, names)
    case Marker => DATABASE !in names
    case Quoted(_, content) => NoneNamed(content, names)
    case Unclosed(_, content) => NoneNamed(content, names)
    case CallHead(name) => name !in names
    case Symbol(_) => true
  }

  predicate AllClean(ls: seq<Lexeme>, names: set<string>) {
    forall l <- ls :: Clean(l, names)
  }

  // ----- Substitution inside a lexeme -----

  function Inside(l: Lexeme, names: set<string>): Lexeme {
    match l
    case Dotted(run) => Dotted(SubstituteAll(run, names))
    case Segment(run) => Segment(SubstituteAll(run, names))
    case Marker => l
    case Quoted(q, content) => Quoted(q, SubstituteAll(content, names))
    case Unclosed(q, content) => Unclosed(q, SubstituteAll(content, names))
    case CallHead(_) => l
    case Symbol(_) => l
  }

  lemma {:induction false} FixedIff(ps: seq<Piece>, names: set<string>)
    ensures |SubstituteAll(ps, names)| >= |ps|
    ensures SubstituteAll(ps, names) == ps <==> NoneNamed(ps, names)
    ensures !NoneNamed(ps, names) ==> |SubstituteAll(ps, names)| > |ps|
  {
    if ps != [] {
      FixedIff(ps[1..], names);
      assert ps == [ps[0]] + ps[1..];
    }
  }

  lemma InsideIsBoundIff(l: Lexeme, names: set<string>)
    requires (l.CallHead? ==> l.name !in names) && (l.Marker? ==> DATABASE !in names)
    ensures Inside(l, names) == Bound(l, names) <==> Clean(l, names)
  {
    match l
    case Dotted(run) =>
      if |run| == 1 {
        assert run == [run[0]];
        SubstituteOne(run[0], names);
      } else {
        FixedIff(run, names);
      }
    case Segment(run) => FixedIff(run, names);
    case Marker =>
    case Quoted(_, content) => FixedIff(content, names);
    case Unclosed(_, content) => FixedIff(content, names);
    case CallHead(_) =>
    case Symbol(_) =>
  }

  // ----- Substitution and lexing -----

  lemma {:induction false} RunStaysRun(ps: seq<Piece>, names: set<string>)
    requires forall p <- ps :: InRun(p)
    ensures forall p <- SubstituteAll(ps, names) :: InRun(p)
  {
    if ps != [] {
      RunStaysRun(ps[1..], names);
    }
  }

  lemma SubstituteSplit(ps: seq<Piece>, n: nat, names: set<string>)
    requires n <= |ps|
    ensures SubstituteAll(ps, names) == SubstituteAll(ps[..n], names) + SubstituteAll(ps[n..], names)
  {
    SubstituteConcat(ps[..n], ps[n..], names);
    assert ps == ps[..n] + ps[n..];
  }

  lemma OtherStays(ps: seq<Piece>, names: set<string>)
    requires ps != [] && ps[0].Other?
    ensures SubstituteAll(ps, names) == [ps[0]] + SubstituteAll(ps[1..], names)
  {
  }

  lemma {:induction false} RunLengthIs(front: seq<Piece>, back: seq<Piece>)
    requires (forall p <- front :: InRun(p)) && (back != [] ==> !InRun(back[0]))
    ensures RunLength(front + back) == |front|
  {
    if front == [] {
      assert front + back == back;
    } else {
      assert (front + back)[1..] == front[1..] + back;
      RunLengthIs(front[1..], back);
    }
  }

  lemma {:induction false} QuoteAtIs(front: seq<Piece>, back: seq<Piece>, q: Piece)
    requires q !in front && (back != [] ==> back[0] == q)
    ensures QuoteAt(front + back, q) == if back == [] then None else Some(|front|)
  {
    if front == [] {
      assert front + back == back;
    } else {
      assert (front + back)[1..] == front[1..] + back;
      QuoteAtIs(front[1..], back, q);
    }
  }

  lemma {:induction false} NoQuoteAdded(ps: seq<Piece>, q: Piece, names: set<string>)
    requires IsQuote(q) && q !in ps
    ensures q !in SubstituteAll(ps, names)
  {
    if ps != [] {
      NoQuoteAdded(ps[1..], q, names);
      assert q !in Substitute(ps[0], names);
    }
  }

  /** The run at the front stays one run. */
  lemma RunTakes(ps: seq<Piece>, names: set<string>)
    requires ps != []
    ensures var n := RunLength(ps);
      RunLength(SubstituteAll(ps, names)) == |SubstituteAll(ps[..n], names)| &&
      SubstituteAll(ps, names)[..RunLength(SubstituteAll(ps, names))] == SubstituteAll(ps[..n], names)
  {
    var n := RunLength(ps);
    var front, back := SubstituteAll(ps[..n], names), SubstituteAll(ps[n..], names);
    SubstituteSplit(ps, n, names);
    RunStaysRun(ps[..n], names);
    if n < |ps| {
      OtherStays(ps[n..], names);
    }
    RunLengthIs(front, back);
    assert (front + back)[..|front|] == front;
  }

  predicate NamedCall(ps: seq<Piece>, names: set<string>) {
    StartsCall(ps) && ps[0].w in names
  }

  predicate NamedMarker(ps: seq<Piece>, names: set<string>) {
    ps[..RunLength(ps)] == [Word(DATABASE)] && DATABASE in names
  }

  /** The first lexeme is a fixed word that a captured name takes away. */
  predicate Renames(ps: seq<Piece>, depth: nat, names: set<string>) {
    (depth == 0 && NamedCall(ps, names)) || (depth > 1 && NamedMarker(ps, names))
  }

  /** Substitution makes no marker, and ends one only by renaming it. */
  lemma RunInside(run: seq<Piece>, depth: nat, names: set<string>)
    requires run != [] && !(depth > 1 && run == [Word(DATABASE)] && DATABASE in names)
    ensures RunLexeme(SubstituteAll(run, names), depth) == Inside(RunLexeme(run, depth), names)
  {
    FixedIff(run, names);
    if run == [Word(DATABASE)] {
      SubstituteOne(run[0], names);
    }
  }

  /** Substitution starts no call, and ends one only by renaming it. */
  lemma CallStaysCall(ps: seq<Piece>, names: set<string>)
    requires ps != []
    ensures StartsCall(SubstituteAll(ps, names)) <==> StartsCall(ps) && !NamedCall(ps, names)
    ensures StartsCall(ps) && !NamedCall(ps, names) ==>
      SubstituteAll(ps, names) == ps[..2] + SubstituteAll(ps[2..], names)
  {
    var rest := SubstituteAll(ps[1..], names);
    assert SubstituteAll(ps, names) == Substitute(ps[0], names) + rest;
    if |ps| > 1 {
      assert ps[1..][0] == ps[1] && ps[1..][1..] == ps[2..];
      assert rest == Substitute(ps[1], names) + SubstituteAll(ps[2..], names);
    }
  }

  lemma OpenStaysOpen(rest: seq<Piece>, q: Piece, names: set<string>)
    requires IsQuote(q) && QuoteAt(rest, q).None?
    ensures QuoteAt(SubstituteAll(rest, names), q).None?
  {
    NoQuoteAdded(rest, q, names);
  }

  lemma ClosedStaysClosed(rest: seq<Piece>, q: Piece, names: set<string>, n: nat)
    requires IsQuote(q) && QuoteAt(rest, q) == Some(n)
    ensures var inner := SubstituteAll(rest[..n], names);
      QuoteAt(SubstituteAll(rest, names), q) == Some(|inner|) && SubstituteAll(rest, names)[..|inner|] == inner
  {
    var inner, back := SubstituteAll(rest[..n], names), SubstituteAll(rest[n..], names);
    SubstituteSplit(rest, n, names);
    NoQuoteAdded(rest[..n], q, names);
    OtherStays(rest[n..], names);
    QuoteAtIs(inner, back, q);
    assert (inner + back)[..|inner|] == inner;
  }

  lemma OpenTakes(ps: seq<Piece>, qs: seq<Piece>, names: set<string>)
    requires ps != [] && IsQuote(ps[0]) && QuoteAt(ps[1..], ps[0]).None?
    requires qs == [ps[0]] + SubstituteAll(ps[1..], names) == SubstituteAll(ps, names)
    ensures var t := TakeQuoted(ps);
      TakeQuoted(qs) == Taken(Inside(t.lexeme, names), |SubstituteAll(ps[..t.length], names)|, t.depth)
  {
    assert qs[1..] == SubstituteAll(ps[1..], names) && ps[..|ps|] == ps;
    OpenStaysOpen(ps[1..], ps[0], names);
  }

  lemma AfterQuote(q: Piece, rest: seq<Piece>, k: nat)
    requires k <= |rest|
    ensures ([q] + rest)[1..] == rest && ([q] + rest)[1..k + 1] == rest[..k]
  {
  }

  lemma TakenQuote(q: Piece, rest: seq<Piece>, k: nat)
    requires IsQuote(q) && QuoteAt(rest, q) == Some(k)
    ensures TakeQuoted([q] + rest) == Taken(Quoted(q.c, rest[..k]), k + 2, 0)
  {
    AfterQuote(q, rest, k);
  }

  lemma ClosedTakes(ps: seq<Piece>, qs: seq<Piece>, n: nat, names: set<string>)
    requires ps != [] && IsQuote(ps[0]) && QuoteAt(ps[1..], ps[0]) == Some(n)
    requires qs == [ps[0]] + SubstituteAll(ps[1..], names)
    ensures var t := TakeQuoted(ps);
      TakeQuoted(qs) == Taken(Inside(t.lexeme, names), |SubstituteAll(ps[..t.length], names)|, t.depth)
  {
    var rest := ps[1..];
    ClosedStaysClosed(rest, ps[0], names, n);
    TakenQuote(ps[0], SubstituteAll(rest, names), |SubstituteAll(rest[..n], names)|);
    assert ps == [ps[0]] + rest;
    TakenQuote(ps[0], rest, n);
    QuotedLength(ps, n, names);
  }

  lemma QuotedTakes(ps: seq<Piece>, names: set<string>)
    requires ps != [] && IsQuote(ps[0])
    ensures var t, qs := TakeQuoted(ps), SubstituteAll(ps, names);
      qs != [] && qs[0] == ps[0] &&
      TakeQuoted(qs) == Taken(Inside(t.lexeme, names), |SubstituteAll(ps[..t.length], names)|, t.depth)
  {
    OtherStays(ps, names);
    match QuoteAt(ps[1..], ps[0])
    case None => OpenTakes(ps, SubstituteAll(ps, names), names);
    case Some(n) => ClosedTakes(ps, SubstituteAll(ps, names), n, names);
  }

  lemma MiddleAndLast(ps: seq<Piece>, n: nat)
    requires |ps| >= n + 2
    ensures ps[..n + 2][1..] == ps[1..][..n] + [ps[n + 1]]
  {
  }

  lemma QuotedLength(ps: seq<Piece>, n: nat, names: set<string>)
    requires |ps| >= n + 2 && ps[0].Other? && ps[n + 1].Other?
    ensures |SubstituteAll(ps[..n + 2], names)| == |SubstituteAll(ps[1..][..n], names)| + 2
  {
    var all, inner := ps[..n + 2], ps[1..][..n];
    OtherStays(all, names);
    MiddleAndLast(ps, n);
    SubstituteConcat(inner, [ps[n + 1]], names);
    SubstituteOne(ps[n + 1], names);
  }

  /** The first lexeme after substitution is the first lexeme with its pieces
      substituted, unless it was a fixed word that was rewritten. */
  lemma TakeSubstituted(ps: seq<Piece>, depth: nat, names: set<string>)
    requires ps != [] && !Renames(ps, depth, names)
    ensures SubstituteAll(ps, names) != []
    ensures var t := Take(ps, depth);
      Take(SubstituteAll(ps, names), depth) ==
        Taken(Inside(t.lexeme, names), |SubstituteAll(ps[..t.length], names)|, t.depth)
  {
    var qs, n := SubstituteAll(ps, names), RunLength(ps);
    CallStaysCall(ps, names);
    RunTakes(ps, names);
    if depth == 0 && StartsCall(ps) {
      assert qs[0] == ps[0] && ps[..2] == [ps[0], ps[1]];
      TwoStay(ps[0], ps[1], names);
    } else if n > 0 {
      FixedIff(ps[..n], names);
      RunInside(ps[..n], depth, names);
    } else {
      OtherStays(ps, names);
      assert RunLength(qs) == 0 && qs[0] == ps[0];
      if depth == 0 && IsQuote(ps[0]) {
        QuotedTakes(ps, names);
      } else {
        assert ps[..1] == [ps[0]];
        SubstituteOne(ps[0], names);
      }
    }
  }

  lemma TwoStay(p: Piece, q: Piece, names: set<string>)
    requires (p.Word? ==> p.w !in names) && q.Other?
    ensures SubstituteAll([p, q], names) == [p, q]
  {
    assert [p, q][1..] == [q];
    SubstituteOne(q, names);
  }

  /** On pieces: reading the rewritten text gives the original lexemes with the
      names bound exactly when every lexeme is clean. */
  lemma {:induction false} LexRewrittenIff(ps: seq<Piece>, depth: nat, names: set<string>)
    ensures LexPieces(SubstituteAll(ps, names), depth) == BoundAll(LexPieces(ps, depth), names) <==>
      AllClean(LexPieces(ps, depth), names)
    decreases |ps|
  {
    if ps != [] {
      var t, qs := Take(ps, depth), SubstituteAll(ps, names);
      var rest := ps[t.length..];
      var ls := LexPieces(ps, depth);
      assert ls[0] == t.lexeme && ls[1..] == LexPieces(rest, t.depth);
      CleanSplit(ls, names);
      if Renames(ps, depth, names) {
        if depth == 0 {
          RenamedCall(ps, names);
        } else {
          RenamedMarker(ps, depth, names);
        }
      } else {
        TakeSubstituted(ps, depth, names);
        SubstituteSplit(ps, t.length, names);
        var k := |SubstituteAll(ps[..t.length], names)|;
        assert qs[k..] == SubstituteAll(rest, names);
        LexRewrittenIff(rest, t.depth, names);
        NotRenamed(ps, depth, names);
        InsideIsBoundIff(t.lexeme, names);
        HeadAndTail(Inside(t.lexeme, names), Bound(t.lexeme, names),
                    LexPieces(SubstituteAll(rest, names), t.depth), BoundAll(ls[1..], names));
      }
    }
  }

  lemma NotRenamed(ps: seq<Piece>, depth: nat, names: set<string>)
    requires ps != [] && !Renames(ps, depth, names)
    ensures Take(ps, depth).lexeme.CallHead? ==> Take(ps, depth).lexeme.name !in names
    ensures Take(ps, depth).lexeme.Marker? ==> DATABASE !in names
  {
  }

  lemma HeadAndTail(a: Lexeme, b: Lexeme, more: seq<Lexeme>, rest: seq<Lexeme>)
    ensures [a] + more == [b] + rest <==> a == b && more == rest
  {
    assert ([a] + more)[1..] == more && ([b] + rest)[1..] == rest;
    assert ([a] + more)[0] == a && ([b] + rest)[0] == b;
  }

  lemma CleanSplit(ls: seq<Lexeme>, names: set<string>)
    requires ls != []
    ensures AllClean(ls, names) <==> Clean(ls[0], names) && AllClean(ls[1..], names)
  {
    assert ls == [ls[0]] + ls[1..];
  }

  lemma RenamedCall(ps: seq<Piece>, names: set<string>)
    requires NamedCall(ps, names)
    ensures LexPieces(SubstituteAll(ps, names), 0) != BoundAll(LexPieces(ps, 0), names)
    ensures !AllClean(LexPieces(ps, 0), names)
  {
    var ls, qs := LexPieces(ps, 0), SubstituteAll(ps, names);
    assert ls[0] == CallHead(ps[0].w) && BoundAll(ls, names)[0] == ls[0];
    CallStaysCall(ps, names);
    assert qs != [] by { FixedIff(ps, names); }
    assert !LexPieces(qs, 0)[0].CallHead?;
    assert LexPieces(qs, 0)[0] != BoundAll(ls, names)[0];
    assert ls[0] in ls && !Clean(ls[0], names);
  }

  lemma RenamedMarker(ps: seq<Piece>, depth: nat, names: set<string>)
    requires depth > 1 && NamedMarker(ps, names)
    ensures LexPieces(SubstituteAll(ps, names), depth) != BoundAll(LexPieces(ps, depth), names)
    ensures !AllClean(LexPieces(ps, depth), names)
  {
    var ls, qs := LexPieces(ps, depth), SubstituteAll(ps, names);
    assert ls[0] == Marker && BoundAll(ls, names)[0] == Marker;
    RunTakes(ps, names);
    SubstituteOne(Word(DATABASE), names);
    assert LexPieces(qs, depth)[0] == Dotted(Expansion(DATABASE));
    assert ls[0] in ls && !Clean(ls[0], names);
  }

  // ----- Whole rules -----

  lemma {:induction false} WordLengthIs(w: string, rest: string)
    requires (forall c <- w :: IsWordChar(c)) && (rest != "" ==> !IsWordChar(rest[0]))
    ensures WordLength(w + rest) == |w|
  {
    if w == "" {
      assert w + rest == rest;
    } else {
      assert (w + rest)[1..] == w[1..] + rest && w[0] in w;
      WordLengthIs(w[1..], rest);
    }
  }

  lemma {:induction false} PiecesOfFlatten(ps: seq<Piece>)
    requires WellFormed(ps)
    ensures Pieces(Flatten(ps)) == ps
  {
    if ps != [] {
      var p, rest := ps[0], Flatten(ps[1..]);
      WellFormedTail(ps);
      PiecesOfFlatten(ps[1..]);
      assert p in ps;
      if p.Word? {
        if |ps| > 1 {
          FlattenStarts(ps[1..]);
        }
        WordLengthIs(p.w, rest);
        assert (p.w + rest)[..|p.w|] == p.w && (p.w + rest)[|p.w|..] == rest;
      } else {
        assert WordLength([p.c] + rest) == 0 && ([p.c] + rest)[1..] == rest;
      }
    }
  }

  /** The rewritten condition reads as the original with the captured names bound
      to the path, if and only if each captured name stands alone wherever it
      occurs: never as a component of a dotted word, in quotes, as a literal
      segment of a document path, or as the `exists`, `get` or `database` of a
      cross-document call. */
  lemma RewrittenRuleIff(s: string, names: seq<string>)
    requires Identifiers(names) && Independent(names)
    ensures Lex(RewriteAll(s, names)) == BoundAll(Lex(s), AsSet(names)) <==> AllClean(Lex(s), AsSet(names))
  {
    PassesAreSimultaneousIff(names);
    PiecesSpell(s);
    SubstitutionWellFormed(Pieces(s), AsSet(names));
    PiecesOfFlatten(SubstituteAll(Pieces(s), AsSet(names)));
    LexRewrittenIff(Pieces(s), 0, AsSet(names));
  }

  // ----- Readings -----

  predicate StartsWith(w: string, prefix: string) {
    |w| >= |prefix| && w[..|prefix|] == prefix
  }

  /** `word_to_operand`, with the parser's keywords. */
  function ReadWord(w: string): Conditions.Word {
    if w == "request.auth.uid" then WReference(AuthUid)
    else if w == "request.auth" then WReference(AuthNullSentinel)
    else if w == "null" then WReference(NullLiteral)
    else if w == "request.time" then WReference(RequestTime)
    else if w == "true" then WTrue
    else if w == "false" then WFalse
    else if w == "in" then WIn
    else if w == "duration.value" then WDurationValue
    else if StartsWith(w, CLAIM) then Dropped(w, |CLAIM|, claim => AuthTokenClaim(claim))
    else if StartsWith(w, PREFIX) then Dropped(w, |PREFIX|, name => PathVariable(name))
    else if StartsWith(w, PROPOSED) then Dropped(w, |PROPOSED|, field => RequestResourceField(field))
    else if StartsWith(w, STORED) then Dropped(w, |STORED|, field => ResourceField(field))
    else WUnrecognized
  }

  const CLAIM: string := "request.auth.token."
  const PROPOSED: string := "request.resource.data."
  const STORED: string := "resource.data."

  function Dropped(w: string, n: nat, f: string -> Reference): Conditions.Word
    requires n <= |w|
  {
    if w[n..] == "" then WUnrecognized else WReference(f(w[n..]))
  }

  datatype Reading = AWord(word: Conditions.Word) | AsWritten(lexeme: Lexeme)

  /** How a lexeme is read when `bound` names stand for path variables. */
  function Read(l: Lexeme, bound: set<string>): Reading {
    if !l.Dotted? then AsWritten(l)
    else if |l.run| == 1 && l.run[0].Word? && l.run[0].w in bound && l.run[0].w != "" then
      AWord(WReference(PathVariable(l.run[0].w)))
    else AWord(ReadWord(Flatten(l.run)))
  }

  function ReadAll(ls: seq<Lexeme>, bound: set<string>): seq<Reading> {
    if ls == [] then [] else [Read(ls[0], bound)] + ReadAll(ls[1..], bound)
  }

  lemma NotPrefix(w: string, prefix: string, i: nat)
    requires i < |w| && i < |prefix| && w[i] != prefix[i]
    ensures !StartsWith(w, prefix)
  {
    if |w| >= |prefix| {
      assert w[..|prefix|][i] == w[i];
    }
  }

  lemma PathVariableReads(w: string)
    requires w != ""
    ensures ReadWord(PREFIX + w) == WReference(PathVariable(w))
  {
    var t := PREFIX + w;
    assert t[8] == 'p' && t[..|PREFIX|] == PREFIX && t[|PREFIX|..] == w;
    assert "request.auth.uid"[8] == 'a' && "request.auth"[8] == 'a' && "request.time"[8] == 't';
    assert t[0] == 'r' && "null"[0] == 'n' && "true"[0] == 't' && "false"[0] == 'f';
    assert "in"[0] == 'i' && "duration.value"[0] == 'd';
    assert CLAIM[8] == 'a';
    NotPrefix(t, CLAIM, 8);
  }

  lemma BoundReads(l: Lexeme, names: set<string>)
    requires "" !in names
    ensures Read(Bound(l, names), {}) == Read(l, names)
  {
    if Bound(l, names) != l {
      var w := l.run[0].w;
      ExpansionSpells(w);
      PathVariableReads(w);
    }
  }

  lemma {:induction false} BoundAllReads(ls: seq<Lexeme>, names: set<string>)
    requires "" !in names
    ensures ReadAll(BoundAll(ls, names), {}) == ReadAll(ls, names)
  {
    if ls != [] {
      BoundReads(ls[0], names);
      BoundAllReads(ls[1..], names);
      assert BoundAll(ls, names)[1..] == BoundAll(ls[1..], names);
    }
  }

  /** Where the names stand alone, the parser reads the rewritten condition as the
      original in which each name is the path variable. */
  lemma RewrittenRuleMeans(s: string, names: seq<string>)
    requires Identifiers(names) && Independent(names) && AllClean(Lex(s), AsSet(names))
    ensures ReadAll(Lex(RewriteAll(s, names)), {}) == ReadAll(Lex(s), AsSet(names))
  {
    RewrittenRuleIff(s, names);
    BoundAllReads(Lex(s), AsSet(names));
  }

  // ----- A captured name that is also a field name -----

  lemma StoredReads(field: string)
    requires field != ""
    ensures ReadWord(STORED + field) == WReference(ResourceField(field))
  {
    var t := STORED + field;
    assert t[2] == 's' && t[..|STORED|] == STORED && t[|STORED|..] == field;
    assert "request.auth.uid"[2] == 'q' && "request.auth"[2] == 'q' && "request.time"[2] == 'q';
    assert t[0] == 'r' && "null"[0] == 'n' && "true"[0] == 't' && "false"[0] == 'f';
    assert "in"[0] == 'i' && "duration.value"[0] == 'd';
    assert CLAIM[2] == 'q' && PREFIX[2] == 'q' && PROPOSED[2] == 'q';
    NotPrefix(t, CLAIM, 2);
    NotPrefix(t, PREFIX, 2);
    NotPrefix(t, PROPOSED, 2);
  }

  function StoredPieces(): seq<Piece> {
    [Word("resource"), Other('.'), Word("data"), Other('.')]
  }

  lemma StoredSpells(more: seq<Piece>)
    ensures Flatten(StoredPieces() + more) == STORED + Flatten(more)
  {
    var ps := StoredPieces();
    FlattenConcat(ps, more);
    assert ps[1..][1..][1..] == [Other('.')] && [Other('.')][1..] == [];
    assert Flatten([Other('.')]) == ".";
    assert ps[1..][1..] == [Word("data"), Other('.')] && ps[1..] == [Other('.'), Word("data"), Other('.')];
    assert Flatten(ps[1..][1..]) == "data" + ".";
    assert Flatten(ps[1..]) == "." + ("data" + ".");
    assert Flatten(ps) == "resource" + ("." + ("data" + "."));
  }

  lemma OneRunLexes(ps: seq<Piece>)
    requires |ps| > 1 && WellFormed(ps) && (forall p <- ps :: InRun(p)) && !StartsCall(ps)
    ensures Lex(Flatten(ps)) == [Dotted(ps)]
  {
    PiecesOfFlatten(ps);
    RunLengthIs(ps, []);
    assert ps + [] == ps && ps[..|ps|] == ps && ps[|ps|..] == [];
    assert Take(ps, 0) == Taken(Dotted(ps), |ps|, 0);
    assert LexPieces(ps[|ps|..], 0) == [];
  }

  lemma OneLexemeReads(ps: seq<Piece>, bound: set<string>)
    requires |ps| > 1
    ensures ReadAll([Dotted(ps)], bound) == [AWord(ReadWord(Flatten(ps)))]
  {
    assert [Dotted(ps)][1..] == [];
    assert ReadAll([], bound) == [];
    assert Read([Dotted(ps)][0], bound) == AWord(ReadWord(Flatten(ps)));
  }

  lemma FieldReads(more: seq<Piece>, field: string, bound: set<string>)
    requires more != [] && Flatten(more) == field && field != ""
    requires WellFormed(StoredPieces() + more) && forall p <- more :: InRun(p)
    ensures ReadAll(Lex(STORED + field), bound) == [AWord(WReference(ResourceField(field)))]
  {
    var ps := StoredPieces() + more;
    StoredSpells(more);
    assert ps[0] == Word("resource");
    OneRunLexes(ps);
    OneLexemeReads(ps, bound);
    StoredReads(field);
  }

  lemma LastWordRewritten(front: seq<Piece>, name: string, text: string)
    requires IsIdentifier(name) && WellFormed(front + [Word(name)]) && NoneNamed(front, {name})
    requires text == Flatten(front + [Word(name)])
    ensures Rewrite(text, name) == Flatten(front + Expansion(name))
  {
    PassSubstitutes(front + [Word(name)], name);
    SubstituteConcat(front, [Word(name)], {name});
    SubstituteOne(Word(name), {name});
    FixedIff(front, {name});
  }

  lemma FixedWords()
    ensures IsIdentifier("resource") && IsIdentifier("data") && IsIdentifier("request") && IsIdentifier("path")
  {
  }

  lemma FieldWellFormed(name: string)
    requires IsIdentifier(name)
    ensures WellFormed(StoredPieces() + [Word(name)]) && WellFormed(StoredPieces() + Expansion(name))
  {
    FixedWords();
    assert WellFormed(StoredPieces());
    WellFormedConcat(StoredPieces(), [Word(name)]);
    WellFormedConcat(StoredPieces(), Expansion(name));
  }

  lemma FieldRewritten(name: string, text: string)
    requires IsIdentifier(name) && name != "resource" && name != "data" && text == STORED + name
    ensures Rewrite(text, name) == STORED + Flatten(Expansion(name))
  {
    StoredSpells([Word(name)]);
    SingleSpells(Word(name));
    FieldWellFormed(name);
    LastWordRewritten(StoredPieces(), name, text);
    StoredSpells(Expansion(name));
  }

  /** With a captured `{role}` the rule's `resource.data.role` becomes the field
      `request.path.role` of the document, whatever the name. */
  lemma FieldLikeVariableIsLost(name: string, text: string, rewritten: string)
    requires IsIdentifier(name) && name != "resource" && name != "data"
    requires text == STORED + name && rewritten == Rewrite(text, name)
    ensures ReadAll(Lex(text), {name}) == [AWord(WReference(ResourceField(name)))]
    ensures ReadAll(Lex(rewritten), {}) == [AWord(WReference(ResourceField(PREFIX + name)))]
  {
    assert rewritten == STORED + Flatten(Expansion(name)) by { FieldRewritten(name, text); }
    FieldWellFormed(name);
    SingleSpells(Word(name));
    FieldReads([Word(name)], name, {name});
    ExpansionSpells(name);
    FieldReads(Expansion(name), Flatten(Expansion(name)), {});
  }

  // ----- The words of the language -----

  /** How a reference is written; its own name is never empty. */
  function Written(o: Reference): string {
    match o
    case AuthUid => "request.auth.uid"
    case AuthNullSentinel => "request.auth"
    case NullLiteral => "null"
    case RequestTime => "request.time"
    case AuthTokenClaim(claim) => CLAIM + claim
    case PathVariable(name) => PREFIX + name
    case RequestResourceField(field) => PROPOSED + field
    case ResourceField(field) => STORED + field
  }

  predicate NamesSomething(o: Reference) {
    match o
    case AuthTokenClaim(claim) => claim != ""
    case PathVariable(name) => name != ""
    case RequestResourceField(field) => field != ""
    case ResourceField(field) => field != ""
    case _ => true
  }

  lemma DroppedWritten(w: string, prefix: string)
    requires StartsWith(w, prefix)
    ensures w == prefix + w[|prefix|..]
  {
  }

  /** A word is read as a reference only when it is how that reference is written. */
  lemma ReferencesAreWritten(w: string)
    ensures ReadWord(w).WReference? ==> w == Written(ReadWord(w).o) && NamesSomething(ReadWord(w).o)
  {
    if StartsWith(w, CLAIM) { DroppedWritten(w, CLAIM); }
    if StartsWith(w, PREFIX) { DroppedWritten(w, PREFIX); }
    if StartsWith(w, PROPOSED) { DroppedWritten(w, PROPOSED); }
    if StartsWith(w, STORED) { DroppedWritten(w, STORED); }
  }

  lemma ClaimReads(claim: string)
    requires claim != ""
    ensures ReadWord(CLAIM + claim) == WReference(AuthTokenClaim(claim))
  {
    var t := CLAIM + claim;
    assert t[13] == 't' && t[..|CLAIM|] == CLAIM && t[|CLAIM|..] == claim;
    assert |t| > |"request.auth"| && "request.auth.uid"[13] == 'u' && t[8] == 'a' && "request.time"[8] == 't';
    assert t[0] == 'r' && "null"[0] == 'n' && "true"[0] == 't' && "false"[0] == 'f';
    assert "in"[0] == 'i' && "duration.value"[0] == 'd';
  }

  lemma ProposedReads(field: string)
    requires field != ""
    ensures ReadWord(PROPOSED + field) == WReference(RequestResourceField(field))
  {
    var t := PROPOSED + field;
    assert t[8] == 'r' && t[..|PROPOSED|] == PROPOSED && t[|PROPOSED|..] == field;
    assert "request.auth.uid"[8] == 'a' && "request.auth"[8] == 'a' && "request.time"[8] == 't';
    assert t[0] == 'r' && "null"[0] == 'n' && "true"[0] == 't' && "false"[0] == 'f';
    assert "in"[0] == 'i' && "duration.value"[0] == 'd';
    assert CLAIM[8] == 'a' && PREFIX[8] == 'p';
    NotPrefix(t, CLAIM, 8);
    NotPrefix(t, PREFIX, 8);
  }

  lemma FixedWordsRead()
    ensures ReadWord("request.auth.uid") == WReference(AuthUid)
    ensures ReadWord("request.auth") == WReference(AuthNullSentinel)
    ensures ReadWord("null") == WReference(NullLiteral)
    ensures ReadWord("request.time") == WReference(RequestTime)
  {
    assert |"request.auth.uid"| == 16 && |"request.auth"| == 12 && |"null"| == 4 && |"request.time"| == 12;
    assert "request.auth"[8] == 'a' && "request.time"[8] == 't';
  }

  lemma KeywordsRead()
    ensures ReadWord("true") == WTrue && ReadWord("false") == WFalse
    ensures ReadWord("in") == WIn && ReadWord("duration.value") == WDurationValue
  {
    assert |"true"| == 4 && |"null"| == 4 && "true"[0] == 't' && "null"[0] == 'n' && |"false"| == 5 && |"in"| == 2;
    assert |"duration.value"| == 14 && |"request.auth.uid"| == 16 && |"request.auth"| == 12 && |"request.time"| == 12;
  }

  /** Every reference is read back from the way it is written, and from no other. */
  lemma WordsReadBack(w: string, o: Reference)
    ensures ReadWord(w) == WReference(o) <==> w == Written(o) && NamesSomething(o)
  {
    ReferencesAreWritten(w);
    if w == Written(o) && NamesSomething(o) {
      FixedWordsRead();
      match o
      case AuthTokenClaim(claim) => ClaimReads(claim);
      case PathVariable(name) => PathVariableReads(name);
      case RequestResourceField(field) => ProposedReads(field);
      case ResourceField(field) => StoredReads(field);
      case _ =>
    }
  }
}
