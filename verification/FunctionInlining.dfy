/** Rules-file functions (access_control/rules_file.rs). A call site is replaced
    by its body in parentheses before the condition is parsed; this is proved to
    give exactly the condition in which the call is an atom standing for the
    body's own condition. */
module FunctionInlining {
  import opened Values
  import opened Conditions
  import opened ConditionParser
  import Grammar

  type Functions = map<string, seq<Token>>

  datatype CallArguments = NoArguments | Arguments | Unterminated

  /** A piece of condition text: a token, or an identifier followed by `(`. */
  datatype Lexeme = Plain(token: Token) | CallSite(name: string, arguments: CallArguments)

  datatype InlineError = UndefinedFunction | ParametersUnsupported | UnterminatedCall

  /** Every stored body has been parsed on its own by `parse_function_blocks`. */
  predicate BodiesParse(fns: Functions) {
    forall f {:trigger ParseCondition(fns[f])} :: f in fns ==> ParseCondition(fns[f]).Ok?
  }

  function Bodies(fns: Functions): Calls
    requires BodiesParse(fns)
  {
    map f <- fns :: ParseCondition(fns[f]).value
  }

  // ----- Collecting the definitions -----

  /** A `function` block: its name, whether it lists parameters, and the
      expression it returns, when its body is a single `return`. */
  datatype FunctionBlock = FunctionBlock(name: string, parameters: bool, returned: Option<seq<Token>>)

  datatype BlockError =
    | BadName | ReservedName | HasParameters | BadBody | BadCondition(kind: ErrorKind) | DuplicateFunction

  predicate NameStart(c: char) {
    'a' <= c <= 'z' || 'A' <= c <= 'Z' || c == '_'
  }

  predicate ValidName(name: string) {
    name != "" && NameStart(name[0]) && forall i :: 0 <= i < |name| ==> NameStart(name[i]) || '0' <= name[i] <= '9'
  }

  const RESERVED: set<string> := {"get", "exists", "duration", "true", "false", "in"}

  /** What is wrong with a block on its own. */
  function BlockProblem(b: FunctionBlock): (e: Option<BlockError>)
    ensures e.None? ==> b.returned.Some? && ParseCondition(b.returned.value).Ok?
  {
    if !ValidName(b.name) then Some(BadName)
    else if b.name in RESERVED then Some(ReservedName)
    else if b.parameters then Some(HasParameters)
    else if b.returned.None? then Some(BadBody)
    else match ParseCondition(b.returned.value) case Ok(_) => None case Err(k) => Some(BadCondition(k))
  }

  predicate DefinedBefore(blocks: seq<FunctionBlock>, i: nat)
    requires i < |blocks|
  {
    exists j :: 0 <= j < i && blocks[j].name == blocks[i].name
  }

  predicate Acceptable(blocks: seq<FunctionBlock>, i: nat)
    requires i < |blocks|
  {
    BlockProblem(blocks[i]).None? && !DefinedBefore(blocks, i)
  }

  predicate FirstProblem(blocks: seq<FunctionBlock>, i: nat, e: BlockError)
    requires i < |blocks|
  {
    && (forall j :: 0 <= j < i ==> Acceptable(blocks, j))
    && if BlockProblem(blocks[i]).Some? then BlockProblem(blocks[i]) == Some(e)
       else DefinedBefore(blocks, i) && e == DuplicateFunction
  }

  /** The functions of a file, one per block, each with a body that parses; or
      the error of the first block that is wrong or redefines a name. */
  method CollectFunctions(blocks: seq<FunctionBlock>) returns (r: Result<Functions, BlockError>)
    ensures r.Ok? <==> forall i :: 0 <= i < |blocks| ==> Acceptable(blocks, i)
    ensures r.Ok? ==> BodiesParse(r.value)
    ensures r.Ok? ==> forall f :: f in r.value <==> exists i :: 0 <= i < |blocks| && blocks[i].name == f
    ensures r.Ok? ==>
      forall b <- blocks :: b.name in r.value && b.returned == Some(r.value[b.name])
    ensures r.Err? ==> exists i :: 0 <= i < |blocks| && FirstProblem(blocks, i, r.error)
  {
    var fns: Functions := map[];
    var i := 0;
    while i < |blocks|
      invariant 0 <= i <= |blocks| && BodiesParse(fns)
      invariant forall j :: 0 <= j < i ==> Acceptable(blocks, j)
      invariant forall f :: f in fns <==> exists j :: 0 <= j < i && blocks[j].name == f
      invariant forall j :: 0 <= j < i ==> blocks[j].name in fns && blocks[j].returned == Some(fns[blocks[j].name])
    {
      var b := blocks[i];
      var e := BlockProblem(b);
      if e.Some? {
        assert !Acceptable(blocks, i) && FirstProblem(blocks, i, e.value);
        return Err(e.value);
      }
      if b.name in fns {
        assert !Acceptable(blocks, i) && FirstProblem(blocks, i, DuplicateFunction);
        return Err(DuplicateFunction);
      }
      fns := fns[b.name := b.returned.value];
      i := i + 1;
    }
    return Ok(fns);
  }

  // ----- Expanding the calls -----

  function Enclose(body: seq<Token>): seq<Token> {
    [TLParen] + body + [TRParen]
  }

  /** The stream with call sites expanded, or the first call site's error. */
  function Expand(ls: seq<Lexeme>, fns: Functions): Result<seq<Token>, InlineError> {
    if ls == [] then Ok([]) else
    match ls[0]
    case Plain(t) => Prepend([t], Expand(ls[1..], fns))
    case CallSite(f, args) =>
      match CallError(f, args, fns)
      case Some(e) => Err(e)
      case None => Prepend(Enclose(fns[f]), Expand(ls[1..], fns))
  }

  function CallError(f: string, args: CallArguments, fns: Functions): (e: Option<InlineError>)
    ensures e.None? <==> f in fns && args == NoArguments
    ensures e == Some(UndefinedFunction) <==> f !in fns
    ensures e == Some(UnterminatedCall) <==> f in fns && args == Unterminated
    ensures e == Some(ParametersUnsupported) <==> f in fns && args == Arguments
  {
    if f !in fns then Some(UndefinedFunction)
    else match args
      case Unterminated => Some(UnterminatedCall)
      case Arguments => Some(ParametersUnsupported)
      case NoArguments => None
  }

  function Prepend(s: seq<Token>, r: Result<seq<Token>, InlineError>): Result<seq<Token>, InlineError> {
    match r case Ok(t) => Ok(s + t) case Err(e) => Err(e)
  }

  method ExpandFunctionCalls(ls: seq<Lexeme>, fns: Functions) returns (r: Result<seq<Token>, InlineError>)
    ensures r == Expand(ls, fns)
  {
    var out: seq<Token> := [];
    var i := 0;
    PrependNothing(Expand(ls, fns));
    assert ls[0..] == ls;
    while i < |ls|
      invariant 0 <= i <= |ls|
      invariant Expand(ls, fns) == Prepend(out, Expand(ls[i..], fns))
    {
      assert ls[i..][1..] == ls[i + 1..];
      var piece: seq<Token>;
      match ls[i] {
        case Plain(t) => piece := [t];
        case CallSite(f, args) =>
          var error := CallError(f, args, fns);
          if error.Some? { return Err(error.value); }
          piece := Enclose(fns[f]);
      }
      assert Prepend(out, Prepend(piece, Expand(ls[i + 1..], fns)))
          == Prepend(out + piece, Expand(ls[i + 1..], fns)) by {
        PrependTwice(out, piece, Expand(ls[i + 1..], fns));
      }
      out := out + piece;
      i := i + 1;
    }
    assert out + [] == out;
    r := Ok(out);
  }

  lemma PrependNothing(r: Result<seq<Token>, InlineError>)
    ensures Prepend([], r) == r
  {
    if r.Ok? { assert [] + r.value == r.value; }
  }

  lemma PrependTwice(s: seq<Token>, t: seq<Token>, r: Result<seq<Token>, InlineError>)
    ensures Prepend(s, Prepend(t, r)) == Prepend(s + t, r)
  {
    if r.Ok? { assert s + (t + r.value) == (s + t) + r.value; }
  }

  /** The stream with each call site kept as one token. */
  function Atomic(ls: seq<Lexeme>): seq<Token> {
    if ls == [] then []
    else [match ls[0] case Plain(t) => t case CallSite(f, _) => TCall(f)] + Atomic(ls[1..])
  }

  // ----- Parsing an expanded stream follows parsing the atomic one -----

  /** Call tokens replaced by enclosed bodies. */
  function Inline(s: seq<Token>, fns: Functions): seq<Token> {
    if s == [] then [] else
    var head := if s[0].TCall? && s[0].name in fns then Enclose(fns[s[0].name]) else [s[0]];
    head + Inline(s[1..], fns)
  }

  predicate KnownCall(s: seq<Token>, fns: Functions) {
    s != [] && s[0].TCall? && s[0].name in fns
  }

  lemma InlineHead(s: seq<Token>, fns: Functions)
    ensures s == [] ==> Inline(s, fns) == []
    ensures s != [] ==> Inline(s, fns) != []
    ensures KnownCall(s, fns) ==> Inline(s, fns)[0] == TLParen
    ensures s != [] && !KnownCall(s, fns) ==> Inline(s, fns)[0] == s[0] && Inline(s, fns)[1..] == Inline(s[1..], fns)
  {}

  /** A parse of `s` seen through inlining: same value, inlined remainder. */
  predicate Follows<T(==)>(expanded: Parsed<T>, atomic: Parsed<T>, fns: Functions) {
    match atomic
    case Parsed(value, rest) => expanded == Parsed(value, Inline(rest, fns))
    case Failed(_) => expanded.Failed?
  }

  lemma BaseFollows(s: seq<Token>, fns: Functions)
    ensures Follows(ParseBase(Inline(s, fns)), ParseBase(s), fns)
  {
    InlineHead(s, fns);
  }

  lemma BodyStarts(body: seq<Token>)
    requires ParseOr(body, NO_CALLS).Parsed?
    ensures body != [] && !body[0].TInt?
  {
    assert ParseAnd(body, NO_CALLS).Parsed? && ParseUnary(body, NO_CALLS).Parsed?;
    assert body[0] != TNot ==> ParsePrimary(body, NO_CALLS).Parsed?;
  }

  /** A body never begins with an integer, so no call hides a duration's amount. */
  lemma NoAmountAfterCall(s: seq<Token>, fns: Functions)
    requires BodiesParse(fns) && KnownCall(s, fns)
    ensures |Inline(s, fns)| > 1 && !Inline(s, fns)[1].TInt?
  {
    var body := fns[s[0].name];
    assert ParseCondition(body).Ok?;
    BodyStarts(body);
    assert Inline(s, fns)[1] == body[0];
  }

  lemma {:induction false} InlinePrefix(s: seq<Token>, k: nat, fns: Functions)
    requires k <= |s| && forall t <- s[..k] :: !t.TCall?
    ensures Inline(s, fns) == s[..k] + Inline(s[k..], fns)
  {
    if k > 0 {
      assert s[..k] == [s[0]] + s[1..][..k - 1] && s[1..][k - 1..] == s[k..];
      assert !s[..k][0].TCall?;
      InlinePrefix(s[1..], k - 1, fns);
    } else {
      assert s[0..] == s;
    }
  }

  /** At the front of an inlined stream, tokens that are no brackets stand for themselves. */
  lemma {:induction false} NoBracketYet(s: seq<Token>, n: nat, fns: Functions)
    requires n <= |Inline(s, fns)| && forall i :: 0 <= i < n ==> Inline(s, fns)[i] != TLParen
    ensures n <= |s| && s[..n] == Inline(s, fns)[..n]
  {
    InlineHead(s, fns);
    if n > 0 {
      NoBracketYet(s[1..], n - 1, fns);
      assert s[..n] == [s[0]] + s[1..][..n - 1];
    }
  }

  lemma NoDurationOverCall(s: seq<Token>, fns: Functions)
    requires BodiesParse(fns) && s != [] && s[0] == TWord(WDurationValue) && KnownCall(s[1..], fns)
    ensures |Inline(s, fns)| > 2 && !Inline(s, fns)[2].TInt?
  {
    InlineHead(s, fns);
    NoAmountAfterCall(s[1..], fns);
    assert Inline(s, fns)[2] == Inline(s[1..], fns)[1];
  }

  lemma DurationArguments(s: seq<Token>, fns: Functions)
    requires |s| > 1 && Inline(s, fns) != [] && ParseDuration(Inline(s, fns)).Parsed?
    requires s[1] == TLParen && Inline(s, fns)[1..] == [TLParen] + Inline(s[2..], fns)
    ensures ParseDuration(s).Parsed?
  {
    var whole, tail := Inline(s, fns), Inline(s[2..], fns);
    assert forall i :: 2 <= i < |whole| ==> whole[i] == whole[1..][i - 1] == tail[i - 2];
    assert |tail| >= 4 && forall i :: 0 <= i < 4 ==> tail[i] == whole[i + 2] != TLParen;
    NoBracketYet(s[2..], 4, fns);
    SameSix(s, whole, tail);
  }

  lemma SameSix(s: seq<Token>, whole: seq<Token>, tail: seq<Token>)
    requires |s| >= 6 && |whole| >= 6 && |tail| >= 4 && s[1] == whole[1] == TLParen && s[2..][..4] == tail[..4]
    requires forall i :: 2 <= i < 6 ==> whole[i] == tail[i - 2]
    requires ParseDuration(whole).Parsed?
    ensures ParseDuration(s).Parsed?
  {
    assert forall i :: 2 <= i < 6 ==> s[i] == s[2..][..4][i - 2] == tail[..4][i - 2] == whole[i];
    assert s[2] == whole[2] && s[3] == whole[3] && s[4] == whole[4] && s[5] == whole[5];
  }

  lemma DurationReflects(s: seq<Token>, fns: Functions)
    requires BodiesParse(fns) && s != [] && s[0] == TWord(WDurationValue)
    requires Inline(s, fns) != [] && ParseDuration(Inline(s, fns)).Parsed?
    ensures ParseDuration(s).Parsed?
  {
    InlineHead(s, fns);
    if KnownCall(s[1..], fns) {
      NoDurationOverCall(s, fns);
      assert false;
    } else {
      InlineHead(s[1..], fns);
      DurationArguments(s, fns);
    }
  }

  lemma DurationFollows(s: seq<Token>, fns: Functions)
    requires BodiesParse(fns) && s != [] && s[0] == TWord(WDurationValue)
    ensures Inline(s, fns) != [] && Follows(ParseDuration(Inline(s, fns)), ParseDuration(s), fns)
  {
    InlineHead(s, fns);
    if ParseDuration(s).Parsed? {
      InlinePrefix(s, 6, fns);
      assert Inline(s, fns)[6..] == Inline(s[6..], fns);
    } else if ParseDuration(Inline(s, fns)).Parsed? {
      DurationReflects(s, fns);
    }
  }

  lemma RhsFollows(s: seq<Token>, fns: Functions)
    requires BodiesParse(fns)
    ensures Follows(ParseArithmeticRhs(Inline(s, fns)), ParseArithmeticRhs(s), fns)
  {
    InlineHead(s, fns);
    if s != [] && s[0] == TWord(WDurationValue) {
      DurationFollows(s, fns);
    } else {
      BaseFollows(s, fns);
    }
  }

  lemma ArithmeticSeen(s: seq<Token>, fns: Functions)
    ensures StartsArithmetic(Inline(s, fns)) == StartsArithmetic(s)
    ensures StartsArithmetic(s) ==> Inline(s, fns)[0] == s[0] && Inline(s, fns)[1..] == Inline(s[1..], fns)
  {
    InlineHead(s, fns);
  }

  lemma OperandTailFollows(base: Operand, s: seq<Token>, fns: Functions)
    requires BodiesParse(fns)
    ensures Follows(ParseOperandTail(base, Inline(s, fns)), ParseOperandTail(base, s), fns)
  {
    ArithmeticSeen(s, fns);
    if StartsArithmetic(s) {
      RhsFollows(s[1..], fns);
      match ParseArithmeticRhs(s[1..])
      case Parsed(right, s1) => ArithmeticSeen(s1, fns);
      case Failed(_) =>
    }
  }

  lemma OperandFollows(s: seq<Token>, fns: Functions)
    requires BodiesParse(fns)
    ensures Follows(ParseOperand(Inline(s, fns)), ParseOperand(s), fns)
  {
    BaseFollows(s, fns);
    match ParseBase(s)
    case Parsed(base, s1) => OperandTailFollows(base, s1, fns);
    case Failed(_) =>
  }

  lemma {:induction false} ItemsFollow(items: seq<Operand>, s: seq<Token>, fns: Functions)
    requires BodiesParse(fns)
    ensures Follows(ParseItems(items, Inline(s, fns)), ParseItems(items, s), fns)
    decreases |s|
  {
    OperandFollows(s, fns);
    if ParseOperand(s).Parsed? {
      var Parsed(o, s1) := ParseOperand(s);
      InlineHead(s1, fns);
      if s1 != [] && s1[0] == TComma {
        ItemsFollow(items + [o], s1[1..], fns);
      }
    }
  }

  lemma ListFollows(s: seq<Token>, fns: Functions)
    requires BodiesParse(fns)
    ensures Follows(ParseList(Inline(s, fns)), ParseList(s), fns)
  {
    InlineHead(s, fns);
    if s != [] && s[0] == TLBracket {
      InlineHead(s[1..], fns);
      ItemsFollow([], s[1..], fns);
    }
  }

  lemma ComparisonFollows(s: seq<Token>, fns: Functions)
    requires BodiesParse(fns)
    ensures Follows(ParseComparison(Inline(s, fns)), ParseComparison(s), fns)
  {
    OperandFollows(s, fns);
    if ParseOperand(s).Parsed? {
      var s1 := ParseOperand(s).rest;
      InlineHead(s1, fns);
      if s1 != [] {
        InlineHead(s1[1..], fns);
        if s1[0] == TWord(WIn) {
          ListFollows(s1[1..], fns);
        } else if s1[0].TCompare? {
          OperandFollows(s1[1..], fns);
        }
      }
    }
  }

  /** An enclosed body parses to the body's condition and ends at its bracket. */
  lemma EnclosedBody(body: seq<Token>, rest: seq<Token>)
    requires ParseAll(body, NO_CALLS).Ok?
    ensures ParsePrimary([TLParen] + (body + ([TRParen] + rest)), NO_CALLS)
         == Parsed(ParseAll(body, NO_CALLS).value, rest)
  {
    var close := [TRParen] + rest;
    var x := Grammar.OrSound(body, NO_CALLS);
    assert Grammar.Yield(x) + [] == Grammar.Yield(x);
    Grammar.OrComplete(x, close, NO_CALLS);
    assert ([TLParen] + (body + close))[1..] == body + close;
    assert close[1..] == rest;
  }

  lemma CallFollows(s: seq<Token>, fns: Functions)
    requires BodiesParse(fns) && KnownCall(s, fns)
    ensures ParsePrimary(Inline(s, fns), NO_CALLS)
         == Parsed(Bodies(fns)[s[0].name], Inline(s[1..], fns))
  {
    var body, rest := fns[s[0].name], Inline(s[1..], fns);
    assert ParseCondition(body).Ok?;
    assert Inline(s, fns) == [TLParen] + (body + ([TRParen] + rest)) by {
      assert Enclose(body) + rest == [TLParen] + (body + ([TRParen] + rest));
    }
    EnclosedBody(body, rest);
  }

  lemma {:induction false} PrimaryFollows(s: seq<Token>, fns: Functions)
    requires BodiesParse(fns)
    ensures Follows(ParsePrimary(Inline(s, fns), NO_CALLS), ParsePrimary(s, Bodies(fns)), fns)
    decreases |s|, 0
  {
    InlineHead(s, fns);
    if KnownCall(s, fns) {
      CallFollows(s, fns);
    } else if s != [] {
      if s[0] == TLParen {
        OrFollows(s[1..], fns);
        if ParseOr(s[1..], Bodies(fns)).Parsed? {
          InlineHead(ParseOr(s[1..], Bodies(fns)).rest, fns);
        }
      } else if s[0].TWord? || s[0].TGet? {
        ComparisonFollows(s, fns);
      }
    }
  }

  lemma {:induction false} UnaryFollows(s: seq<Token>, fns: Functions)
    requires BodiesParse(fns)
    ensures Follows(ParseUnary(Inline(s, fns), NO_CALLS), ParseUnary(s, Bodies(fns)), fns)
    decreases |s|, 1
  {
    InlineHead(s, fns);
    if s != [] && s[0] == TNot {
      UnaryFollows(s[1..], fns);
    } else {
      PrimaryFollows(s, fns);
    }
  }

  lemma {:induction false} AndTailFollows(left: Condition, s: seq<Token>, fns: Functions)
    requires BodiesParse(fns)
    ensures Follows(AndTail(left, Inline(s, fns), NO_CALLS), AndTail(left, s, Bodies(fns)), fns)
    decreases |s|, 2
  {
    InlineHead(s, fns);
    if s != [] && s[0] == TAnd {
      UnaryFollows(s[1..], fns);
      match ParseUnary(s[1..], Bodies(fns))
      case Parsed(right, s1) => AndTailFollows(And(left, right), s1, fns);
      case Failed(_) =>
    }
  }

  lemma {:induction false} AndFollows(s: seq<Token>, fns: Functions)
    requires BodiesParse(fns)
    ensures Follows(ParseAnd(Inline(s, fns), NO_CALLS), ParseAnd(s, Bodies(fns)), fns)
    decreases |s|, 3
  {
    UnaryFollows(s, fns);
    match ParseUnary(s, Bodies(fns))
    case Parsed(left, s1) => AndTailFollows(left, s1, fns);
    case Failed(_) =>
  }

  lemma {:induction false} OrTailFollows(left: Condition, s: seq<Token>, fns: Functions)
    requires BodiesParse(fns)
    ensures Follows(OrTail(left, Inline(s, fns), NO_CALLS), OrTail(left, s, Bodies(fns)), fns)
    decreases |s|, 4
  {
    InlineHead(s, fns);
    if s != [] && s[0] == TOr {
      AndFollows(s[1..], fns);
      match ParseAnd(s[1..], Bodies(fns))
      case Parsed(right, s1) => OrTailFollows(Or(left, right), s1, fns);
      case Failed(_) =>
    }
  }

  lemma {:induction false} OrFollows(s: seq<Token>, fns: Functions)
    requires BodiesParse(fns)
    ensures Follows(ParseOr(Inline(s, fns), NO_CALLS), ParseOr(s, Bodies(fns)), fns)
    decreases |s|, 5
  {
    AndFollows(s, fns);
    match ParseAnd(s, Bodies(fns))
    case Parsed(left, s1) => OrTailFollows(left, s1, fns);
    case Failed(_) =>
  }

  // ----- Main results -----

  function SiteError(l: Lexeme, fns: Functions): Option<InlineError> {
    if l.Plain? then None else CallError(l.name, l.arguments, fns)
  }

  /** Expansion fails exactly at its first bad call site, with that site's error. */
  lemma {:induction false} ExpandFailsAtFirst(ls: seq<Lexeme>, fns: Functions, e: InlineError)
    ensures Expand(ls, fns) == Err(e)
       <==> exists i :: 0 <= i < |ls| && SiteError(ls[i], fns) == Some(e) &&
                        forall j :: 0 <= j < i ==> SiteError(ls[j], fns).None?
  {
    if ls != [] {
      ExpandFailsAtFirst(ls[1..], fns, e);
      if SiteError(ls[0], fns).None? {
        if Expand(ls, fns) == Err(e) {
          var i :| 0 <= i < |ls[1..]| && SiteError(ls[1..][i], fns) == Some(e) &&
                   forall j :: 0 <= j < i ==> SiteError(ls[1..][j], fns).None?;
          assert forall j :: 0 <= j < i + 1 ==> j == 0 || ls[j] == ls[1..][j - 1];
          assert SiteError(ls[i + 1], fns) == Some(e);
        }
        if i :| 0 <= i < |ls| && SiteError(ls[i], fns) == Some(e) &&
                forall j :: 0 <= j < i ==> SiteError(ls[j], fns).None? {
          assert SiteError(ls[1..][i - 1], fns) == Some(e);
          assert forall j :: 0 <= j < i - 1 ==> ls[1..][j] == ls[j + 1];
        }
      } else {
        assert SiteError(ls[0], fns) == Some(e) || Expand(ls, fns) != Err(e);
      }
    }
  }

  /** Call sites are lexed as call sites. */
  predicate CallsAreSites(ls: seq<Lexeme>) {
    forall l <- ls :: l.Plain? ==> !IsCall(l.token)
  }

  lemma {:induction false} ExpandIsInline(ls: seq<Lexeme>, fns: Functions)
    requires BodiesParse(fns) && CallsAreSites(ls) && Expand(ls, fns).Ok?
    ensures Expand(ls, fns).value == Inline(Atomic(ls), fns)
    ensures Grammar.NoCall(Expand(ls, fns).value)
  {
    if ls != [] {
      ExpandIsInline(ls[1..], fns);
      assert Atomic(ls)[1..] == Atomic(ls[1..]);
      match ls[0]
      case Plain(t) =>
      case CallSite(f, _) =>
        assert ParseCondition(fns[f]).Ok?;
        Grammar.NoCallConcat([TLParen] + fns[f], [TRParen]);
        Grammar.NoCallConcat(Enclose(fns[f]), Expand(ls[1..], fns).value);
    }
  }

  /** Parsing the expanded stream succeeds exactly when parsing with calls as
      atomic conditions does, and gives that tree with each call replaced by
      the tree of its body; no call is left to expand. */
  lemma InliningPreservesMeaning(ls: seq<Lexeme>, fns: Functions)
    requires BodiesParse(fns) && CallsAreSites(ls) && Expand(ls, fns).Ok?
    ensures ParseCondition(Expand(ls, fns).value).Ok? <==> ParseAll(Atomic(ls), Bodies(fns)).Ok?
    ensures ParseCondition(Expand(ls, fns).value).Ok?
        ==> ParseCondition(Expand(ls, fns).value) == ParseAll(Atomic(ls), Bodies(fns))
  {
    ExpandIsInline(ls, fns);
    OrFollows(Atomic(ls), fns);
    match ParseOr(Atomic(ls), Bodies(fns))
    case Parsed(_, rest) => InlineHead(rest, fns);
    case Failed(_) =>
  }

  // ----- What a function may be -----

  /** A letter or underscore, then letters, digits and underscores. */
  predicate Identifier(name: string) {
    && name != "" && name[0] !in "0123456789"
    && forall c <- name :: c in "0123456789" || c == '_' || 'a' <= c <= 'z' || 'A' <= c <= 'Z'
  }

  lemma DigitsListed(c: char)
    ensures c in "0123456789" <==> '0' <= c <= '9'
  {
    if '0' <= c <= '9' {
      assert "0123456789"[c as int - '0' as int] == c;
    }
  }

  lemma ValidNameIff(name: string)
    ensures ValidName(name) <==> Identifier(name)
  {
    forall c <- name ensures c in "0123456789" <==> '0' <= c <= '9' {
      DigitsListed(c);
    }
    if Identifier(name) {
      forall i | 0 <= i < |name| ensures NameStart(name[i]) || '0' <= name[i] <= '9' {
        assert name[i] in name;
      }
      assert name[0] in name;
    }
    if ValidName(name) {
      forall c <- name ensures c in "0123456789" || c == '_' || 'a' <= c <= 'z' || 'A' <= c <= 'Z' {
        var i :| 0 <= i < |name| && name[i] == c;
      }
      assert name[0] in name;
    }
  }

  predicate BuiltIn(name: string) {
    name == "get" || name == "exists" || name == "duration" || name == "true" || name == "false" || name == "in"
  }

  /** A block is accepted on its own exactly when it names a new identifier, takes
      no parameters, and returns one condition that parses; what is wrong is
      reported in that order. */
  lemma BlockProblems(b: FunctionBlock)
    ensures BlockProblem(b).None? <==>
      && Identifier(b.name) && !BuiltIn(b.name) && !b.parameters
      && b.returned.Some? && ParseCondition(b.returned.value).Ok?
    ensures BlockProblem(b) == Some(BadName) <==> !Identifier(b.name)
    ensures BlockProblem(b) == Some(ReservedName) <==> Identifier(b.name) && BuiltIn(b.name)
    ensures BlockProblem(b) == Some(HasParameters) <==> Identifier(b.name) && !BuiltIn(b.name) && b.parameters
    ensures BlockProblem(b) == Some(BadBody) <==>
      Identifier(b.name) && !BuiltIn(b.name) && !b.parameters && b.returned.None?
  {
    ValidNameIff(b.name);
  }
}
