/** The recursive-descent condition parser (access_control/mod.rs). The
    functions specify each production on the remaining tokens; module
    TokenParser holds the cursor-based parser that computes them. */
module ConditionParser {
  import opened Values
  import opened Conditions

  datatype Parsed<+T> = Parsed(value: T, rest: seq<Token>) | Failed(kind: ErrorKind)

  /** What the call sites left in a stream stand for. The source parser knows
      no functions, so it parses with `NO_CALLS`. */
  type Calls = map<string, Condition>

  const NO_CALLS: Calls := map[]

  function WordOperand(w: Word): Result<Operand, ErrorKind> {
    match w
    case WTrue => Ok(BoolLiteral(true))
    case WFalse => Ok(BoolLiteral(false))
    case WReference(o) => Ok(o)
    case _ => Err(SyntaxError)
  }

  function ParseBase(s: seq<Token>): (r: Parsed<Operand>)
    ensures r.Parsed? ==> |r.rest| < |s|
  {
    if s == [] then Failed(SyntaxError) else
    match s[0]
    case TWord(w) =>
      (match WordOperand(w) case Ok(o) => Parsed(o, s[1..]) case Err(k) => Failed(k))
    case TString(t) => Parsed(StringLiteral(t), s[1..])
    case TInt(i) => Parsed(IntLiteral(i), s[1..])
    case TDouble(d) => Parsed(DoubleLiteral(d), s[1..])
    case TExists(p) =>
      (match p case Ok(t) => Parsed(CrossDocumentExists(t), s[1..]) case Err(k) => Failed(k))
    case TGet(p, f) =>
      (match p case Ok(t) => Parsed(CrossDocumentGet(t, f), s[1..]) case Err(k) => Failed(k))
    case _ => Failed(SyntaxError)
  }

  /** `duration.value` `(` amount `,` unit `)`, the first word already seen. */
  function ParseDuration(s: seq<Token>): (r: Parsed<Operand>)
    requires s != []
    ensures r.Parsed? ==> |r.rest| < |s|
  {
    if |s| < 2 || s[1] != TLParen then Failed(SyntaxError)
    else if |s| < 3 || !s[2].TInt? then Failed(SyntaxError)
    else if |s| < 4 || s[3] != TComma then Failed(SyntaxError)
    else if |s| < 5 || !s[4].TUnit? || s[4].unit.None? then Failed(UnsupportedConstruct)
    else if |s| < 6 || s[5] != TRParen then Failed(SyntaxError)
    else Parsed(DurationLiteral(s[2].i, s[4].unit.value), s[6..])
  }

  predicate StartsArithmetic(s: seq<Token>) {
    s != [] && (s[0] == TPlus || s[0] == TMinus)
  }

  function ParseArithmeticRhs(s: seq<Token>): (r: Parsed<Operand>)
    ensures r.Parsed? ==> |r.rest| < |s|
  {
    if s != [] && s[0] == TWord(WDurationValue) then ParseDuration(s) else ParseBase(s)
  }

  function ParseOperand(s: seq<Token>): (r: Parsed<Operand>)
    ensures r.Parsed? ==> |r.rest| < |s|
  {
    match ParseBase(s)
    case Failed(k) => Failed(k)
    case Parsed(base, s1) => ParseOperandTail(base, s1)
  }

  /** At most one `+`/`-` and its right side after `base`. */
  function ParseOperandTail(base: Operand, s: seq<Token>): (r: Parsed<Operand>)
    ensures r.Parsed? ==> |r.rest| <= |s|
  {
    if !StartsArithmetic(s) then Parsed(base, s) else
    match ParseArithmeticRhs(s[1..])
    case Failed(k) => Failed(k)
    case Parsed(right, s1) =>
      if StartsArithmetic(s1) then Failed(UnsupportedConstruct)
      else Parsed(Arithmetic(base, if s[0] == TPlus then Add else Sub, right), s1)
  }

  /** The items of a list literal after its opening bracket and `items`. */
  function ParseItems(items: seq<Operand>, s: seq<Token>): (r: Parsed<Operand>)
    ensures r.Parsed? ==> |r.rest| < |s|
    decreases |s|
  {
    match ParseOperand(s)
    case Failed(k) => Failed(k)
    case Parsed(o, s1) =>
      if s1 == [] then Failed(SyntaxError)
      else if s1[0] == TComma then ParseItems(items + [o], s1[1..])
      else if s1[0] == TRBracket then Parsed(ListLiteral(items + [o]), s1[1..])
      else Failed(SyntaxError)
  }

  function ParseList(s: seq<Token>): (r: Parsed<Operand>)
    ensures r.Parsed? ==> |r.rest| < |s|
  {
    if s == [] || s[0] != TLBracket then Failed(SyntaxError)
    else if |s| > 1 && s[1] == TRBracket then Parsed(ListLiteral([]), s[2..])
    else ParseItems([], s[1..])
  }

  function ParseComparison(s: seq<Token>): (r: Parsed<Condition>)
    ensures r.Parsed? ==> |r.rest| < |s|
  {
    match ParseOperand(s)
    case Failed(k) => Failed(k)
    case Parsed(left, s1) =>
      if s1 != [] && s1[0] == TWord(WIn) then
        if |s1| < 2 || s1[1] != TLBracket then Failed(UnsupportedConstruct) else
        match ParseList(s1[1..])
        case Failed(k) => Failed(k)
        case Parsed(list, s2) => Parsed(In(left, list), s2)
      else if s1 == [] || !s1[0].TCompare? then Failed(SyntaxError) else
      match ParseOperand(s1[1..])
      case Failed(k) => Failed(k)
      case Parsed(right, s2) => Parsed(Compare(left, s1[0].op, right), s2)
  }

  function ParsePrimary(s: seq<Token>, calls: Calls): (r: Parsed<Condition>)
    ensures r.Parsed? ==> |r.rest| < |s|
    decreases |s|, 0
  {
    if s == [] then Failed(SyntaxError) else
    match s[0]
    case TLParen =>
      (match ParseOr(s[1..], calls)
       case Failed(k) => Failed(k)
       case Parsed(c, s1) =>
         if s1 != [] && s1[0] == TRParen then Parsed(c, s1[1..]) else Failed(SyntaxError))
    case TWord(w) =>
      if w == WTrue then Parsed(Literal(true), s[1..])
      else if w == WFalse then Parsed(Literal(false), s[1..])
      else ParseComparison(s)
    case TExists(_) =>
      (match ParseBase(s)
       case Failed(k) => Failed(k)
       case Parsed(o, s1) => Parsed(Compare(o, Eq, BoolLiteral(true)), s1))
    case TGet(_, _) => ParseComparison(s)
    case TCall(f) => if f in calls then Parsed(calls[f], s[1..]) else Failed(UnsupportedConstruct)
    case _ => Failed(SyntaxError)
  }

  function ParseUnary(s: seq<Token>, calls: Calls): (r: Parsed<Condition>)
    ensures r.Parsed? ==> |r.rest| < |s|
    decreases |s|, 1
  {
    if s != [] && s[0] == TNot then
      match ParseUnary(s[1..], calls)
      case Failed(k) => Failed(k)
      case Parsed(c, s1) => Parsed(Not(c), s1)
    else ParsePrimary(s, calls)
  }

  /** The `&& unary` repetitions after `left`. */
  function AndTail(left: Condition, s: seq<Token>, calls: Calls): (r: Parsed<Condition>)
    ensures r.Parsed? ==> |r.rest| <= |s|
    decreases |s|, 2
  {
    if s == [] || s[0] != TAnd then Parsed(left, s) else
    match ParseUnary(s[1..], calls)
    case Failed(k) => Failed(k)
    case Parsed(right, s1) => AndTail(And(left, right), s1, calls)
  }

  function ParseAnd(s: seq<Token>, calls: Calls): (r: Parsed<Condition>)
    ensures r.Parsed? ==> |r.rest| < |s|
    decreases |s|, 3
  {
    match ParseUnary(s, calls)
    case Failed(k) => Failed(k)
    case Parsed(left, s1) => AndTail(left, s1, calls)
  }

  /** The `|| and_expr` repetitions after `left`. */
  function OrTail(left: Condition, s: seq<Token>, calls: Calls): (r: Parsed<Condition>)
    ensures r.Parsed? ==> |r.rest| <= |s|
    decreases |s|, 4
  {
    if s == [] || s[0] != TOr then Parsed(left, s) else
    match ParseAnd(s[1..], calls)
    case Failed(k) => Failed(k)
    case Parsed(right, s1) => OrTail(Or(left, right), s1, calls)
  }

  function ParseOr(s: seq<Token>, calls: Calls): (r: Parsed<Condition>)
    ensures r.Parsed? ==> |r.rest| < |s|
    decreases |s|, 5
  {
    match ParseAnd(s, calls)
    case Failed(k) => Failed(k)
    case Parsed(left, s1) => OrTail(left, s1, calls)
  }

  /** The whole stream as one condition. */
  function ParseAll(s: seq<Token>, calls: Calls): Result<Condition, ErrorKind> {
    match ParseOr(s, calls)
    case Failed(k) => Err(k)
    case Parsed(c, rest) => if rest == [] then Ok(c) else Err(SyntaxError)
  }

  predicate IsCall(t: Token) { t.TCall? }

  /** `parse_condition`: call-shaped identifiers are refused before parsing. */
  function ParseCondition(s: seq<Token>): Result<Condition, ErrorKind> {
    if exists i :: 0 <= i < |s| && IsCall(s[i]) then Err(UnsupportedConstruct)
    else ParseAll(s, NO_CALLS)
  }
}
