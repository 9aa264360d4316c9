/** The condition grammar, stated independently of the parser as concrete
    syntax trees with the tokens they spell and the conditions they denote.
    The parser is proved to accept exactly this grammar, and to invert the
    printer on every condition it can produce. */
module Grammar {
  import opened Values
  import opened Conditions
  import opened ConditionParser

  // ----- Operands -----

  predicate IsBase(o: Operand) {
    !o.ListLiteral? && !o.Arithmetic? && !o.DurationLiteral?
  }

  predicate IsOperand(o: Operand) {
    IsBase(o) ||
    (o.Arithmetic? && IsBase(o.left) && (IsBase(o.right) || o.right.DurationLiteral?))
  }

  /** Bases that may open a comparison: a word other than `true`/`false`, or `get(...)`. */
  predicate OpensComparison(o: Operand) {
    OpensBase(if o.Arithmetic? then o.left else o)
  }

  predicate OpensBase(o: Operand) {
    IsReference(o) || o.CrossDocumentGet?
  }

  function SpellBase(o: Operand): Token {
    match o
    case BoolLiteral(b) => TWord(if b then WTrue else WFalse)
    case StringLiteral(s) => TString(s)
    case IntLiteral(i) => TInt(i)
    case DoubleLiteral(d) => TDouble(d)
    case CrossDocumentExists(t) => TExists(Ok(t))
    case CrossDocumentGet(t, f) => TGet(Ok(t), f)
    case _ => TWord(if IsReference(o) then WReference(o) else WUnrecognized)
  }

  function SpellRhs(o: Operand): seq<Token> {
    if o.DurationLiteral? then
      [TWord(WDurationValue), TLParen, TInt(o.amount), TComma, TUnit(Some(o.unit)), TRParen]
    else [SpellBase(o)]
  }

  function Spell(o: Operand): seq<Token> {
    if o.Arithmetic? then
      [SpellBase(o.left), if o.aop == Add then TPlus else TMinus] + SpellRhs(o.right)
    else [SpellBase(o)]
  }

  function SpellItems(items: seq<Operand>): seq<Token> {
    if |items| == 0 then []
    else if |items| == 1 then Spell(items[0])
    else Spell(items[0]) + [TComma] + SpellItems(items[1..])
  }

  // ----- Conditions -----

  datatype Syntax =
    | OrS(l: Syntax, r: Syntax)
    | AndS(l: Syntax, r: Syntax)
    | NotS(x: Syntax)
    | ParenS(x: Syntax)
    | LiteralS(b: bool)
    | ExistsS(template: PathTemplate)
    | CompareS(left: Operand, op: CompareOp, right: Operand)
    | InS(item: Operand, items: seq<Operand>)
    | CallS(name: string)

  const OR_LEVEL: nat := 3
  const AND_LEVEL: nat := 2
  const UNARY_LEVEL: nat := 1
  const PRIMARY_LEVEL: nat := 0

  /** `x` is a tree of the grammar at precedence `level`: `||` binds weakest and
      `&&` next, both to the left; `!` applies to a unary; parentheses restart. */
  predicate Valid(x: Syntax, level: nat, calls: Calls) {
    match x
    case OrS(l, r) => level >= OR_LEVEL && Valid(l, OR_LEVEL, calls) && Valid(r, AND_LEVEL, calls)
    case AndS(l, r) => level >= AND_LEVEL && Valid(l, AND_LEVEL, calls) && Valid(r, UNARY_LEVEL, calls)
    case NotS(y) => level >= UNARY_LEVEL && Valid(y, UNARY_LEVEL, calls)
    case ParenS(y) => Valid(y, OR_LEVEL, calls)
    case LiteralS(_) => true
    case ExistsS(_) => true
    case CompareS(l, _, r) => OpensComparison(l) && IsOperand(l) && IsOperand(r)
    case InS(l, items) => OpensComparison(l) && IsOperand(l) && forall o <- items :: IsOperand(o)
    case CallS(f) => f in calls
  }

  function Yield(x: Syntax): seq<Token> {
    match x
    case OrS(l, r) => Yield(l) + ([TOr] + Yield(r))
    case AndS(l, r) => Yield(l) + ([TAnd] + Yield(r))
    case NotS(y) => [TNot] + Yield(y)
    case ParenS(y) => [TLParen] + (Yield(y) + [TRParen])
    case LiteralS(b) => [TWord(if b then WTrue else WFalse)]
    case ExistsS(t) => [TExists(Ok(t))]
    case CompareS(l, op, r) => Spell(l) + ([TCompare(op)] + Spell(r))
    case InS(l, items) => Spell(l) + ([TWord(WIn), TLBracket] + (SpellItems(items) + [TRBracket]))
    case CallS(f) => [TCall(f)]
  }

  function Denote(x: Syntax, calls: Calls): Condition
    requires exists level: nat :: Valid(x, level, calls)
  {
    match x
    case OrS(l, r) =>
      assert Valid(l, OR_LEVEL, calls) && Valid(r, AND_LEVEL, calls);
      Or(Denote(l, calls), Denote(r, calls))
    case AndS(l, r) =>
      assert Valid(l, AND_LEVEL, calls) && Valid(r, UNARY_LEVEL, calls);
      And(Denote(l, calls), Denote(r, calls))
    case NotS(y) => assert Valid(y, UNARY_LEVEL, calls); Not(Denote(y, calls))
    case ParenS(y) => assert Valid(y, OR_LEVEL, calls); Denote(y, calls)
    case LiteralS(b) => Literal(b)
    case ExistsS(t) => Compare(CrossDocumentExists(t), Eq, BoolLiteral(true))
    case CompareS(l, op, r) => Compare(l, op, r)
    case InS(l, items) => In(l, ListLiteral(items))
    case CallS(f) => calls[f]
  }

  // ----- The parser accepts every tree of the grammar -----

  lemma BaseComplete(o: Operand, rest: seq<Token>)
    requires IsBase(o)
    ensures ParseBase([SpellBase(o)] + rest) == Parsed(o, rest)
  {
    assert ([SpellBase(o)] + rest)[1..] == rest;
  }

  lemma RhsComplete(o: Operand, rest: seq<Token>)
    requires IsBase(o) || o.DurationLiteral?
    ensures ParseArithmeticRhs(SpellRhs(o) + rest) == Parsed(o, rest)
  {
    if o.DurationLiteral? {
      assert (SpellRhs(o) + rest)[6..] == rest;
    } else {
      BaseComplete(o, rest);
    }
  }

  lemma OperandComplete(o: Operand, rest: seq<Token>)
    requires IsOperand(o) && !StartsArithmetic(rest)
    ensures ParseOperand(Spell(o) + rest) == Parsed(o, rest)
  {
    if o.Arithmetic? {
      var sign := if o.aop == Add then TPlus else TMinus;
      var s1 := [sign] + (SpellRhs(o.right) + rest);
      assert Spell(o) + rest == [SpellBase(o.left)] + s1;
      BaseComplete(o.left, s1);
      assert s1[1..] == SpellRhs(o.right) + rest;
      RhsComplete(o.right, rest);
    } else {
      BaseComplete(o, rest);
    }
  }

  lemma ItemThenComma(done: seq<Operand>, o: Operand, s: seq<Token>)
    requires IsOperand(o)
    ensures ParseItems(done, Spell(o) + ([TComma] + s)) == ParseItems(done + [o], s)
  {
    OperandComplete(o, [TComma] + s);
    assert ([TComma] + s)[1..] == s;
  }

  lemma ItemThenClose(done: seq<Operand>, o: Operand, rest: seq<Token>)
    requires IsOperand(o)
    ensures ParseItems(done, Spell(o) + ([TRBracket] + rest)) == Parsed(ListLiteral(done + [o]), rest)
  {
    OperandComplete(o, [TRBracket] + rest);
    assert ([TRBracket] + rest)[1..] == rest;
  }

  lemma {:induction false} ItemsComplete(done: seq<Operand>, items: seq<Operand>, rest: seq<Token>)
    requires items != [] && forall o <- items :: IsOperand(o)
    ensures ParseItems(done, SpellItems(items) + ([TRBracket] + rest))
         == Parsed(ListLiteral(done + items), rest)
    decreases |items|
  {
    var o, more := items[0], items[1..];
    var close := [TRBracket] + rest;
    if more == [] {
      ItemThenClose(done, o, rest);
      assert items == [o];
    } else {
      SpellItemsCons(o, more, close);
      assert items == [o] + more && done + items == (done + [o]) + more;
      ItemThenComma(done, o, SpellItems(more) + close);
      ItemsComplete(done + [o], more, rest);
    }
  }

  lemma SpellItemsOpens(items: seq<Operand>)
    requires items != [] && forall o <- items :: IsOperand(o)
    ensures SpellItems(items) != [] && SpellItems(items)[0] != TRBracket
  {
    assert SpellItems(items)[0] == Spell(items[0])[0];
  }

  lemma ListComplete(items: seq<Operand>, rest: seq<Token>)
    requires forall o <- items :: IsOperand(o)
    ensures ParseList([TLBracket] + (SpellItems(items) + ([TRBracket] + rest)))
         == Parsed(ListLiteral(items), rest)
  {
    var body := SpellItems(items) + ([TRBracket] + rest);
    var s := [TLBracket] + body;
    if items == [] {
      assert s[2..] == rest;
    } else {
      SpellItemsOpens(items);
      assert s[1..] == body && s[1] != TRBracket;
      ItemsComplete([], items, rest);
      assert [] + items == items;
    }
  }

  lemma CompareComplete(l: Operand, op: CompareOp, r: Operand, rest: seq<Token>)
    requires IsOperand(l) && IsOperand(r) && !StartsArithmetic(rest)
    ensures ParseComparison(Spell(l) + ([TCompare(op)] + (Spell(r) + rest)))
         == Parsed(Compare(l, op, r), rest)
  {
    var s1 := [TCompare(op)] + (Spell(r) + rest);
    OperandComplete(l, s1);
    assert s1[1..] == Spell(r) + rest;
    OperandComplete(r, rest);
  }

  lemma InComplete(l: Operand, items: seq<Operand>, rest: seq<Token>)
    requires IsOperand(l) && forall o <- items :: IsOperand(o)
    ensures ParseComparison(Spell(l) + ([TWord(WIn)] + ([TLBracket] + (SpellItems(items) + ([TRBracket] + rest)))))
         == Parsed(In(l, ListLiteral(items)), rest)
  {
    var list := [TLBracket] + (SpellItems(items) + ([TRBracket] + rest));
    OperandComplete(l, [TWord(WIn)] + list);
    assert ([TWord(WIn)] + list)[1..] == list;
    ListComplete(items, rest);
  }

  lemma InBrackets(a: seq<Token>, b: seq<Token>, rest: seq<Token>)
    ensures (a + ([TWord(WIn), TLBracket] + (b + [TRBracket]))) + rest
         == a + ([TWord(WIn)] + ([TLBracket] + (b + ([TRBracket] + rest))))
  {
  }

  lemma InParentheses(b: seq<Token>, rest: seq<Token>)
    ensures ([TLParen] + (b + [TRParen])) + rest == [TLParen] + (b + ([TRParen] + rest))
    ensures ([TLParen] + (b + ([TRParen] + rest)))[1..] == b + ([TRParen] + rest) && ([TRParen] + rest)[1..] == rest
  {
  }

  lemma ComparisonComplete(x: Syntax, rest: seq<Token>, calls: Calls)
    requires x.CompareS? || x.InS?
    requires Valid(x, PRIMARY_LEVEL, calls) && !StartsArithmetic(rest)
    ensures ParseComparison(Yield(x) + rest) == Parsed(Denote(x, calls), rest)
  {
    match x
    case CompareS(l, op, r) =>
      assert Yield(x) + rest == Spell(l) + ([TCompare(op)] + (Spell(r) + rest));
      CompareComplete(l, op, r, rest);
    case InS(l, items) =>
      InBrackets(Spell(l), SpellItems(items), rest);
      InComplete(l, items, rest);
  }

  predicate OpensToken(t: Token) {
    (t.TWord? && t.word != WTrue && t.word != WFalse) || t.TGet?
  }

  lemma ComparisonOpens(x: Syntax, calls: Calls)
    requires x.CompareS? || x.InS?
    requires Valid(x, PRIMARY_LEVEL, calls)
    ensures Yield(x) != [] && OpensToken(Yield(x)[0])
  {
    var left := if x.CompareS? then x.left else x.item;
    assert Yield(x)[0] == Spell(left)[0];
  }

  lemma LeafComplete(x: Syntax, rest: seq<Token>, calls: Calls)
    requires x.LiteralS? || x.ExistsS? || x.CallS?
    requires Valid(x, PRIMARY_LEVEL, calls)
    ensures ParsePrimary(Yield(x) + rest, calls) == Parsed(Denote(x, calls), rest)
  {
    assert (Yield(x) + rest)[1..] == rest;
  }

  lemma ParenComplete(y: Syntax, c: Condition, rest: seq<Token>, calls: Calls)
    requires ParseOr(Yield(y) + ([TRParen] + rest), calls) == Parsed(c, [TRParen] + rest)
    ensures ParsePrimary(Yield(ParenS(y)) + rest, calls) == Parsed(c, rest)
  {
    InParentheses(Yield(y), rest);
  }

  lemma ComparisonIsPrimary(x: Syntax, rest: seq<Token>, calls: Calls)
    requires x.CompareS? || x.InS?
    requires Valid(x, PRIMARY_LEVEL, calls) && !StartsArithmetic(rest)
    ensures ParsePrimary(Yield(x) + rest, calls) == Parsed(Denote(x, calls), rest)
  {
    ComparisonOpens(x, calls);
    var s := Yield(x) + rest;
    assert s[0] == Yield(x)[0];
    assert ParsePrimary(s, calls) == ParseComparison(s);
    ComparisonComplete(x, rest, calls);
  }

  lemma {:induction false} PrimaryComplete(x: Syntax, rest: seq<Token>, calls: Calls)
    requires Valid(x, PRIMARY_LEVEL, calls) && !StartsArithmetic(rest)
    ensures ParsePrimary(Yield(x) + rest, calls) == Parsed(Denote(x, calls), rest)
    decreases x, PRIMARY_LEVEL
  {
    if x.ParenS? {
      OrComplete(x.x, [TRParen] + rest, calls);
      ParenComplete(x.x, Denote(x.x, calls), rest, calls);
    } else if x.CompareS? || x.InS? {
      ComparisonIsPrimary(x, rest, calls);
    } else {
      LeafComplete(x, rest, calls);
    }
  }

  lemma NotParses(body: seq<Token>, c: Condition, rest: seq<Token>, calls: Calls)
    requires ParseUnary(body, calls) == Parsed(c, rest)
    ensures ParseUnary([TNot] + body, calls) == Parsed(Not(c), rest)
  {
    assert ([TNot] + body)[1..] == body;
  }

  lemma NotSpells(y: Syntax, rest: seq<Token>)
    ensures Yield(NotS(y)) + rest == [TNot] + (Yield(y) + rest)
  {
  }

  lemma {:induction false} UnaryComplete(x: Syntax, rest: seq<Token>, calls: Calls)
    requires Valid(x, UNARY_LEVEL, calls) && !StartsArithmetic(rest)
    ensures ParseUnary(Yield(x) + rest, calls) == Parsed(Denote(x, calls), rest)
    decreases x, UNARY_LEVEL
  {
    if x.NotS? {
      UnaryComplete(x.x, rest, calls);
      NotParses(Yield(x.x) + rest, Denote(x.x, calls), rest, calls);
      NotSpells(x.x, rest);
    } else {
      PrimaryComplete(x, rest, calls);
    }
  }

  lemma YieldBinary(l: Syntax, t: Token, r: Syntax, rest: seq<Token>)
    ensures (Yield(l) + ([t] + Yield(r))) + rest == Yield(l) + ([t] + (Yield(r) + rest))
    ensures ([t] + (Yield(r) + rest))[1..] == Yield(r) + rest
  {
  }

  lemma {:induction false} AndComplete(x: Syntax, rest: seq<Token>, calls: Calls)
    requires Valid(x, AND_LEVEL, calls) && !StartsArithmetic(rest)
    ensures ParseAnd(Yield(x) + rest, calls) == AndTail(Denote(x, calls), rest, calls)
    decreases x, AND_LEVEL
  {
    if x.AndS? {
      YieldBinary(x.l, TAnd, x.r, rest);
      AndComplete(x.l, [TAnd] + (Yield(x.r) + rest), calls);
      UnaryComplete(x.r, rest, calls);
    } else {
      UnaryComplete(x, rest, calls);
    }
  }

  lemma {:induction false} OrComplete(x: Syntax, rest: seq<Token>, calls: Calls)
    requires Valid(x, OR_LEVEL, calls) && !StartsArithmetic(rest) && (rest == [] || rest[0] != TAnd)
    ensures ParseOr(Yield(x) + rest, calls) == OrTail(Denote(x, calls), rest, calls)
    decreases x, OR_LEVEL
  {
    if x.OrS? {
      YieldBinary(x.l, TOr, x.r, rest);
      OrComplete(x.l, [TOr] + (Yield(x.r) + rest), calls);
      AndComplete(x.r, rest, calls);
    } else {
      AndComplete(x, rest, calls);
    }
  }

  // ----- Everything the parser accepts is a tree of the grammar -----

  lemma BaseSound(s: seq<Token>)
    requires ParseBase(s).Parsed?
    ensures IsBase(ParseBase(s).value) && s == [SpellBase(ParseBase(s).value)] + ParseBase(s).rest
  {
    assert s == [s[0]] + s[1..];
  }

  lemma RhsSound(s: seq<Token>)
    requires ParseArithmeticRhs(s).Parsed?
    ensures var r := ParseArithmeticRhs(s);
      (IsBase(r.value) || r.value.DurationLiteral?) && s == SpellRhs(r.value) + r.rest
  {
    if s != [] && s[0] == TWord(WDurationValue) {
      assert s == s[..6] + s[6..];
    } else {
      BaseSound(s);
    }
  }

  lemma OperandTailSound(base: Operand, s: seq<Token>)
    requires IsBase(base) && ParseOperandTail(base, s).Parsed?
    ensures var r := ParseOperandTail(base, s);
      IsOperand(r.value) && !StartsArithmetic(r.rest) && [SpellBase(base)] + s == Spell(r.value) + r.rest
  {
    if StartsArithmetic(s) {
      RhsSound(s[1..]);
      assert s == [s[0]] + s[1..];
    }
  }

  lemma OperandSound(s: seq<Token>)
    requires ParseOperand(s).Parsed?
    ensures var r := ParseOperand(s);
      IsOperand(r.value) && !StartsArithmetic(r.rest) && s == Spell(r.value) + r.rest
  {
    BaseSound(s);
    OperandTailSound(ParseBase(s).value, ParseBase(s).rest);
  }

  lemma SpellItemsCons(o: Operand, more: seq<Operand>, s: seq<Token>)
    requires more != []
    ensures Spell(o) + ([TComma] + (SpellItems(more) + s)) == SpellItems([o] + more) + s
  {
    assert ([o] + more)[1..] == more;
  }

  /** One round of the item loop: an operand, then a comma or the bracket. */
  lemma ItemsStep(done: seq<Operand>, s: seq<Token>) returns (o: Operand, s2: seq<Token>, more: bool)
    requires ParseItems(done, s).Parsed?
    ensures IsOperand(o) && s == Spell(o) + ([if more then TComma else TRBracket] + s2)
    ensures ParseItems(done, s)
         == if more then ParseItems(done + [o], s2) else Parsed(ListLiteral(done + [o]), s2)
  {
    OperandSound(s);
    var Parsed(o', s1) := ParseOperand(s);
    o, s2, more := o', s1[1..], s1[0] == TComma;
    assert s1 == [s1[0]] + s2;
  }

  lemma SingleItem(o: Operand)
    ensures SpellItems([o]) == Spell(o)
  {
    assert [o][1..] == [];
  }

  lemma ItemsJoin(done: seq<Operand>, o: Operand, tail: seq<Operand>, s: seq<Token>, s2: seq<Token>, close: seq<Token>)
    requires IsOperand(o) && tail != [] && forall x <- tail :: IsOperand(x)
    requires s == Spell(o) + ([TComma] + s2) && s2 == SpellItems(tail) + close
    ensures s == SpellItems([o] + tail) + close && (done + [o]) + tail == done + ([o] + tail)
    ensures forall x <- [o] + tail :: IsOperand(x)
  {
    SpellItemsCons(o, tail, close);
  }

  lemma {:induction false} ItemsSound(done: seq<Operand>, s: seq<Token>) returns (items: seq<Operand>)
    requires ParseItems(done, s).Parsed?
    ensures items != [] && forall o <- items :: IsOperand(o)
    ensures ParseItems(done, s).value == ListLiteral(done + items)
    ensures s == SpellItems(items) + ([TRBracket] + ParseItems(done, s).rest)
    decreases |s|
  {
    var o, s2, more := ItemsStep(done, s);
    items := [o];
    if more {
      var tail := ItemsSound(done + [o], s2);
      ItemsJoin(done, o, tail, s, s2, [TRBracket] + ParseItems(done, s).rest);
      items := [o] + tail;
    } else {
      SingleItem(o);
    }
  }

  lemma ListSound(s: seq<Token>) returns (items: seq<Operand>)
    requires ParseList(s).Parsed?
    ensures ParseList(s).value == ListLiteral(items) && forall o <- items :: IsOperand(o)
    ensures s == [TLBracket] + (SpellItems(items) + ([TRBracket] + ParseList(s).rest))
  {
    if |s| > 1 && s[1] == TRBracket {
      items := [];
      assert s == [s[0], s[1]] + s[2..];
    } else {
      items := ItemsSound([], s[1..]);
      assert [] + items == items;
      assert s == [s[0]] + s[1..];
    }
  }

  lemma OpeningSound(s: seq<Token>)
    requires ParseOperand(s).Parsed?
    requires s != [] && OpensToken(s[0])
    ensures OpensComparison(ParseOperand(s).value)
  {
    OperandSound(s);
    var o := ParseOperand(s).value;
    assert s[0] == SpellBase(if o.Arithmetic? then o.left else o);
  }

  lemma InSound(left: Operand, s1: seq<Token>, s: seq<Token>) returns (items: seq<Operand>)
    requires ParseList(s).Parsed? && s1 == [TWord(WIn)] + s
    ensures ParseList(s).value == ListLiteral(items) && forall o <- items :: IsOperand(o)
    ensures Spell(left) + s1 == Yield(InS(left, items)) + ParseList(s).rest
  {
    items := ListSound(s);
    InBrackets(Spell(left), SpellItems(items), ParseList(s).rest);
  }

  lemma CompareSound(left: Operand, op: CompareOp, s1: seq<Token>, s: seq<Token>)
    requires ParseOperand(s).Parsed? && s1 == [TCompare(op)] + s
    ensures IsOperand(ParseOperand(s).value)
    ensures Spell(left) + s1 == Yield(CompareS(left, op, ParseOperand(s).value)) + ParseOperand(s).rest
  {
    OperandSound(s);
  }

  lemma ComparisonSound(s: seq<Token>, calls: Calls) returns (x: Syntax)
    requires ParseComparison(s).Parsed?
    requires s != [] && OpensToken(s[0])
    ensures Valid(x, PRIMARY_LEVEL, calls) && Denote(x, calls) == ParseComparison(s).value
    ensures s == Yield(x) + ParseComparison(s).rest
  {
    OpeningSound(s);
    OperandSound(s);
    var Parsed(left, s1) := ParseOperand(s);
    var tail := s1[1..];
    if s1[0] == TWord(WIn) {
      var items := InSound(left, s1, tail);
      x := InS(left, items);
    } else {
      CompareSound(left, s1[0].op, s1, tail);
      x := CompareS(left, s1[0].op, ParseOperand(tail).value);
    }
  }

  lemma LeafSound(s: seq<Token>, calls: Calls) returns (x: Syntax)
    requires ParsePrimary(s, calls).Parsed? && s[0] != TLParen && !OpensToken(s[0])
    ensures Valid(x, PRIMARY_LEVEL, calls) && Denote(x, calls) == ParsePrimary(s, calls).value
    ensures s == Yield(x) + ParsePrimary(s, calls).rest
  {
    assert s == [s[0]] + s[1..];
    match s[0]
    case TExists(p) => x := ExistsS(p.value);
    case TCall(f) => x := CallS(f);
    case TWord(w) => x := LiteralS(w == WTrue);
  }

  lemma {:induction false} PrimarySound(s: seq<Token>, calls: Calls) returns (x: Syntax)
    requires ParsePrimary(s, calls).Parsed?
    ensures Valid(x, PRIMARY_LEVEL, calls) && Denote(x, calls) == ParsePrimary(s, calls).value
    ensures s == Yield(x) + ParsePrimary(s, calls).rest
    decreases |s|, PRIMARY_LEVEL
  {
    if s[0] == TLParen {
      var y := OrSound(s[1..], calls);
      var s1 := ParseOr(s[1..], calls).rest;
      x := ParenS(y);
      assert s == Yield(x) + s1[1..] by { Enclosed(y, s, s1); }
    } else if OpensToken(s[0]) {
      x := ComparisonSound(s, calls);
    } else {
      x := LeafSound(s, calls);
    }
  }

  lemma Enclosed(y: Syntax, s: seq<Token>, s1: seq<Token>)
    requires s != [] && s[0] == TLParen && s[1..] == Yield(y) + s1
    requires s1 != [] && s1[0] == TRParen
    ensures s == Yield(ParenS(y)) + s1[1..]
  {
    assert s == [TLParen] + s[1..];
    assert s1 == [TRParen] + s1[1..];
  }

  lemma {:induction false} UnarySound(s: seq<Token>, calls: Calls) returns (x: Syntax)
    requires ParseUnary(s, calls).Parsed?
    ensures Valid(x, UNARY_LEVEL, calls) && Denote(x, calls) == ParseUnary(s, calls).value
    ensures s == Yield(x) + ParseUnary(s, calls).rest
    decreases |s|, UNARY_LEVEL
  {
    if s[0] == TNot {
      assert s == [TNot] + s[1..];
      var y := UnarySound(s[1..], calls);
      x := NotS(y);
      NotSpells(y, ParseUnary(s[1..], calls).rest);
    } else {
      x := PrimarySound(s, calls);
    }
  }

  lemma Grown(left: Syntax, t: Token, right: Syntax, s: seq<Token>, s1: seq<Token>)
    requires s != [] && s[0] == t && s[1..] == Yield(right) + s1
    ensures Yield(left) + s == (Yield(left) + ([t] + Yield(right))) + s1
  {
    assert s == [t] + s[1..];
  }

  lemma {:induction false} AndTailSound(left: Syntax, s: seq<Token>, calls: Calls) returns (x: Syntax)
    requires Valid(left, AND_LEVEL, calls) && AndTail(Denote(left, calls), s, calls).Parsed?
    ensures var r := AndTail(Denote(left, calls), s, calls);
      Valid(x, AND_LEVEL, calls) && Denote(x, calls) == r.value && Yield(left) + s == Yield(x) + r.rest
    decreases |s|, AND_LEVEL
  {
    if s != [] && s[0] == TAnd {
      var right := UnarySound(s[1..], calls);
      var grown := AndS(left, right);
      var s1 := ParseUnary(s[1..], calls).rest;
      assert Valid(grown, AND_LEVEL, calls);
      assert Yield(left) + s == Yield(grown) + s1 by { Grown(left, TAnd, right, s, s1); }
      x := AndTailSound(grown, s1, calls);
    } else {
      x := left;
    }
  }

  lemma {:induction false} AndSound(s: seq<Token>, calls: Calls) returns (x: Syntax)
    requires ParseAnd(s, calls).Parsed?
    ensures Valid(x, AND_LEVEL, calls) && Denote(x, calls) == ParseAnd(s, calls).value
    ensures s == Yield(x) + ParseAnd(s, calls).rest
    decreases |s|, AND_LEVEL + 1
  {
    var left := UnarySound(s, calls);
    assert Valid(left, AND_LEVEL, calls);
    x := AndTailSound(left, ParseUnary(s, calls).rest, calls);
  }

  lemma {:induction false} OrTailSound(left: Syntax, s: seq<Token>, calls: Calls) returns (x: Syntax)
    requires Valid(left, OR_LEVEL, calls) && OrTail(Denote(left, calls), s, calls).Parsed?
    ensures var r := OrTail(Denote(left, calls), s, calls);
      Valid(x, OR_LEVEL, calls) && Denote(x, calls) == r.value && Yield(left) + s == Yield(x) + r.rest
    decreases |s|, OR_LEVEL + 1
  {
    if s != [] && s[0] == TOr {
      var right := AndSound(s[1..], calls);
      var grown := OrS(left, right);
      var s1 := ParseAnd(s[1..], calls).rest;
      assert Valid(grown, OR_LEVEL, calls);
      assert Yield(left) + s == Yield(grown) + s1 by { Grown(left, TOr, right, s, s1); }
      x := OrTailSound(grown, s1, calls);
    } else {
      x := left;
    }
  }

  lemma {:induction false} OrSound(s: seq<Token>, calls: Calls) returns (x: Syntax)
    requires ParseOr(s, calls).Parsed?
    ensures Valid(x, OR_LEVEL, calls) && Denote(x, calls) == ParseOr(s, calls).value
    ensures s == Yield(x) + ParseOr(s, calls).rest
    decreases |s|, OR_LEVEL + 2
  {
    var left := AndSound(s, calls);
    assert Valid(left, OR_LEVEL, calls);
    x := OrTailSound(left, ParseAnd(s, calls).rest, calls);
  }

  // ----- Exactness -----

  ghost predicate Derives(s: seq<Token>, c: Condition, calls: Calls) {
    exists x :: Valid(x, OR_LEVEL, calls) && Yield(x) == s && Denote(x, calls) == c
  }

  /** The parser accepts exactly the token streams of the grammar, with the
      condition their tree denotes; so the grammar is unambiguous. */
  lemma ParserIsGrammar(s: seq<Token>, c: Condition, calls: Calls)
    ensures ParseAll(s, calls) == Ok(c) <==> Derives(s, c, calls)
  {
    if ParseAll(s, calls) == Ok(c) {
      var x := OrSound(s, calls);
      assert Yield(x) + [] == Yield(x);
    }
    if Derives(s, c, calls) {
      var x :| Valid(x, OR_LEVEL, calls) && Yield(x) == s && Denote(x, calls) == c;
      OrComplete(x, [], calls);
      assert s + [] == s;
    }
  }

  // ----- Printing -----

  /** The shapes the parser can build. */
  predicate WellFormed(c: Condition) {
    match c
    case Literal(_) => true
    case Not(c0) => WellFormed(c0)
    case And(c0, c1) => WellFormed(c0) && WellFormed(c1)
    case Or(c0, c1) => WellFormed(c0) && WellFormed(c1)
    case Compare(l, op, r) =>
      (OpensComparison(l) && IsOperand(l) && IsOperand(r)) ||
      (l.CrossDocumentExists? && op == Eq && r == BoolLiteral(true))
    case In(l, list) =>
      OpensComparison(l) && IsOperand(l) && list.ListLiteral? && forall o <- list.items :: IsOperand(o)
  }

  function Tree(c: Condition): Syntax
    requires WellFormed(c)
    decreases c, 0
  {
    match c
    case Literal(b) => LiteralS(b)
    case Not(c0) => NotS(At(c0, UNARY_LEVEL))
    case And(c0, c1) => AndS(At(c0, AND_LEVEL), At(c1, UNARY_LEVEL))
    case Or(c0, c1) => OrS(At(c0, OR_LEVEL), At(c1, AND_LEVEL))
    case Compare(l, op, r) => if l.CrossDocumentExists? then ExistsS(l.template) else CompareS(l, op, r)
    case In(l, list) => InS(l, list.items)
  }

  /** The tree of `c`, parenthesized when it binds too weakly for `level`. */
  function At(c: Condition, level: nat): Syntax
    requires WellFormed(c)
    decreases c, 1
  {
    if Needs(c) <= level then Tree(c) else ParenS(Tree(c))
  }

  /** The tightest level at which `c` stands without parentheses. */
  function Needs(c: Condition): nat {
    if c.Or? then OR_LEVEL else if c.And? then AND_LEVEL else if c.Not? then UNARY_LEVEL else PRIMARY_LEVEL
  }

  function Print(c: Condition): seq<Token>
    requires WellFormed(c)
  {
    Yield(Tree(c))
  }

  lemma ValidAbove(x: Syntax, low: nat, high: nat)
    requires Valid(x, low, NO_CALLS) && low <= high
    ensures Valid(x, high, NO_CALLS)
  {
  }

  lemma {:induction false} TreeDenotes(c: Condition)
    requires WellFormed(c)
    ensures Valid(Tree(c), Needs(c), NO_CALLS) && Denote(Tree(c), NO_CALLS) == c
    decreases c, 0
  {
    match c
    case Not(c0) => AtDenotes(c0, UNARY_LEVEL);
    case And(c0, c1) => AtDenotes(c0, AND_LEVEL); AtDenotes(c1, UNARY_LEVEL);
    case Or(c0, c1) => AtDenotes(c0, OR_LEVEL); AtDenotes(c1, AND_LEVEL);
    case _ =>
  }

  lemma {:induction false} AtDenotes(c: Condition, level: nat)
    requires WellFormed(c)
    ensures Valid(At(c, level), level, NO_CALLS) && Denote(At(c, level), NO_CALLS) == c
    decreases c, 1
  {
    TreeDenotes(c);
    ValidAbove(Tree(c), Needs(c), if Needs(c) <= level then level else OR_LEVEL);
  }

  predicate NoCall(s: seq<Token>) {
    forall t <- s :: !IsCall(t)
  }

  lemma NoCallConcat(s: seq<Token>, t: seq<Token>)
    requires NoCall(s) && NoCall(t)
    ensures NoCall(s + t)
  {}

  lemma SpellsNoCall(o: Operand)
    ensures NoCall(Spell(o))
  {
    if o.Arithmetic? { NoCallConcat(Spell(o)[..2], SpellRhs(o.right)); }
  }

  lemma {:induction false} ItemsSpellNoCall(items: seq<Operand>)
    ensures NoCall(SpellItems(items))
  {
    if items != [] {
      SpellsNoCall(items[0]);
      ItemsSpellNoCall(items[1..]);
      NoCallConcat(Spell(items[0]), [TComma]);
      NoCallConcat(Spell(items[0]) + [TComma], SpellItems(items[1..]));
    }
  }

  lemma ComparisonSpellsNoCall(x: Syntax)
    requires x.CompareS? || x.InS?
    ensures NoCall(Yield(x))
  {
    if x.InS? {
      var list := SpellItems(x.items) + [TRBracket];
      SpellsNoCall(x.item);
      ItemsSpellNoCall(x.items);
      NoCallConcat(SpellItems(x.items), [TRBracket]);
      NoCallConcat([TWord(WIn), TLBracket], list);
      NoCallConcat(Spell(x.item), [TWord(WIn), TLBracket] + list);
    } else {
      SpellsNoCall(x.left);
      SpellsNoCall(x.right);
      NoCallConcat([TCompare(x.op)], Spell(x.right));
      NoCallConcat(Spell(x.left), [TCompare(x.op)] + Spell(x.right));
    }
  }

  lemma {:induction false} YieldsNoCall(x: Syntax, level: nat)
    requires Valid(x, level, NO_CALLS)
    ensures NoCall(Yield(x))
  {
    match x
    case OrS(l, r) => YieldsNoCall(l, OR_LEVEL); YieldsNoCall(r, AND_LEVEL);
    case AndS(l, r) => YieldsNoCall(l, AND_LEVEL); YieldsNoCall(r, UNARY_LEVEL);
    case NotS(y) => YieldsNoCall(y, UNARY_LEVEL);
    case ParenS(y) => YieldsNoCall(y, OR_LEVEL);
    case CompareS(_, _, _) => ComparisonSpellsNoCall(x);
    case InS(_, _) => ComparisonSpellsNoCall(x);
    case _ =>
  }

  /** Parsing inverts printing on every well-formed condition. */
  lemma ParseInvertsPrint(c: Condition)
    requires WellFormed(c)
    ensures ParseCondition(Print(c)) == Ok(c)
  {
    TreeDenotes(c);
    YieldsNoCall(Tree(c), OR_LEVEL);
    assert Derives(Print(c), c, NO_CALLS);
    ParserIsGrammar(Print(c), c, NO_CALLS);
  }

  lemma {:induction false} DenotesWellFormed(x: Syntax, level: nat)
    requires Valid(x, level, NO_CALLS)
    ensures WellFormed(Denote(x, NO_CALLS))
  {
    match x
    case OrS(l, r) => DenotesWellFormed(l, OR_LEVEL); DenotesWellFormed(r, AND_LEVEL);
    case AndS(l, r) => DenotesWellFormed(l, AND_LEVEL); DenotesWellFormed(r, UNARY_LEVEL);
    case NotS(y) => DenotesWellFormed(y, UNARY_LEVEL);
    case ParenS(y) => DenotesWellFormed(y, OR_LEVEL);
    case _ =>
  }

  /** The parser's possible results are exactly the well-formed conditions. */
  lemma ParserImage(c: Condition)
    ensures WellFormed(c) <==> exists s :: ParseCondition(s) == Ok(c)
  {
    if WellFormed(c) { ParseInvertsPrint(c); }
    if s :| ParseCondition(s) == Ok(c) {
      ParserIsGrammar(s, c, NO_CALLS);
      var x :| Valid(x, OR_LEVEL, NO_CALLS) && Yield(x) == s && Denote(x, NO_CALLS) == c;
      DenotesWellFormed(x, OR_LEVEL);
    }
  }

  // ----- What is refused as unsupported -----

  /** A second `+` or `-` in one operand is unsupported. */
  lemma SecondSignUnsupported(o: Operand, rest: seq<Token>)
    requires o.Arithmetic? && IsOperand(o) && StartsArithmetic(rest)
    ensures ParseOperand(Spell(o) + rest) == Failed(UnsupportedConstruct)
  {
    var sign := if o.aop == Add then TPlus else TMinus;
    var s1 := [sign] + (SpellRhs(o.right) + rest);
    assert Spell(o) + rest == [SpellBase(o.left)] + s1;
    BaseComplete(o.left, s1);
    assert s1[1..] == SpellRhs(o.right) + rest;
    RhsComplete(o.right, rest);
  }

  /** `in` before anything but a list is unsupported. */
  lemma InNeedsList(o: Operand, rest: seq<Token>)
    requires IsOperand(o) && (rest == [] || rest[0] != TLBracket)
    ensures ParseComparison(Spell(o) + ([TWord(WIn)] + rest)) == Failed(UnsupportedConstruct)
  {
    var s1 := [TWord(WIn)] + rest;
    OperandComplete(o, s1);
    assert s1[0] == TWord(WIn) && (rest != [] ==> s1[1] == rest[0]);
  }

  /** A duration without a known unit is unsupported. */
  lemma DurationNeedsUnit(amount: int, rest: seq<Token>)
    requires rest == [] || !rest[0].TUnit? || rest[0].unit.None?
    ensures ParseArithmeticRhs([TWord(WDurationValue), TLParen, TInt(amount), TComma] + rest) ==
      Failed(UnsupportedConstruct)
  {
    var s := [TWord(WDurationValue), TLParen, TInt(amount), TComma] + rest;
    assert rest != [] ==> s[4] == rest[0];
  }

  /** A call that was not expanded is unsupported, wherever it stands. */
  lemma CallsUnsupported(s: seq<Token>, i: nat)
    requires i < |s| && s[i].TCall?
    ensures ParseCondition(s) == Err(UnsupportedConstruct)
    ensures ParsePrimary(s[i..], NO_CALLS) == Failed(UnsupportedConstruct)
  {
    assert IsCall(s[i]) && s[i..][0] == s[i];
  }
}
