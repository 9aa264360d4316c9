/** The parser as the source runs it: a cursor advancing over a token vector
    (access_control/mod.rs). Every production leaves the cursor after exactly
    the tokens, and returns exactly the tree or error, that module
    `ConditionParser` specifies. */
module TokenParser {
  import opened Values
  import opened Conditions
  import Spec = ConditionParser

  class Parser {
    const tokens: seq<Token>
    var pos: nat

    constructor (tokens: seq<Token>)
      ensures this.tokens == tokens && pos == 0
    {
      this.tokens := tokens;
      pos := 0;
    }

    ghost predicate Valid()
      reads this
    {
      pos <= |tokens|
    }

    ghost function Rest(): seq<Token>
      requires Valid()
      reads this
    {
      tokens[pos..]
    }

    /** The cursor and the returned value are what the specification parsed. */
    ghost predicate Agrees<T>(r: Result<T, ErrorKind>, spec: Spec.Parsed<T>)
      reads this
    {
      match spec
      case Parsed(value, rest) => r == Ok(value) && Valid() && Rest() == rest
      case Failed(kind) => r == Err(kind)
    }

    function Peek(): (t: Option<Token>)
      requires Valid()
      reads this
      ensures t == if Rest() == [] then None else Some(Rest()[0])
    {
      if pos < |tokens| then Some(tokens[pos]) else None
    }

    method Advance() returns (t: Option<Token>)
      requires Valid()
      modifies this
      ensures Valid() && t == old(Peek())
      ensures Rest() == if t.None? then old(Rest()) else old(Rest())[1..]
    {
      t := Peek();
      if t.Some? { pos := pos + 1; }
    }

    method ParseOr() returns (r: Result<Condition, ErrorKind>)
      requires Valid()
      modifies this
      ensures Valid() && Agrees(r, Spec.ParseOr(old(Rest()), Spec.NO_CALLS))
      decreases |tokens| - pos, 5
    {
      r := ParseAnd();
      if r.Err? { return; }
      while Peek() == Some(TOr)
        invariant Valid() && r.Ok? && |Rest()| < |old(Rest())|
        invariant Spec.ParseOr(old(Rest()), Spec.NO_CALLS) == Spec.OrTail(r.value, Rest(), Spec.NO_CALLS)
        decreases |tokens| - pos
      {
        var _ := Advance();
        var right := ParseAnd();
        if right.Err? { return right; }
        r := Ok(Or(r.value, right.value));
      }
    }

    method ParseAnd() returns (r: Result<Condition, ErrorKind>)
      requires Valid()
      modifies this
      ensures Valid() && Agrees(r, Spec.ParseAnd(old(Rest()), Spec.NO_CALLS))
      decreases |tokens| - pos, 3
    {
      r := ParseUnary();
      if r.Err? { return; }
      while Peek() == Some(TAnd)
        invariant Valid() && r.Ok? && |Rest()| < |old(Rest())|
        invariant Spec.ParseAnd(old(Rest()), Spec.NO_CALLS) == Spec.AndTail(r.value, Rest(), Spec.NO_CALLS)
        decreases |tokens| - pos
      {
        var _ := Advance();
        var right := ParseUnary();
        if right.Err? { return right; }
        r := Ok(And(r.value, right.value));
      }
    }

    method ParseUnary() returns (r: Result<Condition, ErrorKind>)
      requires Valid()
      modifies this
      ensures Valid() && Agrees(r, Spec.ParseUnary(old(Rest()), Spec.NO_CALLS))
      decreases |tokens| - pos, 1
    {
      if Peek() == Some(TNot) {
        var _ := Advance();
        r := ParseUnary();
        if r.Ok? { r := Ok(Not(r.value)); }
      } else {
        r := ParsePrimary();
      }
    }

    method ParsePrimary() returns (r: Result<Condition, ErrorKind>)
      requires Valid()
      modifies this
      ensures Valid() && Agrees(r, Spec.ParsePrimary(old(Rest()), Spec.NO_CALLS))
      decreases |tokens| - pos, 0
    {
      var next := Peek();
      if next == Some(TLParen) {
        var _ := Advance();
        r := ParseOr();
        if r.Ok? {
          var close := Advance();
          if close != Some(TRParen) { r := Err(SyntaxError); }
        }
      } else if next == Some(TWord(WTrue)) {
        var _ := Advance();
        r := Ok(Literal(true));
      } else if next == Some(TWord(WFalse)) {
        var _ := Advance();
        r := Ok(Literal(false));
      } else if next.Some? && next.value.TExists? {
        var operand := ParseBaseOperand();
        r := if operand.Ok? then Ok(Compare(operand.value, Eq, BoolLiteral(true))) else Err(operand.error);
      } else if next.Some? && (next.value.TWord? || next.value.TGet?) {
        r := ParseComparison();
      } else {
        r := Err(if next.Some? && next.value.TCall? then UnsupportedConstruct else SyntaxError);
      }
    }

    method ParseComparison() returns (r: Result<Condition, ErrorKind>)
      requires Valid()
      modifies this
      ensures Valid() && Agrees(r, Spec.ParseComparison(old(Rest())))
    {
      var left := ParseOperand();
      if left.Err? { return Err(left.error); }
      if Peek() == Some(TWord(WIn)) {
        var _ := Advance();
        if Peek() != Some(TLBracket) { return Err(UnsupportedConstruct); }
        var list := ParseListLiteral();
        if list.Err? { return Err(list.error); }
        return Ok(In(left.value, list.value));
      }
      var op := Advance();
      if op.None? || !op.value.TCompare? { return Err(SyntaxError); }
      var right := ParseOperand();
      if right.Err? { return Err(right.error); }
      r := Ok(Compare(left.value, op.value.op, right.value));
    }

    method ParseListLiteral() returns (r: Result<Operand, ErrorKind>)
      requires Valid()
      modifies this
      ensures Valid() && Agrees(r, Spec.ParseList(old(Rest())))
    {
      var open := Advance();
      if open != Some(TLBracket) { return Err(SyntaxError); }
      var items: seq<Operand> := [];
      if Peek() == Some(TRBracket) {
        var _ := Advance();
        return Ok(ListLiteral(items));
      }
      while true
        invariant Valid() && Spec.ParseList(old(Rest())) == Spec.ParseItems(items, Rest())
        decreases |tokens| - pos
      {
        var item := ParseOperand();
        if item.Err? { return Err(item.error); }
        items := items + [item.value];
        var sep := Advance();
        if sep == Some(TRBracket) { return Ok(ListLiteral(items)); }
        if sep != Some(TComma) { return Err(SyntaxError); }
      }
    }

    method ParseOperand() returns (r: Result<Operand, ErrorKind>)
      requires Valid()
      modifies this
      ensures Valid() && Agrees(r, Spec.ParseOperand(old(Rest())))
    {
      r := ParseBaseOperand();
      if r.Err? { return; }
      if Peek() == Some(TPlus) || Peek() == Some(TMinus) {
        var op := Advance();
        var right := ParseArithmeticRhs();
        if right.Err? { return right; }
        if Peek() == Some(TPlus) || Peek() == Some(TMinus) { return Err(UnsupportedConstruct); }
        r := Ok(Arithmetic(r.value, if op == Some(TPlus) then Add else Sub, right.value));
      }
    }

    method ParseArithmeticRhs() returns (r: Result<Operand, ErrorKind>)
      requires Valid()
      modifies this
      ensures Valid() && Agrees(r, Spec.ParseArithmeticRhs(old(Rest())))
    {
      if Peek() == Some(TWord(WDurationValue)) {
        r := ParseDurationValue();
      } else {
        r := ParseBaseOperand();
      }
    }

    method ParseDurationValue() returns (r: Result<Operand, ErrorKind>)
      requires Valid() && Rest() != []
      modifies this
      ensures Valid() && Agrees(r, Spec.ParseDuration(old(Rest())))
    {
      ghost var s := Rest();
      var _ := Advance();
      var open := Advance();
      if open != Some(TLParen) { return Err(SyntaxError); }
      assert Rest() == s[2..];
      var amount := Advance();
      if amount.None? || !amount.value.TInt? { return Err(SyntaxError); }
      assert Rest() == s[3..];
      var comma := Advance();
      if comma != Some(TComma) { return Err(SyntaxError); }
      assert Rest() == s[4..];
      var unit := Advance();
      if unit.None? || !unit.value.TUnit? || unit.value.unit.None? { return Err(UnsupportedConstruct); }
      assert Rest() == s[5..];
      var close := Advance();
      if close != Some(TRParen) { return Err(SyntaxError); }
      assert Rest() == s[6..];
      r := Ok(DurationLiteral(amount.value.i, unit.value.unit.value));
    }

    method ParseBaseOperand() returns (r: Result<Operand, ErrorKind>)
      requires Valid()
      modifies this
      ensures Valid() && Agrees(r, Spec.ParseBase(old(Rest())))
    {
      var next := Advance();
      if next.None? { return Err(SyntaxError); }
      match next.value
      case TWord(w) => r := Spec.WordOperand(w);
      case TString(s) => r := Ok(StringLiteral(s));
      case TInt(i) => r := Ok(IntLiteral(i));
      case TDouble(d) => r := Ok(DoubleLiteral(d));
      case TExists(p) => r := if p.Ok? then Ok(CrossDocumentExists(p.value)) else Err(p.error);
      case TGet(p, f) => r := if p.Ok? then Ok(CrossDocumentGet(p.value, f)) else Err(p.error);
      case _ => r := Err(SyntaxError);
    }
  }

  /** `parse_condition` on a lexed condition. */
  method ParseTokens(tokens: seq<Token>) returns (r: Result<Condition, ErrorKind>)
    ensures r == Spec.ParseCondition(tokens)
  {
    for i := 0 to |tokens|
      invariant forall j :: 0 <= j < i ==> !Spec.IsCall(tokens[j])
    {
      if Spec.IsCall(tokens[i]) { return Err(UnsupportedConstruct); }
    }
    var parser := new Parser(tokens);
    assert parser.Rest() == tokens;
    r := parser.ParseOr();
    if r.Ok? && parser.pos != |tokens| {
      r := Err(SyntaxError);
    }
  }
}
