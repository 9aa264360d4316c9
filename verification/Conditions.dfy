/** The condition language of access rules: abstract syntax and tokens
    (access_control/mod.rs). */
module Conditions {
  import opened Values

  datatype CompareOp = Eq | Ne | Lt | Le | Gt | Ge

  datatype ArithmeticOp = Add | Sub

  datatype DurationUnit = Seconds | Minutes | Hours | Days

  datatype TemplateSegment =
    | TemplateLiteral(text: string)
    | TemplateAuthUid
    | TemplatePathVariable(name: string)

  type PathTemplate = seq<TemplateSegment>

  datatype Operand =
    | AuthUid
    | AuthNullSentinel
    | ResourceField(field: string)
    | RequestResourceField(field: string)
    | AuthTokenClaim(claim: string)
    | BoolLiteral(b: bool)
    | NullLiteral
    | StringLiteral(s: string)
    | PathVariable(name: string)
    | IntLiteral(i: int)
    | DoubleLiteral(d: real)
    | ListLiteral(items: seq<Operand>)
    | RequestTime
    | Arithmetic(left: Operand, aop: ArithmeticOp, right: Operand)
    | DurationLiteral(amount: int, unit: DurationUnit)
    | CrossDocumentExists(template: PathTemplate)
    | CrossDocumentGet(template: PathTemplate, field: string)

  datatype Condition =
    | Literal(value: bool)
    | Compare(left: Operand, op: CompareOp, right: Operand)
    | And(c0: Condition, c1: Condition)
    | Or(c0: Condition, c1: Condition)
    | Not(inner: Condition)
    | In(item: Operand, list: Operand)

  datatype ErrorKind = SyntaxError | UnsupportedConstruct

  /** The operands a single dotted word can spell, besides `true` and `false`. */
  predicate IsReference(o: Operand) {
    o.AuthUid? || o.AuthNullSentinel? || o.NullLiteral? || o.RequestTime? || o.AuthTokenClaim? ||
    o.PathVariable? || o.RequestResourceField? || o.ResourceField?
  }

  type Reference = o: Operand | IsReference(o) witness AuthUid

  /** What a word token spells. A word is looked at only through this
      classification: the keywords the parser peeks at, the operands
      `word_to_operand` recognizes, and everything it rejects. */
  datatype Word =
    | WTrue | WFalse | WIn | WDurationValue
    | WReference(o: Reference)
    | WUnrecognized

  /** A lexed token. The path argument of `get`/`exists` is carried as the
      outcome of splitting it into a template. `TCall(f)` is a `f()` call
      site of a rules-file function. */
  datatype Token =
    | TLParen | TRParen | TAnd | TOr | TNot
    | TCompare(op: CompareOp)
    | TWord(word: Word)
    | TString(s: string)
    | TInt(i: int)
    | TDouble(d: real)
    | TLBracket | TRBracket | TComma | TPlus | TMinus
    | TUnit(unit: Option<DurationUnit>)
    | TExists(path: Result<PathTemplate, ErrorKind>)
    | TGet(path: Result<PathTemplate, ErrorKind>, field: string)
    | TCall(name: string)
}
