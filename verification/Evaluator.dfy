/** Condition evaluation (access_control/mod.rs): a condition is true, false or
    missing, and only true allows. */
module Evaluator {
  import opened Values
  import opened Conditions

  datatype AuthContext = AuthContext(uid: string, claims: Fields)

  /** Pre-fetched documents by path; `None` is a path found to be absent. */
  type CrossReads = map<string, Option<Fields>>

  /** Every caller that gives a request time gives a timestamp. */
  type TimeValue = v: FieldValue | v.Timestamp? witness Timestamp(0, 0)

  datatype EvalContext = EvalContext(
    auth: Option<AuthContext>,
    resource: Fields,
    requestResource: Fields,
    pathVariable: Option<string>,
    ancestors: map<string, string>,
    requestTime: Option<TimeValue>,
    crossReads: CrossReads)

  datatype Outcome = Allow | Deny

  /** A value, or the lookup failure that denies. */
  datatype Lookup<+T> = Found(value: T) | Missing

  function Get<T>(m: map<string, T>, k: string): Lookup<T> {
    if k in m then Found(m[k]) else Missing
  }

  function FromOption<T>(o: Option<T>): Lookup<T> {
    match o case Some(v) => Found(v) case None => Missing
  }

  function UnitSeconds(u: DurationUnit, amount: int): int {
    match u
    case Seconds => amount
    case Minutes => WrapI64(amount * 60)
    case Hours => WrapI64(amount * 3600)
    case Days => WrapI64(amount * 86400)
  }

  function PathVariableValue(name: string, ctx: EvalContext): Lookup<string> {
    if name in ctx.ancestors then Found(ctx.ancestors[name]) else FromOption(ctx.pathVariable)
  }

  function ResolveSegment(g: TemplateSegment, ctx: EvalContext): Lookup<string> {
    match g
    case TemplateLiteral(s) => Found(s)
    case TemplateAuthUid => if ctx.auth.Some? then Found(ctx.auth.value.uid) else Missing
    case TemplatePathVariable(n) => PathVariableValue(n, ctx)
  }

  function ResolveParts(t: PathTemplate, ctx: EvalContext): Lookup<seq<string>> {
    if t == [] then Found([]) else
    match ResolveSegment(t[0], ctx)
    case Missing => Missing
    case Found(p) =>
      match ResolveParts(t[1..], ctx)
      case Missing => Missing
      case Found(ps) => Found([p] + ps)
  }

  function ResolveTemplate(t: PathTemplate, ctx: EvalContext): Lookup<string> {
    match ResolveParts(t, ctx)
    case Missing => Missing
    case Found(ps) => Found(JoinSlash(ps))
  }

  /** The document `p` denotes for the evaluator: a path never fetched is absent. */
  function Document(fetched: CrossReads, p: string): Option<Fields> {
    if p in fetched then fetched[p] else None
  }

  function Apply(op: ArithmeticOp, l: int, r: int): int {
    WrapI64(if op == Add then l + r else l - r)
  }

  function Combine(l: FieldValue, op: ArithmeticOp, r: FieldValue): Lookup<FieldValue> {
    if l.Integer? && r.Integer? then Found(Integer(Apply(op, l.i, r.i)))
    else if l.Double? && r.Double? then Found(Double(if op == Add then l.d + r.d else l.d - r.d))
    else Missing
  }

  function Resolve(o: Operand, ctx: EvalContext): Lookup<FieldValue> {
    match o
    case ResourceField(n) => Get(ctx.resource, n)
    case RequestResourceField(n) => Get(ctx.requestResource, n)
    case BoolLiteral(b) => Found(Boolean(b))
    case NullLiteral => Found(Null)
    case StringLiteral(s) => Found(String(s))
    case AuthTokenClaim(k) => if ctx.auth.Some? then Get(ctx.auth.value.claims, k) else Missing
    case AuthUid => AuthUidValue(ctx)
    case AuthNullSentinel => AuthUidValue(ctx)
    case PathVariable(n) =>
      (match PathVariableValue(n, ctx) case Found(s) => Found(String(s)) case Missing => Missing)
    case IntLiteral(i) => Found(Integer(i))
    case DoubleLiteral(d) => Found(Double(d))
    case ListLiteral(_) => Missing
    case RequestTime => FromOption(ctx.requestTime)
    case Arithmetic(l, op, r) =>
      (match Resolve(l, ctx)
       case Missing => Missing
       case Found(lv) =>
         if lv.Timestamp? && r.DurationLiteral? then
           Found(Timestamp(Apply(op, lv.seconds, UnitSeconds(r.unit, r.amount)), lv.nanos))
         else
           match Resolve(r, ctx)
           case Missing => Missing
           case Found(rv) => Combine(lv, op, rv))
    case DurationLiteral(_, _) => Missing
    case CrossDocumentExists(t) =>
      (match ResolveTemplate(t, ctx)
       case Missing => Missing
       case Found(p) => Found(Boolean(Document(ctx.crossReads, p).Some?)))
    case CrossDocumentGet(t, f) =>
      (match ResolveTemplate(t, ctx)
       case Missing => Missing
       case Found(p) =>
         match Document(ctx.crossReads, p) case None => Missing case Some(fields) => Get(fields, f))
  }

  function AuthUidValue(ctx: EvalContext): Lookup<FieldValue> {
    if ctx.auth.Some? then Found(String(ctx.auth.value.uid)) else Missing
  }

  /** Whether a stored field is the caller's uid. */
  function UidEquals(fields: Fields, name: string, ctx: EvalContext): Lookup<bool> {
    if ctx.auth.None? || name !in fields then Missing
    else Found(fields[name] == String(ctx.auth.value.uid))
  }

  function CompareEqual(l: Operand, r: Operand, ctx: EvalContext): Lookup<bool> {
    if l.AuthUid? && r.ResourceField? then UidEquals(ctx.resource, r.field, ctx)
    else if l.ResourceField? && r.AuthUid? then UidEquals(ctx.resource, l.field, ctx)
    else if l.AuthUid? && r.RequestResourceField? then UidEquals(ctx.requestResource, r.field, ctx)
    else if l.RequestResourceField? && r.AuthUid? then UidEquals(ctx.requestResource, l.field, ctx)
    else if (l.AuthNullSentinel? || l.AuthUid?) && r.NullLiteral? then Found(ctx.auth.None?)
    else if l.NullLiteral? && (r.AuthNullSentinel? || r.AuthUid?) then Found(ctx.auth.None?)
    else
      match Resolve(l, ctx)
      case Missing => Missing
      case Found(lv) =>
        match Resolve(r, ctx) case Missing => Missing case Found(rv) => Found(lv == rv)
  }

  function Numeric(v: FieldValue): Option<real> {
    if v.Integer? then Some(v.i as real) else if v.Double? then Some(v.d) else None
  }

  function Relational(op: CompareOp, l: FieldValue, r: FieldValue): bool {
    if l.Timestamp? && r.Timestamp? then
      var less := l.seconds < r.seconds || (l.seconds == r.seconds && l.nanos < r.nanos);
      var equal := l.seconds == r.seconds && l.nanos == r.nanos;
      Ordered(op, less, equal)
    else if Numeric(l).Some? && Numeric(r).Some? then
      Ordered(op, Numeric(l).value < Numeric(r).value, Numeric(l).value == Numeric(r).value)
    else false
  }

  function Ordered(op: CompareOp, less: bool, equal: bool): bool {
    match op
    case Lt => less
    case Le => less || equal
    case Gt => !less && !equal
    case Ge => !less
    case Eq => equal
    case Ne => !equal
  }

  /** `v` is the value of some item; an item that does not resolve matches nothing. */
  predicate AnyItem(v: FieldValue, items: seq<Operand>, ctx: EvalContext) {
    exists i :: 0 <= i < |items| && Resolve(items[i], ctx) == Found(v)
  }

  function EvalCompare(l: Operand, op: CompareOp, r: Operand, ctx: EvalContext): Lookup<bool> {
    if op == Eq then CompareEqual(l, r, ctx)
    else if op == Ne then
      (match CompareEqual(l, r, ctx) case Missing => Missing case Found(b) => Found(!b))
    else
      match Resolve(l, ctx)
      case Missing => Missing
      case Found(lv) =>
        match Resolve(r, ctx) case Missing => Missing case Found(rv) => Found(Relational(op, lv, rv))
  }

  function EvalBool(c: Condition, ctx: EvalContext): Lookup<bool> {
    match c
    case Literal(b) => Found(b)
    case Not(x) => (match EvalBool(x, ctx) case Missing => Missing case Found(b) => Found(!b))
    case And(x, y) =>
      (match EvalBool(x, ctx)
       case Missing => Missing
       case Found(b) => if b then EvalBool(y, ctx) else Found(false))
    case Or(x, y) =>
      var l := EvalBool(x, ctx);
      if l == Found(true) then l else
      var r := EvalBool(y, ctx);
      if r == Found(true) then r
      else if l == Found(false) && r == Found(false) then Found(false)
      else Missing
    case Compare(l, op, r) => EvalCompare(l, op, r, ctx)
    case In(l, list) =>
      match Resolve(l, ctx)
      case Missing => Missing
      case Found(v) => Found(list.ListLiteral? && AnyItem(v, list.items, ctx))
  }

  function Evaluate(c: Condition, ctx: EvalContext): Outcome {
    if EvalBool(c, ctx) == Found(true) then Allow else Deny
  }
}
