/** What a rule says about the stored data, the request and the caller, as
    relations written without evaluation: which values an operand denotes and
    when a condition holds or fails. Evaluation allows exactly what holds. */
module RuleMeaning {
  import opened Values
  import opened Conditions
  import opened Evaluator
  import EvaluatorLaws

  // ----- Operands -----

  /** A captured name: the ancestor variable of that name, else the leaf's capture. */
  predicate Binds(name: string, ctx: EvalContext, s: string) {
    (name in ctx.ancestors && ctx.ancestors[name] == s) || (name !in ctx.ancestors && ctx.pathVariable == Some(s))
  }

  predicate Holds(fields: Fields, field: string, v: FieldValue) {
    field in fields && fields[field] == v
  }

  predicate PartDenotes(g: TemplateSegment, ctx: EvalContext, s: string) {
    match g
    case TemplateLiteral(text) => s == text
    case TemplateAuthUid => ctx.auth.Some? && ctx.auth.value.uid == s
    case TemplatePathVariable(n) => Binds(n, ctx, s)
  }

  /** `parts` are what the segments of the template denote, one by one. */
  predicate PartsDenote(t: PathTemplate, ctx: EvalContext, parts: seq<string>) {
    |parts| == |t| && forall i :: 0 <= i < |t| ==> PartDenotes(t[i], ctx, parts[i])
  }

  ghost predicate Names(t: PathTemplate, ctx: EvalContext, path: string) {
    exists parts :: PartsDenote(t, ctx, parts) && path == JoinSlash(parts)
  }

  predicate Fetched(ctx: EvalContext, path: string) {
    path in ctx.crossReads && ctx.crossReads[path].Some?
  }

  function SecondsPer(u: DurationUnit): int {
    match u case Seconds => 1 case Minutes => 60 case Hours => 60 * 60 case Days => 24 * 60 * 60
  }

  /** `l + r` or `l - r` of two numbers of one kind; integers wrap at 64 bits. */
  predicate Calculates(l: FieldValue, op: ArithmeticOp, r: FieldValue, v: FieldValue) {
    || (l.Integer? && r.Integer? && v == Integer(WrapI64(if op == Sub then l.i - r.i else l.i + r.i)))
    || (l.Double? && r.Double? && v == Double(if op == Sub then l.d - r.d else l.d + r.d))
  }

  /** An instant moved by a duration; its seconds wrap at 64 bits. */
  predicate Moves(l: FieldValue, op: ArithmeticOp, r: Operand, v: FieldValue) {
    && l.Timestamp? && r.DurationLiteral? && v.Timestamp? && v.nanos == l.nanos
    && var shift := r.amount * SecondsPer(r.unit);
       v.seconds == WrapI64(if op == Sub then l.seconds - shift else l.seconds + shift)
  }

  ghost predicate Denotes(o: Operand, ctx: EvalContext, v: FieldValue) {
    match o
    case ResourceField(f) => Holds(ctx.resource, f, v)
    case RequestResourceField(f) => Holds(ctx.requestResource, f, v)
    case AuthTokenClaim(k) => ctx.auth.Some? && Holds(ctx.auth.value.claims, k, v)
    case AuthUid => ctx.auth.Some? && v == String(ctx.auth.value.uid)
    case AuthNullSentinel => ctx.auth.Some? && v == String(ctx.auth.value.uid)
    case PathVariable(n) => v.String? && Binds(n, ctx, v.s)
    case RequestTime => ctx.requestTime.Some? && ctx.requestTime.value == v
    case BoolLiteral(b) => v.Boolean? && (v.b <==> b)
    case NullLiteral => v.Null?
    case StringLiteral(s) => v.String? && v.s == s
    case IntLiteral(i) => v.Integer? && v.i == i
    case DoubleLiteral(d) => v.Double? && v.d == d
    case ListLiteral(_) => false
    case DurationLiteral(_, _) => false
    case Arithmetic(l, op, r) =>
      || (exists lv :: Denotes(l, ctx, lv) && Moves(lv, op, r, v))
      || (exists lv, rv :: Denotes(l, ctx, lv) && Denotes(r, ctx, rv) && Calculates(lv, op, rv, v))
    case CrossDocumentExists(t) =>
      v.Boolean? && exists path :: Names(t, ctx, path) && (v.b <==> Fetched(ctx, path))
    case CrossDocumentGet(t, f) =>
      exists path :: Names(t, ctx, path) && Fetched(ctx, path) && Holds(ctx.crossReads[path].value, f, v)
  }

  lemma PathVariableIff(name: string, ctx: EvalContext, s: string)
    ensures Binds(name, ctx, s) <==> PathVariableValue(name, ctx) == Found(s)
  {
  }

  lemma SegmentIff(g: TemplateSegment, ctx: EvalContext, s: string)
    ensures PartDenotes(g, ctx, s) <==> ResolveSegment(g, ctx) == Found(s)
  {
    if g.TemplatePathVariable? {
      PathVariableIff(g.name, ctx, s);
    }
  }

  lemma {:induction false} PartsIff(t: PathTemplate, ctx: EvalContext, parts: seq<string>)
    ensures PartsDenote(t, ctx, parts) <==> ResolveParts(t, ctx) == Found(parts)
    decreases |t|
  {
    if t != [] {
      if parts != [] {
        SegmentIff(t[0], ctx, parts[0]);
        PartsIff(t[1..], ctx, parts[1..]);
        PartsSplit(t, ctx, parts);
        assert parts == [parts[0]] + parts[1..];
      }
      if ResolveParts(t, ctx) == Found(parts) {
        assert parts[0] == ResolveSegment(t[0], ctx).value;
      }
    }
  }

  lemma PartsSplit(t: PathTemplate, ctx: EvalContext, parts: seq<string>)
    requires t != [] && parts != []
    ensures PartsDenote(t, ctx, parts) <==> PartDenotes(t[0], ctx, parts[0]) && PartsDenote(t[1..], ctx, parts[1..])
  {
    if PartDenotes(t[0], ctx, parts[0]) && PartsDenote(t[1..], ctx, parts[1..]) {
      forall i | 0 <= i < |t| ensures PartDenotes(t[i], ctx, parts[i]) {
        if i > 0 {
          assert PartDenotes(t[1..][i - 1], ctx, parts[1..][i - 1]);
        }
      }
    }
  }

  lemma NamesIff(t: PathTemplate, ctx: EvalContext, path: string)
    ensures Names(t, ctx, path) <==> ResolveTemplate(t, ctx) == Found(path)
  {
    if parts :| PartsDenote(t, ctx, parts) && path == JoinSlash(parts) {
      PartsIff(t, ctx, parts);
    }
    if ResolveParts(t, ctx).Found? {
      PartsIff(t, ctx, ResolveParts(t, ctx).value);
    }
  }

  lemma CrossDocumentIff(o: Operand, ctx: EvalContext, v: FieldValue)
    requires o.CrossDocumentExists? || o.CrossDocumentGet?
    ensures Denotes(o, ctx, v) <==> Resolve(o, ctx) == Found(v)
  {
    forall path ensures Names(o.template, ctx, path) <==> ResolveTemplate(o.template, ctx) == Found(path) {
      NamesIff(o.template, ctx, path);
    }
    if Denotes(o, ctx, v) {
      var path :| Names(o.template, ctx, path);
    }
    if ResolveTemplate(o.template, ctx).Found? {
      assert Names(o.template, ctx, ResolveTemplate(o.template, ctx).value);
    }
  }

  lemma WrapInside(x: int, y: int)
    ensures WrapI64(x + WrapI64(y)) == WrapI64(x + y) && WrapI64(x - WrapI64(y)) == WrapI64(x - y)
  {
    var turns := (y + I64_HALF) / I64_MODULUS;
    assert WrapI64(y) == y - I64_MODULUS * turns;
    EvaluatorLaws.WrapShift(x + y, -turns);
    EvaluatorLaws.WrapShift(x - y, turns);
  }

  lemma UnitSecondsWrap(u: DurationUnit, amount: int)
    ensures UnitSeconds(u, amount) in [amount * SecondsPer(u), WrapI64(amount * SecondsPer(u))]
  {
  }

  lemma MovesIff(l: FieldValue, op: ArithmeticOp, r: Operand, v: FieldValue)
    requires l.Timestamp? && r.DurationLiteral?
    ensures Moves(l, op, r, v) <==> v == Timestamp(Apply(op, l.seconds, UnitSeconds(r.unit, r.amount)), l.nanos)
  {
    UnitSecondsWrap(r.unit, r.amount);
    WrapInside(l.seconds, r.amount * SecondsPer(r.unit));
  }

  lemma CalculatesIff(l: FieldValue, op: ArithmeticOp, r: FieldValue, v: FieldValue)
    ensures Calculates(l, op, r, v) <==> Combine(l, op, r) == Found(v)
  {
  }

  /** An operand denotes exactly the value it resolves to, or none. */
  lemma {:induction false} DenotesIff(o: Operand, ctx: EvalContext, v: FieldValue)
    ensures Denotes(o, ctx, v) <==> Resolve(o, ctx) == Found(v)
    decreases o, 1
  {
    if o.PathVariable? {
      if v.String? {
        PathVariableIff(o.name, ctx, v.s);
      }
    } else if o.CrossDocumentExists? || o.CrossDocumentGet? {
      CrossDocumentIff(o, ctx, v);
    } else if o.Arithmetic? {
      ArithmeticIff(o, ctx, v);
    }
  }

  lemma {:induction false} ArithmeticIff(o: Operand, ctx: EvalContext, v: FieldValue)
    requires o.Arithmetic?
    ensures Denotes(o, ctx, v) <==> Resolve(o, ctx) == Found(v)
    decreases o, 0
  {
    forall lv ensures Denotes(o.left, ctx, lv) <==> Resolve(o.left, ctx) == Found(lv) {
      DenotesIff(o.left, ctx, lv);
    }
    forall rv ensures Denotes(o.right, ctx, rv) <==> Resolve(o.right, ctx) == Found(rv) {
      DenotesIff(o.right, ctx, rv);
    }
    if Resolve(o.left, ctx).Found? {
      var lv := Resolve(o.left, ctx).value;
      if lv.Timestamp? && o.right.DurationLiteral? {
        MovesIff(lv, o.aop, o.right, v);
      } else if Resolve(o.right, ctx).Found? {
        CalculatesIff(lv, o.aop, Resolve(o.right, ctx).value, v);
      }
    }
  }

  // ----- Conditions -----

  /** The values an operand may be compared as. */
  ghost function Meanings(o: Operand, ctx: EvalContext): iset<FieldValue> {
    iset v | Denotes(o, ctx, v)
  }

  /** Some value of the one and some of the other stand as the operator says, or do not. */
  ghost predicate Pairs(a: iset<FieldValue>, op: CompareOp, b: iset<FieldValue>, expected: bool) {
    exists v, w :: v in a && w in b && Stands(v, op, w) == expected
  }

  predicate Stands(v: FieldValue, op: CompareOp, w: FieldValue) {
    if op == Eq then v == w else if op == Ne then v != w else Relational(op, v, w)
  }

  predicate AsksForCaller(l: Operand, op: CompareOp, r: Operand) {
    (op == Eq || op == Ne) && EvaluatorLaws.NullIdiom(l, r)
  }

  /** Comparing the caller with null asks whether there is a caller; everything
      else compares what the operands denote. */
  ghost predicate Compares(l: Operand, op: CompareOp, r: Operand, ctx: EvalContext, expected: bool) {
    if AsksForCaller(l, op, r) then (ctx.auth.None? == (op == Eq)) == expected
    else Pairs(Meanings(l, ctx), op, Meanings(r, ctx), expected)
  }

  ghost predicate Lists(list: Operand, ctx: EvalContext, v: FieldValue) {
    list.ListLiteral? && exists i :: 0 <= i < |list.items| && Denotes(list.items[i], ctx, v)
  }

  /** The condition holds. */
  ghost predicate True(c: Condition, ctx: EvalContext) {
    match c
    case Literal(b) => b
    case Not(x) => False(x, ctx)
    case And(x, y) => True(x, ctx) && True(y, ctx)
    case Or(x, y) => True(x, ctx) || True(y, ctx)
    case Compare(l, op, r) => Compares(l, op, r, ctx, true)
    case In(l, list) => exists v :: Denotes(l, ctx, v) && Lists(list, ctx, v)
  }

  /** The condition fails, and not for want of data. */
  ghost predicate False(c: Condition, ctx: EvalContext) {
    match c
    case Literal(b) => !b
    case Not(x) => True(x, ctx)
    case And(x, y) => False(x, ctx) || (True(x, ctx) && False(y, ctx))
    case Or(x, y) => False(x, ctx) && False(y, ctx)
    case Compare(l, op, r) => Compares(l, op, r, ctx, false)
    case In(l, list) => exists v :: Denotes(l, ctx, v) && !Lists(list, ctx, v)
  }

  ghost function Only(a: Lookup<FieldValue>): iset<FieldValue> {
    iset v | a == Found(v)
  }

  lemma MeaningsIff(o: Operand, ctx: EvalContext)
    ensures Meanings(o, ctx) == Only(Resolve(o, ctx))
  {
    forall v ensures v in Meanings(o, ctx) <==> v in Only(Resolve(o, ctx)) {
      DenotesIff(o, ctx, v);
    }
  }

  /** Both sides found, then compared. */
  function Both(a: Lookup<FieldValue>, op: CompareOp, b: Lookup<FieldValue>): Lookup<bool> {
    if a.Missing? || b.Missing? then Missing else Found(Stands(a.value, op, b.value))
  }

  lemma OnlyPairs(a: Lookup<FieldValue>, op: CompareOp, b: Lookup<FieldValue>, expected: bool)
    ensures Pairs(Only(a), op, Only(b), expected) <==> Both(a, op, b) == Found(expected)
  {
    if a.Found? && b.Found? {
      assert a.value in Only(a) && b.value in Only(b);
    }
  }

  lemma EvalComparesBoth(l: Operand, op: CompareOp, r: Operand, ctx: EvalContext)
    ensures !AsksForCaller(l, op, r) ==> EvalCompare(l, op, r, ctx) == Both(Resolve(l, ctx), op, Resolve(r, ctx))
    ensures AsksForCaller(l, op, r) ==> EvalCompare(l, op, r, ctx) == Found(ctx.auth.None? == (op == Eq))
  {
    EvaluatorLaws.EqualityIsPlainIff(l, r, ctx);
  }

  lemma CompareIff(l: Operand, op: CompareOp, r: Operand, ctx: EvalContext, expected: bool)
    ensures Compares(l, op, r, ctx, expected) <==> EvalCompare(l, op, r, ctx) == Found(expected)
  {
    EvalComparesBoth(l, op, r, ctx);
    if !AsksForCaller(l, op, r) {
      calc {
        Compares(l, op, r, ctx, expected);
        Pairs(Meanings(l, ctx), op, Meanings(r, ctx), expected);
        { MeaningsIff(l, ctx); MeaningsIff(r, ctx); }
        Pairs(Only(Resolve(l, ctx)), op, Only(Resolve(r, ctx)), expected);
        { OnlyPairs(Resolve(l, ctx), op, Resolve(r, ctx), expected); }
        Both(Resolve(l, ctx), op, Resolve(r, ctx)) == Found(expected);
      }
    }
  }

  lemma ListsIff(list: Operand, ctx: EvalContext, v: FieldValue)
    requires list.ListLiteral?
    ensures Lists(list, ctx, v) <==> AnyItem(v, list.items, ctx)
  {
    forall i | 0 <= i < |list.items|
      ensures Denotes(list.items[i], ctx, v) <==> Resolve(list.items[i], ctx) == Found(v)
    {
      DenotesIff(list.items[i], ctx, v);
    }
  }

  lemma InIff(l: Operand, list: Operand, ctx: EvalContext)
    ensures True(In(l, list), ctx) <==> EvalBool(In(l, list), ctx) == Found(true)
    ensures False(In(l, list), ctx) <==> EvalBool(In(l, list), ctx) == Found(false)
  {
    forall v ensures Denotes(l, ctx, v) <==> Resolve(l, ctx) == Found(v) {
      DenotesIff(l, ctx, v);
    }
    if Resolve(l, ctx).Found? {
      assert Denotes(l, ctx, Resolve(l, ctx).value);
      if list.ListLiteral? {
        ListsIff(list, ctx, Resolve(l, ctx).value);
      }
    }
  }

  lemma {:induction false} EvalIsMeaning(c: Condition, ctx: EvalContext)
    ensures True(c, ctx) <==> EvalBool(c, ctx) == Found(true)
    ensures False(c, ctx) <==> EvalBool(c, ctx) == Found(false)
  {
    match c
    case Literal(_) =>
    case Not(x) => EvalIsMeaning(x, ctx);
    case And(x, y) =>
      EvalIsMeaning(x, ctx);
      EvalIsMeaning(y, ctx);
    case Or(x, y) =>
      EvalIsMeaning(x, ctx);
      EvalIsMeaning(y, ctx);
    case Compare(l, op, r) =>
      CompareIff(l, op, r, ctx, true);
      CompareIff(l, op, r, ctx, false);
    case In(l, list) => InIff(l, list, ctx);
  }

  /** A rule allows exactly when it holds. */
  lemma AllowsIff(c: Condition, ctx: EvalContext)
    ensures Evaluate(c, ctx) == Allow <==> True(c, ctx)
  {
    EvalIsMeaning(c, ctx);
  }

  // ----- Rules as they are written -----

  /** The operands whose value is looked up: a field of the stored or of the
      proposed document, or a claim of the caller. */
  predicate Stores(o: Operand, ctx: EvalContext, v: FieldValue) {
    match o
    case ResourceField(f) => f in ctx.resource && ctx.resource[f] == v
    case RequestResourceField(f) => f in ctx.requestResource && ctx.requestResource[f] == v
    case AuthTokenClaim(k) => ctx.auth.Some? && k in ctx.auth.value.claims && ctx.auth.value.claims[k] == v
    case _ => false
  }

  ghost function Stored(o: Operand, ctx: EvalContext): iset<FieldValue> {
    iset v | Stores(o, ctx, v)
  }

  lemma StoredIsMeant(o: Operand, ctx: EvalContext)
    requires o.ResourceField? || o.RequestResourceField? || o.AuthTokenClaim?
    ensures Meanings(o, ctx) == Stored(o, ctx)
  {
  }

  lemma ComparedWithOne(a: iset<FieldValue>, v: FieldValue)
    ensures Pairs(a, Eq, iset{v}, true) <==> v in a
    ensures Pairs(a, Ne, iset{v}, true) <==> exists w :: w in a && w != v
  {
    assert v in iset{v};
  }

  lemma ComparedWithLiteral(o: Operand, literal: Operand, v: FieldValue, ctx: EvalContext)
    requires o.ResourceField? || o.RequestResourceField? || o.AuthTokenClaim?
    requires Meanings(literal, ctx) == iset{v}
    ensures Evaluate(Compare(o, Eq, literal), ctx) == Allow <==> Stores(o, ctx, v)
    ensures Evaluate(Compare(o, Ne, literal), ctx) == Allow <==> exists w :: Stores(o, ctx, w) && w != v
  {
    AllowsIff(Compare(o, Eq, literal), ctx);
    AllowsIff(Compare(o, Ne, literal), ctx);
    StoredIsMeant(o, ctx);
    ComparedWithOne(Stored(o, ctx), v);
    assert forall w :: w in Stored(o, ctx) <==> Stores(o, ctx, w);
  }

  lemma LiteralMeanings(b: bool, s: string, i: int, d: real, ctx: EvalContext)
    ensures Meanings(BoolLiteral(b), ctx) == iset{Boolean(b)} && Meanings(StringLiteral(s), ctx) == iset{String(s)}
    ensures Meanings(IntLiteral(i), ctx) == iset{Integer(i)} && Meanings(DoubleLiteral(d), ctx) == iset{Double(d)}
    ensures Meanings(NullLiteral, ctx) == iset{Null}
  {
  }

  /** A field or claim compared with a literal is allowed exactly when it is
      there and is that boolean, string, integer, double or null. */
  lemma LiteralComparisons(o: Operand, b: bool, s: string, i: int, d: real, ctx: EvalContext)
    requires o.ResourceField? || o.RequestResourceField? || o.AuthTokenClaim?
    ensures Evaluate(Compare(o, Eq, BoolLiteral(b)), ctx) == Allow <==> Stores(o, ctx, Boolean(b))
    ensures Evaluate(Compare(o, Eq, StringLiteral(s)), ctx) == Allow <==> Stores(o, ctx, String(s))
    ensures Evaluate(Compare(o, Eq, IntLiteral(i)), ctx) == Allow <==> Stores(o, ctx, Integer(i))
    ensures Evaluate(Compare(o, Eq, DoubleLiteral(d)), ctx) == Allow <==> Stores(o, ctx, Double(d))
    ensures Evaluate(Compare(o, Eq, NullLiteral), ctx) == Allow <==> Stores(o, ctx, Null)
  {
    LiteralMeanings(b, s, i, d, ctx);
    ComparedWithLiteral(o, BoolLiteral(b), Boolean(b), ctx);
    ComparedWithLiteral(o, StringLiteral(s), String(s), ctx);
    ComparedWithLiteral(o, IntLiteral(i), Integer(i), ctx);
    ComparedWithLiteral(o, DoubleLiteral(d), Double(d), ctx);
    ComparedWithLiteral(o, NullLiteral, Null, ctx);
  }

  /** `exists(path)`, which the parser compares with `true`, is allowed exactly
      when the path has a name for every part and the document was fetched and is there. */
  lemma ExistsAllows(t: PathTemplate, ctx: EvalContext)
    ensures Evaluate(Compare(CrossDocumentExists(t), Eq, BoolLiteral(true)), ctx) == Allow <==>
      exists parts :: PartsDenote(t, ctx, parts) && Fetched(ctx, JoinSlash(parts))
  {
    AllowsIff(Compare(CrossDocumentExists(t), Eq, BoolLiteral(true)), ctx);
    LiteralMeanings(true, "", 0, 0.0, ctx);
    var meant := Meanings(CrossDocumentExists(t), ctx);
    ComparedWithOne(meant, Boolean(true));
    if parts :| PartsDenote(t, ctx, parts) && Fetched(ctx, JoinSlash(parts)) {
      assert Names(t, ctx, JoinSlash(parts));
    }
  }

  /** A field compared with the caller's uid is allowed exactly when there is a
      caller and the field is that uid. */
  lemma OwnerAllows(o: Operand, ctx: EvalContext)
    requires o.ResourceField? || o.RequestResourceField? || o.AuthTokenClaim?
    ensures Evaluate(Compare(o, Eq, AuthUid), ctx) == Allow <==>
      ctx.auth.Some? && Stores(o, ctx, String(ctx.auth.value.uid))
  {
    if ctx.auth.Some? {
      ComparedWithLiteral(o, AuthUid, String(ctx.auth.value.uid), ctx);
    } else {
      AllowsIff(Compare(o, Eq, AuthUid), ctx);
    }
  }
}
