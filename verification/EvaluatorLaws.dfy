/** What evaluation means, against reference definitions: three-valued logic,
    plain equality, the order of numbers and instants, and duration arithmetic. */
module EvaluatorLaws {
  import opened Values
  import opened Conditions
  import opened Evaluator
  import Grammar

  // ----- Connectives -----

  /** Kleene's three-valued logic over the same comparisons: a connective is
      definite as soon as its definite operands settle it. */
  function Kleene(c: Condition, ctx: EvalContext): Lookup<bool> {
    match c
    case Not(x) => Negated(Kleene(x, ctx))
    case And(x, y) => KleeneAnd(Kleene(x, ctx), Kleene(y, ctx))
    case Or(x, y) => Negated(KleeneAnd(Negated(Kleene(x, ctx)), Negated(Kleene(y, ctx))))
    case _ => EvalBool(c, ctx)
  }

  function KleeneAnd(a: Lookup<bool>, b: Lookup<bool>): Lookup<bool> {
    if a == Found(false) || b == Found(false) then Found(false)
    else if a.Missing? || b.Missing? then Missing
    else Found(true)
  }

  function Negated(a: Lookup<bool>): Lookup<bool> {
    match a case Missing => Missing case Found(b) => Found(!b)
  }

  /** Whatever evaluation decides, three-valued logic decides the same way. */
  lemma {:induction false} EvalRefinesKleene(c: Condition, ctx: EvalContext)
    ensures EvalBool(c, ctx).Found? ==> Kleene(c, ctx) == EvalBool(c, ctx)
  {
    if c.Not? {
      EvalRefinesKleene(c.inner, ctx);
    } else if c.And? || c.Or? {
      EvalRefinesKleene(c.c0, ctx);
      EvalRefinesKleene(c.c1, ctx);
    }
  }

  predicate NegationFree(c: Condition) {
    !c.Not? && (c.And? || c.Or? ==> NegationFree(c.c0) && NegationFree(c.c1))
  }

  /** Without negation access is allowed exactly when three-valued logic says true. */
  lemma {:induction false} NegationFreeIsKleene(c: Condition, ctx: EvalContext)
    requires NegationFree(c)
    ensures Evaluate(c, ctx) == Allow <==> Kleene(c, ctx) == Found(true)
  {
    if c.And? || c.Or? {
      NegationFreeIsKleene(c.c0, ctx);
      NegationFreeIsKleene(c.c1, ctx);
    }
  }

  /** `||` may be reordered freely; `&&` exactly when neither operand is
      missing while the other is false. */
  lemma ConnectivesCommuteIff(x: Condition, y: Condition, ctx: EvalContext)
    ensures EvalBool(Or(x, y), ctx) == EvalBool(Or(y, x), ctx)
    ensures EvalBool(And(x, y), ctx) == EvalBool(And(y, x), ctx) <==>
      && !(EvalBool(x, ctx).Missing? && EvalBool(y, ctx) == Found(false))
      && !(EvalBool(y, ctx).Missing? && EvalBool(x, ctx) == Found(false))
  {
    var a, b := EvalBool(x, ctx), EvalBool(y, ctx);
    assert EvalBool(And(x, y), ctx) == if a == Found(true) then b else a;
    assert EvalBool(And(y, x), ctx) == if b == Found(true) then a else b;
  }

  /** So under a negation the order of `&&` can decide: with a missing field,
      `!(missing && false)` denies and `!(false && missing)` allows. */
  lemma AndOrderDecides(field: string, ctx: EvalContext)
    requires field !in ctx.resource
    ensures var m := Compare(ResourceField(field), Eq, BoolLiteral(true));
      var one, two := Not(And(m, Literal(false))), Not(And(Literal(false), m));
      && Grammar.WellFormed(one) && Grammar.WellFormed(two)
      && Evaluate(one, ctx) == Deny && Evaluate(two, ctx) == Allow
  {
    var m := Compare(ResourceField(field), Eq, BoolLiteral(true));
    assert EvalBool(m, ctx).Missing?;
    assert EvalBool(And(m, Literal(false)), ctx).Missing? && EvalBool(And(Literal(false), m), ctx) == Found(false);
    assert Grammar.WellFormed(And(m, Literal(false))) && Grammar.WellFormed(And(Literal(false), m));
  }

  // ----- Equality -----

  /** Both sides resolved, then compared. */
  function PlainEqual(l: Operand, r: Operand, ctx: EvalContext): Lookup<bool> {
    if Resolve(l, ctx).Missing? || Resolve(r, ctx).Missing? then Missing
    else Found(Resolve(l, ctx).value == Resolve(r, ctx).value)
  }

  predicate IsAuth(o: Operand) {
    o.AuthUid? || o.AuthNullSentinel?
  }

  predicate NullIdiom(l: Operand, r: Operand) {
    (IsAuth(l) && r.NullLiteral?) || (l.NullLiteral? && IsAuth(r))
  }

  lemma EqualitySymmetric(l: Operand, r: Operand, ctx: EvalContext)
    ensures CompareEqual(l, r, ctx) == CompareEqual(r, l, ctx)
  {
  }

  lemma NullIdiomDecides(l: Operand, r: Operand, ctx: EvalContext)
    requires NullIdiom(l, r)
    ensures CompareEqual(l, r, ctx) == Found(ctx.auth.None?)
    ensures PlainEqual(l, r, ctx) == if ctx.auth.None? then Missing else Found(false)
  {
    assert IsAuth(l) ==> Resolve(l, ctx) == AuthUidValue(ctx);
    assert IsAuth(r) ==> Resolve(r, ctx) == AuthUidValue(ctx);
  }

  /** The identity pairings are plain equality, except that a caller compared
      with null is decided, and equal, when there is no caller. */
  lemma EqualityIsPlainIff(l: Operand, r: Operand, ctx: EvalContext)
    ensures CompareEqual(l, r, ctx) == PlainEqual(l, r, ctx) <==> !(NullIdiom(l, r) && ctx.auth.None?)
    ensures NullIdiom(l, r) ==> CompareEqual(l, r, ctx) == Found(ctx.auth.None?)
  {
    if NullIdiom(l, r) {
      NullIdiomDecides(l, r, ctx);
    }
  }

  // ----- Order -----

  datatype Rank = Instant(nanos: int) | Number(n: real) | Unranked

  /** Where a value stands: instants on one line, numbers on another. */
  function RankOf(v: FieldValue): Rank {
    match v
    case Timestamp(seconds, nanos) => Instant(seconds * 1_000_000_000 + nanos)
    case Integer(i) => Number(i as real)
    case Double(d) => Number(d)
    case _ => Unranked
  }

  predicate Before(a: Rank, b: Rank) {
    if a.Instant? && b.Instant? then a.nanos < b.nanos else a.Number? && b.Number? && a.n < b.n
  }

  predicate SameLine(a: Rank, b: Rank) {
    (a.Instant? && b.Instant?) || (a.Number? && b.Number?)
  }

  predicate ProperTime(v: FieldValue) {
    v.Timestamp? ==> 0 <= v.nanos < 1_000_000_000
  }

  /** The relational operators are the order of instants and of numbers, and
      false between values that share no order. */
  lemma RelationalIsOrder(l: FieldValue, r: FieldValue)
    requires ProperTime(l) && ProperTime(r)
    ensures Relational(Lt, l, r) <==> Before(RankOf(l), RankOf(r))
    ensures Relational(Gt, l, r) <==> Before(RankOf(r), RankOf(l))
    ensures Relational(Le, l, r) <==> SameLine(RankOf(l), RankOf(r)) && !Before(RankOf(r), RankOf(l))
    ensures Relational(Ge, l, r) <==> SameLine(RankOf(l), RankOf(r)) && !Before(RankOf(l), RankOf(r))
  {
  }

  // ----- Other documents -----

  /** `exists` is true exactly when the named document was fetched and is there;
      a field of it has a value exactly when the document also holds the field. */
  lemma FieldReadNeedsDocument(template: PathTemplate, field: string, ctx: EvalContext, v: FieldValue)
    ensures Resolve(CrossDocumentExists(template), ctx) == Found(Boolean(true)) <==> NamedDocument(template, ctx).Some?
    ensures Resolve(CrossDocumentGet(template, field), ctx) == Found(v) <==>
      var doc := NamedDocument(template, ctx);
      doc.Some? && field in doc.value && doc.value[field] == v
  {
  }

  /** The fetched document that a path template names. */
  function NamedDocument(template: PathTemplate, ctx: EvalContext): Option<Fields> {
    if ResolveTemplate(template, ctx).Found? && ResolveTemplate(template, ctx).value in ctx.crossReads
    then ctx.crossReads[ResolveTemplate(template, ctx).value]
    else None
  }

  // ----- Durations -----

  lemma WrapShift(x: int, turns: int)
    ensures WrapI64(x + I64_MODULUS * turns) == WrapI64(x)
  {
  }

  lemma WrapScaled(a: int, k: int)
    ensures WrapI64(WrapI64(a) * k) == WrapI64(a * k)
  {
    var turns := (a + I64_HALF) / I64_MODULUS;
    assert WrapI64(a) == a - I64_MODULUS * turns;
    assert WrapI64(a) * k == a * k + I64_MODULUS * (-turns * k);
    WrapShift(a * k, -turns * k);
  }

  /** The units measure the same seconds: a minute is 60 of them, an hour 60
      minutes and a day 24 hours, also when the amount overflows. */
  lemma UnitsConvert(amount: int)
    ensures UnitSeconds(Minutes, amount) == UnitSeconds(Seconds, WrapI64(60 * amount))
    ensures UnitSeconds(Hours, amount) == UnitSeconds(Minutes, WrapI64(60 * amount))
    ensures UnitSeconds(Days, amount) == UnitSeconds(Hours, WrapI64(24 * amount))
  {
    WrapScaled(60 * amount, 60);
    WrapScaled(24 * amount, 3600);
  }

  /** Adding a duration to the request time and taking it away again gives the
      request time back, for every 64-bit time and every duration. */
  lemma DurationUndone(ctx: EvalContext, amount: int, unit: DurationUnit, moved: TimeValue)
    requires ctx.requestTime.Some?
    requires WrapI64(ctx.requestTime.value.seconds) == ctx.requestTime.value.seconds
    requires Resolve(Arithmetic(RequestTime, Add, DurationLiteral(amount, unit)), ctx) == Found(moved)
    ensures Resolve(Arithmetic(RequestTime, Sub, DurationLiteral(amount, unit)), ctx.(requestTime := Some(moved))) ==
      Found(ctx.requestTime.value)
  {
    var s, d := ctx.requestTime.value.seconds, UnitSeconds(unit, amount);
    assert moved == Timestamp(WrapI64(s + d), ctx.requestTime.value.nanos);
    var turns := (s + d + I64_HALF) / I64_MODULUS;
    assert WrapI64(s + d) - d == s + I64_MODULUS * -turns;
    WrapShift(s, -turns);
  }
}
