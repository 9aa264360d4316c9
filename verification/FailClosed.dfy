/** Missing data never grants access: adding document fields, proposed fields,
    claims or a request time keeps every definite result, provided the lists
    tested for membership are settled. */
module FailClosed {
  import opened Values
  import opened Conditions
  import opened Evaluator
  import Grammar

  predicate SubFields(m: Fields, n: Fields) {
    forall k <- m :: k in n && n[k] == m[k]
  }

  /** `big` knows at least what `small` knows about the same caller and request. */
  predicate Extends(small: EvalContext, big: EvalContext) {
    && (small.auth.None? <==> big.auth.None?)
    && (small.auth.Some? ==>
          small.auth.value.uid == big.auth.value.uid &&
          SubFields(small.auth.value.claims, big.auth.value.claims))
    && SubFields(small.resource, big.resource)
    && SubFields(small.requestResource, big.requestResource)
    && (small.requestTime.Some? ==> big.requestTime == small.requestTime)
    && small.pathVariable == big.pathVariable
    && small.ancestors == big.ancestors
    && small.crossReads == big.crossReads
  }

  /** Operands whose value, or absence, does not depend on the data `Extends` grows. */
  predicate Stable(o: Operand) {
    match o
    case ResourceField(_) => false
    case RequestResourceField(_) => false
    case AuthTokenClaim(_) => false
    case RequestTime => false
    case Arithmetic(l, _, r) => Stable(l) && Stable(r)
    case _ => true
  }

  // ----- List items that growing data cannot change -----

  /** Operands that can take a value of any kind. */
  predicate Open(o: Operand) {
    o.ResourceField? || o.RequestResourceField? || o.AuthTokenClaim? || o.CrossDocumentGet?
  }

  predicate CanBeInteger(o: Operand) { o.IntLiteral? || Open(o) }

  predicate CanBeDouble(o: Operand) { o.DoubleLiteral? || Open(o) }

  predicate CanBeTime(o: Operand) { o.RequestTime? || Open(o) }

  /** The two sides of a `+` or `-` can have kinds that it combines. */
  predicate Combinable(l: Operand, r: Operand) {
    if r.DurationLiteral? then CanBeTime(l)
    else (CanBeInteger(l) && CanBeInteger(r)) || (CanBeDouble(l) && CanBeDouble(r))
  }

  /** A field minus itself: zero, or missing. */
  predicate SelfDifference(o: Operand) {
    o.Arithmetic? && o.aop == Sub && o.left == o.right && Open(o.left) && !Stable(o.left)
  }

  /** Growing data can give the operand one of many values. */
  predicate MayAppear(o: Operand) {
    !Stable(o) && (Grammar.IsOperand(o) && o.Arithmetic? ==> Combinable(o.left, o.right) && !SelfDifference(o))
  }

  /** The number an operand denotes whatever the data. */
  function Constant(o: Operand): Option<FieldValue> {
    match o
    case IntLiteral(i) => Some(Integer(i))
    case DoubleLiteral(d) => Some(Double(d))
    case Arithmetic(l, op, r) =>
      if l.IntLiteral? && r.IntLiteral? then Some(Integer(Apply(op, l.i, r.i)))
      else if l.DoubleLiteral? && r.DoubleLiteral? then Some(Double(if op == Add then l.d + r.d else l.d - r.d))
      else None
    case _ => None
  }

  predicate HasConstant(items: seq<Operand>, v: FieldValue) {
    exists o <- items :: Constant(o) == Some(v)
  }

  /** No item may appear with new data, and next to a field minus itself both
      zeros are in the list anyway. */
  predicate Settled(items: seq<Operand>) {
    && (forall o <- items :: !MayAppear(o))
    && ((exists o <- items :: SelfDifference(o)) ==> HasConstant(items, Integer(0)) && HasConstant(items, Double(0.0)))
  }

  predicate SettledLists(c: Condition) {
    match c
    case And(x, y) => SettledLists(x) && SettledLists(y)
    case Or(x, y) => SettledLists(x) && SettledLists(y)
    case Not(x) => SettledLists(x)
    case In(_, list) => list.ListLiteral? ==> Settled(list.items)
    case _ => true
  }

  lemma ValueKinds(o: Operand, ctx: EvalContext)
    requires Grammar.IsBase(o) && Resolve(o, ctx).Found?
    ensures Resolve(o, ctx).value.Integer? ==> CanBeInteger(o)
    ensures Resolve(o, ctx).value.Double? ==> CanBeDouble(o)
    ensures Resolve(o, ctx).value.Timestamp? ==> CanBeTime(o)
  {
  }

  lemma CannotCombine(o: Operand, ctx: EvalContext)
    requires Grammar.IsOperand(o) && o.Arithmetic? && !Combinable(o.left, o.right)
    ensures Resolve(o, ctx).Missing?
  {
    if Resolve(o.left, ctx).Found? {
      ValueKinds(o.left, ctx);
      if !o.right.DurationLiteral? && Resolve(o.right, ctx).Found? {
        ValueKinds(o.right, ctx);
      }
    }
  }

  lemma OnlySelfDifference(o: Operand, ctx: EvalContext)
    requires !Stable(o) && !MayAppear(o) && Resolve(o, ctx).Found?
    ensures SelfDifference(o)
  {
    if !Combinable(o.left, o.right) {
      CannotCombine(o, ctx);
    }
  }

  lemma SelfDifferenceIsZero(o: Operand, ctx: EvalContext)
    requires SelfDifference(o) && Resolve(o, ctx).Found?
    ensures Resolve(o, ctx).value == Integer(0) || Resolve(o, ctx).value == Double(0.0)
  {
  }

  lemma ConstantResolves(o: Operand, ctx: EvalContext)
    requires Constant(o).Some?
    ensures Resolve(o, ctx) == Found(Constant(o).value)
  {
  }

  lemma {:induction false} TemplateFixed(t: PathTemplate, small: EvalContext, big: EvalContext)
    requires Extends(small, big)
    ensures ResolveParts(t, small) == ResolveParts(t, big)
  {
    if t != [] { TemplateFixed(t[1..], small, big); }
  }

  lemma {:induction false} ResolveMonotone(o: Operand, small: EvalContext, big: EvalContext)
    requires Extends(small, big)
    ensures Resolve(o, small).Found? || Stable(o) ==> Resolve(o, big) == Resolve(o, small)
  {
    match o
    case Arithmetic(l, _, r) => ResolveMonotone(l, small, big); ResolveMonotone(r, small, big);
    case CrossDocumentExists(t) => TemplateFixed(t, small, big);
    case CrossDocumentGet(t, _) => TemplateFixed(t, small, big);
    case _ =>
  }

  lemma EqualMonotone(l: Operand, r: Operand, small: EvalContext, big: EvalContext)
    requires Extends(small, big) && CompareEqual(l, r, small).Found?
    ensures CompareEqual(l, r, big) == CompareEqual(l, r, small)
  {
    ResolveMonotone(l, small, big);
    ResolveMonotone(r, small, big);
  }

  lemma CompareMonotone(l: Operand, op: CompareOp, r: Operand, small: EvalContext, big: EvalContext)
    requires Extends(small, big) && EvalCompare(l, op, r, small).Found?
    ensures EvalCompare(l, op, r, big) == EvalCompare(l, op, r, small)
  {
    if op == Eq || op == Ne {
      EqualMonotone(l, r, small, big);
    } else {
      ResolveMonotone(l, small, big);
      ResolveMonotone(r, small, big);
    }
  }

  /** An item that gains a value with new data gains one the list had before. */
  lemma AppearedBefore(v: FieldValue, items: seq<Operand>, k: nat, small: EvalContext, big: EvalContext)
    requires Extends(small, big) && Settled(items) && k < |items| && Resolve(items[k], big) == Found(v)
    ensures AnyItem(v, items, small)
  {
    var o := items[k];
    ResolveMonotone(o, small, big);
    if Resolve(o, small) != Found(v) {
      assert o in items && !MayAppear(o);
      OnlySelfDifference(o, big);
      SelfDifferenceIsZero(o, big);
      var z :| z in items && Constant(z) == Some(v);
      ConstantResolves(z, small);
    }
  }

  lemma ItemsFixed(v: FieldValue, items: seq<Operand>, small: EvalContext, big: EvalContext)
    requires Extends(small, big) && Settled(items)
    ensures AnyItem(v, items, small) == AnyItem(v, items, big)
  {
    if k :| 0 <= k < |items| && Resolve(items[k], small) == Found(v) {
      ResolveMonotone(items[k], small, big);
    }
    if k :| 0 <= k < |items| && Resolve(items[k], big) == Found(v) {
      AppearedBefore(v, items, k, small, big);
    }
  }

  /** A definite result survives every extension of the data. */
  lemma {:induction false} EvalMonotone(c: Condition, small: EvalContext, big: EvalContext)
    requires Extends(small, big) && SettledLists(c) && EvalBool(c, small).Found?
    ensures EvalBool(c, big) == EvalBool(c, small)
  {
    match c
    case Literal(_) =>
    case Not(x) => EvalMonotone(x, small, big);
    case And(x, y) =>
      EvalMonotone(x, small, big);
      if EvalBool(x, small) == Found(true) { EvalMonotone(y, small, big); }
    case Or(x, y) =>
      if EvalBool(x, small).Found? { EvalMonotone(x, small, big); }
      if EvalBool(y, small).Found? { EvalMonotone(y, small, big); }
    case Compare(l, op, r) => CompareMonotone(l, op, r, small, big);
    case In(l, list) =>
      ResolveMonotone(l, small, big);
      if list.ListLiteral? { ItemsFixed(Resolve(l, small).value, list.items, small, big); }
  }

  /** Removing data never turns Deny into Allow. */
  lemma RemovingDataNeverAllows(c: Condition, small: EvalContext, big: EvalContext)
    requires Extends(small, big) && SettledLists(c) && Evaluate(c, big) == Deny
    ensures Evaluate(c, small) == Deny
  {
    if Evaluate(c, small) == Allow { EvalMonotone(c, small, big); }
  }
}
