/** Cross-document path discovery (access_control/mod.rs): the walk that decides
    which documents to fetch before a condition is evaluated. */
module Discovery {
  import opened Values
  import opened Conditions
  import opened Evaluator

  function TemplatePaths(t: PathTemplate, ctx: EvalContext): set<string> {
    match ResolveTemplate(t, ctx) case Found(p) => {p} case Missing => {}
  }

  function OperandPaths(o: Operand, ctx: EvalContext): set<string>
    decreases o
  {
    match o
    case CrossDocumentExists(t) => TemplatePaths(t, ctx)
    case CrossDocumentGet(t, _) => TemplatePaths(t, ctx)
    case Arithmetic(l, _, r) => OperandPaths(l, ctx) + OperandPaths(r, ctx)
    case ListLiteral(items) => ItemsPaths(items, ctx)
    case _ => {}
  }

  function ItemsPaths(items: seq<Operand>, ctx: EvalContext): set<string>
    decreases items
  {
    if items == [] then {} else OperandPaths(items[0], ctx) + ItemsPaths(items[1..], ctx)
  }

  function ConditionPaths(c: Condition, ctx: EvalContext): set<string> {
    match c
    case Literal(_) => {}
    case Not(x) => ConditionPaths(x, ctx)
    case And(x, y) => ConditionPaths(x, ctx) + ConditionPaths(y, ctx)
    case Or(x, y) => ConditionPaths(x, ctx) + ConditionPaths(y, ctx)
    case Compare(l, _, r) => OperandPaths(l, ctx) + OperandPaths(r, ctx)
    case In(l, list) => OperandPaths(l, ctx) + OperandPaths(list, ctx)
  }

  // ----- The walk as it runs -----

  method ResolvePathTemplate(t: PathTemplate, ctx: EvalContext) returns (r: Lookup<string>)
    ensures r == ResolveTemplate(t, ctx)
  {
    var parts: seq<string> := [];
    ghost var whole := ResolveParts(t, ctx);
    assert t[0..] == t && (whole.Found? ==> [] + whole.value == whole.value);
    for i := 0 to |t|
      invariant whole == match ResolveParts(t[i..], ctx) case Found(ps) => Found(parts + ps) case Missing => Missing
    {
      assert t[i..][1..] == t[i + 1..];
      var part := ResolveSegment(t[i], ctx);
      if part.Missing? { return Missing; }
      ghost var later := ResolveParts(t[i + 1..], ctx);
      if later.Found? { assert parts + ([part.value] + later.value) == (parts + [part.value]) + later.value; }
      parts := parts + [part.value];
    }
    assert parts + [] == parts;
    r := Found(JoinSlash(parts));
  }

  class PathCollector {
    var paths: set<string>

    constructor ()
      ensures paths == {}
    {
      paths := {};
    }

    method WalkTemplate(t: PathTemplate, ctx: EvalContext)
      modifies this
      ensures paths == old(paths) + TemplatePaths(t, ctx)
    {
      var path := ResolvePathTemplate(t, ctx);
      if path.Found? { paths := paths + {path.value}; }
    }

    method WalkOperand(o: Operand, ctx: EvalContext)
      modifies this
      ensures paths == old(paths) + OperandPaths(o, ctx)
      decreases o
    {
      match o
      case CrossDocumentExists(t) => WalkTemplate(t, ctx);
      case CrossDocumentGet(t, _) => WalkTemplate(t, ctx);
      case Arithmetic(l, _, r) =>
        WalkOperand(l, ctx);
        WalkOperand(r, ctx);
      case ListLiteral(items) =>
        for i := 0 to |items|
          invariant paths + ItemsPaths(items[i..], ctx) == old(paths) + ItemsPaths(items, ctx)
        {
          assert items[i..][1..] == items[i + 1..];
          WalkOperand(items[i], ctx);
        }
      case _ =>
    }

    method WalkCondition(c: Condition, ctx: EvalContext)
      modifies this
      ensures paths == old(paths) + ConditionPaths(c, ctx)
    {
      match c
      case Literal(_) =>
      case Not(x) => WalkCondition(x, ctx);
      case And(x, y) => WalkCondition(x, ctx); WalkCondition(y, ctx);
      case Or(x, y) => WalkCondition(x, ctx); WalkCondition(y, ctx);
      case Compare(l, _, r) => WalkOperand(l, ctx); WalkOperand(r, ctx);
      case In(l, list) => WalkOperand(l, ctx); WalkOperand(list, ctx);
    }
  }

  method DiscoverCrossDocumentPaths(c: Condition, ctx: EvalContext) returns (paths: set<string>)
    ensures paths == ConditionPaths(c, ctx)
  {
    var collector := new PathCollector();
    collector.WalkCondition(c, ctx);
    paths := collector.paths;
  }

  // ----- Discovery suffices -----

  /** `one` and `two` show the evaluator the same documents on `paths`. */
  predicate Agree(one: CrossReads, two: CrossReads, paths: set<string>) {
    forall p <- paths :: Document(one, p) == Document(two, p)
  }

  lemma {:induction false} TemplateIgnoresReads(t: PathTemplate, ctx: EvalContext, one: CrossReads)
    ensures ResolveParts(t, ctx.(crossReads := one)) == ResolveParts(t, ctx)
  {
    if t != [] { TemplateIgnoresReads(t[1..], ctx, one); }
  }

  lemma {:induction false} OperandNeeds(o: Operand, ctx: EvalContext, one: CrossReads, two: CrossReads)
    requires Agree(one, two, OperandPaths(o, ctx))
    ensures Resolve(o, ctx.(crossReads := one)) == Resolve(o, ctx.(crossReads := two))
  {
    if o.CrossDocumentExists? || o.CrossDocumentGet? {
      TemplateIgnoresReads(o.template, ctx, one);
      TemplateIgnoresReads(o.template, ctx, two);
    } else if o.Arithmetic? {
      OperandNeeds(o.left, ctx, one, two);
      OperandNeeds(o.right, ctx, one, two);
    }
  }

  lemma {:induction false} ItemPaths(items: seq<Operand>, i: nat, ctx: EvalContext)
    requires i < |items|
    ensures OperandPaths(items[i], ctx) <= ItemsPaths(items, ctx)
  {
    if i > 0 {
      assert items[i] == items[1..][i - 1];
      ItemPaths(items[1..], i - 1, ctx);
    }
  }

  lemma ItemsNeed(v: FieldValue, items: seq<Operand>, ctx: EvalContext, one: CrossReads, two: CrossReads)
    requires Agree(one, two, ItemsPaths(items, ctx))
    ensures AnyItem(v, items, ctx.(crossReads := one)) == AnyItem(v, items, ctx.(crossReads := two))
  {
    forall i | 0 <= i < |items|
      ensures Resolve(items[i], ctx.(crossReads := one)) == Resolve(items[i], ctx.(crossReads := two))
    {
      ItemPaths(items, i, ctx);
      OperandNeeds(items[i], ctx, one, two);
    }
  }

  lemma EqualNeeds(l: Operand, r: Operand, ctx: EvalContext, one: CrossReads, two: CrossReads)
    requires Agree(one, two, OperandPaths(l, ctx)) && Agree(one, two, OperandPaths(r, ctx))
    ensures CompareEqual(l, r, ctx.(crossReads := one)) == CompareEqual(l, r, ctx.(crossReads := two))
  {
    OperandNeeds(l, ctx, one, two);
    OperandNeeds(r, ctx, one, two);
  }

  lemma CompareNeeds(l: Operand, op: CompareOp, r: Operand, ctx: EvalContext, one: CrossReads, two: CrossReads)
    requires Agree(one, two, OperandPaths(l, ctx)) && Agree(one, two, OperandPaths(r, ctx))
    ensures EvalCompare(l, op, r, ctx.(crossReads := one)) == EvalCompare(l, op, r, ctx.(crossReads := two))
  {
    EqualNeeds(l, r, ctx, one, two);
    OperandNeeds(l, ctx, one, two);
    OperandNeeds(r, ctx, one, two);
  }

  /** Evaluation looks only at the discovered documents: it gives the same
      result on any two fetch results that agree on them. */
  lemma {:induction false} DiscoverySuffices(c: Condition, ctx: EvalContext, one: CrossReads, two: CrossReads)
    requires Agree(one, two, ConditionPaths(c, ctx))
    ensures EvalBool(c, ctx.(crossReads := one)) == EvalBool(c, ctx.(crossReads := two))
  {
    match c
    case Literal(_) =>
    case Not(x) => DiscoverySuffices(x, ctx, one, two);
    case And(x, y) => DiscoverySuffices(x, ctx, one, two); DiscoverySuffices(y, ctx, one, two);
    case Or(x, y) => DiscoverySuffices(x, ctx, one, two); DiscoverySuffices(y, ctx, one, two);
    case Compare(l, op, r) => CompareNeeds(l, op, r, ctx, one, two);
    case In(l, list) =>
      OperandNeeds(l, ctx, one, two);
      if list.ListLiteral? && Resolve(l, ctx.(crossReads := one)).Found? {
        ItemsNeed(Resolve(l, ctx.(crossReads := one)).value, list.items, ctx, one, two);
      }
  }

  /** Fetching just the discovered paths decides as the whole database would. */
  lemma PrefetchDecides(c: Condition, ctx: EvalContext, database: CrossReads)
    ensures var fetched := map p <- ConditionPaths(c, ctx) :: Document(database, p);
      Evaluate(c, ctx.(crossReads := fetched)) == Evaluate(c, ctx.(crossReads := database))
  {
    DiscoverySuffices(c, ctx, map p <- ConditionPaths(c, ctx) :: Document(database, p), database);
  }

  // ----- Nothing else is fetched -----

  /** The operand asks for the document that the template names. */
  predicate Asks(o: Operand, t: PathTemplate)
    decreases o
  {
    match o
    case CrossDocumentExists(u) => u == t
    case CrossDocumentGet(u, _) => u == t
    case Arithmetic(l, _, r) => Asks(l, t) || Asks(r, t)
    case ListLiteral(items) => exists i :: 0 <= i < |items| && Asks(items[i], t)
    case _ => false
  }

  predicate Mentions(c: Condition, t: PathTemplate) {
    match c
    case Literal(_) => false
    case Not(x) => Mentions(x, t)
    case And(x, y) => Mentions(x, t) || Mentions(y, t)
    case Or(x, y) => Mentions(x, t) || Mentions(y, t)
    case Compare(l, _, r) => Asks(l, t) || Asks(r, t)
    case In(l, list) => Asks(l, t) || Asks(list, t)
  }

  lemma {:induction false} OperandPathsIff(o: Operand, ctx: EvalContext, p: string)
    ensures p in OperandPaths(o, ctx) <==> exists t :: Asks(o, t) && ResolveTemplate(t, ctx) == Found(p)
    decreases o, 0
  {
    if o.CrossDocumentExists? || o.CrossDocumentGet? {
      assert Asks(o, o.template);
    } else if o.Arithmetic? {
      OperandPathsIff(o.left, ctx, p);
      OperandPathsIff(o.right, ctx, p);
    } else if o.ListLiteral? {
      ItemsPathsIff(o, 0, ctx, p);
      assert o.items[0..] == o.items;
    }
  }

  lemma {:induction false} ItemsPathsIff(o: Operand, n: nat, ctx: EvalContext, p: string)
    requires o.ListLiteral? && n <= |o.items|
    ensures p in ItemsPaths(o.items[n..], ctx) <==>
      exists t, i :: n <= i < |o.items| && Asks(o.items[i], t) && ResolveTemplate(t, ctx) == Found(p)
    decreases o, 0, |o.items| - n
  {
    if n < |o.items| {
      assert o.items[n..][0] == o.items[n] && o.items[n..][1..] == o.items[n + 1..];
      OperandPathsIff(o.items[n], ctx, p);
      ItemsPathsIff(o, n + 1, ctx, p);
    }
  }

  /** The walk finds exactly the paths that the cross-document operands of the condition name. */
  lemma {:induction false} DiscoversOnlyNamed(c: Condition, ctx: EvalContext, p: string)
    ensures p in ConditionPaths(c, ctx) <==> exists t :: Mentions(c, t) && ResolveTemplate(t, ctx) == Found(p)
  {
    match c
    case Literal(_) =>
    case Not(x) => DiscoversOnlyNamed(x, ctx, p);
    case And(x, y) => DiscoversOnlyNamed(x, ctx, p); DiscoversOnlyNamed(y, ctx, p);
    case Or(x, y) => DiscoversOnlyNamed(x, ctx, p); DiscoversOnlyNamed(y, ctx, p);
    case Compare(l, _, r) => OperandPathsIff(l, ctx, p); OperandPathsIff(r, ctx, p);
    case In(l, list) => OperandPathsIff(l, ctx, p); OperandPathsIff(list, ctx, p);
  }
}
