/** Exactly which lists make membership independent of growing data, for every
    list the parser can produce, and what goes wrong with the others: a negated
    membership that is granted by the absence of a field. */
module ListMembership {
  import opened Values
  import opened Conditions
  import opened Evaluator
  import opened FailClosed
  import EvaluatorLaws
  import Grammar

  predicate Parsable(items: seq<Operand>) {
    forall o <- items :: Grammar.IsOperand(o)
  }

  ghost predicate MembershipFixed(items: seq<Operand>) {
    forall v, small, big :: Extends(small, big) ==> AnyItem(v, items, small) == AnyItem(v, items, big)
  }

  /** A signed-in caller and a document, and nothing known about either. */
  const BASE: EvalContext := EvalContext(Some(AuthContext("u", map[])), map[], map[], Some("d"), map[], None, map[])

  // ----- Giving an operand a value -----

  predicate Varies(o: Operand) {
    o.ResourceField? || o.RequestResourceField? || o.AuthTokenClaim? || o.RequestTime?
  }

  /** The context in which `o` has also the value `v`. */
  function Give(ctx: EvalContext, o: Operand, v: FieldValue): EvalContext
    requires ctx.auth.Some?
  {
    match o
    case ResourceField(n) => ctx.(resource := ctx.resource[n := v])
    case RequestResourceField(n) => ctx.(requestResource := ctx.requestResource[n := v])
    case AuthTokenClaim(n) => ctx.(auth := Some(ctx.auth.value.(claims := ctx.auth.value.claims[n := v])))
    case RequestTime => if v.Timestamp? then ctx.(requestTime := Some(v)) else ctx
    case _ => ctx
  }

  lemma Given(ctx: EvalContext, o: Operand, v: FieldValue)
    requires ctx.auth.Some? && Varies(o) && Resolve(o, ctx).Missing? && (o.RequestTime? ==> v.Timestamp?)
    ensures Extends(ctx, Give(ctx, o, v)) && Resolve(o, Give(ctx, o, v)) == Found(v)
    ensures forall n :: n in Give(ctx, o, v).resource ==> n in ctx.resource || o == ResourceField(n)
  {
  }

  lemma OthersKept(ctx: EvalContext, o: Operand, v: FieldValue, other: Operand)
    requires ctx.auth.Some? && Varies(o) && Resolve(o, ctx).Missing? && (o.RequestTime? ==> v.Timestamp?)
    requires Grammar.IsBase(other) && other != o
    ensures Resolve(other, Give(ctx, o, v)) == Resolve(other, ctx)
  {
    Given(ctx, o, v);
    if other.CrossDocumentExists? || other.CrossDocumentGet? {
      TemplateFixed(other.template, ctx, Give(ctx, o, v));
    }
  }

  // ----- The values an operand can be given -----

  datatype Kind = IntKind | RealKind | TimeKind

  function KindOf(o: Operand): Kind {
    if o.RequestTime? then TimeKind
    else if !o.Arithmetic? then IntKind
    else if o.right.DurationLiteral? then TimeKind
    else if CanBeDouble(o.left) && CanBeDouble(o.right) then RealKind
    else IntKind
  }

  /** 2^64 different values of each kind. */
  function Nth(kind: Kind, j: int): FieldValue {
    match kind
    case IntKind => Integer(j - I64_HALF)
    case RealKind => Double(j as real)
    case TimeKind => Timestamp(j - I64_HALF, 0)
  }

  /** The documents fetched so that a `get` beside a field has the value zero. */
  function Background(o: Operand): EvalContext {
    if o.Arithmetic? && o.left.CrossDocumentGet? then Fetched(o.left.template, o.left.field)
    else if o.Arithmetic? && o.right.CrossDocumentGet? then Fetched(o.right.template, o.right.field)
    else BASE
  }

  function Fetched(t: PathTemplate, field: string): EvalContext {
    match ResolveTemplate(t, BASE)
    case Missing => BASE
    case Found(p) => BASE.(crossReads := map[p := Some(map[field := Double(0.0)])])
  }

  lemma {:induction false} PartsResolve(t: PathTemplate, fetched: CrossReads)
    ensures ResolveParts(t, BASE).Found? && ResolveParts(t, BASE.(crossReads := fetched)) == ResolveParts(t, BASE)
  {
    if t != [] {
      PartsResolve(t[1..], fetched);
    }
  }

  lemma FetchedGets(t: PathTemplate, field: string)
    ensures Resolve(CrossDocumentGet(t, field), Fetched(t, field)) == Found(Double(0.0))
  {
    PartsResolve(t, Fetched(t, field).crossReads);
  }

  lemma BackgroundKnowsNothing(o: Operand, other: Operand)
    requires Varies(other)
    ensures Background(o).auth.Some? && Background(o).resource == map[] && Resolve(other, Background(o)).Missing?
  {
  }

  lemma WrapUndo(t: int, d: int)
    requires -I64_HALF <= t < I64_HALF
    ensures WrapI64(WrapI64(t - d) + d) == t && WrapI64(WrapI64(t + d) - d) == t && WrapI64(d - WrapI64(d - t)) == t
  {
    EvaluatorLaws.WrapShift(t, -((t - d + I64_HALF) / I64_MODULUS));
    EvaluatorLaws.WrapShift(t, -((t + d + I64_HALF) / I64_MODULUS));
    EvaluatorLaws.WrapShift(t, (d - t + I64_HALF) / I64_MODULUS);
  }

  /** `big` adds data to the background of `o` that gives `o` the value `v`. */
  predicate Raises(o: Operand, big: EvalContext, v: FieldValue) {
    && Extends(Background(o), big) && Resolve(o, big) == Found(v)
    && (forall n :: n in big.resource ==> Mentions(o, n))
  }

  predicate Mentions(o: Operand, field: string) {
    o == ResourceField(field) ||
    (o.Arithmetic? && (o.left == ResourceField(field) || o.right == ResourceField(field)))
  }

  lemma RaiseSimple(o: Operand, v: FieldValue)
    requires Varies(o) && (o.RequestTime? ==> v.Timestamp?)
    ensures Raises(o, Give(BASE, o, v), v)
  {
    Given(BASE, o, v);
  }

  lemma RaiseTime(l: Operand, op: ArithmeticOp, amount: int, unit: DurationUnit, t: int) returns (big: EvalContext)
    requires Varies(l) && -I64_HALF <= t < I64_HALF
    ensures Raises(Arithmetic(l, op, DurationLiteral(amount, unit)), big, Timestamp(t, 0))
  {
    var o, d := Arithmetic(l, op, DurationLiteral(amount, unit)), UnitSeconds(unit, amount);
    WrapUndo(t, d);
    var x := Timestamp(if op == Add then WrapI64(t - d) else WrapI64(t + d), 0);
    Given(BASE, l, x);
    big := Give(BASE, l, x);
  }

  lemma RaiseIntegerLeft(l: Operand, op: ArithmeticOp, c: int, t: int) returns (big: EvalContext)
    requires Varies(l) && !l.RequestTime? && -I64_HALF <= t < I64_HALF
    ensures Raises(Arithmetic(l, op, IntLiteral(c)), big, Integer(t))
  {
    WrapUndo(t, c);
    var x := Integer(if op == Add then WrapI64(t - c) else WrapI64(t + c));
    Given(BASE, l, x);
    big := Give(BASE, l, x);
  }

  lemma RaiseIntegerRight(c: int, op: ArithmeticOp, r: Operand, t: int) returns (big: EvalContext)
    requires Varies(r) && !r.RequestTime? && -I64_HALF <= t < I64_HALF
    ensures Raises(Arithmetic(IntLiteral(c), op, r), big, Integer(t))
  {
    WrapUndo(t, c);
    var x := Integer(if op == Add then WrapI64(t - c) else WrapI64(c - t));
    Given(BASE, r, x);
    big := Give(BASE, r, x);
  }

  lemma DoublesCombine(l: Operand, op: ArithmeticOp, r: Operand, ctx: EvalContext, x: real, y: real)
    requires Resolve(l, ctx) == Found(Double(x)) && Resolve(r, ctx) == Found(Double(y))
    ensures Resolve(Arithmetic(l, op, r), ctx) == Found(Double(if op == Add then x + y else x - y))
  {
  }

  /** A field beside an operand whose value is the double `p`. */
  lemma RaiseDoubleLeft(l: Operand, op: ArithmeticOp, r: Operand, ctx: EvalContext, p: real, v: real)
      returns (big: EvalContext)
    requires ctx.auth.Some? && l != r && Grammar.IsBase(r) && Varies(l) && !l.RequestTime?
    requires Resolve(l, ctx).Missing? && Resolve(r, ctx) == Found(Double(p))
    ensures Extends(ctx, big) && Resolve(Arithmetic(l, op, r), big) == Found(Double(v))
    ensures forall n :: n in big.resource ==> n in ctx.resource || Mentions(Arithmetic(l, op, r), n)
  {
    var x := if op == Add then v - p else v + p;
    Given(ctx, l, Double(x));
    OthersKept(ctx, l, Double(x), r);
    big := Give(ctx, l, Double(x));
    DoublesCombine(l, op, r, big, x, p);
  }

  lemma RaiseDoubleRight(l: Operand, op: ArithmeticOp, r: Operand, ctx: EvalContext, p: real, v: real)
      returns (big: EvalContext)
    requires ctx.auth.Some? && l != r && Grammar.IsBase(l) && Varies(r) && !r.RequestTime?
    requires Resolve(r, ctx).Missing? && Resolve(l, ctx) == Found(Double(p))
    ensures Extends(ctx, big) && Resolve(Arithmetic(l, op, r), big) == Found(Double(v))
    ensures forall n :: n in big.resource ==> n in ctx.resource || Mentions(Arithmetic(l, op, r), n)
  {
    var x := if op == Add then v - p else p - v;
    Given(ctx, r, Double(x));
    OthersKept(ctx, r, Double(x), l);
    big := Give(ctx, r, Double(x));
    DoublesCombine(l, op, r, big, p, x);
  }

  lemma RaiseTwice(l: Operand, v: real)
    requires Varies(l) && Open(l)
    ensures Raises(Arithmetic(l, Add, l), Give(BASE, l, Double(v / 2.0)), Double(v))
  {
    Given(BASE, l, Double(v / 2.0));
  }

  lemma RaiseTwoFields(l: Operand, op: ArithmeticOp, r: Operand, v: real) returns (big: EvalContext)
    requires Varies(l) && Varies(r) && Open(l) && Open(r) && l != r
    ensures Raises(Arithmetic(l, op, r), big, Double(v))
  {
    Given(BASE, r, Double(0.0));
    OthersKept(BASE, r, Double(0.0), l);
    var ctx := Give(BASE, r, Double(0.0));
    big := RaiseDoubleLeft(l, op, r, ctx, 0.0, v);
    ExtendsTransitive(BASE, ctx, big);
  }

  lemma ExtendsTransitive(a: EvalContext, b: EvalContext, c: EvalContext)
    requires Extends(a, b) && Extends(b, c)
    ensures Extends(a, c)
  {
  }

  lemma RaiseReal(l: Operand, op: ArithmeticOp, r: Operand, v: real) returns (big: EvalContext)
    requires CanBeDouble(l) && CanBeDouble(r) && (Varies(l) || Varies(r)) && !SelfDifference(Arithmetic(l, op, r))
    ensures Raises(Arithmetic(l, op, r), big, Double(v))
  {
    var o := Arithmetic(l, op, r);
    if l == r {
      RaiseTwice(l, v);
      big := Give(BASE, l, Double(v / 2.0));
    } else if Varies(l) && Varies(r) {
      big := RaiseTwoFields(l, op, r, v);
    } else {
      var ctx, side := Background(o), if Varies(l) then r else l;
      BackgroundKnowsNothing(o, if Varies(l) then l else r);
      var p := if side.DoubleLiteral? then side.d else 0.0;
      if side.CrossDocumentGet? {
        FetchedGets(side.template, side.field);
      }
      if Varies(l) {
        big := RaiseDoubleLeft(l, op, r, ctx, p, v);
      } else {
        big := RaiseDoubleRight(l, op, r, ctx, p, v);
      }
    }
  }

  lemma BaseVaries(o: Operand)
    requires Grammar.IsBase(o) || o.DurationLiteral?
    ensures Stable(o) <==> !Varies(o)
  {
  }

  /** An operand that may appear can be given each of the values of its kind. */
  lemma Raise(o: Operand, j: nat) returns (big: EvalContext)
    requires Grammar.IsOperand(o) && MayAppear(o) && j < I64_MODULUS
    ensures Raises(o, big, Nth(KindOf(o), j))
  {
    if !o.Arithmetic? {
      RaiseSimple(o, Nth(KindOf(o), j));
      big := Give(BASE, o, Nth(KindOf(o), j));
      return;
    }
    BaseVaries(o.left);
    BaseVaries(o.right);
    if o.right.DurationLiteral? {
      big := RaiseTime(o.left, o.aop, o.right.amount, o.right.unit, j - I64_HALF);
    } else if KindOf(o) == RealKind {
      big := RaiseReal(o.left, o.aop, o.right, j as real);
    } else if Varies(o.left) {
      big := RaiseIntegerLeft(o.left, o.aop, o.right.i, j - I64_HALF);
    } else {
      big := RaiseIntegerRight(o.left.i, o.aop, o.right, j - I64_HALF);
    }
  }

  // ----- A value no item has yet -----

  function ItemValues(items: seq<Operand>, ctx: EvalContext): set<FieldValue> {
    if items == [] then {}
    else ItemValues(items[1..], ctx) + match Resolve(items[0], ctx) case Found(v) => {v} case Missing => {}
  }

  lemma {:induction false} ValuesAreItems(items: seq<Operand>, ctx: EvalContext, v: FieldValue)
    ensures v in ItemValues(items, ctx) <==> AnyItem(v, items, ctx)
  {
    if items != [] {
      ValuesAreItems(items[1..], ctx, v);
      if AnyItem(v, items, ctx) && Resolve(items[0], ctx) != Found(v) {
        var i :| 0 <= i < |items| && Resolve(items[i], ctx) == Found(v);
        assert items[1..][i - 1] == items[i];
      }
      if AnyItem(v, items[1..], ctx) {
        var i :| 0 <= i < |items[1..]| && Resolve(items[1..][i], ctx) == Found(v);
        assert items[i + 1] == items[1..][i];
      }
    }
  }

  lemma {:induction false} FewerValues(items: seq<Operand>, ctx: EvalContext)
    ensures |ItemValues(items, ctx)| <= |items|
    ensures (exists k :: 0 <= k < |items| && Resolve(items[k], ctx).Missing?) ==> |ItemValues(items, ctx)| < |items|
  {
    if items != [] {
      FewerValues(items[1..], ctx);
      if k :| 0 <= k < |items| && Resolve(items[k], ctx).Missing? {
        assert k > 0 ==> items[1..][k - 1] == items[k];
      }
    }
  }

  lemma {:induction false} FreeValue(kind: Kind, taken: set<FieldValue>, n: nat) returns (j: nat)
    requires |taken| < n
    ensures j < n && Nth(kind, j) !in taken
    decreases n
  {
    var last := Nth(kind, n - 1);
    if last !in taken {
      j := n - 1;
    } else {
      j := FreeValue(kind, taken - {last}, n - 1);
    }
  }

  /** A list with such an item has a value only from some added data on. */
  lemma AppearsLater(items: seq<Operand>, k: nat) returns (small: EvalContext, big: EvalContext, v: FieldValue)
    requires Parsable(items) && |items| <= I64_MODULUS && k < |items| && MayAppear(items[k])
    ensures Extends(small, big) && !AnyItem(v, items, small) && AnyItem(v, items, big)
    ensures small.resource == map[] && forall n :: n in big.resource ==> Mentions(items[k], n)
  {
    var o := items[k];
    assert o in items;
    small := Background(o);
    MissingInBackground(o);
    FewerValues(items, small);
    var j := FreeValue(KindOf(o), ItemValues(items, small), |items|);
    v := Nth(KindOf(o), j);
    ValuesAreItems(items, small, v);
    big := Raise(o, j);
  }

  lemma MissingInBackground(o: Operand)
    requires Grammar.IsOperand(o) && !Stable(o)
    ensures Resolve(o, Background(o)).Missing? && Background(o).resource == map[]
  {
    if o.Arithmetic? {
      BackgroundKnowsNothing(o, if Varies(o.left) then o.left else o.right);
    } else {
      BackgroundKnowsNothing(o, o);
    }
  }

  // ----- A field minus itself -----

  lemma NumbersAreConstant(o: Operand)
    requires Grammar.IsOperand(o) && Resolve(o, BASE).Found?
    requires Resolve(o, BASE).value.Integer? || Resolve(o, BASE).value.Double?
    ensures Constant(o) == Some(Resolve(o, BASE).value)
  {
  }

  lemma ZeroAppearsLater(items: seq<Operand>, k: nat, zero: FieldValue) returns (big: EvalContext)
    requires Parsable(items) && k < |items| && SelfDifference(items[k])
    requires (zero == Integer(0) || zero == Double(0.0)) && !HasConstant(items, zero)
    ensures Extends(BASE, big) && !AnyItem(zero, items, BASE) && AnyItem(zero, items, big)
    ensures forall n :: n in big.resource ==> Mentions(items[k], n)
  {
    forall i | 0 <= i < |items| ensures Resolve(items[i], BASE) != Found(zero) {
      assert items[i] in items;
      if Resolve(items[i], BASE) == Found(zero) {
        NumbersAreConstant(items[i]);
      }
    }
    var one := if zero.Integer? then Integer(1) else Double(1.0);
    Given(BASE, items[k].left, one);
    big := Give(BASE, items[k].left, one);
    assert Resolve(items[k], big) == Found(zero);
  }

  /** Every list that is not settled has a value only from some added data on. */
  lemma UnsettledChanges(items: seq<Operand>)
      returns (small: EvalContext, big: EvalContext, v: FieldValue, k: nat)
    requires Parsable(items) && |items| <= I64_MODULUS && !Settled(items)
    ensures Extends(small, big) && !AnyItem(v, items, small) && AnyItem(v, items, big)
    ensures k < |items| && small.resource == map[] && forall n :: n in big.resource ==> Mentions(items[k], n)
  {
    if i :| 0 <= i < |items| && MayAppear(items[i]) {
      k := i;
      small, big, v := AppearsLater(items, k);
    } else {
      var o :| o in items && SelfDifference(o);
      k :| k < |items| && items[k] == o;
      v := if HasConstant(items, Integer(0)) then Double(0.0) else Integer(0);
      small := BASE;
      big := ZeroAppearsLater(items, k, v);
    }
  }

  /** Membership ignores growing data if and only if the list is settled, for
      every list of operands that fits a machine. */
  lemma MembershipFixedIff(items: seq<Operand>)
    requires Parsable(items) && |items| <= I64_MODULUS
    ensures MembershipFixed(items) <==> Settled(items)
  {
    if Settled(items) {
      forall v, small, big | Extends(small, big) ensures AnyItem(v, items, small) == AnyItem(v, items, big) {
        ItemsFixed(v, items, small, big);
      }
    } else {
      var small, big, v, k := UnsettledChanges(items);
    }
  }

  // ----- The rule that is granted by absence -----

  function LongestField(items: seq<Operand>): (n: nat)
    ensures forall o <- items, f: string | Mentions(o, f) :: |f| <= n
  {
    if items == [] then 0
    else
      var rest, here := LongestField(items[1..]), FieldLength(items[0]);
      if here > rest then here else rest
  }

  function FieldLength(o: Operand): (n: nat)
    ensures forall f: string | Mentions(o, f) :: |f| <= n
  {
    if o.ResourceField? then |o.field|
    else if o.Arithmetic? then
      (if o.left.ResourceField? then |o.left.field| else 0) + (if o.right.ResourceField? then |o.right.field| else 0)
    else 0
  }

  /** A field name that no item uses. */
  function FreshField(items: seq<Operand>): string {
    seq(LongestField(items) + 1, i => 'f')
  }

  function WithField(ctx: EvalContext, field: string, v: FieldValue): EvalContext {
    ctx.(resource := ctx.resource[field := v])
  }

  lemma FreshIsIrrelevant(o: Operand, ctx: EvalContext, field: string, v: FieldValue)
    requires Grammar.IsOperand(o) && !Mentions(o, field) && field !in ctx.resource
    ensures Resolve(o, WithField(ctx, field, v)) == Resolve(o, ctx)
  {
    if o.Arithmetic? {
      BaseIgnoresField(o.left, ctx, field, v);
      if !o.right.DurationLiteral? {
        BaseIgnoresField(o.right, ctx, field, v);
      }
    } else {
      BaseIgnoresField(o, ctx, field, v);
    }
  }

  lemma BaseIgnoresField(o: Operand, ctx: EvalContext, field: string, v: FieldValue)
    requires Grammar.IsBase(o) && o != ResourceField(field) && field !in ctx.resource
    ensures Resolve(o, WithField(ctx, field, v)) == Resolve(o, ctx)
  {
    if o.CrossDocumentExists? || o.CrossDocumentGet? {
      TemplateFixed(o.template, ctx, WithField(ctx, field, v));
    }
  }

  function NotIn(field: string, items: seq<Operand>): Condition {
    Not(In(ResourceField(field), ListLiteral(items)))
  }

  lemma NotInMeans(items: seq<Operand>, ctx: EvalContext, field: string, v: FieldValue)
    requires Parsable(items) && field !in ctx.resource && forall o <- items :: !Mentions(o, field)
    ensures Evaluate(NotIn(field, items), WithField(ctx, field, v)) == if AnyItem(v, items, ctx) then Deny else Allow
  {
    var with := WithField(ctx, field, v);
    forall i | 0 <= i < |items| ensures Resolve(items[i], with) == Resolve(items[i], ctx) {
      assert items[i] in items;
      FreshIsIrrelevant(items[i], ctx, field, v);
    }
    assert EvalBool(In(ResourceField(field), ListLiteral(items)), with) == Found(AnyItem(v, items, ctx));
  }

  /** For every list that is not settled there is a rule the parser accepts, a
      field not in the list, that allows while some data is absent and denies
      once it is there. */
  lemma UnsettledGrantsByAbsence(items: seq<Operand>) returns (field: string, small: EvalContext, big: EvalContext)
    requires Parsable(items) && |items| <= I64_MODULUS && !Settled(items)
    ensures Grammar.WellFormed(NotIn(field, items)) && Extends(small, big)
    ensures Evaluate(NotIn(field, items), small) == Allow && Evaluate(NotIn(field, items), big) == Deny
  {
    var less, more, v, k := UnsettledChanges(items);
    field := FreshField(items);
    assert items[k] in items && forall o <- items :: !Mentions(o, field);
    small, big := WithField(less, field, v), WithField(more, field, v);
    NotInMeans(items, less, field, v);
    NotInMeans(items, more, field, v);
  }

  /** So "field not in list" fails closed for every field exactly when the list is settled. */
  lemma NotInFailsClosedIff(items: seq<Operand>)
    requires Parsable(items) && |items| <= I64_MODULUS
    ensures Settled(items) <==>
      forall field, small, big :: Extends(small, big) && Evaluate(NotIn(field, items), big) == Deny ==>
        Evaluate(NotIn(field, items), small) == Deny
  {
    if Settled(items) {
      forall field, small, big | Extends(small, big) && Evaluate(NotIn(field, items), big) == Deny
        ensures Evaluate(NotIn(field, items), small) == Deny
      {
        RemovingDataNeverAllows(NotIn(field, items), small, big);
      }
    } else {
      var field, small, big := UnsettledGrantsByAbsence(items);
    }
  }
}
