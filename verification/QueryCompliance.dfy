/** The query-shape check (access_control/mod.rs): deciding from a rule, a query
    filter and the caller alone that every document the query can return would
    be allowed by the rule. */
module QueryCompliance {
  import opened Values
  import opened Conditions
  import opened Evaluator

  datatype FilterOp =
    | LessThan | LessThanOrEqual | GreaterThan | GreaterThanOrEqual | Equal | NotEqual
    | ArrayContains | InValues | NotIn | ArrayContainsAny | IsNan | IsNotNan | IsNull | IsNotNull

  datatype Filter =
    | Field(path: string, op: FilterOp, value: FieldValue)
    | Composite(filters: seq<Filter>)
    | CompositeOr(filters: seq<Filter>)

  /** How the store decides a field filter other than equality. */
  type Operators = (FilterOp, Lookup<FieldValue>, FieldValue) -> bool

  /** The documents a filter selects; an empty OR selects none. */
  predicate Matches(f: Filter, doc: Fields, ops: Operators) {
    match f
    case Field(p, op, v) => if op == Equal then p in doc && doc[p] == v else ops(op, Get(doc, p), v)
    case Composite(fs) => forall g <- fs :: Matches(g, doc, ops)
    case CompositeOr(fs) => exists g <- fs :: Matches(g, doc, ops)
  }

  predicate Selects(filter: Option<Filter>, doc: Fields, ops: Operators) {
    filter.Some? ==> Matches(filter.value, doc, ops)
  }

  datatype Atom = OwnershipEquality(field: string) | LiteralAtom(b: bool) | AuthRequiredAtom

  datatype Unsatisfied = OwnershipFilterMissing(field: string) | DenyAll | AuthRequired

  datatype Verdict = Admitted | Rejected(reasons: seq<Unsatisfied>) | RejectedUnsupportedRuleShape

  function Decompose(c: Condition): Option<seq<Atom>> {
    match c
    case Literal(b) => Some([LiteralAtom(b)])
    case Compare(l, op, r) =>
      if l.AuthNullSentinel? && op == Ne && r.NullLiteral? then Some([AuthRequiredAtom])
      else if l.AuthUid? && op == Eq && r.ResourceField? then Some([OwnershipEquality(r.field)])
      else if l.ResourceField? && op == Eq && r.AuthUid? then Some([OwnershipEquality(l.field)])
      else None
    case And(x, y) =>
      var a, b := Decompose(x), Decompose(y);
      if a.Some? && b.Some? then Some(a.value + b.value) else None
    case _ => None
  }

  predicate Binds(f: Filter, field: string, uid: string) {
    match f
    case Field(p, op, v) => p == field && op == Equal && v == String(uid)
    case Composite(fs) => exists g <- fs :: Binds(g, field, uid)
    case CompositeOr(fs) => forall g <- fs :: Binds(g, field, uid)
  }

  predicate FilterBinds(filter: Option<Filter>, field: string, uid: string) {
    filter.Some? && Binds(filter.value, field, uid)
  }

  /** Why one atom is not satisfied by the query and the caller. */
  function Failure(a: Atom, filter: Option<Filter>, auth: Option<AuthContext>): Option<Unsatisfied> {
    match a
    case LiteralAtom(b) => if b then None else Some(DenyAll)
    case AuthRequiredAtom => if auth.None? then Some(AuthRequired) else None
    case OwnershipEquality(f) =>
      if auth.Some? && FilterBinds(filter, f, auth.value.uid) then None else Some(OwnershipFilterMissing(f))
  }

  function Failures(atoms: seq<Atom>, filter: Option<Filter>, auth: Option<AuthContext>): seq<Unsatisfied> {
    if atoms == [] then []
    else Reasons(atoms[0], filter, auth) + Failures(atoms[1..], filter, auth)
  }

  function Reasons(a: Atom, filter: Option<Filter>, auth: Option<AuthContext>): seq<Unsatisfied> {
    match Failure(a, filter, auth) case Some(u) => [u] case None => []
  }

  function CheckAtoms(atoms: seq<Atom>, filter: Option<Filter>, auth: Option<AuthContext>): Verdict {
    if LiteralAtom(false) in atoms then Rejected([DenyAll]) else
    var reasons := Failures(atoms, filter, auth);
    if reasons == [] then Admitted else Rejected(reasons)
  }

  function Check(c: Condition, filter: Option<Filter>, auth: Option<AuthContext>): Verdict {
    match Decompose(c)
    case None => RejectedUnsupportedRuleShape
    case Some(atoms) => CheckAtoms(atoms, filter, auth)
  }

  method CheckQueryCompliance(c: Condition, filter: Option<Filter>, auth: Option<AuthContext>)
    returns (v: Verdict)
    ensures v == Check(c, filter, auth)
  {
    var decomposed := Decompose(c);
    if decomposed.None? { return RejectedUnsupportedRuleShape; }
    v := CheckEachAtom(decomposed.value, filter, auth);
  }

  method CheckEachAtom(atoms: seq<Atom>, filter: Option<Filter>, auth: Option<AuthContext>)
    returns (v: Verdict)
    ensures v == CheckAtoms(atoms, filter, auth)
  {
    var unsatisfied: seq<Unsatisfied> := [];
    assert atoms[0..] == atoms;
    for i := 0 to |atoms|
      invariant LiteralAtom(false) !in atoms[..i]
      invariant Failures(atoms, filter, auth) == unsatisfied + Failures(atoms[i..], filter, auth)
    {
      if atoms[i] == LiteralAtom(false) { return Rejected([DenyAll]); }
      var reasons := Reasons(atoms[i], filter, auth);
      FailuresStep(atoms, i, unsatisfied, filter, auth);
      unsatisfied := unsatisfied + reasons;
    }
    assert atoms[..|atoms|] == atoms;
    v := if unsatisfied == [] then Admitted else Rejected(unsatisfied);
  }

  lemma FailuresStep(
      atoms: seq<Atom>, i: nat, before: seq<Unsatisfied>, filter: Option<Filter>, auth: Option<AuthContext>)
    requires i < |atoms|
    ensures before + Failures(atoms[i..], filter, auth)
         == (before + Reasons(atoms[i], filter, auth)) + Failures(atoms[i + 1..], filter, auth)
  {
    assert atoms[i..][1..] == atoms[i + 1..];
  }

  // ----- Soundness -----

  /** What an atom demands of a document, in the evaluator's terms. */
  predicate Holds(a: Atom, ctx: EvalContext) {
    match a
    case LiteralAtom(b) => b
    case AuthRequiredAtom => ctx.auth.Some?
    case OwnershipEquality(f) => UidEquals(ctx.resource, f, ctx) == Found(true)
  }

  /** A decomposable rule allows exactly when all its atoms hold. */
  lemma {:induction false} DecomposeExact(c: Condition, ctx: EvalContext)
    requires Decompose(c).Some?
    ensures EvalBool(c, ctx) == Found(true) <==> forall a <- Decompose(c).value :: Holds(a, ctx)
  {
    if c.And? {
      DecomposeExact(c.c0, ctx);
      DecomposeExact(c.c1, ctx);
    } else {
      var atom := Decompose(c).value[0];
      assert atom in Decompose(c).value && forall a <- Decompose(c).value :: a == atom;
      assert EvalBool(c, ctx) == Found(true) <==> Holds(atom, ctx);
    }
  }

  lemma {:induction false} NoFailure(atoms: seq<Atom>, filter: Option<Filter>, auth: Option<AuthContext>)
    ensures forall a <- atoms :: Failure(a, filter, auth).Some? ==>
      Failure(a, filter, auth).value in Failures(atoms, filter, auth)
    ensures forall u <- Failures(atoms, filter, auth) :: exists a <- atoms :: Failure(a, filter, auth) == Some(u)
  {
    if atoms != [] { NoFailure(atoms[1..], filter, auth); }
  }

  /** A binding filter selects only documents that carry the caller's uid. */
  lemma {:induction false} BindingFilterBinds(f: Filter, field: string, uid: string, doc: Fields, ops: Operators)
    requires Binds(f, field, uid) && Matches(f, doc, ops)
    ensures field in doc && doc[field] == String(uid)
  {
    match f
    case Field(_, _, _) =>
    case Composite(fs) =>
      var g :| g in fs && Binds(g, field, uid);
      BindingFilterBinds(g, field, uid, doc, ops);
    case CompositeOr(fs) =>
      var g :| g in fs && Matches(g, doc, ops);
      BindingFilterBinds(g, field, uid, doc, ops);
  }

  /** Admitted: the rule allows every document the query selects. */
  lemma AdmittedIsSound(c: Condition, filter: Option<Filter>, ctx: EvalContext, ops: Operators)
    requires Check(c, filter, ctx.auth) == Admitted && Selects(filter, ctx.resource, ops)
    ensures Evaluate(c, ctx) == Allow
  {
    var atoms := Decompose(c).value;
    NoFailure(atoms, filter, ctx.auth);
    forall a <- atoms ensures Holds(a, ctx) {
      assert Failure(a, filter, ctx.auth).None?;
      if a.OwnershipEquality? {
        BindingFilterBinds(filter.value, a.field, ctx.auth.value.uid, ctx.resource, ops);
      }
    }
    DecomposeExact(c, ctx);
  }

  /** Rejected as deny-all or for want of a caller: the rule denies every document. */
  lemma RejectedIsFinal(c: Condition, filter: Option<Filter>, ctx: EvalContext)
    requires Check(c, filter, ctx.auth).Rejected?
    requires var reasons := Check(c, filter, ctx.auth).reasons; DenyAll in reasons || AuthRequired in reasons
    ensures Evaluate(c, ctx) == Deny
  {
    var atoms := Decompose(c).value;
    var a := FailingAtom(atoms, filter, ctx);
    DecomposeExact(c, ctx);
  }

  lemma FailingAtom(atoms: seq<Atom>, filter: Option<Filter>, ctx: EvalContext) returns (a: Atom)
    requires CheckAtoms(atoms, filter, ctx.auth).Rejected?
    requires var reasons := CheckAtoms(atoms, filter, ctx.auth).reasons; DenyAll in reasons || AuthRequired in reasons
    ensures a in atoms && !Holds(a, ctx)
  {
    if LiteralAtom(false) in atoms {
      a := LiteralAtom(false);
    } else {
      NoFailure(atoms, filter, ctx.auth);
      var u :| u in Failures(atoms, filter, ctx.auth) && (u == DenyAll || u == AuthRequired);
      a :| a in atoms && Failure(a, filter, ctx.auth) == Some(u);
    }
  }

  // ----- Completeness -----

  /** One comparison of a field, and the tests a document passes when it matches
      one branch of a filter. */
  datatype Test = Test(path: string, op: FilterOp, value: FieldValue)

  type Branch = set<Test>

  /** The disjunctive normal form of a filter. */
  function Branches(f: Filter): set<Branch>
    decreases f, 1, 0
  {
    match f
    case Field(p, op, v) => {{Test(p, op, v)}}
    case Composite(_) => AllFrom(f, 0)
    case CompositeOr(_) => AnyFrom(f, 0)
  }

  /** A branch of each filter of an AND, from the `i`th on. */
  function AllFrom(f: Filter, i: nat): set<Branch>
    requires !f.Field? && i <= |f.filters|
    decreases f, 0, |f.filters| - i
  {
    if i == |f.filters| then {{}}
    else
      var first, rest := Branches(f.filters[i]), AllFrom(f, i + 1);
      set a, b | a in first && b in rest :: a + b
  }

  /** A branch of one of the filters of an OR, from the `i`th on. */
  function AnyFrom(f: Filter, i: nat): set<Branch>
    requires !f.Field? && i <= |f.filters|
    decreases f, 0, |f.filters| - i
  {
    if i == |f.filters| then {} else Branches(f.filters[i]) + AnyFrom(f, i + 1)
  }

  predicate Passes(t: Test, doc: Fields, ops: Operators) {
    if t.op == Equal then t.path in doc && doc[t.path] == t.value else ops(t.op, Get(doc, t.path), t.value)
  }

  predicate MatchesBranch(b: Branch, doc: Fields, ops: Operators) {
    forall t <- b :: Passes(t, doc, ops)
  }

  predicate BindsBranch(b: Branch, field: string, uid: string) {
    Test(field, Equal, String(uid)) in b
  }

  predicate MatchesSome(bs: set<Branch>, doc: Fields, ops: Operators) {
    exists b <- bs :: MatchesBranch(b, doc, ops)
  }

  predicate AllBind(bs: set<Branch>, field: string, uid: string) {
    forall b <- bs :: BindsBranch(b, field, uid)
  }

  lemma ProductMatches(first: set<Branch>, rest: set<Branch>, doc: Fields, ops: Operators)
    ensures var both := set a, b | a in first && b in rest :: a + b;
      MatchesSome(both, doc, ops) <==> MatchesSome(first, doc, ops) && MatchesSome(rest, doc, ops)
  {
    var both := set a, b | a in first && b in rest :: a + b;
    if MatchesSome(first, doc, ops) && MatchesSome(rest, doc, ops) {
      var a :| a in first && MatchesBranch(a, doc, ops);
      var b :| b in rest && MatchesBranch(b, doc, ops);
      assert a + b in both && MatchesBranch(a + b, doc, ops);
    }
    if MatchesSome(both, doc, ops) {
      var c :| c in both && MatchesBranch(c, doc, ops);
      var a, b :| a in first && b in rest && c == a + b;
      assert MatchesBranch(a, doc, ops) && MatchesBranch(b, doc, ops);
    }
  }

  lemma ProductBinds(first: set<Branch>, rest: set<Branch>, field: string, uid: string)
    ensures var both := set a, b | a in first && b in rest :: a + b;
      AllBind(both, field, uid) <==> AllBind(first, field, uid) || AllBind(rest, field, uid)
  {
    var both := set a, b | a in first && b in rest :: a + b;
    if !AllBind(first, field, uid) && !AllBind(rest, field, uid) {
      var a :| a in first && !BindsBranch(a, field, uid);
      var b :| b in rest && !BindsBranch(b, field, uid);
      assert a + b in both && !BindsBranch(a + b, field, uid);
    }
  }

  /** A filter selects a document exactly when one of its branches does. */
  lemma {:induction false} MatchesIff(f: Filter, doc: Fields, ops: Operators)
    ensures Matches(f, doc, ops) <==> MatchesSome(Branches(f), doc, ops)
    decreases f, 1, 0
  {
    match f
    case Field(p, op, v) => assert {Test(p, op, v)} in Branches(f);
    case Composite(_) => AllFromMatches(f, 0, doc, ops);
    case CompositeOr(_) => AnyFromMatches(f, 0, doc, ops);
  }

  lemma {:induction false} AllFromMatches(f: Filter, i: nat, doc: Fields, ops: Operators)
    requires !f.Field? && i <= |f.filters|
    ensures MatchesSome(AllFrom(f, i), doc, ops) <==>
      forall j :: i <= j < |f.filters| ==> Matches(f.filters[j], doc, ops)
    decreases f, 0, |f.filters| - i
  {
    if i < |f.filters| {
      MatchesIff(f.filters[i], doc, ops);
      AllFromMatches(f, i + 1, doc, ops);
      ProductMatches(Branches(f.filters[i]), AllFrom(f, i + 1), doc, ops);
    } else {
      assert {} in AllFrom(f, i) && MatchesBranch({}, doc, ops);
    }
  }

  lemma {:induction false} AnyFromMatches(f: Filter, i: nat, doc: Fields, ops: Operators)
    requires !f.Field? && i <= |f.filters|
    ensures MatchesSome(AnyFrom(f, i), doc, ops) <==>
      exists j :: i <= j < |f.filters| && Matches(f.filters[j], doc, ops)
    decreases f, 0, |f.filters| - i
  {
    if i < |f.filters| {
      MatchesIff(f.filters[i], doc, ops);
      AnyFromMatches(f, i + 1, doc, ops);
    }
  }

  /** A filter binds a field to the caller exactly when all its branches do. */
  lemma {:induction false} BindsIff(f: Filter, field: string, uid: string)
    ensures Binds(f, field, uid) <==> AllBind(Branches(f), field, uid)
    decreases f, 1, 0
  {
    match f
    case Field(p, op, v) => assert {Test(p, op, v)} in Branches(f);
    case Composite(_) => AllFromBinds(f, 0, field, uid);
    case CompositeOr(_) => AnyFromBinds(f, 0, field, uid);
  }

  lemma {:induction false} AllFromBinds(f: Filter, i: nat, field: string, uid: string)
    requires !f.Field? && i <= |f.filters|
    ensures AllBind(AllFrom(f, i), field, uid) <==> exists j :: i <= j < |f.filters| && Binds(f.filters[j], field, uid)
    decreases f, 0, |f.filters| - i
  {
    if i < |f.filters| {
      BindsIff(f.filters[i], field, uid);
      AllFromBinds(f, i + 1, field, uid);
      ProductBinds(Branches(f.filters[i]), AllFrom(f, i + 1), field, uid);
    } else {
      assert {} in AllFrom(f, i) && !BindsBranch({}, field, uid);
    }
  }

  lemma {:induction false} AnyFromBinds(f: Filter, i: nat, field: string, uid: string)
    requires !f.Field? && i <= |f.filters|
    ensures AllBind(AnyFrom(f, i), field, uid) <==> forall j :: i <= j < |f.filters| ==> Binds(f.filters[j], field, uid)
    decreases f, 0, |f.filters| - i
  {
    if i < |f.filters| {
      BindsIff(f.filters[i], field, uid);
      AnyFromBinds(f, i + 1, field, uid);
    }
  }

  /** The branches of a query; without a filter there is one that tests nothing. */
  function QueryBranches(filter: Option<Filter>): set<Branch> {
    if filter.Some? then Branches(filter.value) else {{}}
  }

  lemma SelectsIff(filter: Option<Filter>, doc: Fields, ops: Operators)
    ensures Selects(filter, doc, ops) <==> MatchesSome(QueryBranches(filter), doc, ops)
  {
    if filter.Some? {
      MatchesIff(filter.value, doc, ops);
    } else {
      assert {} in QueryBranches(filter) && MatchesBranch({}, doc, ops);
    }
  }

  lemma FilterBindsIff(filter: Option<Filter>, field: string, uid: string)
    ensures FilterBinds(filter, field, uid) <==> AllBind(QueryBranches(filter), field, uid)
  {
    if filter.Some? {
      BindsIff(filter.value, field, uid);
    } else {
      assert {} in QueryBranches(filter) && !BindsBranch({}, field, uid);
    }
  }

  ghost predicate Satisfiable(b: Branch, ops: Operators) {
    exists doc :: MatchesBranch(b, doc, ops)
  }

  /** A branch of equalities selects something exactly when it equates no field with two values. */
  lemma SatisfiableIff(b: Branch, ops: Operators)
    requires forall t <- b :: t.op == Equal
    ensures Satisfiable(b, ops) <==> forall s <- b, t <- b :: s.path == t.path ==> s.value == t.value
  {
    if forall s <- b, t <- b :: s.path == t.path ==> s.value == t.value {
      var doc := map t | t in b :: t.path := t.value;
      assert forall t <- b :: t.path in doc && doc[t.path] == t.value;
      assert MatchesBranch(b, doc, ops);
    }
  }

  /** The branch leaves the atom of the rule open: it does not force it. */
  predicate Open(a: Atom, b: Branch, auth: Option<AuthContext>) {
    match a
    case LiteralAtom(v) => !v
    case AuthRequiredAtom => auth.None?
    case OwnershipEquality(field) => auth.None? || !BindsBranch(b, field, auth.value.uid)
  }

  predicate LeavesOpen(b: Branch, atoms: seq<Atom>, auth: Option<AuthContext>) {
    exists a <- atoms :: Open(a, b, auth)
  }

  /** The fields a rule compares with the caller. */
  function OwnedFields(atoms: seq<Atom>): set<string> {
    set a | a in atoms && a.OwnershipEquality? :: a.field
  }

  /** The rule's fields are compared only by equality; other fields in any way. */
  predicate EqualityOn(bs: set<Branch>, owned: set<string>) {
    forall b <- bs, t <- b :: t.op == Equal || t.path !in owned
  }

  ghost predicate AllowsSelected(c: Condition, filter: Option<Filter>, ctx: EvalContext, ops: Operators) {
    forall doc {:trigger Selects(filter, doc, ops)} ::
      Selects(filter, doc, ops) ==> Evaluate(c, ctx.(resource := doc)) == Allow
  }

  /** A branch that does not bind the field cannot tell when it is overwritten. */
  lemma UnboundFieldIsFree(b: Branch, field: string, uid: string, doc: Fields, ops: Operators)
    requires MatchesBranch(b, doc, ops) && !BindsBranch(b, field, uid) && field in doc && doc[field] == String(uid)
    requires forall t <- b :: t.path == field ==> t.op == Equal
    ensures MatchesBranch(b, doc[field := Null], ops)
  {
    forall t <- b ensures Passes(t, doc[field := Null], ops) {
      assert Passes(t, doc, ops) && t != Test(field, Equal, String(uid));
      assert t.path != field && Get(doc[field := Null], t.path) == Get(doc, t.path);
    }
  }

  /** A satisfiable branch that leaves an atom open selects a document that violates the atom. */
  lemma OpenHasWitness(a: Atom, b: Branch, ctx: EvalContext, ops: Operators) returns (bad: Fields)
    requires Open(a, b, ctx.auth) && Satisfiable(b, ops)
    requires a.OwnershipEquality? ==> forall t <- b :: t.path == a.field ==> t.op == Equal
    ensures MatchesBranch(b, bad, ops) && !Holds(a, ctx.(resource := bad))
  {
    bad :| MatchesBranch(b, bad, ops);
    if Holds(a, ctx.(resource := bad)) {
      UnboundFieldIsFree(b, a.field, ctx.auth.value.uid, bad, ops);
      bad := bad[a.field := Null];
    }
  }

  /** A selected document that violates an atom matches a branch that leaves it open. */
  lemma ViolationIsOpen(a: Atom, b: Branch, ctx: EvalContext, doc: Fields, ops: Operators)
    requires MatchesBranch(b, doc, ops) && !Holds(a, ctx.(resource := doc))
    ensures Open(a, b, ctx.auth)
  {
    if a.OwnershipEquality? && ctx.auth.Some? && BindsBranch(b, a.field, ctx.auth.value.uid) {
      assert Passes(Test(a.field, Equal, String(ctx.auth.value.uid)), doc, ops);
    }
  }

  /** A decidable rule allows every selected document exactly when no branch that
      selects something leaves one of its atoms open. */
  lemma AllowsSelectedIff(c: Condition, filter: Option<Filter>, ctx: EvalContext, ops: Operators)
    requires Decompose(c).Some? && EqualityOn(QueryBranches(filter), OwnedFields(Decompose(c).value))
    ensures AllowsSelected(c, filter, ctx, ops) <==>
      !exists b <- QueryBranches(filter) :: Satisfiable(b, ops) && LeavesOpen(b, Decompose(c).value, ctx.auth)
  {
    var atoms := Decompose(c).value;
    if b :| b in QueryBranches(filter) && Satisfiable(b, ops) && LeavesOpen(b, atoms, ctx.auth) {
      var a :| a in atoms && Open(a, b, ctx.auth);
      assert a.OwnershipEquality? ==> a.field in OwnedFields(atoms);
      var bad := OpenHasWitness(a, b, ctx, ops);
      SelectsIff(filter, bad, ops);
      DecomposeExact(c, ctx.(resource := bad));
    }
    if !AllowsSelected(c, filter, ctx, ops) {
      var doc :| Selects(filter, doc, ops) && Evaluate(c, ctx.(resource := doc)) == Deny;
      SelectsIff(filter, doc, ops);
      var b :| b in QueryBranches(filter) && MatchesBranch(b, doc, ops);
      DecomposeExact(c, ctx.(resource := doc));
      var a :| a in atoms && !Holds(a, ctx.(resource := doc));
      ViolationIsOpen(a, b, ctx, doc, ops);
    }
  }

  /** The verdict says exactly whether every selected document is allowed. */
  ghost predicate Exact(c: Condition, filter: Option<Filter>, ctx: EvalContext, ops: Operators) {
    Check(c, filter, ctx.auth) == Admitted <==> AllowsSelected(c, filter, ctx, ops)
  }

  /** For every filter: the check is exact if and only if it admits, or some
      branch of the filter that selects something leaves the rule open. */
  lemma CheckIsExactIff(c: Condition, filter: Option<Filter>, ctx: EvalContext, ops: Operators)
    requires Decompose(c).Some? && EqualityOn(QueryBranches(filter), OwnedFields(Decompose(c).value))
    ensures Exact(c, filter, ctx, ops) <==>
      || Check(c, filter, ctx.auth) == Admitted
      || exists b <- QueryBranches(filter) :: Satisfiable(b, ops) && LeavesOpen(b, Decompose(c).value, ctx.auth)
  {
    AllowsSelectedIff(c, filter, ctx, ops);
    if Check(c, filter, ctx.auth) == Admitted {
      forall d | Selects(filter, d, ops) ensures Evaluate(c, ctx.(resource := d)) == Allow {
        AdmittedIsSound(c, filter, ctx.(resource := d), ops);
      }
    }
  }

  /** So it is exact whenever every branch selects something. */
  lemma SatisfiableBranchesAreExact(c: Condition, filter: Option<Filter>, ctx: EvalContext, ops: Operators)
    requires Decompose(c).Some? && EqualityOn(QueryBranches(filter), OwnedFields(Decompose(c).value))
    requires QueryBranches(filter) != {} && forall b <- QueryBranches(filter) :: Satisfiable(b, ops)
    ensures Exact(c, filter, ctx, ops)
  {
    CheckIsExactIff(c, filter, ctx, ops);
    if Check(c, filter, ctx.auth) != Admitted {
      var a := SomeFailure(Decompose(c).value, filter, ctx.auth);
      var b := FailureIsOpen(a, filter, ctx.auth);
      assert LeavesOpen(b, Decompose(c).value, ctx.auth);
    }
  }

  lemma FailureIsOpen(a: Atom, filter: Option<Filter>, auth: Option<AuthContext>) returns (b: Branch)
    requires Failure(a, filter, auth).Some? && QueryBranches(filter) != {}
    ensures b in QueryBranches(filter) && Open(a, b, auth)
  {
    b :| b in QueryBranches(filter);
    if a.OwnershipEquality? && auth.Some? {
      FilterBindsIff(filter, a.field, auth.value.uid);
      b :| b in QueryBranches(filter) && !BindsBranch(b, a.field, auth.value.uid);
    }
  }

  lemma SomeFailure(atoms: seq<Atom>, filter: Option<Filter>, auth: Option<AuthContext>) returns (a: Atom)
    requires CheckAtoms(atoms, filter, auth) != Admitted
    ensures a in atoms && Failure(a, filter, auth).Some?
  {
    if LiteralAtom(false) in atoms {
      a := LiteralAtom(false);
    } else {
      NoFailure(atoms, filter, auth);
      var u := Failures(atoms, filter, auth)[0];
      a :| a in atoms && Failure(a, filter, auth) == Some(u);
    }
  }

  /** A branch that selects nothing can make the check refuse a query whose every
      selected document is allowed: `(owner == uid || x == 1) && x == 2`. */
  lemma EmptyBranchIsIncomplete(ctx: EvalContext, ops: Operators)
    requires ctx.auth.Some?
    ensures var c := Compare(ResourceField("owner"), Eq, AuthUid);
      var owner := Field("owner", Equal, String(ctx.auth.value.uid));
      var f := Composite([CompositeOr([owner, Field("x", Equal, Integer(1))]), Field("x", Equal, Integer(2))]);
      Check(c, Some(f), ctx.auth) == Rejected([OwnershipFilterMissing("owner")]) &&
      AllowsSelected(c, Some(f), ctx, ops)
  {
    var uid := ctx.auth.value.uid;
    var c := Compare(ResourceField("owner"), Eq, AuthUid);
    var owner, one, two :=
      Field("owner", Equal, String(uid)), Field("x", Equal, Integer(1)), Field("x", Equal, Integer(2));
    var either := CompositeOr([owner, one]);
    var f := Composite([either, two]);
    assert !Binds(two, "owner", uid);
    assert !Binds(either, "owner", uid) by { assert one in either.filters && !Binds(one, "owner", uid); }
    assert !Binds(f, "owner", uid);
    var atoms := [OwnershipEquality("owner")];
    assert atoms[1..] == [] && Reasons(atoms[0], Some(f), ctx.auth) == [OwnershipFilterMissing("owner")];
    assert Failures(atoms, Some(f), ctx.auth) == [OwnershipFilterMissing("owner")];
    forall doc | Selects(Some(f), doc, ops) ensures Evaluate(c, ctx.(resource := doc)) == Allow {
      assert either in f.filters && two in f.filters;
      assert Matches(either, doc, ops) && Matches(two, doc, ops);
      assert !Matches(one, doc, ops);
      assert Matches(owner, doc, ops);
    }
  }

  // ----- What a verdict says about the rule -----

  /** The conditions a rule joins with `&&`. */
  function Conjuncts(c: Condition): seq<Condition> {
    if c.And? then Conjuncts(c.c0) + Conjuncts(c.c1) else [c]
  }

  const SIGNED_IN: Condition := Compare(AuthNullSentinel, Ne, NullLiteral)

  /** `resource.data.field == request.auth.uid`, either way round. */
  predicate Owns(c: Condition, field: string) {
    c == Compare(ResourceField(field), Eq, AuthUid) || c == Compare(AuthUid, Eq, ResourceField(field))
  }

  ghost predicate Supported(c: Condition) {
    c.Literal? || c == SIGNED_IN || exists field :: Owns(c, field)
  }

  /** Each supported conjunct is one atom, and nothing else is. */
  ghost predicate IsAtom(c: Condition, a: Atom) {
    match a
    case LiteralAtom(b) => c == Literal(b)
    case AuthRequiredAtom => c == SIGNED_IN
    case OwnershipEquality(f) => Owns(c, f)
  }

  /** The atoms are the conjuncts, one by one. */
  ghost predicate AtomsOf(atoms: seq<Atom>, cs: seq<Condition>) {
    |atoms| == |cs| && forall i :: 0 <= i < |cs| ==> IsAtom(cs[i], atoms[i])
  }

  lemma LeafDecomposes(c: Condition)
    requires !c.And?
    ensures Decompose(c).Some? <==> Supported(c)
    ensures Decompose(c).Some? ==> AtomsOf(Decompose(c).value, [c])
  {
    if Decompose(c).Some? && c.Compare? {
      var a := Decompose(c).value[0];
      assert a.OwnershipEquality? ==> Owns(c, a.field);
    }
    if field :| Owns(c, field) {
      assert Decompose(c) == Some([OwnershipEquality(field)]);
    }
  }

  ghost predicate AllSupported(cs: seq<Condition>) {
    forall x <- cs :: Supported(x)
  }

  lemma SupportedConcat(a: seq<Condition>, b: seq<Condition>)
    ensures AllSupported(a + b) <==> AllSupported(a) && AllSupported(b)
  {
    if AllSupported(a + b) {
      assert forall x <- a :: x in a + b;
      assert forall x <- b :: x in a + b;
    }
  }

  lemma AtomsConcat(atoms: seq<Atom>, a: seq<Condition>, more: seq<Atom>, b: seq<Condition>)
    requires AtomsOf(atoms, a) && AtomsOf(more, b)
    ensures AtomsOf(atoms + more, a + b)
  {
  }

  lemma {:induction false} DecomposeIff(c: Condition)
    ensures Decompose(c).Some? <==> AllSupported(Conjuncts(c))
    ensures Decompose(c).Some? ==> AtomsOf(Decompose(c).value, Conjuncts(c))
  {
    if c.And? {
      DecomposeIff(c.c0);
      DecomposeIff(c.c1);
      SupportedConcat(Conjuncts(c.c0), Conjuncts(c.c1));
      if Decompose(c).Some? {
        AtomsConcat(Decompose(c.c0).value, Conjuncts(c.c0), Decompose(c.c1).value, Conjuncts(c.c1));
      }
    } else {
      assert Conjuncts(c)[0] == c;
      LeafDecomposes(c);
    }
  }

  lemma OneAtom(c: Condition, a: Atom, b: Atom)
    requires IsAtom(c, a) && IsAtom(c, b)
    ensures a == b
  {
  }

  lemma AtomHasConjunct(atoms: seq<Atom>, cs: seq<Condition>, a: Atom) returns (x: Condition)
    requires AtomsOf(atoms, cs) && a in atoms
    ensures x in cs && IsAtom(x, a)
  {
    var i :| 0 <= i < |atoms| && atoms[i] == a;
    x := cs[i];
  }

  lemma ConjunctHasAtom(atoms: seq<Atom>, cs: seq<Condition>, x: Condition, a: Atom)
    requires AtomsOf(atoms, cs) && x in cs && IsAtom(x, a)
    ensures a in atoms
  {
    var i :| 0 <= i < |cs| && cs[i] == x;
    OneAtom(x, a, atoms[i]);
  }

  lemma AtomsAreConjuncts(c: Condition, a: Atom)
    requires Decompose(c).Some?
    ensures a in Decompose(c).value <==> exists x <- Conjuncts(c) :: IsAtom(x, a)
  {
    DecomposeIff(c);
    if a in Decompose(c).value {
      var x := AtomHasConjunct(Decompose(c).value, Conjuncts(c), a);
    }
    if x :| x in Conjuncts(c) && IsAtom(x, a) {
      ConjunctHasAtom(Decompose(c).value, Conjuncts(c), x, a);
    }
  }

  lemma NoDenyAll(atoms: seq<Atom>, filter: Option<Filter>, auth: Option<AuthContext>)
    requires LiteralAtom(false) !in atoms
    ensures DenyAll !in Failures(atoms, filter, auth)
  {
    NoFailure(atoms, filter, auth);
  }

  lemma DenyAllIff(atoms: seq<Atom>, filter: Option<Filter>, auth: Option<AuthContext>)
    ensures CheckAtoms(atoms, filter, auth) == Rejected([DenyAll]) <==> LiteralAtom(false) in atoms
  {
    assert [DenyAll][0] == DenyAll;
    if LiteralAtom(false) !in atoms {
      NoDenyAll(atoms, filter, auth);
    }
  }

  lemma FalseIsAtom(c: Condition)
    requires Decompose(c).Some?
    ensures LiteralAtom(false) in Decompose(c).value <==> Literal(false) in Conjuncts(c)
  {
    AtomsAreConjuncts(c, LiteralAtom(false));
    if Literal(false) in Conjuncts(c) {
      assert IsAtom(Literal(false), LiteralAtom(false));
    }
  }

  /** The verdict names the unsupported shape exactly when a conjunct is none of
      the supported ones, and denial of everything exactly for a `false`. */
  lemma VerdictShape(c: Condition, filter: Option<Filter>, auth: Option<AuthContext>)
    ensures Check(c, filter, auth) == RejectedUnsupportedRuleShape <==> !AllSupported(Conjuncts(c))
    ensures AllSupported(Conjuncts(c)) ==>
      (Literal(false) in Conjuncts(c) <==> Check(c, filter, auth) == Rejected([DenyAll]))
  {
    DecomposeIff(c);
    if Decompose(c).Some? {
      FalseIsAtom(c);
      DenyAllIff(Decompose(c).value, filter, auth);
    }
  }

  /** Otherwise it lists what is missing: a caller for `request.auth != null`, and
      for each owned field a filter that binds it to the caller. */
  lemma VerdictReasons(c: Condition, filter: Option<Filter>, auth: Option<AuthContext>, field: string)
    requires AllSupported(Conjuncts(c)) && Literal(false) !in Conjuncts(c)
    ensures var v := Check(c, filter, auth);
      && (v == Admitted || (v.Rejected? && v.reasons != []))
      && (v.Rejected? && AuthRequired in v.reasons <==> auth.None? && SIGNED_IN in Conjuncts(c))
      && (v.Rejected? && OwnershipFilterMissing(field) in v.reasons <==>
          && (exists x <- Conjuncts(c) :: Owns(x, field))
          && !(auth.Some? && filter.Some? && AllBind(Branches(filter.value), field, auth.value.uid)))
  {
    DecomposeIff(c);
    var atoms := Decompose(c).value;
    FalseIsAtom(c);
    AtomsAreConjuncts(c, AuthRequiredAtom);
    AtomsAreConjuncts(c, OwnershipEquality(field));
    AtomReasons(atoms, filter, auth, field);
    FilterBindsBranches(filter, field, auth);
    assert SIGNED_IN in Conjuncts(c) <==> exists x <- Conjuncts(c) :: IsAtom(x, AuthRequiredAtom);
    assert (exists x <- Conjuncts(c) :: Owns(x, field)) <==>
      exists x <- Conjuncts(c) :: IsAtom(x, OwnershipEquality(field));
  }

  lemma FilterBindsBranches(filter: Option<Filter>, field: string, auth: Option<AuthContext>)
    ensures auth.Some? && filter.Some? ==>
      (FilterBinds(filter, field, auth.value.uid) <==> AllBind(Branches(filter.value), field, auth.value.uid))
  {
    if auth.Some? && filter.Some? {
      BindsIff(filter.value, field, auth.value.uid);
    }
  }

  lemma AtomReasons(atoms: seq<Atom>, filter: Option<Filter>, auth: Option<AuthContext>, field: string)
    ensures var reasons := Failures(atoms, filter, auth);
      && (AuthRequired in reasons <==> auth.None? && AuthRequiredAtom in atoms)
      && (OwnershipFilterMissing(field) in reasons <==>
          OwnershipEquality(field) in atoms && !(auth.Some? && FilterBinds(filter, field, auth.value.uid)))
  {
    NoFailure(atoms, filter, auth);
    if AuthRequiredAtom in atoms && auth.None? {
      assert Failure(AuthRequiredAtom, filter, auth) == Some(AuthRequired);
    }
    if OwnershipEquality(field) in atoms && !(auth.Some? && FilterBinds(filter, field, auth.value.uid)) {
      assert Failure(OwnershipEquality(field), filter, auth) == Some(OwnershipFilterMissing(field));
    }
  }

  lemma {:induction false} FailuresInOrder(atoms: seq<Atom>, more: seq<Atom>, filter: Option<Filter>,
      auth: Option<AuthContext>)
    ensures Failures(atoms + more, filter, auth) == Failures(atoms, filter, auth) + Failures(more, filter, auth)
  {
    if atoms == [] {
      assert atoms + more == more;
    } else {
      assert (atoms + more)[1..] == atoms[1..] + more;
      FailuresInOrder(atoms[1..], more, filter, auth);
    }
  }
}
