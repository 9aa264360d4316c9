/** Imports that run side by side (embyr-server admin/handlers/access_rules.rs).
    An import checks its file against the store and then stores the patterns one
    statement at a time, so another import can check in between. */
module ImportRuns {
  import opened PathRouting
  import opened RuleStore

  /** The stored patterns, and what each accepted import has still to store. */
  datatype State = State(entries: seq<Entry>, pending: map<nat, seq<Entry>>)

  datatype Event =
    | Check(call: nat, file: seq<Entry>)
    | Store(call: nat)
    | Fail(call: nat)

  predicate Accepted(s: State, e: Event) {
    e.Check? && e.call !in s.pending && AcceptsImport(s.entries, e.file)
  }

  /** A statement that fails gives up the rest of its import. */
  function Step(s: State, e: Event): State {
    match e
    case Check(c, file) => if Accepted(s, e) then s.(pending := s.pending[c := file]) else s
    case Store(c) =>
      if c in s.pending && s.pending[c] != []
      then State(Upsert(s.entries, s.pending[c][0]), s.pending[c := s.pending[c][1..]])
      else s
    case Fail(c) => s.(pending := s.pending - {c})
  }

  function Run(s: State, es: seq<Event>): State {
    if es == [] then s else Step(Run(s, es[..|es| - 1]), es[|es| - 1])
  }

  lemma RunNext(s: State, es: seq<Event>, i: nat)
    requires i < |es|
    ensures Run(s, es[..i + 1]) == Step(Run(s, es[..i]), es[i])
  {
    assert es[..i + 1][..i] == es[..i];
  }

  lemma {:induction false} RunConcat(s: State, es: seq<Event>, more: seq<Event>)
    ensures Run(s, es + more) == Run(Run(s, es), more)
  {
    if more == [] {
      assert es + more == es;
    } else {
      var m := |more| - 1;
      RunConcat(s, es, more[..m]);
      assert (es + more)[..|es + more| - 1] == es + more[..m];
    }
  }

  lemma RunSplit(s: State, es: seq<Event>, i: nat)
    requires i <= |es|
    ensures Run(s, es) == Run(Run(s, es[..i]), es[i..])
  {
    assert es == es[..i] + es[i..];
    RunConcat(s, es[..i], es[i..]);
  }

  predicate Start(s: State) {
    Unambiguous(s.entries) && s.pending == map[]
  }

  predicate WellShapedFiles(es: seq<Event>) {
    forall e <- es :: e.Check? ==> forall x <- e.file :: WellShaped(x)
  }

  predicate NoFailures(es: seq<Event>) {
    forall i :: 0 <= i < |es| ==> !es[i].Fail?
  }

  /** One of the two replaces the other, or both may be stored. */
  predicate Agree(e: Entry, f: Entry) {
    SameKey(e, f) || Coexist(e, f)
  }

  /** The check passes while another import has a conflicting pattern still to store. */
  predicate ConflictsAt(s: State, e: Event) {
    Accepted(s, e) && exists c <- s.pending, p <- s.pending[c], f <- e.file :: !Agree(f, p)
  }

  predicate ConflictFree(s: State, es: seq<Event>) {
    forall i :: 0 <= i < |es| ==> !ConflictsAt(Run(s, es[..i]), es[i])
  }

  // ----- Without a conflict the store stays unambiguous -----

  predicate Queued(entries: seq<Entry>, queue: seq<Entry>) {
    && (forall e <- queue :: WellShaped(e) && Fits(entries, e))
    && forall i, j :: 0 <= i < j < |queue| ==> Coexist(queue[i], queue[j])
  }

  predicate AllAgree(q: seq<Entry>, r: seq<Entry>) {
    forall e <- q, f <- r :: Agree(e, f)
  }

  predicate Inv(s: State) {
    && Unambiguous(s.entries)
    && (forall c <- s.pending :: Queued(s.entries, s.pending[c]))
    && forall c <- s.pending, d <- s.pending :: c != d ==> AllAgree(s.pending[c], s.pending[d])
  }

  lemma AgreeSymmetric(e: Entry, f: Entry)
    requires WellShaped(e) && WellShaped(f)
    ensures Agree(e, f) == Agree(f, e)
  {
    CoexistSymmetric(e, f);
  }

  lemma AdmissibleAgrees(e: Entry, s: Entry)
    requires WellShaped(e) && WellShaped(s) && Admissible(e, s)
    ensures Agree(e, s)
  {
    if !e.recursive && !s.recursive && !SameBucket(e, s) { BucketsDoNotOverlap(e, s); }
  }

  lemma AcceptedIsQueued(entries: seq<Entry>, file: seq<Entry>)
    requires Unambiguous(entries) && AcceptsImport(entries, file) && forall e <- file :: WellShaped(e)
    ensures Queued(entries, file)
  {
    forall e <- file ensures Fits(entries, e) {
      forall s <- entries ensures Agree(e, s) {
        AdmissibleAgrees(e, s);
      }
    }
  }

  lemma CheckKeepsInv(s: State, e: Event)
    requires Inv(s) && Accepted(s, e) && !ConflictsAt(s, e) && forall x <- e.file :: WellShaped(x)
    ensures Inv(Step(s, e))
  {
    AcceptedIsQueued(s.entries, e.file);
    forall c <- s.pending ensures AllAgree(e.file, s.pending[c]) && AllAgree(s.pending[c], e.file) {
      forall f <- e.file, p <- s.pending[c] ensures Agree(f, p) && Agree(p, f) {
        assert Queued(s.entries, s.pending[c]);
        AgreeSymmetric(f, p);
      }
    }
  }

  /** A queue stays storable when an entry it agrees with is stored. */
  lemma UpsertKeepsQueue(entries: seq<Entry>, x: Entry, queue: seq<Entry>)
    requires Queued(entries, queue) && forall e <- queue :: Agree(e, x)
    ensures Queued(Upsert(entries, x), queue)
  {
    UpsertMembers(entries, x);
  }

  lemma StoreKeepsInv(s: State, c: nat)
    requires Inv(s) && c in s.pending && s.pending[c] != []
    ensures Inv(Step(s, Store(c)))
  {
    var x, rest, t := s.pending[c][0], s.pending[c][1..], Step(s, Store(c));
    assert Queued(s.entries, s.pending[c]) && x in s.pending[c];
    UpsertKeepsUnambiguous(s.entries, x);
    assert forall e <- rest :: e in s.pending[c];
    assert Queued(s.entries, rest);
    forall e <- rest ensures Agree(e, x) {
      CoexistSymmetric(x, e);
    }
    UpsertKeepsQueue(s.entries, x, rest);
    forall d <- s.pending | d != c ensures Queued(t.entries, s.pending[d]) {
      assert AllAgree(s.pending[d], s.pending[c]);
      UpsertKeepsQueue(s.entries, x, s.pending[d]);
    }
    forall d <- s.pending | d != c ensures AllAgree(s.pending[d], rest) && AllAgree(rest, s.pending[d]) {
      assert AllAgree(s.pending[d], s.pending[c]) && AllAgree(s.pending[c], s.pending[d]);
    }
  }

  lemma StepKeepsInv(s: State, e: Event)
    requires Inv(s) && !ConflictsAt(s, e) && (e.Check? ==> forall x <- e.file :: WellShaped(x))
    ensures Inv(Step(s, e))
  {
    if Accepted(s, e) {
      CheckKeepsInv(s, e);
    } else if e.Store? && e.call in s.pending && s.pending[e.call] != [] {
      StoreKeepsInv(s, e.call);
    }
  }

  lemma {:induction false} RunKeepsInv(s: State, es: seq<Event>)
    requires Start(s) && WellShapedFiles(es) && ConflictFree(s, es)
    ensures Inv(Run(s, es))
  {
    if es != [] {
      var n := |es| - 1;
      assert forall i :: 0 <= i < n ==> es[..n][..i] == es[..i];
      RunKeepsInv(s, es[..n]);
      assert es[n] in es;
      StepKeepsInv(Run(s, es[..n]), es[n]);
    }
  }

  // ----- With one it ends up ambiguous -----

  predicate HasKey(entries: seq<Entry>, e: Entry) {
    exists x <- entries :: SameKey(x, e)
  }

  /** A pattern of this key is stored or will be. */
  predicate Promised(s: State, e: Entry) {
    HasKey(s.entries, e) || exists c <- s.pending :: HasKey(s.pending[c], e)
  }

  lemma {:induction false} UpsertHasKeys(entries: seq<Entry>, x: Entry, e: Entry)
    ensures HasKey(Upsert(entries, x), e) <==> HasKey(entries, e) || SameKey(x, e)
  {
    if entries != [] {
      UpsertHasKeys(entries[1..], x, e);
      var up := Upsert(entries, x);
      assert entries == [entries[0]] + entries[1..] && up == [up[0]] + up[1..];
    }
  }

  lemma StepKeepsPromise(s: State, e: Event, x: Entry)
    requires Promised(s, x) && !e.Fail?
    ensures Promised(Step(s, e), x)
  {
    var t := Step(s, e);
    if e.Store? && e.call in s.pending && s.pending[e.call] != [] {
      var queue := s.pending[e.call];
      UpsertHasKeys(s.entries, queue[0], x);
      assert queue == [queue[0]] + queue[1..];
      if c :| c in s.pending && HasKey(s.pending[c], x) {
        assert HasKey(t.pending[c], x) || SameKey(queue[0], x);
      }
    } else if c :| c in s.pending && HasKey(s.pending[c], x) {
      assert c in t.pending && t.pending[c] == s.pending[c];
    }
  }

  lemma {:induction false} RunKeepsPromise(s: State, es: seq<Event>, x: Entry)
    requires Promised(s, x) && NoFailures(es)
    ensures Promised(Run(s, es), x)
  {
    if es != [] {
      var n := |es| - 1;
      RunKeepsPromise(s, es[..n], x);
      StepKeepsPromise(Run(s, es[..n]), es[n], x);
    }
  }

  predicate Drained(s: State) {
    forall c <- s.pending :: s.pending[c] == []
  }

  /** Patterns that do not agree are never stored together unambiguously. */
  lemma DisagreeingKeys(entries: seq<Entry>, e: Entry, f: Entry)
    requires HasKey(entries, e) && HasKey(entries, f) && !Agree(e, f)
    ensures !Unambiguous(entries)
  {
    if Unambiguous(entries) {
      var i :| 0 <= i < |entries| && SameKey(entries[i], e);
      var j :| 0 <= j < |entries| && SameKey(entries[j], f);
      AgreeSymmetric(entries[i], entries[j]);
      assert false;
    }
  }

  lemma ConflictIsPromised(s: State, e: Event) returns (f: Entry, p: Entry)
    requires ConflictsAt(s, e)
    ensures f in e.file && !Agree(f, p) && Promised(Step(s, e), f) && Promised(Step(s, e), p)
    ensures exists c <- s.pending :: p in s.pending[c]
  {
    var c :| c in s.pending && exists q <- s.pending[c], g <- e.file :: !Agree(g, q);
    p, f :| p in s.pending[c] && f in e.file && !Agree(f, p);
    var t := Step(s, e);
    assert SameKey(p, p) && SameKey(f, f);
    assert HasKey(t.pending[c], p) && HasKey(t.pending[e.call], f);
  }

  /** Whatever the interleaving, the store is ambiguous only after an import was
      accepted while another had a conflicting pattern still to store. */
  lemma AmbiguityNeedsOverlap(s: State, es: seq<Event>)
    requires Start(s) && WellShapedFiles(es)
    ensures Unambiguous(Run(s, es).entries) || exists i :: 0 <= i < |es| && ConflictsAt(Run(s, es[..i]), es[i])
  {
    if ConflictFree(s, es) {
      RunKeepsInv(s, es);
    }
  }

  lemma ConflictIsFatal(s: State, es: seq<Event>, i: nat)
    requires i < |es| && ConflictsAt(Run(s, es[..i]), es[i])
    requires Drained(Run(s, es)) && NoFailures(es)
    ensures !Unambiguous(Run(s, es).entries)
  {
    var f, p := ConflictIsPromised(Run(s, es[..i]), es[i]);
    RunNext(s, es, i);
    RunSplit(s, es, i + 1);
    RunKeepsPromise(Run(s, es[..i + 1]), es[i + 1..], f);
    RunKeepsPromise(Run(s, es[..i + 1]), es[i + 1..], p);
    DisagreeingKeys(Run(s, es).entries, f, p);
  }

  /** And then it is, once every import has stored its file. */
  lemma AmbiguousIff(s: State, es: seq<Event>)
    requires Start(s) && WellShapedFiles(es) && Drained(Run(s, es)) && NoFailures(es)
    ensures Unambiguous(Run(s, es).entries) <==> ConflictFree(s, es)
  {
    if ConflictFree(s, es) {
      RunKeepsInv(s, es);
    } else {
      var i :| 0 <= i < |es| && ConflictsAt(Run(s, es[..i]), es[i]);
      ConflictIsFatal(s, es, i);
    }
  }

  /** Both imports check before either stores. */
  function Overlapping(a: Entry, b: Entry): seq<Event> {
    [Check(0, [a]), Check(1, [b]), Store(0), Store(1)]
  }

  lemma StoreInto(a: Entry, b: Entry)
    requires !SameKey(a, b)
    ensures Upsert([], a) == [a] && Upsert([a], b) == [a, b]
  {
    assert [a][1..] == [];
  }

  lemma BothStored(a: Entry, b: Entry)
    requires !SameKey(a, b)
    ensures Run(State([], map[]), Overlapping(a, b)).entries == [a, b]
  {
    var s, es := State([], map[]), Overlapping(a, b);
    StoreInto(a, b);
    RunNext(s, es, 0);
    assert Run(s, es[..1]) == State([], map[0 := [a]]);
    RunNext(s, es, 1);
    assert Run(s, es[..2]) == State([], map[0 := [a], 1 := [b]]);
    RunNext(s, es, 2);
    assert Run(s, es[..3]).entries == [a] && Run(s, es[..3]).pending[1] == [b];
    RunNext(s, es, 3);
    assert es[..4] == es;
  }

  /** Any two patterns that may not be stored together are, when two imports overlap. */
  lemma OverlappingImportsCollide(a: Entry, b: Entry)
    requires WellShaped(a) && WellShaped(b) && !Agree(a, b)
    ensures WellShapedFiles(Overlapping(a, b)) && !Unambiguous(Run(State([], map[]), Overlapping(a, b)).entries)
  {
    BothStored(a, b);
    assert [a, b][0] == a && [a, b][1] == b;
  }

  /** Such as `a/{x}/b` and `a/k/b`. */
  lemma SuchPatternsExist()
    ensures var a := Entry([Literal("a"), Wildcard("x"), Literal("b")], false, "");
      var b := Entry([Literal("a"), Literal("k"), Literal("b")], false, "");
      WellShaped(a) && WellShaped(b) && !Agree(a, b)
  {
    var p, q := [Literal("a"), Wildcard("x"), Literal("b")], [Literal("a"), Literal("k"), Literal("b")];
    assert p[1] != q[1] && StructurallyOverlap(p, q);
  }

  // ----- Imports that fail -----

  predicate ChecksCall(e: Event, call: nat) {
    e.Check? && e.call == call
  }

  /** An import that failed stores nothing more. */
  lemma {:induction false} FailedStoresNothing(s: State, call: nat, es: seq<Event>)
    requires forall i :: 0 <= i < |es| ==> !ChecksCall(es[i], call)
    ensures call !in Run(Step(s, Fail(call)), es).pending
  {
    if es != [] {
      FailedStoresNothing(s, call, es[..|es| - 1]);
    }
  }
}
