/** The server-side field transforms a commit applies to a document: what one
    transform does to its field, and what a list of them does to a document. */
module FieldTransforms {
  import opened Values

  datatype FieldTransform =
    | ServerTimestamp(path: string)
    | Increment(path: string, operand: FieldValue)
    | Maximum(path: string, operand: FieldValue)
    | Minimum(path: string, operand: FieldValue)
    | AppendMissingElements(path: string, values: seq<FieldValue>)
    | RemoveAllFromArray(path: string, values: seq<FieldValue>)

  const NANOS: int := 1_000_000_000

  /** A clock reading in nanoseconds as the (seconds, nanos) value stored in a field. */
  function TimestampOf(now: int): FieldValue {
    Timestamp(now / NANOS, now % NANOS)
  }

  predicate Numeric(v: FieldValue) {
    v.Integer? || v.Double?
  }

  function AsReal(v: FieldValue): real
    requires Numeric(v)
  {
    if v.Integer? then v.i as real else v.d
  }

  function Lookup(fields: Fields, path: string): Option<FieldValue> {
    if path in fields then Some(fields[path]) else None
  }

  /** The number a field stands for in a sum; a missing field counts as zero. */
  function Counted(current: Option<FieldValue>): Option<real> {
    if current.None? then Some(0.0) else if Numeric(current.value) then Some(AsReal(current.value)) else None
  }

  /** The sum. It fails exactly when a side is no number or two integers add up
      beyond 64 bits; it is an integer exactly when no side is a double. */
  function Incremented(current: Option<FieldValue>, delta: FieldValue): (r: Result<FieldValue, CoreError>)
    ensures r.Ok? ==> Numeric(delta) && Numeric(r.value) && Counted(current).Some?
    ensures r.Ok? ==> AsReal(r.value) == Counted(current).value + AsReal(delta)
    ensures r.Ok? ==> (r.value.Integer? <==> delta.Integer? && (current.Some? ==> current.value.Integer?))
    ensures r.Ok? && r.value.Integer? ==> -I64_HALF <= r.value.i < I64_HALF
    ensures r.Err? ==> r.error == InvalidArgument
    ensures r.Err? && Numeric(delta) && Counted(current).Some? ==>
      && delta.Integer? && (current.Some? ==> current.value.Integer?)
      && !(-I64_HALF as real <= Counted(current).value + AsReal(delta) < I64_HALF as real)
  {
    if !Numeric(delta) || (current.Some? && !Numeric(current.value)) then Err(InvalidArgument)
    else
      var base := if current.Some? then current.value else if delta.Double? then Double(0.0) else Integer(0);
      if base.Integer? && delta.Integer? then
        if -I64_HALF <= base.i + delta.i < I64_HALF then Ok(Integer(base.i + delta.i)) else Err(InvalidArgument)
      else Ok(Double(AsReal(base) + AsReal(delta)))
  }

  /** The larger (or smaller) of the field and the operand; a tie keeps the
      field's own value, and only a value that is no number fails. */
  function Extremum(current: Option<FieldValue>, given: FieldValue, maximum: bool): (r: Result<FieldValue, CoreError>)
    ensures r.Ok? <==> Numeric(given) && Counted(current).Some?
    ensures r.Ok? ==> Numeric(r.value) && (r.value == given || Some(r.value) == current)
    ensures r.Ok? && maximum ==> AsReal(r.value) >= AsReal(given)
    ensures r.Ok? && !maximum ==> AsReal(r.value) <= AsReal(given)
    ensures r.Ok? && current.Some? && maximum ==> AsReal(r.value) >= AsReal(current.value)
    ensures r.Ok? && current.Some? && !maximum ==> AsReal(r.value) <= AsReal(current.value)
    ensures r.Ok? && current.Some? && AsReal(current.value) == AsReal(given) ==> r.value == current.value
  {
    if !Numeric(given) || (current.Some? && !Numeric(current.value)) then Err(InvalidArgument)
    else if current.None? then Ok(given)
    else if maximum then
      if AsReal(current.value) >= AsReal(given) then Ok(current.value) else Ok(given)
    else
      if AsReal(current.value) <= AsReal(given) then Ok(current.value) else Ok(given)
  }

  function Appended(items: seq<FieldValue>, values: seq<FieldValue>): seq<FieldValue>
    decreases |values|
  {
    if values == [] then items
    else Appended(if values[0] in items then items else items + [values[0]], values[1..])
  }

  function Retained(items: seq<FieldValue>, values: seq<FieldValue>): seq<FieldValue> {
    if items == [] then []
    else (if items[0] in values then [] else [items[0]]) + Retained(items[1..], values)
  }

  /** What a transform computes from the field's current value: the field
      afterwards (None: still absent) and the value reported to the client. */
  datatype Computed = Computed(field: Option<FieldValue>, reported: Option<FieldValue>)

  function Compute(current: Option<FieldValue>, t: FieldTransform, now: int): Result<Computed, CoreError> {
    match t
    case ServerTimestamp(_) => Ok(Computed(Some(TimestampOf(now)), Some(TimestampOf(now))))
    case Increment(_, delta) => Reported(Incremented(current, delta))
    case Maximum(_, given) => Reported(Extremum(current, given, true))
    case Minimum(_, given) => Reported(Extremum(current, given, false))
    case AppendMissingElements(_, values) =>
      if current.None? then Ok(Computed(Some(Array(Appended([], values))), None))
      else if current.value.Array? then Ok(Computed(Some(Array(Appended(current.value.items, values))), None))
      else Err(InvalidArgument)
    case RemoveAllFromArray(_, values) =>
      if current.None? then Ok(Computed(None, None))
      else if current.value.Array? then Ok(Computed(Some(Array(Retained(current.value.items, values))), None))
      else Err(InvalidArgument)
  }

  function Reported(value: Result<FieldValue, CoreError>): Result<Computed, CoreError> {
    match value
    case Err(e) => Err(e)
    case Ok(v) => Ok(Computed(Some(v), Some(v)))
  }

  function Put(fields: Fields, path: string, value: Option<FieldValue>): Fields {
    if value.Some? then fields[path := value.value] else fields
  }

  datatype Applied = Applied(fields: Fields, reported: seq<FieldValue>)

  function Apply(fields: Fields, t: FieldTransform, now: int): Result<Applied, CoreError> {
    match Compute(Lookup(fields, t.path), t, now)
    case Err(e) => Err(e)
    case Ok(c) => Ok(Applied(Put(fields, t.path, c.field), if c.reported.Some? then [c.reported.value] else []))
  }

  /** A list of transforms over `fields`; a field missing there is first copied from `seed`. */
  function ApplyAll(fields: Fields, seed: Fields, ts: seq<FieldTransform>, now: int): Result<Applied, CoreError>
    decreases |ts|
  {
    if ts == [] then Ok(Applied(fields, []))
    else
      match Apply(Seeded(fields, seed, ts[0].path), ts[0], now)
      case Err(e) => Err(e)
      case Ok(first) => Prepended(first.reported, ApplyAll(first.fields, seed, ts[1..], now))
  }

  function Prepended(reported: seq<FieldValue>, r: Result<Applied, CoreError>): Result<Applied, CoreError> {
    match r
    case Err(e) => Err(e)
    case Ok(rest) => Ok(Applied(rest.fields, reported + rest.reported))
  }

  lemma PrependedTwice(a: seq<FieldValue>, b: seq<FieldValue>, r: Result<Applied, CoreError>)
    ensures Prepended(a, Prepended(b, r)) == Prepended(a + b, r) && Prepended([], r) == r
  {
    if r.Ok? {
      assert a + (b + r.value.reported) == (a + b) + r.value.reported && [] + r.value.reported == r.value.reported;
    }
  }

  function Seeded(fields: Fields, seed: Fields, path: string): Fields {
    if path in fields then fields else Put(fields, path, Lookup(seed, path))
  }

  // ----- The array transforms -----

  /** Appending keeps what was there, adds exactly the missing values, each once. */
  lemma {:induction false} AppendIsExact(items: seq<FieldValue>, values: seq<FieldValue>)
    ensures items <= Appended(items, values)
    ensures forall v :: v in Appended(items, values) <==> v in items || v in values
    ensures forall i, j :: |items| <= i < j < |Appended(items, values)| ==>
      Appended(items, values)[i] != Appended(items, values)[j]
    ensures forall i :: |items| <= i < |Appended(items, values)| ==> Appended(items, values)[i] !in items
    decreases |values|
  {
    if values != [] {
      var next := if values[0] in items then items else items + [values[0]];
      AppendIsExact(next, values[1..]);
      assert values == [values[0]] + values[1..];
      var r := Appended(items, values);
      assert r == Appended(next, values[1..]);
      if values[0] !in items {
        assert r[..|next|] == next && r[|items|] == values[0];
      }
    }
  }

  lemma {:induction false} RetainedOfConcat(a: seq<FieldValue>, b: seq<FieldValue>, values: seq<FieldValue>)
    ensures Retained(a + b, values) == Retained(a, values) + Retained(b, values)
  {
    if a == [] {
      assert a + b == b;
    } else {
      assert (a + b)[1..] == a[1..] + b;
      RetainedOfConcat(a[1..], b, values);
    }
  }

  /** Removing the values just appended leaves what removing them from the original leaves. */
  lemma {:induction false} RemoveCancelsAppend(items: seq<FieldValue>, values: seq<FieldValue>, all: seq<FieldValue>)
    requires forall v :: v in values ==> v in all
    ensures Retained(Appended(items, values), all) == Retained(items, all)
    decreases |values|
  {
    if values != [] {
      var next := if values[0] in items then items else items + [values[0]];
      RemoveCancelsAppend(next, values[1..], all);
      RetainedOfConcat(items, [values[0]], all);
      assert [values[0]][1..] == [] && Retained([], all) == [];
      assert Retained([values[0]], all) == [];
    }
  }

  /** What an array holds after a removal: the other elements, in order and with their repetitions. */
  lemma {:induction false} RemoveIsExact(items: seq<FieldValue>, values: seq<FieldValue>, v: FieldValue)
    ensures multiset(Retained(items, values))[v] == if v in values then 0 else multiset(items)[v]
  {
    if items != [] {
      RemoveIsExact(items[1..], values, v);
      assert items == [items[0]] + items[1..];
      assert multiset(items) == multiset{items[0]} + multiset(items[1..]);
    }
  }

  method AppendValues(items: seq<FieldValue>, values: seq<FieldValue>) returns (merged: seq<FieldValue>)
    ensures merged == Appended(items, values)
  {
    merged := items;
    var i := 0;
    assert values[0..] == values;
    while i < |values|
      invariant 0 <= i <= |values|
      invariant Appended(items, values) == Appended(merged, values[i..])
    {
      assert values[i..][1..] == values[i + 1..];
      if values[i] !in merged {
        merged := merged + [values[i]];
      }
      i := i + 1;
    }
  }

  // ----- One transform -----

  /** The document is the old one with `v` in the field, and `reported` goes to the client. */
  predicate Sets(
      r: Result<Applied, CoreError>, fields: Fields, path: string, v: FieldValue, reported: seq<FieldValue>) {
    r == Ok(Applied(fields[path := v], reported))
  }

  /** The numeric transforms apply to a missing field or a number, with a number;
      an integer sum must fit in 64 bits. */
  predicate NumbersApply(current: Option<FieldValue>, t: FieldTransform)
    requires t.Increment? || t.Maximum? || t.Minimum?
  {
    && Numeric(t.operand) && Counted(current).Some?
    && (t.Increment? && t.operand.Integer? && (current.Some? ==> current.value.Integer?) ==>
      -I64_HALF as real <= Counted(current).value + AsReal(t.operand) < I64_HALF as real)
  }

  /** `v` is the sum, or the larger or smaller of the two, the field's own value
      on a tie; a missing field is zero in a sum and no rival otherwise. */
  predicate NumberFor(current: Option<FieldValue>, t: FieldTransform, v: FieldValue)
    requires (t.Increment? || t.Maximum? || t.Minimum?) && NumbersApply(current, t)
  {
    Numeric(v) &&
    match t
    case Increment(_, delta) =>
      && AsReal(v) == Counted(current).value + AsReal(delta)
      && (v.Integer? <==> delta.Integer? && (current.Some? ==> current.value.Integer?))
    case Maximum(_, given) =>
      v == if current.Some? && AsReal(given) <= AsReal(current.value) then current.value else given
    case Minimum(_, given) =>
      v == if current.Some? && AsReal(current.value) <= AsReal(given) then current.value else given
  }

  /** What each numeric transform does to its field. */
  lemma NumberTransform(fields: Fields, t: FieldTransform, now: int)
    requires t.Increment? || t.Maximum? || t.Minimum?
    ensures var r, current := Apply(fields, t, now), Lookup(fields, t.path);
      && (r.Ok? <==> NumbersApply(current, t))
      && (r.Ok? ==> exists v :: NumberFor(current, t, v) && Sets(r, fields, t.path, v, [v]))
  {
    var r, current := Apply(fields, t, now), Lookup(fields, t.path);
    if r.Ok? {
      var v := r.value.fields[t.path];
      assert NumberFor(current, t, v) && Sets(r, fields, t.path, v, [v]);
    }
  }

  /** The server's time is written and reported; the array transforms want an
      array or nothing, write the merged array, and report nothing. */
  lemma OtherTransform(fields: Fields, t: FieldTransform, now: int)
    ensures var r, current := Apply(fields, t, now), Lookup(fields, t.path);
      match t
      case ServerTimestamp(path) =>
        var v := Timestamp(now / 1_000_000_000, now % 1_000_000_000);
        Sets(r, fields, path, v, [v])
      case AppendMissingElements(path, values) =>
        if current.None? then Sets(r, fields, path, Array(Appended([], values)), [])
        else if current.value.Array? then Sets(r, fields, path, Array(Appended(current.value.items, values)), [])
        else r == Err(InvalidArgument)
      case RemoveAllFromArray(path, values) =>
        if current.None? then r == Ok(Applied(fields, []))
        else if current.value.Array? then Sets(r, fields, path, Array(Retained(current.value.items, values)), [])
        else r == Err(InvalidArgument)
      case _ => true
  {
  }

  // ----- Transforms inside an update -----

  predicate Targets(ts: seq<FieldTransform>, path: string) {
    exists i :: 0 <= i < |ts| && ts[i].path == path
  }

  /** A list of transforms changes only the fields it names, and never drops one. */
  lemma {:induction false} OthersUntouched(
      fields: Fields, seed: Fields, ts: seq<FieldTransform>, now: int, path: string)
    requires ApplyAll(fields, seed, ts, now).Ok?
    ensures !Targets(ts, path) ==> Lookup(ApplyAll(fields, seed, ts, now).value.fields, path) == Lookup(fields, path)
    ensures path in fields ==> path in ApplyAll(fields, seed, ts, now).value.fields
    decreases |ts|
  {
    if ts != [] {
      var first := Apply(Seeded(fields, seed, ts[0].path), ts[0], now).value;
      OthersUntouched(first.fields, seed, ts[1..], now, path);
      if Targets(ts[1..], path) {
        var i :| 0 <= i < |ts[1..]| && ts[1..][i].path == path;
        assert ts[i + 1].path == path;
      }
    }
  }

  lemma {:induction false} SeedArrives(fields: Fields, seed: Fields, ts: seq<FieldTransform>, now: int, path: string)
    requires ApplyAll(fields, seed, ts, now).Ok? && Targets(ts, path) && path in seed
    ensures path in ApplyAll(fields, seed, ts, now).value.fields
    decreases |ts|
  {
    var first := Apply(Seeded(fields, seed, ts[0].path), ts[0], now).value;
    if ts[0].path == path {
      OthersUntouched(first.fields, seed, ts[1..], now, path);
    } else {
      var i :| 0 <= i < |ts| && ts[i].path == path;
      assert ts[1..][i - 1].path == path;
      SeedArrives(first.fields, seed, ts[1..], now, path);
    }
  }

  /** `path` reads the same in an update's map seeded from `seed` as in the stored document. */
  predicate Synced(update: Fields, stored: Fields, seed: Fields, path: string) {
    Lookup(Seeded(update, seed, path), path) == Lookup(stored, path)
  }

  lemma StepSynced(update: Fields, stored: Fields, seed: Fields, t: FieldTransform, now: int, path: string)
    requires Synced(update, stored, seed, t.path) && Synced(update, stored, seed, path)
    requires Apply(stored, t, now).Ok?
    ensures Apply(Seeded(update, seed, t.path), t, now).Ok?
    ensures var left, right := Apply(Seeded(update, seed, t.path), t, now), Apply(stored, t, now);
      Synced(left.value.fields, right.value.fields, seed, path)
  {
  }

  lemma {:induction false} StaySynced(
      update: Fields, stored: Fields, seed: Fields, paths: set<string>, ts: seq<FieldTransform>, now: int)
    requires forall path :: path in paths ==> Synced(update, stored, seed, path)
    requires forall i :: 0 <= i < |ts| ==> ts[i].path in paths
    ensures ApplyAll(update, seed, ts, now).Ok? == ApplyAll(stored, map[], ts, now).Ok?
    ensures ApplyAll(update, seed, ts, now).Ok? ==> forall path :: path in paths ==>
      Synced(ApplyAll(update, seed, ts, now).value.fields, ApplyAll(stored, map[], ts, now).value.fields, seed, path)
    ensures ApplyAll(update, seed, ts, now).Ok? ==>
      ApplyAll(update, seed, ts, now).value.reported == ApplyAll(stored, map[], ts, now).value.reported
    decreases |ts|
  {
    if ts != [] {
      var q := ts[0].path;
      assert Synced(update, stored, seed, q);
      assert Seeded(stored, map[], q) == stored;
      var left, right := Apply(Seeded(update, seed, q), ts[0], now), Apply(stored, ts[0], now);
      if left.Ok? {
        forall path | path in paths ensures Synced(left.value.fields, right.value.fields, seed, path) {
          StepSynced(update, stored, seed, ts[0], now, path);
        }
        StaySynced(left.value.fields, right.value.fields, seed, paths, ts[1..], now);
      }
    }
  }

  /** An update that carries transforms gives each transformed field what the
      transforms would give it on the stored document overlaid with the update's
      own fields, reports the same values and fails together with that; every
      other field is the update's own. */
  lemma UpdateTransformsReadStored(fields: Fields, stored: Fields, ts: seq<FieldTransform>, now: int, path: string)
    ensures var update, overlaid := ApplyAll(fields, stored, ts, now), ApplyAll(stored + fields, map[], ts, now);
      && (update.Ok? <==> overlaid.Ok?)
      && (update.Ok? ==>
        && update.value.reported == overlaid.value.reported
        && Lookup(update.value.fields, path) ==
           Lookup(if Targets(ts, path) then overlaid.value.fields else fields, path))
  {
    var paths := set i | 0 <= i < |ts| :: ts[i].path;
    var base := stored + fields;
    StaySynced(fields, base, stored, paths, ts, now);
    if ApplyAll(fields, stored, ts, now).Ok? {
      OthersUntouched(fields, stored, ts, now, path);
      if Targets(ts, path) {
        assert path in paths;
        var update, overlaid :=
          ApplyAll(fields, stored, ts, now).value.fields, ApplyAll(base, map[], ts, now).value.fields;
        assert Synced(update, overlaid, stored, path);
        if path in stored {
          SeedArrives(fields, stored, ts, now, path);
        }
      }
    }
  }
}
