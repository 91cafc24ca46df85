/** Values bound to a schema (prop.py): `PropScalar` for a leaf, `PropVector` for a
    schema, and their `compute` and `update`. */
module PropVectors {
  import opened Errors
  import opened PyValue
  import opened PropSchemas
  import OD = OrderedDict
  import VM = VMapping

  /** A `PropVector`: a schema, the raw values given for it and the previous values
      (`old`), which is `VNone` when there are none. */
  datatype PropVector = PropVector(schema: PropSchema, values: map<string, Value>, previous: Value)

  /** What iterating a `PropVector` yields: a `PropScalar` for a leaf (its prop, value
      and old value) or a nested `PropVector` for a section. */
  datatype Item = Scalar(prop: Prop, value: Value, previous: Value) | Vector(vec: PropVector) {
    /** `_get_key`: the item's name, its prop's or schema's. */
    function Name(): string {
      match this
      case Scalar(p, _, _) => p.name
      case Vector(v) => v.schema.name
    }
  }

  function ItemKey(x: Item): string {
    x.Name()
  }

  /** The item as a Python object stored in a dict (what `update` stores). */
  function ItemValue(x: Item): Value {
    match x
    case Scalar(_, v, o) => VScalar(v, o)
    case Vector(pv) => VVector(pv.values, pv.previous, |pv.schema.props|)
  }

  /** Applies the converter named by a prop's `converter` (uninterpreted). */
  type Converters = (nat, Value) -> Value

  // ---------------------------------------------------------------------------
  // PropScalar
  // ---------------------------------------------------------------------------

  /** `PropScalar(prop, value, old)`: `__post_init__` rejects None for a required prop. */
  function NewScalar(p: Prop, value: Value, previous: Value): (r: Result<Item>)
    ensures r.Err? <==> PropRequired(p) && value == VNone
    ensures r.Ok? ==> r.value == Scalar(p, value, previous)
  {
    if PropRequired(p) && value == VNone then Err(RequiredIsNone(p.name))
    else Ok(Scalar(p, value, previous))
  }

  /** `PropScalar.__eq__`: another PropScalar with the same prop (by identity) and an
      equal value; `old` plays no part. */
  predicate ScalarEq(x: Item, y: Item) {
    x.Scalar? && y.Scalar? && x.prop == y.prop && PyEq(x.value, y.value)
  }

  /** Equality ignores `old`: a scalar equals any copy of itself with another `old`. */
  lemma ScalarEqIgnoresPrevious(p: Prop, v: Value, o1: Value, o2: Value)
    ensures ScalarEq(Scalar(p, v, o1), Scalar(p, v, o2))
  {
    PyEqReflexive(v);
  }

  /** `computed_name`: the prop's `computed_name` unless it is None or empty. */
  function ScalarComputedName(p: Prop): (n: string)
    ensures p.computedName.Some? && p.computedName.value != "" ==> n == p.computedName.value
    ensures p.computedName.None? || p.computedName.value == "" ==> n == p.name
  {
    if p.computedName.Some? && p.computedName.value != "" then p.computedName.value else p.name
  }

  /** `PropScalar.compute`: `no_value` stands in for MISSING, and the converter, when
      there is one, is applied to the result. */
  function ScalarCompute(p: Prop, value: Value, conv: Converters): (r: Value)
    ensures p.converter.None? ==> r == (if value == VMissing then p.noValue else value)
    ensures p.converter.Some? ==> r == conv(p.converter.value, if value == VMissing then p.noValue else value)
  {
    var v := if value == VMissing then p.noValue else value;
    if p.converter.Some? then conv(p.converter.value, v) else v
  }

  /** `PropScalar.update(value)`: the new value, with `old` the previous value when it
      is truthy and None otherwise. */
  function ScalarUpdate(x: Item, value: Value): (r: Result<Item>)
    requires x.Scalar?
    ensures r.Ok? <==> !(PropRequired(x.prop) && value == VNone)
    ensures r.Ok? ==> r.value.Scalar? && r.value.prop == x.prop && r.value.value == value
    ensures r.Ok? ==> r.value.previous == if Truthy(x.value) then x.value else VNone
  {
    NewScalar(x.prop, value, if Truthy(x.value) then x.value else VNone)
  }

  // ---------------------------------------------------------------------------
  // PropVector construction and wrapping
  // ---------------------------------------------------------------------------

  /** `PropVector(schema, values, old)`: the constructor validates `values`. */
  function NewVector(s: PropSchema, values: Value, previous: Value): (r: Result<PropVector>)
    ensures r.Ok? <==> AssertValid(s, values).Ok?
    ensures r.Err? ==> r.error == AssertValid(s, values).error
    ensures r.Ok? ==> r.value == PropVector(s, values.m, previous)
  {
    var _ :- AssertValid(s, values);
    Ok(PropVector(s, values.m, previous))
  }

  /** `self._old.get(name) if self._old else None`. Only a dict has `get` in this
      model; any other truthy `old` raises AttributeError. */
  function OldFor(previous: Value, name: string): (r: Result<Value>)
    ensures !Truthy(previous) ==> r == Ok(VNone)
    ensures Truthy(previous) && previous.VDict? ==> r == Ok(Get(previous.m, name, VNone))
  {
    if !Truthy(previous) then Ok(VNone)
    else if previous.VDict? then Ok(Get(previous.m, name, VNone))
    else Err(AttributeError("get"))
  }

  /** `_wrap(prop)`: a leaf becomes a PropScalar of the given value or its `no_value`;
      a section becomes a PropVector of the given sub-dict or `{}`, validated. */
  function Wrap(v: PropVector, e: Entry): (r: Result<Item>)
    ensures r.Ok? ==> r.value.Name() == e.Name()
    ensures r.Ok? ==> (e.Leaf? <==> r.value.Scalar?)
    ensures r.Ok? && e.Leaf? ==> r.value.prop == e.prop && r.value.value == Get(v.values, e.prop.name, e.prop.noValue)
    ensures r.Ok? && e.Section? ==> r.value.vec.schema == e.schema
    ensures r.Err? ==> !r.error.KeyError?
  {
    var previous :- OldFor(v.previous, e.Name());
    match e
    case Leaf(p) => NewScalar(p, Get(v.values, p.name, p.noValue), previous)
    case Section(s) =>
      var sub :- NewVector(s, Get(v.values, s.name, VDict(map[])), previous);
      Ok(Vector(sub))
  }

  /** `v[key]`: the entry of that name, wrapped; KeyError if the schema has none. */
  function GetItem(v: PropVector, key: string): (r: Result<Item>)
    ensures key !in OD.KeysOf(v.schema.props, EntryKey) ==> r == Err(KeyError(key))
    ensures key in OD.KeysOf(v.schema.props, EntryKey) ==>
              r == Wrap(v, v.schema.props[OD.FirstIndex(OD.KeysOf(v.schema.props, EntryKey), key)])
  {
    match OD.Lookup(v.schema.props, EntryKey, key)
    case None => Err(KeyError(key))
    case Some(e) =>
      OD.LookupAt(v.schema.props, EntryKey, key);
      Wrap(v, e)
  }

  /** `key in v`: KeyError means absent; a wrapping failure propagates. */
  function Contains(v: PropVector, key: string): (r: Result<bool>)
    ensures r == Ok(false) <==> key !in OD.KeysOf(v.schema.props, EntryKey)
    ensures r == Ok(true) <==> GetItem(v, key).Ok?
  {
    VM.ContainsVia(GetItem(v, key))
  }

  /** Iterating a vector wraps every schema entry, in schema order. */
  function Items(v: PropVector): (r: Result<seq<Item>>)
    ensures r.Ok? <==> forall i | 0 <= i < |v.schema.props| :: Wrap(v, v.schema.props[i]).Ok?
    ensures r.Ok? ==> WrappedFrom(v, r.value)
  {
    ItemsFrom(v, 0)
  }

  /** `items` are the wrapped entries of `v`, position by position. */
  predicate WrappedFrom(v: PropVector, items: seq<Item>) {
    |items| == |v.schema.props| &&
    forall i | 0 <= i < |items| :: Wrap(v, v.schema.props[i]) == Ok(items[i])
  }

  function ItemsFrom(v: PropVector, i: nat): (r: Result<seq<Item>>)
    requires i <= |v.schema.props|
    ensures r.Ok? <==> forall j | i <= j < |v.schema.props| :: Wrap(v, v.schema.props[j]).Ok?
    ensures r.Ok? ==> |r.value| == |v.schema.props| - i
    ensures r.Ok? ==> forall j | i <= j < |v.schema.props| :: Wrap(v, v.schema.props[j]) == Ok(r.value[j - i])
    decreases |v.schema.props| - i
  {
    if i == |v.schema.props| then Ok([])
    else
      var x :- Wrap(v, v.schema.props[i]);
      var rest :- ItemsFrom(v, i + 1);
      Ok([x] + rest)
  }

  /** `len(v)` is the schema's length, and iteration yields one item per entry, named
      as the entry; a missing leaf takes its `no_value` and a missing section `{}`. */
  lemma ItemsFollowSchema(v: PropVector, i: nat)
    requires Items(v).Ok? && i < |v.schema.props|
    ensures |Items(v).value| == |v.schema.props|
    ensures Items(v).value[i].Name() == v.schema.props[i].Name()
    ensures v.schema.props[i].Leaf? && v.schema.props[i].prop.name !in v.values ==>
              Items(v).value[i].value == v.schema.props[i].prop.noValue
    ensures v.schema.props[i].Section? && v.schema.props[i].schema.name !in v.values ==>
              Items(v).value[i].vec.values == map[]
  {
  }

  /** A consequence of `is_required` as written: once a vector exists, every leaf
      missing from its values has `no_value` None, so `_wrap` never substitutes a
      real default -- a prop with a default must always be given explicitly. */
  lemma MissingLeafWrapsToNone(s: PropSchema, values: Value, previous: Value, i: nat)
    requires NewVector(s, values, previous).Ok?
    requires i < |s.props| && s.props[i].Leaf? && s.props[i].prop.name !in values.m
    ensures s.props[i].prop.noValue == VNone
    ensures Wrap(NewVector(s, values, previous).value, s.props[i]).Ok? ==>
              Wrap(NewVector(s, values, previous).value, s.props[i]).value.value == VNone
  {
    assert s.props[i].Name() == s.props[i].prop.name;
  }

  /** A leaf explicitly given None passes validation (values are not checked) but
      cannot be wrapped if its prop is required. */
  lemma ExplicitNoneFailsOnWrap(s: PropSchema, values: map<string, Value>, i: nat)
    requires NewVector(s, VDict(values), VNone).Ok?
    requires i < |s.props| && s.props[i].Leaf? && PropRequired(s.props[i].prop)
    requires Get(values, s.props[i].prop.name, VNone) == VNone
    ensures s.props[i].prop.name !in values ==> false
    ensures Wrap(NewVector(s, VDict(values), VNone).value, s.props[i]) == Err(RequiredIsNone(s.props[i].prop.name))
  {
    assert s.props[i].Name() == s.props[i].prop.name;
  }

  // ---------------------------------------------------------------------------
  // compute
  // ---------------------------------------------------------------------------

  /** `computed_name` of a vector: the schema's, or its name when None or empty. */
  function VectorComputedName(v: PropVector): (n: string)
    ensures v.schema.computedName.Some? && v.schema.computedName.value != "" ==> n == v.schema.computedName.value
    ensures v.schema.computedName.None? || v.schema.computedName.value == "" ==> n == v.schema.name
  {
    if v.schema.computedName.Some? && v.schema.computedName.value != "" then v.schema.computedName.value
    else v.schema.name
  }

  /** `PropVector.compute`: fold the items into a dict. A leaf goes to
      `result[computed_name]`, or to `result[subsection][computed_name]` with the
      section dict created on first use; a nested vector's computed dict goes to
      `result[computed_name]`. Indexing a section slot already holding a non-dict
      raises TypeError. */
  function Compute(v: PropVector, conv: Converters): (r: Result<map<string, Value>>)
    decreases v.schema, 2
  {
    ComputeFrom(v, 0, map[], conv)
  }

  function ComputeFrom(v: PropVector, i: nat, acc: map<string, Value>, conv: Converters): (r: Result<map<string, Value>>)
    requires i <= |v.schema.props|
    decreases v.schema, 1, |v.schema.props| - i
  {
    if i == |v.schema.props| then Ok(acc)
    else
      var next :- ComputeStep(v, i, acc, conv);
      ComputeFrom(v, i + 1, next, conv)
  }

  /** One pass of the loop: wrap the `i`-th entry and store its computed value. */
  function ComputeStep(v: PropVector, i: nat, acc: map<string, Value>, conv: Converters): (r: Result<map<string, Value>>)
    requires i < |v.schema.props|
    decreases v.schema, 0
  {
    var x :- Wrap(v, v.schema.props[i]);
    match x
    case Scalar(p, value, _) => Place(acc, p, ScalarCompute(p, value, conv))
    case Vector(sub) =>
      var d :- Compute(sub, conv);
      Ok(acc[VectorComputedName(sub) := VPDiff(d)])
  }

  /** Storing a computed leaf value: `_get_or_create_section(subsection)[name] = x`. */
  function Place(acc: map<string, Value>, p: Prop, x: Value): (r: Result<map<string, Value>>)
    ensures p.subsection.None? ==> r == Ok(acc[ScalarComputedName(p) := x])
    ensures p.subsection.Some? && p.subsection.value !in acc ==>
              r == Ok(acc[p.subsection.value := VDict(map[ScalarComputedName(p) := x])])
    ensures p.subsection.Some? && p.subsection.value in acc ==>
              (r.Ok? <==> acc[p.subsection.value].VDict?)
    ensures r.Ok? && p.subsection.Some? ==>
              r.value.Keys == acc.Keys + {p.subsection.value} &&
              r.value[p.subsection.value].VDict? &&
              ScalarComputedName(p) in r.value[p.subsection.value].m &&
              r.value[p.subsection.value].m[ScalarComputedName(p)] == x
  {
    var cn := ScalarComputedName(p);
    match p.subsection
    case None => Ok(acc[cn := x])
    case Some(s) =>
      if s !in acc then Ok(acc[s := VDict(map[cn := x])])
      else if acc[s].VDict? then Ok(acc[s := VDict(acc[s].m[cn := x])])
      else Err(TypeError("item assignment into " + s))
  }

  /** The slot a schema entry is computed into: a top-level key, or a key inside a
      subsection dict. */
  datatype Slot = Top(key: string) | Inside(section: string, key: string)

  function SlotOf(e: Entry): Slot {
    match e
    case Leaf(p) =>
      if p.subsection.Some? then Inside(p.subsection.value, ScalarComputedName(p)) else Top(ScalarComputedName(p))
    case Section(s) =>
      Top(if s.computedName.Some? && s.computedName.value != "" then s.computedName.value else s.name)
  }

  /** No two entries of a schema compete for a slot, and no top-level key is also a
      subsection name. */
  predicate SlotsDisjoint(s: PropSchema) {
    (forall i, j | 0 <= i < j < |s.props| :: SlotOf(s.props[i]) != SlotOf(s.props[j])) &&
    (forall i, j | 0 <= i < |s.props| && 0 <= j < |s.props| && SlotOf(s.props[i]).Top? && SlotOf(s.props[j]).Inside? ::
       SlotOf(s.props[i]).key != SlotOf(s.props[j]).section)
  }

  /** What the `i`-th entry contributes: its computed scalar, or the PDiff of its
      computed sub-dict. */
  function Contribution(v: PropVector, i: nat, conv: Converters): Result<Value>
    requires i < |v.schema.props|
  {
    var x :- Wrap(v, v.schema.props[i]);
    match x
    case Scalar(p, value, _) => Ok(ScalarCompute(p, value, conv))
    case Vector(sub) => var d :- Compute(sub, conv); Ok(VPDiff(d))
  }

  /** `x` sits in `slot` of the computed dict `r`. */
  predicate Holds(r: map<string, Value>, slot: Slot, x: Value) {
    match slot
    case Top(k) => k in r && r[k] == x
    case Inside(s, k) => s in r && r[s].VDict? && k in r[s].m && r[s].m[k] == x
  }

  /** When slots are disjoint, `compute` puts every entry's computed value in its
      slot: a leaf with subsection `s` at `result[s][computed_name]`, every other
      entry at `result[computed_name]` (the computed name defaulting to the name). */
  lemma ComputePlacement(v: PropVector, conv: Converters, t: nat)
    requires SlotsDisjoint(v.schema)
    requires Compute(v, conv).Ok? && t < |v.schema.props|
    ensures Contribution(v, t, conv).Ok?
    ensures Holds(Compute(v, conv).value, SlotOf(v.schema.props[t]), Contribution(v, t, conv).value)
  {
    ComputeFromPlacement(v, conv, 0, map[], t);
  }

  lemma {:induction false} ComputeFromPlacement(v: PropVector, conv: Converters, i: nat, acc: map<string, Value>, t: nat)
    requires SlotsDisjoint(v.schema)
    requires i <= |v.schema.props| && t < |v.schema.props|
    requires ComputeFrom(v, i, acc, conv).Ok?
    requires t < i ==> Contribution(v, t, conv).Ok? && Holds(acc, SlotOf(v.schema.props[t]), Contribution(v, t, conv).value)
    ensures Contribution(v, t, conv).Ok?
    ensures Holds(ComputeFrom(v, i, acc, conv).value, SlotOf(v.schema.props[t]), Contribution(v, t, conv).value)
    decreases |v.schema.props| - i
  {
    if i < |v.schema.props| {
      var next := ComputeUnfold(v, i, acc, conv);
      if t == i {
        StepFills(v, i, acc, conv);
      } else if t < i {
        StepKeeps(v, i, acc, conv, t);
      }
      ComputeFromPlacement(v, conv, i + 1, next.value, t);
    }
  }

  /** A successful loop from `i` made a successful pass over the `i`-th entry. */
  lemma ComputeUnfold(v: PropVector, i: nat, acc: map<string, Value>, conv: Converters) returns (next: Result<map<string, Value>>)
    requires i < |v.schema.props| && ComputeFrom(v, i, acc, conv).Ok?
    ensures next == ComputeStep(v, i, acc, conv) && next.Ok?
    ensures ComputeFrom(v, i, acc, conv) == ComputeFrom(v, i + 1, next.value, conv)
  {
    next := ComputeStep(v, i, acc, conv);
  }

  /** A pass fills its own entry's slot. */
  lemma StepFills(v: PropVector, i: nat, acc: map<string, Value>, conv: Converters)
    requires i < |v.schema.props| && ComputeStep(v, i, acc, conv).Ok?
    ensures Contribution(v, i, conv).Ok?
    ensures Holds(ComputeStep(v, i, acc, conv).value, SlotOf(v.schema.props[i]), Contribution(v, i, conv).value)
  {
  }

  /** A pass leaves every other entry's slot as it was. */
  lemma StepKeeps(v: PropVector, i: nat, acc: map<string, Value>, conv: Converters, t: nat)
    requires SlotsDisjoint(v.schema)
    requires i < |v.schema.props| && t < |v.schema.props| && t != i
    requires ComputeStep(v, i, acc, conv).Ok?
    requires Contribution(v, t, conv).Ok? && Holds(acc, SlotOf(v.schema.props[t]), Contribution(v, t, conv).value)
    ensures Holds(ComputeStep(v, i, acc, conv).value, SlotOf(v.schema.props[t]), Contribution(v, t, conv).value)
  {
    assert SlotOf(v.schema.props[t]) != SlotOf(v.schema.props[i]);
  }

  // ---------------------------------------------------------------------------
  // update
  // ---------------------------------------------------------------------------

  /** `PropVector.update(overrides)`: every item is wrapped (`_to_dict(self)`); each
      item with a non-None override is replaced by its own `update` of it; the
      result is a new vector over the same schema whose values are the resulting
      PropScalar/PropVector OBJECTS (not raw values), with `old` the receiver's raw
      values. */
  function Update(v: PropVector, overrides: map<string, Value>): (r: Result<PropVector>)
    ensures r.Ok? ==> r.value.schema == v.schema && r.value.previous == VDict(v.values)
    ensures r.Ok? <==> Items(v).Ok? && UpdateFrom(v, 0, overrides).Ok?
    decreases v.schema, 2
  {
    var _ :- Items(v);
    var updated :- UpdateFrom(v, 0, overrides);
    assert forall j | 0 <= j < |v.schema.props| :: UpdateOne(v, j, overrides) == Ok(updated[j]);
    StoreValid(v.schema, updated, v);
    NewVector(v.schema, VDict(Store(updated)), VDict(v.values))
  }

  function UpdateFrom(v: PropVector, i: nat, overrides: map<string, Value>): (r: Result<seq<Item>>)
    requires i <= |v.schema.props|
    ensures r.Ok? ==> |r.value| == |v.schema.props| - i
    ensures r.Ok? ==> forall j | i <= j < |v.schema.props| :: UpdateOne(v, j, overrides) == Ok(r.value[j - i])
    decreases v.schema, 1, |v.schema.props| - i
  {
    if i == |v.schema.props| then Ok([])
    else
      var x :- UpdateOne(v, i, overrides);
      var rest :- UpdateFrom(v, i + 1, overrides);
      ConsShift(x, rest);
      Ok([x] + rest)
  }

  lemma ConsShift<T>(x: T, rest: seq<T>)
    ensures forall j | 1 <= j <= |rest| :: ([x] + rest)[j] == rest[j - 1]
  {
  }

  /** One pass of the loop: `cur.update(other)` when `overrides.get(name)` is not None.
      A nested vector's `update` needs `other.get`, which only a dict has here. */
  function UpdateOne(v: PropVector, i: nat, overrides: map<string, Value>): (r: Result<Item>)
    requires i < |v.schema.props|
    ensures r.Ok? ==> r.value.Name() == v.schema.props[i].Name()
    decreases v.schema, 0
  {
    var x :- Wrap(v, v.schema.props[i]);
    var other := Get(overrides, x.Name(), VNone);
    if other == VNone then Ok(x)
    else
      match x
      case Scalar(_, _, _) => ScalarUpdate(x, other)
      case Vector(sub) =>
        if other.VDict? then
          var u :- Update(sub, other.m);
          Ok(Vector(u))
        else Err(AttributeError("get"))
  }

  /** `{x.name: x for x in items}` with the items stored as objects. */
  function Store(xs: seq<Item>): (d: map<string, Value>)
    ensures d.Keys == set i | 0 <= i < |xs| :: xs[i].Name()
    decreases |xs|
  {
    if xs == [] then map[]
    else
      var n := |xs| - 1;
      var d := Store(xs[..n])[xs[n].Name() := ItemValue(xs[n])];
      assert forall i | 0 <= i < n :: xs[..n][i] == xs[i];
      d
  }

  /** With distinct names, each item is stored under its own name. */
  lemma {:induction false} StoreAt(xs: seq<Item>, i: nat)
    requires OD.Unique(xs, ItemKey) && i < |xs|
    ensures xs[i].Name() in Store(xs) && Store(xs)[xs[i].Name()] == ItemValue(xs[i])
    decreases |xs|
  {
    var n := |xs| - 1;
    StoreSnoc(xs);
    if i < n {
      var pre := xs[..n];
      assert pre[i] == xs[i];
      assert OD.Unique(pre, ItemKey) by {
        assert forall a, b | 0 <= a < b < n :: pre[a] == xs[a] && pre[b] == xs[b];
      }
      StoreAt(pre, i);
      assert ItemKey(xs[i]) != ItemKey(xs[n]);
    }
  }

  lemma StoreSnoc(xs: seq<Item>)
    requires xs != []
    ensures var n := |xs| - 1; Store(xs) == Store(xs[..n])[xs[n].Name() := ItemValue(xs[n])]
  {
  }

  /** The stored dict names exactly the schema's entries, so the new vector always
      passes validation. */
  lemma StoreValid(s: PropSchema, updated: seq<Item>, v: PropVector)
    requires v.schema == s && |updated| == |s.props|
    requires forall j | 0 <= j < |s.props| :: updated[j].Name() == s.props[j].Name()
    ensures AssertValid(s, VDict(Store(updated))).Ok?
  {
    assert Store(updated).Keys == Names(s) by {
      forall k ensures k in Store(updated).Keys <==> k in Names(s) {
        if k in Names(s) {
          var j :| 0 <= j < |s.props| && s.props[j].Name() == k;
          assert updated[j].Name() == k;
        }
      }
    }
  }

  /** The updated item at position `i`, stored under its entry's name. */
  lemma UpdateStores(v: PropVector, overrides: map<string, Value>, i: nat)
    requires OD.Unique(v.schema.props, EntryKey)
    requires Update(v, overrides).Ok? && i < |v.schema.props|
    ensures UpdateOne(v, i, overrides).Ok?
    ensures var k := v.schema.props[i].Name();
            k in Update(v, overrides).value.values &&
            Update(v, overrides).value.values[k] == ItemValue(UpdateOne(v, i, overrides).value)
  {
    var updated := UpdatedItems(v, overrides);
    StoreAt(updated, i);
  }

  /** A successful `update` stores the items of the loop, one per entry and in
      schema order, so their names are as distinct as the entries'. */
  lemma UpdatedItems(v: PropVector, overrides: map<string, Value>) returns (updated: seq<Item>)
    requires OD.Unique(v.schema.props, EntryKey)
    requires Update(v, overrides).Ok?
    ensures |updated| == |v.schema.props|
    ensures forall j | 0 <= j < |v.schema.props| :: UpdateOne(v, j, overrides) == Ok(updated[j])
    ensures Update(v, overrides).value.values == Store(updated)
    ensures OD.Unique(updated, ItemKey)
  {
    updated := UpdateFrom(v, 0, overrides).value;
    assert forall j | 0 <= j < |v.schema.props| :: UpdateOne(v, j, overrides) == Ok(updated[j]);
    SameKeysUnique(v.schema.props, updated);
  }

  lemma SameKeysUnique(es: seq<Entry>, xs: seq<Item>)
    requires OD.Unique(es, EntryKey) && |xs| == |es|
    requires forall j | 0 <= j < |xs| :: xs[j].Name() == es[j].Name()
    ensures OD.Unique(xs, ItemKey)
  {
    assert forall j | 0 <= j < |xs| :: ItemKey(xs[j]) == EntryKey(es[j]);
  }

  /** `update` on a leaf: with a non-None override the stored PropScalar holds the
      override, remembering the current value as `old` only when it is truthy;
      without one it holds the current value (given or `no_value`) unchanged. */
  lemma UpdateLeaf(v: PropVector, overrides: map<string, Value>, i: nat)
    requires OD.Unique(v.schema.props, EntryKey)
    requires Update(v, overrides).Ok? && i < |v.schema.props| && v.schema.props[i].Leaf?
    ensures var p := v.schema.props[i].prop;
            var cur := Get(v.values, p.name, p.noValue);
            var other := Get(overrides, p.name, VNone);
            p.name in Update(v, overrides).value.values &&
            Update(v, overrides).value.values[p.name] ==
              if other == VNone then VScalar(cur, OldFor(v.previous, p.name).value)
              else VScalar(other, if Truthy(cur) then cur else VNone)
  {
    UpdateStores(v, overrides, i);
  }

  /** As written, `update` stores PropVector objects where sub-dicts were, and a
      PropVector is not a Mapping: wrapping any section of an updated vector fails. */
  lemma UpdatedSectionsCannotWrap(v: PropVector, overrides: map<string, Value>, i: nat)
    requires OD.Unique(v.schema.props, EntryKey)
    requires Update(v, overrides).Ok? && i < |v.schema.props| && v.schema.props[i].Section?
    ensures Wrap(Update(v, overrides).value, v.schema.props[i]) == Err(NotAMapping(v.schema.props[i].schema.name))
  {
    UpdateStores(v, overrides, i);
  }
}
