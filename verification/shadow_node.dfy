/** Shadow nodes (shadow_node.py): the entries every node schema gains, and
    `HasPropsSchema.__merge__`, which produces a copy of a node with updated values.

    shadow_node.py imports `PropSection` and `PValues` from prop.py, which defines
    neither; they are read here as `PropSchema` and `PropVector`, the classes of
    prop.py with the constructor signatures the code uses. */
module ShadowNodes {
  import opened Errors
  import opened PyValue
  import opened PropSchemas
  import opened PropVectors
  import OD = OrderedDict

  /** `__TRACE__` of `_WithDefaults`: required, since `prop_meta` defaults `no_value`
      to IS_REQUIRED. `id` is the identity of the freshly read prop. */
  function TraceEntry(id: nat): Entry {
    Leaf(Prop(id, "__TRACE__", OtherType("RenderTrace"), VIsRequired, None, None, None))
  }

  /** `__CHILDREN__` of `_WithDefaults`: `no_value=()`. */
  function ChildrenEntry(id: nat): Entry {
    Leaf(Prop(id, "__CHILDREN__", OtherType("Iterable"), VTuple([]), None, None, None))
  }

  /** `key` of `InitPropsBase`: `no_value=None`. */
  function KeyEntry(id: nat): Entry {
    Leaf(Prop(id, "key", OtherType("str"), VNone, None, None, None))
  }

  /** As `is_required` is written, `__TRACE__` and `__CHILDREN__` are both required
      (both have a `no_value` other than None) and `key` is not. */
  lemma DefaultEntriesRequired(traceId: nat, childrenId: nat, keyId: nat)
    ensures Required(TraceEntry(traceId)) && Required(ChildrenEntry(childrenId))
    ensures !Required(KeyEntry(keyId))
    ensures ChildrenEntry(childrenId).prop.noValue == VTuple([])
  {
  }

  /** `HasPropsSchema.__init_subclass__`: an abstract class gets nothing; any other
      class gets its own schema updated with the `_WithDefaults` entries. */
  function InitSubclass(isAbstract: bool, own: PropSchema, traceId: nat, childrenId: nat): (r: Option<PropSchema>)
    ensures isAbstract <==> r.None?
    ensures r.Some? ==> r.value.name == own.name && r.value.repr == own.repr
  {
    if isAbstract then None
    else Some(SchemaUpdate(own, [TraceEntry(traceId), ChildrenEntry(childrenId)]))
  }

  /** Every concrete class's schema has the required `__TRACE__` and the
      `__CHILDREN__` defaulting to `()`, replacing any entries of those names, and
      keeps its own entry for every other name. */
  lemma InitSubclassAddsDefaults(own: PropSchema, traceId: nat, childrenId: nat, k: string)
    requires OD.Unique(own.props, EntryKey)
    ensures var s := InitSubclass(false, own, traceId, childrenId).value;
            OD.Unique(s.props, EntryKey) &&
            OD.Lookup(s.props, EntryKey, "__TRACE__") == Some(TraceEntry(traceId)) &&
            OD.Lookup(s.props, EntryKey, "__CHILDREN__") == Some(ChildrenEntry(childrenId)) &&
            (k != "__TRACE__" && k != "__CHILDREN__" ==> OD.Lookup(s.props, EntryKey, k) == OD.Lookup(own.props, EntryKey, k))
  {
    var defaults := [TraceEntry(traceId), ChildrenEntry(childrenId)];
    assert OD.KeysOf(defaults, EntryKey) == ["__TRACE__", "__CHILDREN__"];
    assert defaults[..1] == [TraceEntry(traceId)];
    SchemaUpdateSpec(own, defaults, "__TRACE__");
    SchemaUpdateSpec(own, defaults, "__CHILDREN__");
    SchemaUpdateSpec(own, defaults, k);
  }

  /** An instance of a `HasPropsSchema` class: its class name (`type_name`), the
      class's `__PROPS__` and the instance's `__PROP_VALUES__`. */
  datatype Holder = Holder(typeName: string, schema: PropSchema, values: PropVector)

  /** The receiver after `__merge__` and the clone it returns. */
  datatype Merged = Merged(self: Holder, clone: Holder)

  /** The first lines of `__merge__`: a receiver whose values are falsy gets a fresh
      empty vector of its class schema. */
  function Refresh(h: Holder): (r: Result<Holder>)
    ensures |h.values.schema.props| > 0 ==> r == Ok(h)
    ensures |h.values.schema.props| == 0 ==>
              r == if AssertValid(h.schema, VDict(map[])).Ok? then Ok(h.(values := PropVector(h.schema, map[], VNone)))
                   else Err(AssertValid(h.schema, VDict(map[])).error)
  {
    if Truthy(VVector(h.values.values, h.values.previous, |h.values.schema.props|)) then Ok(h)
    else
      var empty :- NewVector(h.schema, VDict(map[]), VNone);
      Ok(h.(values := empty))
  }

  /** `__merge__(other, **kwargs)`. A falsy `__PROP_VALUES__` (an empty vector) is
      replaced on the receiver by a fresh empty vector of the class schema, but the
      new values are still computed from the local `values`, the old vector:
      `values.update(other).update(kwargs)`. The clone is a copy of the receiver
      after that replacement, carrying the new values. */
  function Merge(h: Holder, other: map<string, Value>, kwargs: map<string, Value>): (r: Result<Merged>)
    ensures r.Ok? <==> Refresh(h).Ok? && Update(h.values, other).Ok? && Update(Update(h.values, other).value, kwargs).Ok?
    ensures r.Ok? ==> r.value.self == Refresh(h).value
    ensures r.Ok? ==> r.value.clone.typeName == h.typeName && r.value.clone.schema == h.schema
    ensures r.Ok? ==> r.value.clone.values.schema == h.values.schema
    ensures r.Ok? ==> r.value.clone.values.previous == VDict(Update(h.values, other).value.values)
  {
    var self :- Refresh(h);
    var once :- Update(h.values, other);
    var twice :- Update(once, kwargs);
    Ok(Merged(self, self.(values := twice)))
  }

  /** The later argument wins: a leaf given a non-None value by `kwargs` holds that
      value in the clone, whatever `other` said. */
  lemma MergeKwargsWin(h: Holder, other: map<string, Value>, kwargs: map<string, Value>, i: nat)
    requires OD.Unique(h.values.schema.props, EntryKey)
    requires Merge(h, other, kwargs).Ok?
    requires i < |h.values.schema.props| && h.values.schema.props[i].Leaf?
    requires Get(kwargs, h.values.schema.props[i].prop.name, VNone) != VNone
    ensures var p := h.values.schema.props[i].prop;
            var vals := Merge(h, other, kwargs).value.clone.values.values;
            p.name in vals && vals[p.name].VScalar? && vals[p.name].value == kwargs[p.name]
  {
    var once := Update(h.values, other).value;
    UpdateLeaf(once, kwargs, i);
  }

  /** As written, a value given only by `other` reaches the clone as the PropScalar
      object that the first `update` stored, wrapped once more by the second: the
      clone's value is a PropScalar whose value is a PropScalar holding it. */
  lemma MergeOtherWrappedTwice(h: Holder, other: map<string, Value>, kwargs: map<string, Value>, i: nat)
    requires OD.Unique(h.values.schema.props, EntryKey)
    requires Merge(h, other, kwargs).Ok?
    requires i < |h.values.schema.props| && h.values.schema.props[i].Leaf?
    requires Get(other, h.values.schema.props[i].prop.name, VNone) != VNone
    requires Get(kwargs, h.values.schema.props[i].prop.name, VNone) == VNone
    ensures var p := h.values.schema.props[i].prop;
            var vals := Merge(h, other, kwargs).value.clone.values.values;
            p.name in vals && vals[p.name].VScalar? && vals[p.name].value.VScalar? &&
            vals[p.name].value.value == other[p.name]
  {
    var once := Update(h.values, other).value;
    UpdateLeaf(h.values, other, i);
    UpdateLeaf(once, kwargs, i);
  }

  /** As written, `__merge__` fails on any node whose values have a section: the
      first `update` stores a PropVector object where the section's dict was, and
      the second `update` cannot wrap it. */
  lemma MergeFailsWithSections(h: Holder, other: map<string, Value>, kwargs: map<string, Value>, i: nat)
    requires OD.Unique(h.values.schema.props, EntryKey)
    requires i < |h.values.schema.props| && h.values.schema.props[i].Section?
    ensures Merge(h, other, kwargs).Err?
  {
    var once := Update(h.values, other);
    if once.Ok? {
      UpdatedSectionsCannotWrap(h.values, other, i);
      assert !Items(once.value).Ok?;
    }
  }

  /** The stale local: when the receiver's values are empty, the clone's values keep
      the old, empty schema even though the receiver was given a vector of the
      class schema, which may have entries. */
  lemma MergeStaleValues(h: Holder, other: map<string, Value>, kwargs: map<string, Value>)
    requires |h.values.schema.props| == 0 && Merge(h, other, kwargs).Ok?
    ensures Merge(h, other, kwargs).value.self.values.schema == h.schema
    ensures Merge(h, other, kwargs).value.clone.values.schema == h.values.schema
    ensures Merge(h, other, kwargs).value.clone.values.values == map[]
  {
    var once := Update(h.values, other).value;
    assert Update(once, kwargs).value.values == Store(UpdateFrom(once, 0, kwargs).value);
  }
}
