/** Prop schemas (prop.py): a schema is a tree whose leaves are `Prop`s and whose inner
    nodes are nested `PropSchema`s, each stored in a dict keyed by its `name`. */
module PropSchemas {
  import opened Errors
  import opened PyValue
  import OD = OrderedDict

  /** How a nested schema takes part in a diff (`DiffMode`, common.py). */
  datatype DiffMode = Simple | Recursive | Never

  /** A prop's `value_type`: none at all (no check), `float`, or another type. */
  datatype TypeTag = Untyped | FloatType | OtherType(name: string)

  /** A leaf of a schema. Props compare by identity (`eq=False`), modelled by `id`.
      `converter` names the converter, applied by the `Converters` parameter of the
      functions that compute values. `noValue` is `VNone` when the prop has none. */
  datatype Prop = Prop(
    id: nat,
    name: string,
    valueType: TypeTag,
    noValue: Value,
    converter: Option<nat>,
    subsection: Option<string>,
    computedName: Option<string>)

  datatype Entry = Leaf(prop: Prop) | Section(schema: PropSchema) {
    /** `_get_key`: the entry's name. */
    function Name(): string {
      match this
      case Leaf(p) => p.name
      case Section(s) => s.name
    }
  }

  /** `props` holds the schema's dict values in insertion order. */
  datatype PropSchema = PropSchema(name: string, props: seq<Entry>, repr: DiffMode, computedName: Option<string>)

  /** The key function of a schema's dict. */
  function EntryKey(e: Entry): string {
    e.Name()
  }

  /** The names of a schema's entries. */
  function Names(s: PropSchema): (r: set<string>)
    ensures forall k :: k in r <==> k in OD.KeysOf(s.props, EntryKey)
  {
    var ks := OD.KeysOf(s.props, EntryKey);
    assert forall k | k in ks :: exists i | 0 <= i < |s.props| :: ks[i] == k && s.props[i].Name() == k;
    set i | 0 <= i < |s.props| :: s.props[i].Name()
  }

  /** No name occurs twice at any level, as every dict-built schema ensures. */
  predicate WellKeyed(s: PropSchema)
    decreases s
  {
    OD.Unique(s.props, EntryKey) &&
    forall i | 0 <= i < |s.props| :: s.props[i].Section? ==> WellKeyed(s.props[i].schema)
  }

  /** The constructor: `_to_dict` of the given entries. */
  function MakeSchema(name: string, entries: seq<Entry>, repr: DiffMode, computedName: Option<string>): (s: PropSchema)
    ensures OD.Unique(s.props, EntryKey)
    ensures Names(s) == set i | 0 <= i < |entries| :: entries[i].Name()
    ensures forall k :: OD.Lookup(s.props, EntryKey, k) ==
                        if k in OD.KeysOf(entries, EntryKey) then Some(OD.LastWith(entries, EntryKey, k)) else None
  {
    OD.FromSeqSpec(entries, EntryKey);
    var props := OD.FromSeq(entries, EntryKey);
    var s := PropSchema(name, props, repr, computedName);
    assert Names(s) == set i | 0 <= i < |entries| :: entries[i].Name() by {
      forall k ensures k in Names(s) <==> k in set i | 0 <= i < |entries| :: entries[i].Name() {
        assert OD.Lookup(props, EntryKey, k).Some? <==> k in OD.KeysOf(entries, EntryKey);
        if k in OD.KeysOf(entries, EntryKey) {
          var i :| 0 <= i < |entries| && OD.KeysOf(entries, EntryKey)[i] == k;
          assert entries[i].Name() == k;
        }
      }
    }
    s
  }

  // ---------------------------------------------------------------------------
  // is_required
  // ---------------------------------------------------------------------------

  /** `Prop.is_required`: the prop HAS a `no_value` (this is what the code says; a
      prop with a default therefore counts as required). */
  predicate PropRequired(p: Prop) {
    p.noValue != VNone
  }

  /** `is_required` of an entry; a schema is required iff all its entries are. */
  predicate Required(e: Entry)
    decreases e
  {
    match e
    case Leaf(p) => PropRequired(p)
    case Section(s) => forall i | 0 <= i < |s.props| :: Required(s.props[i])
  }

  predicate SchemaRequired(s: PropSchema) {
    Required(Section(s))
  }

  /** The empty schema is required (an empty `all`); a schema with a leaf whose
      `no_value` is None is not. */
  lemma SchemaRequiredCases(s: PropSchema, i: int)
    ensures |s.props| == 0 ==> SchemaRequired(s)
    ensures 0 <= i < |s.props| && s.props[i].Leaf? && s.props[i].prop.noValue == VNone ==> !SchemaRequired(s)
  {
    if 0 <= i < |s.props| && s.props[i].Leaf? && s.props[i].prop.noValue == VNone {
      assert !Required(s.props[i]);
    }
  }

  // ---------------------------------------------------------------------------
  // assert_valid
  // ---------------------------------------------------------------------------

  /** `Prop.assert_valid`: None for a required prop raises; an untyped prop accepts
      anything; a float prop sees an int (or bool, an int subclass) as a float; the
      rest is up to `check` (typeguard's `check_type`). */
  function PropAssertValid(p: Prop, input: Value, check: (TypeTag, Value) -> bool): (r: Result<()>)
    ensures input == VNone && PropRequired(p) ==> r == Err(RequiredIsNone(p.name))
    ensures !(input == VNone && PropRequired(p)) && p.valueType.Untyped? ==> r.Ok?
    ensures r.Err? ==> r.error == RequiredIsNone(p.name) || r.error == TypeCheckFailed(p.name)
  {
    if input == VNone && PropRequired(p) then Err(RequiredIsNone(p.name))
    else if p.valueType.Untyped? then Ok(())
    else
      var checked := if p.valueType.FloatType? && (input.VInt? || input.VBool?) then VFloat(Numeric(input)) else input;
      if check(p.valueType, checked) then Ok(()) else Err(TypeCheckFailed(p.name))
  }

  /** An int handed to a float prop is checked as the equal float. */
  lemma FloatPromotion(p: Prop, i: int, check: (TypeTag, Value) -> bool)
    requires p.valueType == FloatType
    ensures PropAssertValid(p, VInt(i), check).Ok? <==> check(FloatType, VFloat(i as real))
  {
  }

  /** `PropSchema.assert_valid`: the input must be a mapping; in schema order, a
      missing required entry raises; then keys outside the schema raise. The per-key
      `is_valid` call only returns a bool, which is discarded. */
  function AssertValid(s: PropSchema, input: Value): (r: Result<()>)
    ensures !input.VDict? ==> r == Err(NotAMapping(s.name))
    ensures r.Ok? <==>
      input.VDict? &&
      (forall i | 0 <= i < |s.props| :: s.props[i].Name() in input.m || !Required(s.props[i])) &&
      input.m.Keys <= Names(s)
    ensures r.Err? ==> r.error.NotAMapping? || r.error.MissingRequired? || r.error.UnknownProps?
  {
    if !input.VDict? then Err(NotAMapping(s.name))
    else
      var _ :- CheckPresent(s.name, s.props, input.m);
      var extra := input.m.Keys - Names(s);
      if extra != {} then Err(UnknownProps(s.name, extra))
      else
        assert input.m.Keys <= Names(s) by {
          forall k | k in input.m.Keys ensures k in Names(s) {
            assert k !in extra;
          }
        }
        Ok(())
  }

  /** The first entry, in order, that is missing and required. */
  function CheckPresent(schema: string, es: seq<Entry>, m: map<string, Value>): (r: Result<()>)
    ensures r.Ok? <==> forall i | 0 <= i < |es| :: es[i].Name() in m || !Required(es[i])
    ensures r.Err? ==> exists i | 0 <= i < |es| :: r.error == MissingRequired(schema, es[i].Name())
  {
    if es == [] then Ok(())
    else if es[0].Name() !in m && Required(es[0]) then Err(MissingRequired(schema, es[0].Name()))
    else
      var r := CheckPresent(schema, es[1..], m);
      assert forall i | 1 <= i < |es| :: es[i] == es[1..][i - 1];
      r
  }

  /** Validation sees only which keys are present: replacing a present value by
      anything, ill-typed or None, does not change the verdict. */
  lemma ValidityIgnoresValues(s: PropSchema, m: map<string, Value>, k: string, v: Value)
    requires k in m
    ensures AssertValid(s, VDict(m[k := v])) == AssertValid(s, VDict(m))
  {
    assert m[k := v].Keys == m.Keys;
    CheckPresentKeysOnly(s.name, s.props, m, m[k := v]);
  }

  lemma {:induction false} CheckPresentKeysOnly(schema: string, es: seq<Entry>, m: map<string, Value>, n: map<string, Value>)
    requires m.Keys == n.Keys
    ensures CheckPresent(schema, es, m) == CheckPresent(schema, es, n)
    decreases |es|
  {
    if es != [] {
      CheckPresentKeysOnly(schema, es[1..], m, n);
    }
  }

  // ---------------------------------------------------------------------------
  // update
  // ---------------------------------------------------------------------------

  /** `PropSchema.update(other)`: `deep_merge` of the two dicts. Entries are not
      Mappings, so the merge is flat: an entry of `other` replaces the receiver's
      entry of the same name, even when both are sections. */
  function SchemaUpdate(s: PropSchema, other: seq<Entry>): (r: PropSchema)
    ensures r.name == s.name && r.repr == s.repr && r.computedName == s.computedName
  {
    PropSchema(s.name, OD.PutAll(s.props, EntryKey, OD.FromSeq(other, EntryKey)), s.repr, s.computedName)
  }

  /** The union is right-biased and by name only: a name given by `other` maps to
      `other`'s last entry of that name, whatever the receiver had there. */
  lemma SchemaUpdateSpec(s: PropSchema, other: seq<Entry>, k: string)
    requires OD.Unique(s.props, EntryKey)
    ensures OD.Unique(SchemaUpdate(s, other).props, EntryKey)
    ensures OD.Lookup(SchemaUpdate(s, other).props, EntryKey, k) ==
              if k in OD.KeysOf(other, EntryKey) then Some(OD.LastWith(other, EntryKey, k))
              else OD.Lookup(s.props, EntryKey, k)
  {
    var o := OD.FromSeq(other, EntryKey);
    OD.FromSeqSpec(other, EntryKey);
    OD.PutAllSpec(s.props, EntryKey, o);
    if k in OD.KeysOf(o, EntryKey) {
      var j :| 0 <= j < |o| && OD.KeysOf(o, EntryKey)[j] == k;
      UniqueLastIsLookup(o, k, j);
    }
    assert k in OD.KeysOf(o, EntryKey) <==> k in OD.KeysOf(other, EntryKey) by {
      assert (OD.Lookup(o, EntryKey, k).Some?) <==> k in OD.KeysOf(other, EntryKey);
    }
  }

  /** In a dict with unique keys, the last entry of a key is its only entry. */
  lemma {:induction false} UniqueLastIsLookup(xs: seq<Entry>, k: string, j: nat)
    requires OD.Unique(xs, EntryKey)
    requires j < |xs| && xs[j].Name() == k
    ensures k in OD.KeysOf(xs, EntryKey)
    ensures OD.LastWith(xs, EntryKey, k) == xs[j]
    ensures OD.Lookup(xs, EntryKey, k) == Some(xs[j])
    decreases |xs|
  {
    assert OD.KeysOf(xs, EntryKey)[j] == k;
    OD.LookupAt(xs, EntryKey, k);
    var n := |xs| - 1;
    if j < n {
      assert OD.KeysOf(xs[..n], EntryKey)[j] == k;
      assert OD.Unique(xs[..n], EntryKey);
      UniqueLastIsLookup(xs[..n], k, j);
    }
  }
}
