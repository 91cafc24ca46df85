/** `PropVector.diff` and `PDiff` (prop.py): the sparse difference between two vectors
    of a schema, recursing into sections whose `repr` is "recursive". */
module PropDiff {
  import opened Errors
  import opened PyValue
  import opened PropSchemas
  import opened PropVectors
  import OD = OrderedDict

  /** What `diff` is handed: another vector, or raw values bound to the receiver's schema. */
  datatype Other = OtherVector(vec: PropVector) | OtherValues(values: Value)

  /** `diff(other)`: raw values are first made into a vector of the receiver's schema
      (and so validated); the result is the `diff` dict of the returned PDiff. */
  function DiffWith(a: PropVector, other: Other): (r: Result<map<string, Value>>)
    ensures other.OtherValues? && !other.values.VDict? ==> r == Err(NotAMapping(a.schema.name))
    ensures other.OtherValues? && AssertValid(a.schema, other.values).Err? ==> r.Err?
    ensures other.OtherValues? && AssertValid(a.schema, other.values).Ok? ==>
              r == Diff(a, PropVector(a.schema, other.values.m, VNone))
    ensures other.OtherVector? ==> r == Diff(a, other.vec)
  {
    match other
    case OtherVector(b) => Diff(a, b)
    case OtherValues(values) =>
      var b :- NewVector(a.schema, values, VNone);
      Diff(a, b)
  }

  /** The diff proper. `other`'s values are validated against the receiver's schema;
      both vectors are iterated for their keys; a key of `other` unknown to the
      receiver makes `self[k]` raise KeyError; every other key contributes what
      `Step` says. The keys are visited in a set's order, so when several keys would
      fail, which failure surfaces is unspecified; this model visits the receiver's
      keys in schema order after checking `other`'s. */
  function Diff(a: PropVector, b: PropVector): (r: Result<map<string, Value>>)
    ensures r.Ok? <==>
      AssertValid(a.schema, VDict(b.values)).Ok? && Items(a).Ok? && Items(b).Ok? &&
      Names(b.schema) <= Names(a.schema) &&
      forall k | k in Names(a.schema) :: Step(a, b, k).Ok?
    decreases a.schema, 4
  {
    var _ :- AssertValid(a.schema, VDict(b.values));
    var _ :- Items(a);
    var _ :- Items(b);
    match Outside(b.schema.props, Names(a.schema))
    case Some(k) => Err(KeyError(k))
    case None =>
      assert Names(b.schema) <= Names(a.schema);
      var r := DiffFrom(a, b, 0, map[]);
      assert Tail(a, 0) == Names(a.schema);
      r
  }

  /** The first entry name not in `names`, if any. */
  function Outside(es: seq<Entry>, names: set<string>): (r: Option<string>)
    ensures r.None? <==> forall i | 0 <= i < |es| :: es[i].Name() in names
    ensures r.Some? ==> r.value !in names
  {
    if es == [] then None
    else if es[0].Name() !in names then Some(es[0].Name())
    else
      assert forall i | 1 <= i < |es| :: es[i] == es[1..][i - 1];
      Outside(es[1..], names)
  }

  /** The names of the receiver's entries from position `i` on. */
  function Tail(a: PropVector, i: nat): set<string> {
    set j | i <= j < |a.schema.props| :: a.schema.props[j].Name()
  }

  /** The loop over the receiver's keys, collecting into `acc`. */
  function DiffFrom(a: PropVector, b: PropVector, i: nat, acc: map<string, Value>): (r: Result<map<string, Value>>)
    requires i <= |a.schema.props|
    ensures r.Ok? <==> forall k | k in Tail(a, i) :: Step(a, b, k).Ok?
    decreases a.schema, 3, |a.schema.props| - i
  {
    if i == |a.schema.props| then Ok(acc)
    else
      var k := a.schema.props[i].Name();
      assert Tail(a, i) == {k} + Tail(a, i + 1);
      var x :- Step(a, b, k);
      var next := if x.Some? then acc[k := x.value] else acc;
      DiffFrom(a, b, i + 1, next)
  }

  /** What key `k` contributes, when its step succeeds. */
  function Reported(a: PropVector, b: PropVector, k: string): Option<Value> {
    match Step(a, b, k)
    case Ok(Some(x)) => Some(x)
    case _ => None
  }

  /** The body of the loop for a key of the receiver. A key absent from `other` is
      skipped. A scalar is reported, as `other`'s PropScalar, when the two scalars
      differ. A section must face a section (ValueError otherwise); a recursive one
      reports its sub-diff when that is truthy; any other one is compared with `!=`
      on two freshly wrapped PropVectors, which define no equality, and so is always
      reported as `other`'s PropVector. */
  function Step(a: PropVector, b: PropVector, k: string): (r: Result<Option<Value>>)
    ensures Contains(b, k) == Ok(false) ==> r == Ok(None)
    ensures r.Ok? && r.value.Some? ==> GetItem(a, k).Ok? && GetItem(b, k).Ok?
    decreases a.schema, 1
  {
    var inOther :- Contains(b, k);
    if !inOther then Ok(None)
    else
      var mine :- GetItem(a, k);
      var theirs :- GetItem(b, k);
      match mine
      case Scalar(_, _, _) =>
        Ok(if ScalarEq(mine, theirs) then None else Some(ItemValue(theirs)))
      case Vector(mv) =>
        if !theirs.Vector? then Err(DiffShapeMismatch(k))
        else if mv.schema.repr == Recursive then
          var j := OD.FirstIndex(OD.KeysOf(a.schema.props, EntryKey), k);
          assert a.schema.props[j] in a.schema.props;
          assert mv.schema == a.schema.props[j].schema;
          var sub :- Diff(mv, theirs.vec);
          Ok(if Truthy(VPDiff(sub)) then Some(VPDiff(sub)) else None)
        else Ok(Some(ItemValue(theirs)))
  }

  /** Folding the keys `ks` into `acc`, storing each key's reported value, if any. */
  function Collect(ks: seq<string>, rep: string -> Option<Value>, acc: map<string, Value>): (r: map<string, Value>)
    ensures forall k :: k in r <==> k in acc || (k in ks && rep(k).Some?)
    ensures forall k | k in r :: r[k] == if k in ks && rep(k).Some? then rep(k).value else acc[k]
    decreases |ks|
  {
    if ks == [] then acc
    else
      assert forall k :: k in ks <==> k == ks[0] || k in ks[1..];
      Collect(ks[1..], rep, if rep(ks[0]).Some? then acc[ks[0] := rep(ks[0]).value] else acc)
  }

  /** A successful loop is the fold of the remaining entry names with `Reported`. */
  lemma {:induction false} DiffFromCollects(a: PropVector, b: PropVector, i: nat, acc: map<string, Value>)
    requires i <= |a.schema.props| && DiffFrom(a, b, i, acc).Ok?
    ensures DiffFrom(a, b, i, acc).value ==
              Collect(OD.KeysOf(a.schema.props, EntryKey)[i..], k => Reported(a, b, k), acc)
    decreases |a.schema.props| - i
  {
    var ks := OD.KeysOf(a.schema.props, EntryKey);
    if i < |a.schema.props| {
      var k := a.schema.props[i].Name();
      var x := Step(a, b, k).value;
      assert Reported(a, b, k) == x;
      assert ks[i..][0] == k && ks[i..][1..] == ks[i + 1..];
      var next := if x.Some? then acc[k := x.value] else acc;
      DiffFromCollects(a, b, i + 1, next);
    }
  }

  /** A diff holds exactly the receiver's keys whose step reports something, each
      with the reported value. */
  lemma DiffContents(a: PropVector, b: PropVector)
    requires Diff(a, b).Ok?
    ensures forall k :: k in Diff(a, b).value <==> k in Names(a.schema) && Reported(a, b, k).Some?
    ensures forall k | k in Diff(a, b).value :: Diff(a, b).value[k] == Reported(a, b, k).value
  {
    var ks := OD.KeysOf(a.schema.props, EntryKey);
    assert ks[0..] == ks;
    assert Diff(a, b) == DiffFrom(a, b, 0, map[]);
    DiffFromCollects(a, b, 0, map[]);
    var rep := k => Reported(a, b, k);
    var c := Collect(ks, rep, map[]);
    assert Diff(a, b).value == c;
    assert forall k :: rep(k) == Reported(a, b, k);
  }

  // ---------------------------------------------------------------------------
  // Properties of the diff
  // ---------------------------------------------------------------------------

  /** The cases of a step for a key both sides have. */
  lemma StepCases(a: PropVector, b: PropVector, k: string)
    requires Step(a, b, k).Ok? && Contains(b, k) == Ok(true)
    ensures GetItem(a, k).Ok? && GetItem(b, k).Ok?
    ensures GetItem(a, k).value.Scalar? ==>
              Reported(a, b, k) ==
                if ScalarEq(GetItem(a, k).value, GetItem(b, k).value) then None else Some(ItemValue(GetItem(b, k).value))
    ensures GetItem(a, k).value.Vector? ==> GetItem(b, k).value.Vector?
    ensures GetItem(a, k).value.Vector? && GetItem(a, k).value.vec.schema.repr == Recursive ==>
              var sub := Diff(GetItem(a, k).value.vec, GetItem(b, k).value.vec);
              sub.Ok? && Reported(a, b, k) == if sub.value != map[] then Some(VPDiff(sub.value)) else None
    ensures GetItem(a, k).value.Vector? && GetItem(a, k).value.vec.schema.repr != Recursive ==>
              Reported(a, b, k) == Some(ItemValue(GetItem(b, k).value))
  {
    var mine := GetItem(a, k);
    var theirs := GetItem(b, k);
    assert mine.Ok? && theirs.Ok?;
    var r := Step(a, b, k);
    if mine.value.Vector? {
      var mv := mine.value.vec;
      assert theirs.value.Vector?;
      if mv.schema.repr == Recursive {
        var sub := Diff(mv, theirs.value.vec);
        assert sub.Ok?;
        assert r == Ok(if Truthy(VPDiff(sub.value)) then Some(VPDiff(sub.value)) else None);
        EmptyIffNotTruthy(sub.value);
      }
    }
  }

  /** `PDiff.__bool__`: a PDiff is truthy iff its dict is non-empty. */
  lemma EmptyIffNotTruthy(d: map<string, Value>)
    ensures Truthy(VPDiff(d)) <==> d != map[]
  {
    if d != map[] {
      var k :| k in d;
      assert k in d.Keys;
    }
  }

  lemma DiffHas(a: PropVector, b: PropVector, k: string)
    requires Diff(a, b).Ok?
    ensures k in Diff(a, b).value <==> k in Names(a.schema) && Reported(a, b, k).Some?
  {
    DiffContents(a, b);
  }

  /** Every key of a diff is a key of the receiver's schema. */
  lemma DiffKeysInSchema(a: PropVector, b: PropVector)
    requires Diff(a, b).Ok?
    ensures Diff(a, b).value.Keys <= Names(a.schema)
  {
    DiffContents(a, b);
  }

  /** In a vector whose items all wrap, a key of the schema is found by `in` and
      by `[]`, and any other key is absent. */
  lemma Lookups(v: PropVector, k: string)
    requires Items(v).Ok?
    ensures k in Names(v.schema) ==> GetItem(v, k).Ok? && Contains(v, k) == Ok(true)
    ensures k !in Names(v.schema) ==> Contains(v, k) == Ok(false)
  {
  }

  /** A scalar key is in the diff iff `other` has it and the two PropScalars are
      unequal; what is stored is `other`'s PropScalar. */
  lemma DiffScalar(a: PropVector, b: PropVector, k: string)
    requires Diff(a, b).Ok? && k in Names(a.schema)
    requires GetItem(a, k).Ok? && GetItem(a, k).value.Scalar?
    ensures k in Diff(a, b).value <==> k in Names(b.schema) && !ScalarEq(GetItem(a, k).value, GetItem(b, k).value)
    ensures k in Diff(a, b).value ==> Diff(a, b).value[k] == ItemValue(GetItem(b, k).value)
  {
    DiffContents(a, b);
    Lookups(b, k);
    if k in Names(b.schema) {
      StepCases(a, b, k);
    }
  }

  /** A recursive section is in the diff iff `other` has it and the sub-diff of the
      two sections is non-empty (a PDiff is truthy iff its dict is); what is stored
      is that sub-diff. */
  lemma DiffRecursiveSection(a: PropVector, b: PropVector, k: string)
    requires Diff(a, b).Ok? && k in Names(a.schema)
    requires GetItem(a, k).Ok? && GetItem(a, k).value.Vector? && GetItem(a, k).value.vec.schema.repr == Recursive
    ensures k in Names(b.schema) ==>
              GetItem(b, k).Ok? && GetItem(b, k).value.Vector? &&
              Diff(GetItem(a, k).value.vec, GetItem(b, k).value.vec).Ok?
    ensures k in Diff(a, b).value <==>
              k in Names(b.schema) && Diff(GetItem(a, k).value.vec, GetItem(b, k).value.vec).value != map[]
    ensures k in Diff(a, b).value ==>
              Diff(a, b).value[k] == VPDiff(Diff(GetItem(a, k).value.vec, GetItem(b, k).value.vec).value)
  {
    DiffContents(a, b);
    Lookups(b, k);
    if k in Names(b.schema) {
      StepCases(a, b, k);
    }
  }

  /** A section whose `repr` is not "recursive" is in the diff whenever `other` has
      it, changed or not: `!=` on two PropVector objects is identity. What is stored
      is `other`'s PropVector. */
  lemma DiffFixedSection(a: PropVector, b: PropVector, k: string)
    requires Diff(a, b).Ok? && k in Names(a.schema)
    requires GetItem(a, k).Ok? && GetItem(a, k).value.Vector? && GetItem(a, k).value.vec.schema.repr != Recursive
    ensures k in Diff(a, b).value <==> k in Names(b.schema)
    ensures k in Diff(a, b).value ==> GetItem(b, k).Ok? && Diff(a, b).value[k] == ItemValue(GetItem(b, k).value)
  {
    DiffContents(a, b);
    Lookups(b, k);
    if k in Names(b.schema) {
      StepCases(a, b, k);
    }
  }

  /** A non-recursive section somewhere below, reached through recursive sections. */
  predicate HasFixedSection(s: PropSchema)
    decreases s
  {
    exists i | 0 <= i < |s.props| ::
      s.props[i].Section? && (s.props[i].schema.repr != Recursive || HasFixedSection(s.props[i].schema))
  }

  /** In a well-keyed schema, `v[name]` wraps the entry of that name. */
  lemma GetItemAt(v: PropVector, i: nat)
    requires WellKeyed(v.schema) && i < |v.schema.props|
    ensures GetItem(v, v.schema.props[i].Name()) == Wrap(v, v.schema.props[i])
  {
    var ks := OD.KeysOf(v.schema.props, EntryKey);
    assert ks[i] == v.schema.props[i].Name();
    var j := OD.FirstIndex(ks, v.schema.props[i].Name());
    assert j == i;
  }

  /** Diffing a vector against itself reports exactly its non-recursive sections and
      the recursive sections that contain one; it is empty iff there are none. */
  lemma {:induction false} DiffSelf(v: PropVector)
    requires WellKeyed(v.schema) && Diff(v, v).Ok?
    ensures Diff(v, v).value == map[] <==> !HasFixedSection(v.schema)
    decreases v.schema, 2
  {
    if HasFixedSection(v.schema) {
      DiffSelfFixed(v);
    } else {
      DiffSelfClean(v);
    }
  }

  lemma {:induction false} DiffSelfFixed(v: PropVector)
    requires WellKeyed(v.schema) && Diff(v, v).Ok? && HasFixedSection(v.schema)
    ensures Diff(v, v).value != map[]
    decreases v.schema, 1
  {
    var s := v.schema;
    var i :| 0 <= i < |s.props| && s.props[i].Section? && (s.props[i].schema.repr != Recursive || HasFixedSection(s.props[i].schema));
    SelfStep(v, i);
    DiffContents(v, v);
    assert s.props[i].Name() in Diff(v, v).value;
  }

  lemma {:induction false} DiffSelfClean(v: PropVector)
    requires WellKeyed(v.schema) && Diff(v, v).Ok? && !HasFixedSection(v.schema)
    ensures Diff(v, v).value == map[]
    decreases v.schema, 1
  {
    var s := v.schema;
    forall i | 0 <= i < |s.props|
      ensures Reported(v, v, s.props[i].Name()).None?
    {
      CleanEntryUnreported(v, i);
    }
    NothingReported(v, v);
  }

  /** Without a non-recursive section below it, no entry of a self-diff reports. */
  lemma {:induction false} CleanEntryUnreported(v: PropVector, i: nat)
    requires WellKeyed(v.schema) && Diff(v, v).Ok? && !HasFixedSection(v.schema) && i < |v.schema.props|
    ensures Reported(v, v, v.schema.props[i].Name()).None?
    decreases v.schema, 0, 1
  {
    SelfStep(v, i);
  }

  /** A diff in which no entry reports anything is empty. */
  lemma NothingReported(a: PropVector, b: PropVector)
    requires Diff(a, b).Ok?
    requires forall i | 0 <= i < |a.schema.props| :: Reported(a, b, a.schema.props[i].Name()).None?
    ensures Diff(a, b).value == map[]
  {
    var d := Diff(a, b).value;
    forall k | k in d
      ensures false
    {
      DiffHas(a, b, k);
    }
    assert d.Keys == {};
  }

  /** The step of a self-diff for the `i`-th entry. */
  lemma {:induction false} SelfStep(v: PropVector, i: nat)
    requires WellKeyed(v.schema) && Diff(v, v).Ok? && i < |v.schema.props|
    ensures Reported(v, v, v.schema.props[i].Name()).Some? <==>
              v.schema.props[i].Section? &&
              (v.schema.props[i].schema.repr != Recursive || HasFixedSection(v.schema.props[i].schema))
    decreases v.schema, 0, 0
  {
    var e := v.schema.props[i];
    var k := e.Name();
    GetItemAt(v, i);
    Lookups(v, k);
    assert k in Names(v.schema);
    assert Step(v, v, k).Ok?;
    StepCases(v, v, k);
    var x := GetItem(v, k).value;
    match x
    case Scalar(_, value, _) =>
      PyEqReflexive(value);
    case Vector(mv) =>
      assert mv.schema == e.schema;
      assert e in v.schema.props;
      if mv.schema.repr == Recursive {
        DiffSelf(mv);
      }
  }
}
