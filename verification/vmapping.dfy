/** The mapping algebra of v_mapping.py: `deep_merge`, the `VMappingBase` helpers
    (`_to_dict`, `__contains__`, `get`) and `VMapping.update`. */
module VMapping {
  import opened Errors
  import opened PyValue
  import OD = OrderedDict

  // ---------------------------------------------------------------------------
  // deep_merge
  // ---------------------------------------------------------------------------

  /** `deep_merge(a, b)`: a fresh dict with every key of `a` and `b`; on a collision
      `b` wins unless both values are Mappings, which are merged recursively. Only
      a dict is a Mapping: a PDiff or a PropVector is not. Dafny values are
      immutable, so neither input can be modified. */
  function DeepMerge(a: map<string, Value>, b: map<string, Value>): (r: map<string, Value>)
    ensures r.Keys == a.Keys + b.Keys
    ensures forall k | k in a && k !in b :: r[k] == a[k]
    ensures forall k | k in b && !(k in a && a[k].VDict? && b[k].VDict?) :: r[k] == b[k]
    decreases VDict(a)
  {
    map k | k in a.Keys + b.Keys ::
      if k !in b then a[k]
      else if k in a && a[k].VDict? && b[k].VDict? then VDict(DeepMerge(a[k].m, b[k].m))
      else b[k]
  }

  /** On a collision of two Mappings the result is their recursive merge, whose keys
      are the union of theirs. */
  lemma DeepMergeNested(a: map<string, Value>, b: map<string, Value>, k: string)
    requires k in a && k in b && a[k].VDict? && b[k].VDict?
    ensures DeepMerge(a, b)[k] == VDict(DeepMerge(a[k].m, b[k].m))
    ensures DeepMerge(a, b)[k].m.Keys == a[k].m.Keys + b[k].m.Keys
  {
  }

  /** `deep_merge(a, {}) == a`. */
  lemma DeepMergeEmptyRight(a: map<string, Value>)
    ensures DeepMerge(a, map[]) == a
  {
  }

  /** Merging a dict into itself changes nothing. */
  lemma {:induction false} DeepMergeSelf(a: map<string, Value>)
    ensures DeepMerge(a, a) == a
    decreases VDict(a)
  {
    forall k | k in a && a[k].VDict?
      ensures DeepMerge(a[k].m, a[k].m) == a[k].m
    {
      DeepMergeSelf(a[k].m);
    }
  }

  /** Laying the same overlay `b` down a second time changes nothing. */
  lemma {:induction false} DeepMergeOverlayIdempotent(a: map<string, Value>, b: map<string, Value>)
    ensures DeepMerge(DeepMerge(a, b), b) == DeepMerge(a, b)
    decreases VDict(b)
  {
    var ab := DeepMerge(a, b);
    forall k | k in b && ab[k].VDict? && b[k].VDict?
      ensures DeepMerge(ab[k].m, b[k].m) == ab[k].m
    {
      if k in a && a[k].VDict? {
        DeepMergeOverlayIdempotent(a[k].m, b[k].m);
      } else {
        DeepMergeSelf(b[k].m);
      }
    }
  }

  // ---------------------------------------------------------------------------
  // VMappingBase helpers
  // ---------------------------------------------------------------------------

  /** What `_to_dict` is given: an iterable of keyed values, or a Mapping. A Mapping
      is represented by the values it holds in order, each under its own key. */
  datatype Input<V> = Values(xs: seq<V>) | Mapping(d: seq<V>)

  /** `_to_dict`: a Mapping is copied; an iterable is keyed by `key`, with a later
      value replacing an earlier one of the same key in its original position. */
  function ToDict<V>(input: Input<V>, key: V -> string): (r: seq<V>)
    ensures input.Mapping? ==> r == input.d
    ensures input.Values? ==> OD.Unique(r, key)
    ensures input.Values? ==> forall k :: OD.Lookup(r, key, k) ==
                                if k in OD.KeysOf(input.xs, key) then Some(OD.LastWith(input.xs, key, k)) else None
  {
    match input
    case Mapping(d) => d
    case Values(xs) =>
      OD.FromSeqSpec(xs, key);
      OD.FromSeq(xs, key)
  }

  /** `__contains__` given the outcome of `self[key]`: a KeyError means "absent";
      any other exception propagates. */
  function ContainsVia<T>(item: Result<T>): (r: Result<bool>)
    ensures r == Ok(true) <==> item.Ok?
    ensures r == Ok(false) <==> item.Err? && item.error.KeyError?
    ensures r.Err? ==> item.Err? && r.error == item.error
  {
    match item
    case Ok(_) => Ok(true)
    case Err(KeyError(_)) => Ok(false)
    case Err(e) => Err(e)
  }

  /** `get(key, default)` given the outcome of `self[key]`. */
  function GetVia<T>(item: Result<T>, default: Option<T>): (r: Result<Option<T>>)
    ensures item.Ok? ==> r == Ok(Some(item.value))
    ensures item.Err? && item.error.KeyError? ==> r == Ok(default)
    ensures r.Err? <==> item.Err? && !item.error.KeyError?
  {
    match item
    case Ok(v) => Ok(Some(v))
    case Err(KeyError(_)) => Ok(default)
    case Err(e) => Err(e)
  }

  /** `get` and `__contains__` agree: a successful lookup is found by both, a missing
      key makes `get` return the default, and other failures surface from both. */
  lemma GetAgreesWithContains<T>(item: Result<T>, default: Option<T>)
    ensures ContainsVia(item) == Ok(true) ==> GetVia(item, default).Ok? && GetVia(item, default).value.Some?
    ensures ContainsVia(item) == Ok(false) ==> GetVia(item, default) == Ok(default)
    ensures ContainsVia(item).Err? <==> GetVia(item, default).Err?
  {
  }

  // ---------------------------------------------------------------------------
  // VMapping.update
  // ---------------------------------------------------------------------------

  /** A `VMapping` subclass instance: its concrete class and its dict's values. */
  datatype VMap<V> = VMap(cls: string, items: seq<V>)

  /** `VMapping.update(*others)`: fold every argument into a copy of the receiver's
      dict, raising TypeError at the first argument of another concrete class; the
      result is rebuilt by `_with_values`, i.e. re-keyed from the merged values. */
  function Update<V>(self: VMap<V>, others: seq<VMap<V>>, key: V -> string): (r: Result<VMap<V>>)
    ensures r.Ok? <==> forall i | 0 <= i < |others| :: others[i].cls == self.cls
    ensures r.Ok? ==> r.value.cls == self.cls
  {
    var merged :- MergeInto(self.items, self.cls, others, key);
    Ok(VMap(self.cls, OD.FromSeq(merged, key)))
  }

  function MergeInto<V>(merged: seq<V>, cls: string, others: seq<VMap<V>>, key: V -> string): (r: Result<seq<V>>)
    ensures r.Ok? <==> forall i | 0 <= i < |others| :: others[i].cls == cls
    ensures r.Ok? ==> r.value == OD.PutAll(merged, key, Flatten(others))
    decreases |others|
  {
    if others == [] then Ok(merged)
    else if others[0].cls != cls then Err(TypeError("VMapping.update: " + others[0].cls))
    else
      var r := MergeInto(OD.PutAll(merged, key, others[0].items), cls, others[1..], key);
      if r.Ok? then
        PutAllAppend(merged, key, others[0].items, Flatten(others[1..]));
        r
      else r
  }

  /** The values of all arguments, in argument order. */
  function Flatten<V>(others: seq<VMap<V>>): seq<V>
    decreases |others|
  {
    if others == [] then [] else others[0].items + Flatten(others[1..])
  }

  /** Folding `xs + ys` is folding `xs` and then `ys`. */
  lemma {:induction false} PutAllAppend<V>(acc: seq<V>, key: V -> string, xs: seq<V>, ys: seq<V>)
    ensures OD.PutAll(acc, key, xs + ys) == OD.PutAll(OD.PutAll(acc, key, xs), key, ys)
    decreases |ys|
  {
    if ys == [] {
      assert xs + ys == xs;
    } else {
      var n := |ys| - 1;
      assert (xs + ys)[..|xs + ys| - 1] == xs + ys[..n];
      PutAllAppend(acc, key, xs, ys[..n]);
    }
  }

  /** Re-keying an already keyed dict changes nothing. */
  lemma {:induction false} FromSeqOfUnique<V>(xs: seq<V>, key: V -> string)
    requires OD.Unique(xs, key)
    ensures OD.FromSeq(xs, key) == xs
    decreases |xs|
  {
    if xs != [] {
      var n := |xs| - 1;
      var prefix := xs[..n];
      assert xs == prefix + [xs[n]];
      assert OD.Unique(prefix, key) by {
        forall i, j | 0 <= i < j < n ensures key(prefix[i]) != key(prefix[j]) {
          assert prefix[i] == xs[i] && prefix[j] == xs[j];
        }
      }
      FromSeqOfUnique(prefix, key);
      var ks := OD.KeysOf(prefix, key);
      forall i | 0 <= i < n
        ensures ks[i] != key(xs[n])
      {
        assert prefix[i] == xs[i];
      }
      assert key(xs[n]) !in ks;
    }
  }

  /** `update` is right-biased: the value under each key is the last one given for
      it by the arguments, or the receiver's when no argument has the key. */
  lemma UpdateRightBiased<V>(self: VMap<V>, others: seq<VMap<V>>, key: V -> string, k: string)
    requires OD.Unique(self.items, key)
    requires Update(self, others, key).Ok?
    ensures var r := Update(self, others, key).value;
            OD.Lookup(r.items, key, k) ==
              if k in OD.KeysOf(Flatten(others), key) then Some(OD.LastWith(Flatten(others), key, k))
              else OD.Lookup(self.items, key, k)
  {
    var merged := OD.PutAll(self.items, key, Flatten(others));
    OD.PutAllSpec(self.items, key, Flatten(others));
    FromSeqOfUnique(merged, key);
  }
}
