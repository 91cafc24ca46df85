/** Insertion-ordered dictionaries whose keys are computed from their values.

    The prop model stores props and wrapped values in Python dicts keyed by the
    element's `name` (`VMapping._to_dict`, v_mapping.py). A dict is modelled as the
    sequence of its values in insertion order, together with the key function. The
    operations follow CPython's dict: assigning to an existing key replaces the value
    in place and keeps the key's position; a new key goes to the end. */
module OrderedDict {
  import opened Errors

  /** The keys of `xs`, in order. */
  function KeysOf<V>(xs: seq<V>, key: V -> string): (ks: seq<string>)
    ensures |ks| == |xs|
    ensures forall i | 0 <= i < |xs| :: ks[i] == key(xs[i])
  {
    seq(|xs|, i requires 0 <= i < |xs| => key(xs[i]))
  }

  /** No key occurs twice: what every Python dict satisfies. */
  predicate Unique<V>(xs: seq<V>, key: V -> string) {
    forall i, j | 0 <= i < j < |xs| :: key(xs[i]) != key(xs[j])
  }

  /** `d.get(k)`: the first value stored under `k`. */
  function Lookup<V>(xs: seq<V>, key: V -> string, k: string): (r: Option<V>)
    ensures r.Some? <==> k in KeysOf(xs, key)
    ensures r.Some? ==> r.value in xs && key(r.value) == k
  {
    if xs == [] then None
    else if key(xs[0]) == k then Some(xs[0])
    else
      var r := Lookup(xs[1..], key, k);
      assert KeysOf(xs, key) == [key(xs[0])] + KeysOf(xs[1..], key);
      r
  }

  /** `d[key(v)] = v`. */
  function Put<V>(xs: seq<V>, key: V -> string, v: V): (r: seq<V>)
    ensures forall k :: Lookup(r, key, k) == if k == key(v) then Some(v) else Lookup(xs, key, k)
    ensures key(v) in KeysOf(xs, key) ==> KeysOf(r, key) == KeysOf(xs, key)
    ensures key(v) !in KeysOf(xs, key) ==> r == xs + [v]
    ensures Unique(xs, key) ==> Unique(r, key)
  {
    if xs == [] then [v]
    else
      assert xs == [xs[0]] + xs[1..];
      if key(xs[0]) == key(v) then
        PutHead(xs[0], xs[1..], key, v);
        [v] + xs[1..]
      else
        var rest := Put(xs[1..], key, v);
        PutTail(xs[0], xs[1..], rest, key, v);
        [xs[0]] + rest
  }

  /** `Put` on a dict whose first key is the new value's. */
  lemma PutHead<V>(x: V, ys: seq<V>, key: V -> string, v: V)
    requires key(x) == key(v)
    ensures forall k :: Lookup([v] + ys, key, k) == if k == key(v) then Some(v) else Lookup([x] + ys, key, k)
    ensures KeysOf([v] + ys, key) == KeysOf([x] + ys, key)
    ensures Unique([x] + ys, key) ==> Unique([v] + ys, key)
  {
    KeysCons(x, ys, key);
    KeysCons(v, ys, key);
    UniqueCons(x, ys, key);
    UniqueCons(v, ys, key);
    forall k ensures Lookup([v] + ys, key, k) == if k == key(v) then Some(v) else Lookup([x] + ys, key, k) {
      LookupCons(v, ys, key, k);
      LookupCons(x, ys, key, k);
    }
  }

  /** `Put` past a first key that is not the new value's, given what `Put` does on
      the rest. */
  lemma PutTail<V>(x: V, ys: seq<V>, rest: seq<V>, key: V -> string, v: V)
    requires key(x) != key(v)
    requires forall k :: Lookup(rest, key, k) == if k == key(v) then Some(v) else Lookup(ys, key, k)
    requires key(v) in KeysOf(ys, key) ==> KeysOf(rest, key) == KeysOf(ys, key)
    requires key(v) !in KeysOf(ys, key) ==> rest == ys + [v]
    requires Unique(ys, key) ==> Unique(rest, key)
    ensures forall k :: Lookup([x] + rest, key, k) == if k == key(v) then Some(v) else Lookup([x] + ys, key, k)
    ensures key(v) in KeysOf([x] + ys, key) ==> KeysOf([x] + rest, key) == KeysOf([x] + ys, key)
    ensures key(v) !in KeysOf([x] + ys, key) ==> [x] + rest == [x] + ys + [v]
    ensures Unique([x] + ys, key) ==> Unique([x] + rest, key)
  {
    forall k ensures Lookup([x] + rest, key, k) == if k == key(v) then Some(v) else Lookup([x] + ys, key, k) {
      LookupCons(x, rest, key, k);
      LookupCons(x, ys, key, k);
    }
    PutTailKeys(x, ys, rest, key, v);
    PutTailUnique(x, ys, rest, key, v);
  }

  lemma PutTailKeys<V>(x: V, ys: seq<V>, rest: seq<V>, key: V -> string, v: V)
    requires key(x) != key(v)
    requires key(v) in KeysOf(ys, key) ==> KeysOf(rest, key) == KeysOf(ys, key)
    requires key(v) !in KeysOf(ys, key) ==> rest == ys + [v]
    ensures key(v) in KeysOf([x] + ys, key) ==> KeysOf([x] + rest, key) == KeysOf([x] + ys, key)
    ensures key(v) !in KeysOf([x] + ys, key) ==> [x] + rest == [x] + ys + [v]
  {
    KeysCons(x, ys, key);
    KeysCons(x, rest, key);
  }

  lemma PutTailUnique<V>(x: V, ys: seq<V>, rest: seq<V>, key: V -> string, v: V)
    requires key(x) != key(v)
    requires forall k :: Lookup(rest, key, k) == if k == key(v) then Some(v) else Lookup(ys, key, k)
    requires Unique(ys, key) ==> Unique(rest, key)
    ensures Unique([x] + ys, key) ==> Unique([x] + rest, key)
  {
    UniqueCons(x, ys, key);
    UniqueCons(x, rest, key);
    assert Lookup(rest, key, key(x)) == Lookup(ys, key, key(x));
  }

  lemma KeysCons<V>(x: V, ys: seq<V>, key: V -> string)
    ensures KeysOf([x] + ys, key) == [key(x)] + KeysOf(ys, key)
  {
  }

  lemma LookupCons<V>(x: V, ys: seq<V>, key: V -> string, k: string)
    ensures Lookup([x] + ys, key, k) == if key(x) == k then Some(x) else Lookup(ys, key, k)
  {
    assert ([x] + ys)[1..] == ys;
  }

  lemma UniqueCons<V>(x: V, ys: seq<V>, key: V -> string)
    ensures Unique([x] + ys, key) <==> key(x) !in KeysOf(ys, key) && Unique(ys, key)
  {
    var zs := [x] + ys;
    if key(x) !in KeysOf(ys, key) && Unique(ys, key) {
      forall i, j | 0 <= i < j < |zs| ensures key(zs[i]) != key(zs[j]) {
        if i == 0 {
          assert KeysOf(ys, key)[j - 1] == key(zs[j]);
        } else {
          assert zs[i] == ys[i - 1] && zs[j] == ys[j - 1];
        }
      }
    }
    if Unique(zs, key) {
      forall i, j | 0 <= i < j < |ys| ensures key(ys[i]) != key(ys[j]) {
        assert zs[i + 1] == ys[i] && zs[j + 1] == ys[j];
      }
      forall j | 0 <= j < |ys| ensures KeysOf(ys, key)[j] != key(x) {
        assert zs[j + 1] == ys[j] && zs[0] == x;
      }
    }
  }

  /** Inserting the values of `xs` one after another into `acc`: `acc.update` with an
      iterable of keyed values, or `{key(x): x for x in xs}` when `acc` is empty. */
  function PutAll<V>(acc: seq<V>, key: V -> string, xs: seq<V>): (r: seq<V>)
    decreases |xs|
  {
    if xs == [] then acc
    else Put(PutAll(acc, key, xs[..|xs| - 1]), key, xs[|xs| - 1])
  }

  /** `VMapping._to_dict` of an iterable: keyed by `key`, later duplicates win. */
  function FromSeq<V>(xs: seq<V>, key: V -> string): seq<V> {
    PutAll([], key, xs)
  }

  /** Reference definition: the last element of `xs` with key `k`. */
  function LastWith<V>(xs: seq<V>, key: V -> string, k: string): (r: V)
    requires k in KeysOf(xs, key)
    ensures r in xs && key(r) == k
    decreases |xs|
  {
    var n := |xs| - 1;
    if key(xs[n]) == k then xs[n]
    else
      assert KeysOf(xs, key) == KeysOf(xs[..n], key) + [key(xs[n])];
      LastWith(xs[..n], key, k)
  }

  /** Reference definition: the keys of `ks` not in `seen`, each at its first occurrence. */
  function NewKeys(seen: seq<string>, ks: seq<string>): (r: seq<string>)
    ensures forall k :: k in r <==> k in ks && k !in seen
    decreases |ks|
  {
    if ks == [] then []
    else
      var n := |ks| - 1;
      var prior := NewKeys(seen, ks[..n]);
      assert ks == ks[..n] + [ks[n]];
      if ks[n] in seen || ks[n] in ks[..n] then prior else prior + [ks[n]]
  }

  /** The fold keeps keys unique, stores the LAST value given for each key, and orders
      the keys as `acc` followed by the new keys in first-occurrence order. */
  lemma PutAllSpec<V>(acc: seq<V>, key: V -> string, xs: seq<V>)
    ensures Unique(acc, key) ==> Unique(PutAll(acc, key, xs), key)
    ensures forall k :: Lookup(PutAll(acc, key, xs), key, k) ==
                        if k in KeysOf(xs, key) then Some(LastWith(xs, key, k)) else Lookup(acc, key, k)
    ensures KeysOf(PutAll(acc, key, xs), key) == KeysOf(acc, key) + NewKeys(KeysOf(acc, key), KeysOf(xs, key))
  {
    PutAllUnique(acc, key, xs);
    forall k ensures Lookup(PutAll(acc, key, xs), key, k) ==
                     if k in KeysOf(xs, key) then Some(LastWith(xs, key, k)) else Lookup(acc, key, k) {
      PutAllLookup(acc, key, xs, k);
    }
    PutAllKeys(acc, key, xs);
  }

  lemma {:induction false} PutAllUnique<V>(acc: seq<V>, key: V -> string, xs: seq<V>)
    ensures Unique(acc, key) ==> Unique(PutAll(acc, key, xs), key)
    decreases |xs|
  {
    if xs != [] {
      PutAllUnique(acc, key, xs[..|xs| - 1]);
    }
  }

  lemma {:induction false} PutAllLookup<V>(acc: seq<V>, key: V -> string, xs: seq<V>, k: string)
    ensures Lookup(PutAll(acc, key, xs), key, k) ==
            if k in KeysOf(xs, key) then Some(LastWith(xs, key, k)) else Lookup(acc, key, k)
    decreases |xs|
  {
    if xs != [] {
      var n := |xs| - 1;
      assert KeysOf(xs, key) == KeysOf(xs[..n], key) + [key(xs[n])];
      PutAllLookup(acc, key, xs[..n], k);
    }
  }

  lemma {:induction false} PutAllKeys<V>(acc: seq<V>, key: V -> string, xs: seq<V>)
    ensures KeysOf(PutAll(acc, key, xs), key) == KeysOf(acc, key) + NewKeys(KeysOf(acc, key), KeysOf(xs, key))
    decreases |xs|
  {
    if xs != [] {
      var n := |xs| - 1;
      var ks := KeysOf(xs, key);
      assert ks[..n] == KeysOf(xs[..n], key);
      PutAllKeys(acc, key, xs[..n]);
      var prior := PutAll(acc, key, xs[..n]);
      var seen := KeysOf(acc, key);
      assert key(xs[n]) in KeysOf(prior, key) <==> key(xs[n]) in seen || key(xs[n]) in ks[..n];
    }
  }

  /** `_to_dict` of an iterable yields a proper dict holding, for every key, the last
      value given for it, with keys in order of first appearance. */
  lemma FromSeqSpec<V>(xs: seq<V>, key: V -> string)
    ensures Unique(FromSeq(xs, key), key)
    ensures forall k :: Lookup(FromSeq(xs, key), key, k) ==
                        if k in KeysOf(xs, key) then Some(LastWith(xs, key, k)) else None
    ensures KeysOf(FromSeq(xs, key), key) == NewKeys([], KeysOf(xs, key))
  {
    PutAllSpec([], key, xs);
  }

  /** The position of the first occurrence of `k` in `ks`. */
  function FirstIndex<K(==)>(ks: seq<K>, k: K): (i: nat)
    requires k in ks
    ensures i < |ks| && ks[i] == k
    ensures forall j | 0 <= j < i :: ks[j] != k
  {
    if ks[0] == k then 0 else 1 + FirstIndex(ks[1..], k)
  }

  /** `d.get(k)` finds the value at the first position holding `k`. */
  lemma {:induction false} LookupAt<V>(xs: seq<V>, key: V -> string, k: string)
    requires k in KeysOf(xs, key)
    ensures Lookup(xs, key, k) == Some(xs[FirstIndex(KeysOf(xs, key), k)])
    decreases |xs|
  {
    var ks := KeysOf(xs, key);
    assert ks[1..] == KeysOf(xs[1..], key);
    if key(xs[0]) != k {
      assert k in ks[1..];
      LookupAt(xs[1..], key, k);
      assert FirstIndex(ks, k) == 1 + FirstIndex(ks[1..], k);
    }
  }
}
