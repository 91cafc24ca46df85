/** MRO helpers (model2/util/core_reflection.py) over a model of Python classes:
    a class has a name, its own attributes in `vars()` order, and the rest of
    its MRO (`__mro__[1:]`), each a class of this kind again. Classes are
    compared by name. */
module Reflection {
  import opened Errors
  import opened PyValue

  /** An attribute name and the object `getattr` gives for it. */
  type Attr = (string, Value)

  datatype Class = Class(name: string, own: seq<Attr>, bases: seq<Class>)

  /** `cls.__mro__`: the class itself, then the rest of its MRO. */
  function Mro(c: Class): (r: seq<Class>)
    ensures |r| == |c.bases| + 1 && r[0] == c && r[1..] == c.bases
  {
    [c] + c.bases
  }

  /** The position of the first class named `n` in `s`. */
  function IndexOfName(s: seq<Class>, n: string): (i: nat)
    requires exists j | 0 <= j < |s| :: s[j].name == n
    ensures i < |s| && s[i].name == n
    ensures forall j | 0 <= j < i :: s[j].name != n
  {
    if s[0].name == n then 0 else 1 + IndexOfName(s[1..], n)
  }

  predicate NamesIn(s: seq<Class>, n: string) {
    exists j | 0 <= j < |s| :: s[j].name == n
  }

  /** `get_mro_up_to(cls, top)`: the MRO up to and including the first `top`;
      just `[cls]` when there is no `top` or the MRO does not contain it. */
  function GetMroUpTo(c: Class, top: Option<string>): (r: seq<Class>)
    ensures |r| > 0 && r[0] == c
    ensures r <= Mro(c)
    ensures top.None? || !NamesIn(Mro(c), top.value) ==> r == [c]
    ensures top.Some? && NamesIn(Mro(c), top.value) ==>
              r[|r| - 1].name == top.value && forall j | 0 <= j < |r| - 1 :: r[j].name != top.value
  {
    if top.None? then [c]
    else
      var mro := Mro(c);
      if NamesIn(mro, top.value) then mro[..IndexOfName(mro, top.value) + 1]
      else [c]
  }

  /** The cut of `get_mro_up_to` is unique: the result is the shortest prefix of
      the MRO that ends with `top`. */
  lemma MroUpToShortest(c: Class, top: string, k: nat)
    requires 0 < k <= |Mro(c)| && Mro(c)[k - 1].name == top
    ensures |GetMroUpTo(c, Some(top))| <= k
    ensures GetMroUpTo(c, Some(top)) == Mro(c)[..|GetMroUpTo(c, Some(top))|]
  {
    assert NamesIn(Mro(c), top);
  }

  /** `iter_attrs(cls)`: the class's own attributes, then those of each class of
      the rest of its MRO, walked the same way, until a class in `stopAt`. */
  function IterAttrs(c: Class, stopAt: set<string>): seq<Attr>
    decreases c, 1
  {
    c.own + IterBases(c, stopAt, 0)
  }

  /** The loop over `cls.__mro__[1:]` from its `i`-th class on. */
  function IterBases(c: Class, stopAt: set<string>, i: nat): seq<Attr>
    decreases c, 0, |c.bases| - i
  {
    if i >= |c.bases| || c.bases[i].name in stopAt then []
    else IterAttrs(c.bases[i], stopAt) + IterBases(c, stopAt, i + 1)
  }

  /** The names in a list of attributes. */
  function Names(xs: seq<Attr>): set<string> {
    set i | 0 <= i < |xs| :: xs[i].0
  }

  /** The loop of `get_attrs_downto` from `i` on: a name not yet in `result` is
      stored with its value; a name already there is skipped. */
  function FirstWins(xs: seq<Attr>, result: map<string, Value>): (r: map<string, Value>)
    ensures r.Keys == result.Keys + Names(xs)
    ensures forall k | k in result :: r[k] == result[k]
    decreases |xs|
  {
    if xs == [] then result
    else
      var r := FirstWins(xs[1..], if xs[0].0 in result then result else result[xs[0].0 := xs[0].1]);
      assert Names(xs) == {xs[0].0} + Names(xs[1..]);
      r
  }

  /** `get_attrs_downto(cls, stop_at)`. */
  function GetAttrsDownto(c: Class, stopAt: set<string>): (r: map<string, Value>)
    ensures r.Keys == Names(IterAttrs(c, stopAt))
  {
    FirstWins(IterAttrs(c, stopAt), map[])
  }

  /** Each name maps to the value of its FIRST occurrence in the walk. */
  lemma {:induction false} FirstWinsFirst(xs: seq<Attr>, result: map<string, Value>, i: nat)
    requires i < |xs| && xs[i].0 !in result
    requires forall j | 0 <= j < i :: xs[j].0 != xs[i].0
    ensures xs[i].0 in FirstWins(xs, result) && FirstWins(xs, result)[xs[i].0] == xs[i].1
    decreases |xs|
  {
    var next := if xs[0].0 in result then result else result[xs[0].0 := xs[0].1];
    if i > 0 {
      FirstWinsFirst(xs[1..], next, i - 1);
    }
  }

  /** A class's own attributes shadow everything it inherits: the first
      definition of a name among its own wins over every base's. */
  lemma OwnShadowsInherited(c: Class, stopAt: set<string>, i: nat)
    requires i < |c.own|
    requires forall j | 0 <= j < i :: c.own[j].0 != c.own[i].0
    ensures c.own[i].0 in GetAttrsDownto(c, stopAt)
    ensures GetAttrsDownto(c, stopAt)[c.own[i].0] == c.own[i].1
  {
    var xs := IterAttrs(c, stopAt);
    assert xs[i] == c.own[i];
    FirstWinsFirst(xs, map[], i);
  }

  /** The walk stops at the first base in `stopAt`: what follows it in the MRO
      adds nothing, and a stop class that comes first leaves only the class's own
      attributes. */
  lemma StopAtCutsWalk(c: Class, stopAt: set<string>)
    requires |c.bases| > 0 && c.bases[0].name in stopAt
    ensures GetAttrsDownto(c, stopAt).Keys == Names(c.own)
  {
    assert IterAttrs(c, stopAt) == c.own;
  }

  /** The keys are the union of the names of the class's own attributes and of
      the attributes of each base walked before the first stop class `n`. */
  lemma WalkKeys(c: Class, stopAt: set<string>, n: nat)
    requires n <= |c.bases| && forall j | 0 <= j < n :: c.bases[j].name !in stopAt
    requires n == |c.bases| || c.bases[n].name in stopAt
    ensures GetAttrsDownto(c, stopAt).Keys == Names(c.own) + WalkedNames(c, stopAt, 0, n)
  {
    BasesNames(c, stopAt, 0, n);
    NamesConcat(c.own, IterBases(c, stopAt, 0));
  }

  /** The names of the attributes of the bases from the `i`-th to before the `n`-th,
      each walked in full. */
  function WalkedNames(c: Class, stopAt: set<string>, i: nat, n: nat): set<string>
    requires i <= n <= |c.bases|
  {
    set j, k | i <= j < n && k in Names(IterAttrs(c.bases[j], stopAt)) :: k
  }

  lemma WalkedNamesSplit(c: Class, stopAt: set<string>, i: nat, n: nat)
    requires i < n <= |c.bases|
    ensures WalkedNames(c, stopAt, i, n) == Names(IterAttrs(c.bases[i], stopAt)) + WalkedNames(c, stopAt, i + 1, n)
  {
    var whole := WalkedNames(c, stopAt, i, n);
    var rest := WalkedNames(c, stopAt, i + 1, n);
    forall k | k in whole ensures k in Names(IterAttrs(c.bases[i], stopAt)) + rest {
      var j :| i <= j < n && k in Names(IterAttrs(c.bases[j], stopAt));
      if j > i {
        assert k in rest;
      }
    }
  }

  /** The names the loop over the bases yields from the `i`-th on. */
  lemma {:induction false} BasesNames(c: Class, stopAt: set<string>, i: nat, n: nat)
    requires i <= n <= |c.bases| && forall j | i <= j < n :: c.bases[j].name !in stopAt
    requires n == |c.bases| || c.bases[n].name in stopAt
    ensures Names(IterBases(c, stopAt, i)) == WalkedNames(c, stopAt, i, n)
    decreases n - i
  {
    if i < n {
      BasesNames(c, stopAt, i + 1, n);
      NamesConcat(IterAttrs(c.bases[i], stopAt), IterBases(c, stopAt, i + 1));
      WalkedNamesSplit(c, stopAt, i, n);
      assert IterBases(c, stopAt, i) == IterAttrs(c.bases[i], stopAt) + IterBases(c, stopAt, i + 1);
    } else {
      assert WalkedNames(c, stopAt, i, n) == {};
    }
  }

  lemma NamesConcat(xs: seq<Attr>, ys: seq<Attr>)
    ensures Names(xs + ys) == Names(xs) + Names(ys)
  {
    var zs := xs + ys;
    forall k | k in Names(zs) ensures k in Names(xs) + Names(ys) {
      var i :| 0 <= i < |zs| && zs[i].0 == k;
      if i >= |xs| {
        assert ys[i - |xs|].0 == k;
      }
    }
    forall k | k in Names(xs) ensures k in Names(zs) {
      var i :| 0 <= i < |xs| && xs[i].0 == k;
      assert zs[i].0 == k;
    }
    forall k | k in Names(ys) ensures k in Names(zs) {
      var i :| 0 <= i < |ys| && ys[i].0 == k;
      assert zs[i + |xs|].0 == k;
    }
  }
}
