/** The actions of rendering/future_actions.py. `Create` and `Recreate` compute their
    diff (the full `compute()` of the next node's values) when they are built, so
    building one can fail; `Update` carries the diff it was given.

    The dataclasses declare fewer fields than the reconcilers pass to them (`Place`
    and `Replace` are built with their container, and in generate_actions.py `Place`
    with its position too); the model follows the call sites and keeps those
    fields. */
module FutureActions {
  import opened Errors
  import opened PyValue
  import opened PropVectors
  import opened Resources

  /** The constructive actions. */
  datatype Sub =
    | Create(next: RNode, diff: map<string, Value>)
    | Recreate(oldResource: Resource, next: RNode, diff: map<string, Value>)
    | Update(existing: Resource, next: RNode, diff: map<string, Value>)
  {
    /** `key`: the next node's uid. */
    function Key(): string {
      next.uid
    }
  }

  /** `Create(next)`: the diff is the full computed values of `next`. */
  function MakeCreate(next: RNode, conv: Converters): (r: Result<Sub>)
    ensures r.Ok? <==> Compute(next.values, conv).Ok?
    ensures r.Ok? ==> r.value.Create? && r.value.next == next && r.value.diff == Compute(next.values, conv).value
  {
    var d :- Compute(next.values, conv);
    Ok(Create(next, d))
  }

  /** `Recreate(oldResource, next)`: likewise. */
  function MakeRecreate(oldResource: Resource, next: RNode, conv: Converters): (r: Result<Sub>)
    ensures r.Ok? <==> Compute(next.values, conv).Ok?
    ensures r.Ok? ==> r.value == Recreate(oldResource, next, Compute(next.values, conv).value)
  {
    var d :- Compute(next.values, conv);
    Ok(Recreate(oldResource, next, d))
  }

  /** The reconcile actions of stateful_reconciler.py: `Place`, `Replace`, `Unplace`
      and a bare `Update` (`Updated`). */
  datatype Action =
    | Place(container: RNode, what: Sub)
    | Replace(container: RNode, replaced: Resource, withWhat: Sub)
    | Unplace(removed: Resource, container: RNode)
    | Updated(existing: Resource, next: RNode, diff: map<string, Value>)

  /** Truthiness: only `Update` defines `__bool__` (a non-empty diff); the other
      dataclasses are always truthy. */
  predicate ActionTruthy(a: Action): (b: bool)
    ensures !b <==> a.Updated? && ActionDiff(a) == Some(map[])
  {
    !a.Updated? || a.diff != map[]
  }

  /** `Place.diff` and `Replace.diff` delegate to the inner action; a bare update
      has its own. `Unplace` has none. */
  function ActionDiff(a: Action): (r: Option<map<string, Value>>)
    ensures r.None? <==> a.Unplace?
    ensures a.Place? ==> r == Some(a.what.diff)
    ensures a.Replace? ==> r == Some(a.withWhat.diff)
  {
    match a
    case Place(_, what) => Some(what.diff)
    case Replace(_, _, inner) => Some(inner.diff)
    case Unplace(_, _) => None
    case Updated(_, _, d) => Some(d)
  }

  /** `uid` / `key`: the next node's uid for `Place` and a bare update, but the
      REPLACED resource's uid for `Replace`, and the removed one's for `Unplace`. */
  function ActionUid(a: Action): (u: string)
    ensures (a.Place? || a.Updated?) ==> u == Incoming(a).value.uid
    ensures a.Replace? ==> u == ResourceUid(a.replaced)
    ensures a.Unplace? ==> u == ResourceUid(a.removed)
  {
    match a
    case Place(_, what) => what.Key()
    case Replace(_, replaced, _) => ResourceUid(replaced)
    case Unplace(removed, _) => ResourceUid(removed)
    case Updated(_, next, _) => next.uid
  }

  /** The node an action brings in, when it brings one in. */
  function Incoming(a: Action): (r: Option<RNode>)
    ensures r.None? <==> a.Unplace?
  {
    match a
    case Place(_, what) => Some(what.next)
    case Replace(_, _, inner) => Some(inner.next)
    case Unplace(_, _) => None
    case Updated(_, next, _) => Some(next)
  }

  /** The uid of a `Place` or bare update is that of the node it brings in; that of
      a `Replace` is the replaced resource's, which differs from the incoming one
      whenever the uids did. */
  lemma ActionUidIsIncomingUnlessReplace(a: Action)
    ensures a.Replace? && ResourceUid(a.replaced) != a.withWhat.next.uid ==> ActionUid(a) != Incoming(a).value.uid
  {
  }
}
