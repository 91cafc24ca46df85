/** The action union of react_tk/rendering/actions/actions.py: actions carry their
    container, placements their position `at`, and the entries they touch are
    `RenderedNode`s. `Create` computes its diff when it is built. */
module TkActions {
  import opened Errors
  import opened PyValue
  import PropVectors
  import opened Resources
  import opened TkReconcileState

  type Entry<R> = Rendered<R, RNode>

  /** The constructive actions. */
  datatype TSub<R> =
    | TCreate(next: RNode, container: RNode, diff: map<string, Value>)
    | TUpdate(existing: Entry<R>, next: RNode, diff: map<string, Value>)

  /** The reconcile actions; `TUpdated` is a bare `Update`. */
  datatype TAction<R> =
    | TPlace(container: RNode, at: int, what: TSub<R>)
    | TUnplace(removed: Entry<R>)
    | TReplace(container: RNode, replaced: Entry<R>, withWhat: TSub<R>, at: int)
    | TUpdated(existing: Entry<R>, next: RNode, diff: map<string, Value>)

  /** `Create(next, container)`: `__post_init__` computes the next node's props. */
  function MakeCreate<R>(next: RNode, container: RNode, conv: PropVectors.Converters): (r: Result<TSub<R>>)
    ensures r.Ok? <==> PropVectors.Compute(next.values, conv).Ok?
    ensures r.Ok? ==> r.value.TCreate? && r.value.next == next && r.value.container == container &&
                      r.value.diff == PropVectors.Compute(next.values, conv).value
  {
    var d :- PropVectors.Compute(next.values, conv);
    Ok(TCreate(next, container, d))
  }

  /** `node`: the next node of a constructive action, the entry's node for
      `Unplace`. */
  function Node<R>(a: TAction<R>): RNode {
    match a
    case TPlace(_, _, w) => w.next
    case TUnplace(removed) => removed.node
    case TReplace(_, _, w, _) => w.next
    case TUpdated(_, next, _) => next
  }

  /** `diff`; `Unplace` has none. */
  function Diff<R>(a: TAction<R>): Option<map<string, Value>> {
    match a
    case TPlace(_, _, w) => Some(w.diff)
    case TUnplace(_) => None
    case TReplace(_, _, w, _) => Some(w.diff)
    case TUpdated(_, _, d) => Some(d)
  }

  predicate SubCreatingNew<R>(w: TSub<R>) {
    w.TCreate?
  }

  /** `is_creating_new`. */
  predicate CreatingNew<R>(a: TAction<R>) {
    match a
    case TPlace(_, _, w) => SubCreatingNew(w)
    case TUnplace(_) => false
    case TReplace(_, _, w, _) => SubCreatingNew(w)
    case TUpdated(_, _, _) => false
  }

  /** `uid` (`key` for the constructive actions): the next node's uid, except that
      `Replace` reports the replaced entry's and `Unplace` its entry's. */
  function Uid<R>(a: TAction<R>): (u: string)
    ensures !a.TReplace? ==> u == Node(a).uid
    ensures a.TReplace? ==> u == a.replaced.node.uid
  {
    match a
    case TPlace(_, _, w) => w.next.uid
    case TUnplace(removed) => removed.node.uid
    case TReplace(_, replaced, _, _) => replaced.node.uid
    case TUpdated(_, next, _) => next.uid
  }

  /** Truthiness: only `Update` defines `__bool__`. */
  predicate Truthy<R>(a: TAction<R>): (b: bool)
    ensures !b <==> a.TUpdated? && Diff(a) == Some(map[])
  {
    !a.TUpdated? || a.diff != map[]
  }

  /** The delegations: `Place` and `Replace` answer `node`, `diff` and
      `is_creating_new` from their inner action; only a create creates, and a
      creating action is truthy. */
  lemma Delegations<R>(a: TAction<R>)
    ensures a.TPlace? ==> Node(a) == a.what.next && Diff(a) == Some(a.what.diff) && (CreatingNew(a) <==> a.what.TCreate?)
    ensures a.TReplace? ==> Node(a) == a.withWhat.next && Diff(a) == Some(a.withWhat.diff) && (CreatingNew(a) <==> a.withWhat.TCreate?)
    ensures a.TUnplace? ==> Node(a) == a.removed.node && !CreatingNew(a) && Diff(a).None?
    ensures CreatingNew(a) ==> Truthy(a) && !a.TUnplace? && !a.TUpdated?
  {
  }

  /** `Compat` here: the strings this module declares. */
  const TkCompatValues: set<string> := {"update", "switch", "place"}

  /** The two `Compat` declarations share only "update". */
  lemma CompatDeclarationsDiffer()
    ensures TkCompatValues * CompatValues == {"update"}
    ensures "replace" !in TkCompatValues && "recreate" !in TkCompatValues
  {
  }
}
