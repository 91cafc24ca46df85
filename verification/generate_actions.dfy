/** The tree-walking draft of rendering/generate_actions.py. Its targets hold
    whatever `registered or raw` produced: a registered resource, or else the raw
    node, for both the previous and the next sibling. So a registered next sibling
    contributes its OLD node (`next_node` is `next.node`), and an unregistered
    previous one is used as if it were a resource: it fails with AttributeError,
    on `get_compatibility` when its class defines none, else on `.resource` or
    `.node`.

    `compute_reconcile_actions` computes every action and throws it away: what it
    leaves behind is the class-level `_placed` set, which is threaded through here
    as a value. It recurses into every next node that has kids, with
    `is_creating_new` read as the react_tk actions define it (`Create` creates,
    `Update` and `Unplace` do not, `Place` and `Replace` ask their inner action);
    `Recreate` defines nothing there and is read as creating. */
module GenerateActions {
  import opened Errors
  import opened PyValue
  import PropVectors
  import PropDiff
  import opened Resources
  import opened Duplicates

  /** `prev_resource or prev`. */
  datatype PrevT = PrevRes(res: Resource) | PrevNode(node: RNode)

  /** `next_resource or next`. */
  datatype NextT = NextRes(res: Resource) | NextNode(node: RNode)

  /** `next_node`: the node itself, or the registered resource's node. */
  function NextNodeOf(n: NextT): RNode {
    match n
    case NextRes(r) => r.node
    case NextNode(x) => x
  }

  /** `next_resource`. */
  function NextResource(n: Option<NextT>): (r: Option<Resource>)
    ensures r.Some? <==> n.Some? && n.value.NextRes?
  {
    if n.Some? && n.value.NextRes? then Some(n.value.res) else None
  }

  /** The inner actions. `Recreate` is built with `prev.resource`, the underlying
      object (`handle`), not the resource wrapper. */
  datatype GSub =
    | SCreate(next: RNode, diff: map<string, Value>)
    | SRecreate(oldHandle: nat, next: RNode, diff: map<string, Value>)
    | SUpdate(existing: Resource, next: RNode, diff: map<string, Value>)

  /** For an unregistered previous node, the node's own
      `get_compatibility(next_node)`: None when its class defines none (a bare
      ShadowNode), otherwise what it returns or raises (a `Widget` compares type
      names and diffs the two nodes' values). */
  type NodeCompatOracle = (RNode, RNode) -> Option<Result<Compat>>

  /** The outer actions; `GInner` is an inner action returned as it is. */
  datatype GAction =
    | GPlace(container: RNode, at: int, what: GSub)
    | GReplace(container: RNode, replaced: Resource, withWhat: GSub)
    | GUnplace(removed: PrevT, container: RNode)
    | GInner(sub: GSub)

  /** `_get_inner_action` for a previous resource (or none). */
  function InnerAction(prev: Option<Resource>, next: NextT, compat: CompatOracle, conv: PropVectors.Converters): (r: Result<GSub>)
    ensures r.Ok? ==> r.value.next == NextNodeOf(next)
    ensures r.Ok? ==> (r.value.SCreate? <==> prev.None?)
    ensures prev.None? ==> (r.Ok? <==> PropVectors.Compute(NextNodeOf(next).values, conv).Ok?)
    ensures r.Ok? && r.value.SCreate? ==> r.value.diff == PropVectors.Compute(NextNodeOf(next).values, conv).value
    ensures r.Ok? && r.value.SRecreate? ==>
              r.value.oldHandle == prev.value.handle && compat(prev.value, NextNodeOf(next)) == "recreate"
    ensures r.Ok? && r.value.SUpdate? ==>
              r.value.existing == prev.value && compat(prev.value, NextNodeOf(next)) != "recreate" &&
              PropDiff.Diff(prev.value.node.values, NextNodeOf(next).values) == Ok(r.value.diff)
  {
    var n := NextNodeOf(next);
    if prev.None? then
      var d :- PropVectors.Compute(n.values, conv);
      Ok(SCreate(n, d))
    else if compat(prev.value, n) == "recreate" then
      var d :- PropVectors.Compute(n.values, conv);
      Ok(SRecreate(prev.value.handle, n, d))
    else
      var d :- PropDiff.Diff(prev.value.node.values, n.values);
      Ok(SUpdate(prev.value, n, d))
  }

  /** The node an action brings in. */
  function GIncoming(a: GAction): Option<RNode> {
    match a
    case GPlace(_, _, w) => Some(w.next)
    case GReplace(_, _, w) => Some(w.next)
    case GUnplace(_, _) => None
    case GInner(w) => Some(w.next)
  }

  /** `get_outer_action`. The inner action is computed before anything else is
      decided. An unregistered previous node is a ShadowNode, not a resource: it
      fails on `get_compatibility` when its class defines none; otherwise that
      call's error propagates, and a verdict fails on `prev.resource` (recreate)
      or on `prev.node` (the update's diff). */
  function OuterAction(prev: Option<PrevT>, next: Option<NextT>, container: RNode, at: int,
                       compat: CompatOracle, nodeCompat: NodeCompatOracle, conv: PropVectors.Converters): (r: Result<GAction>)
    ensures next.None? ==> (r.Ok? <==> prev.Some?)
    ensures next.None? && prev.Some? ==> r == Ok(GUnplace(prev.value, container))
    ensures next.Some? && prev.Some? && prev.value.PrevNode? ==>
              r == (match nodeCompat(prev.value.node, NextNodeOf(next.value))
                    case None => Err(AttributeError("get_compatibility"))
                    case Some(Err(e)) => Err(e)
                    case Some(Ok(c)) => Err(AttributeError(if c == "recreate" then "resource" else "node")))
    ensures r.Ok? ==> (r.value.GUnplace? <==> next.None?)
    ensures r.Ok? ==> (r.value.GPlace? <==> next.Some? && prev.None?)
    ensures r.Ok? && r.value.GPlace? ==> r.value.at == at && r.value.container == container
    ensures r.Ok? && next.Some? ==> GIncoming(r.value) == Some(NextNodeOf(next.value))
    ensures r.Ok? && r.value.GReplace? ==>
              Some(PrevRes(r.value.replaced)) == prev &&
              (ResourceUid(r.value.replaced) != NextNodeOf(next.value).uid ||
               compat(r.value.replaced, NextNodeOf(next.value)) in {"replace", "recreate"})
    ensures r.Ok? && r.value.GInner? ==>
              r.value.sub.SUpdate? && prev.Some? && prev.value.PrevRes? &&
              ResourceUid(prev.value.res) == NextNodeOf(next.value).uid &&
              compat(prev.value.res, NextNodeOf(next.value)) == "update"
    ensures prev.Some? && prev.value.PrevRes? && next.Some? &&
            ResourceUid(prev.value.res) == NextNodeOf(next.value).uid &&
            InnerAction(Some(prev.value.res), next.value, compat, conv).Ok? &&
            compat(prev.value.res, NextNodeOf(next.value)) !in CompatValues ==>
              r == Err(UnknownCompat(compat(prev.value.res, NextNodeOf(next.value))))
  {
    match next
    case None =>
      if prev.None? then Err(AssertionError("Neither prev nor next exists"))
      else Ok(GUnplace(prev.value, container))
    case Some(nx) =>
      match prev
      case None =>
        var inner :- InnerAction(None, nx, compat, conv);
        Ok(GPlace(container, at, inner))
      case Some(PrevNode(p)) =>
        (match nodeCompat(p, NextNodeOf(nx))
         case None => Err(AttributeError("get_compatibility"))
         case Some(Err(e)) => Err(e)
         case Some(Ok(c)) => Err(AttributeError(if c == "recreate" then "resource" else "node")))
      case Some(PrevRes(p)) =>
        var inner :- InnerAction(Some(p), nx, compat, conv);
        var n := NextNodeOf(nx);
        if ResourceUid(p) != n.uid then Ok(GReplace(container, p, inner))
        else
          var c := compat(p, n);
          if c == "update" then Ok(GInner(inner))
          else if c == "replace" || c == "recreate" then Ok(GReplace(container, p, inner))
          else Err(UnknownCompat(c))
  }

  /** `is_creating_new`. */
  predicate SubCreatingNew(w: GSub) {
    !w.SUpdate?
  }

  predicate CreatingNew(a: GAction) {
    match a
    case GPlace(_, _, w) => SubCreatingNew(w)
    case GReplace(_, _, w) => SubCreatingNew(w)
    case GUnplace(_, _) => false
    case GInner(w) => SubCreatingNew(w)
  }

  type Registry = map<string, Resource>

  function Longest(prevs: seq<RNode>, kids: seq<RNode>): nat {
    if |prevs| < |kids| then |kids| else |prevs|
  }

  /** The uids of all nodes strictly below `n`. */
  function Desc(n: RNode): set<string>
    decreases n, 0
  {
    DescFrom(n.kids, 0)
  }

  /** The uids of `ks[i..]` and of everything below them. */
  function DescFrom(ks: seq<RNode>, i: nat): set<string>
    decreases ks, |ks| - i
  {
    if i >= |ks| then {} else {ks[i].uid} + Desc(ks[i]) + DescFrom(ks, i + 1)
  }

  /** The target of position `i`: the old kid (dropped when creating new) as its
      registered resource or itself, and likewise the next kid. */
  function PrevAt(res: Registry, prevs: seq<RNode>, i: nat, creatingNew: bool): Option<PrevT> {
    if creatingNew || i >= |prevs| then None
    else if prevs[i].uid in res then Some(PrevRes(res[prevs[i].uid]))
    else Some(PrevNode(prevs[i]))
  }

  function NextAt(res: Registry, kids: seq<RNode>, i: nat): Option<NextT> {
    if i >= |kids| then None
    else if kids[i].uid in res then Some(NextRes(res[kids[i].uid]))
    else Some(NextNode(kids[i]))
  }

  /** `compute_reconcile_actions(parent, is_creating_new)`, returning the `_placed`
      set it leaves behind. */
  function Compute(res: Registry, parent: RNode, creatingNew: bool, placed: set<string>,
                   compat: CompatOracle, nodeCompat: NodeCompatOracle, conv: PropVectors.Converters): (r: Result<set<string>>)
    ensures CheckDuplicates(Uids(parent.kids)).Err? ==> r.Err?
    ensures CheckDuplicates(Uids(parent.kids)).Ok? && parent.uid !in res ==> r == Err(KeyError(parent.uid))
    ensures r.Ok? ==> r.value == placed + Desc(parent)
    decreases parent, 1, 0
  {
    var unique :- CheckDuplicates(Uids(parent.kids));
    if parent.uid !in res then Err(KeyError(parent.uid))
    else Walk(res, parent, res[parent.uid].node.kids, creatingNew, 0, placed, compat, nodeCompat, conv)
  }

  /** The loop from position `i`: skip a trailing old kid already placed (by this
      call, an earlier one, or any other instance), otherwise compute the action,
      then recurse into a next kid that has kids. */
  function Walk(res: Registry, parent: RNode, prevs: seq<RNode>, creatingNew: bool, i: nat, placed: set<string>,
                compat: CompatOracle, nodeCompat: NodeCompatOracle, conv: PropVectors.Converters): (r: Result<set<string>>)
    ensures r.Ok? ==> r.value == placed + DescFrom(parent.kids, i)
    decreases parent, 0, Longest(prevs, parent.kids) - i
  {
    var kids := parent.kids;
    if i >= |prevs| && i >= |kids| then Ok(placed)
    else
      var prev := PrevAt(res, prevs, i, creatingNew);
      if i >= |kids| && !creatingNew && prevs[i].uid in placed then
        Walk(res, parent, prevs, creatingNew, i + 1, placed, compat, nodeCompat, conv)
      else
        var placed' := if i < |kids| then placed + {kids[i].uid} else placed;
        var a :- OuterAction(prev, NextAt(res, kids, i), parent, i, compat, nodeCompat, conv);
        var placed'' :-
          if i < |kids| && kids[i].kids != [] then Compute(res, kids[i], !CreatingNew(a) && !creatingNew, placed', compat, nodeCompat, conv)
          else Ok(placed');
        assert i < |kids| && kids[i].kids == [] ==> Desc(kids[i]) == {};
        Walk(res, parent, prevs, creatingNew, i + 1, placed'', compat, nodeCompat, conv)
  }

  // ---------------------------------------------------------------------------
  // Properties
  // ---------------------------------------------------------------------------

  /** A registered next kid is represented by its resource, whose node is the one
      diffed and brought in: the freshly rendered node's props are never read. */
  lemma RegisteredNextUsesOldNode(res: Registry, kids: seq<RNode>, i: nat)
    requires i < |kids| && kids[i].uid in res
    ensures NextAt(res, kids, i).Some?
    ensures NextNodeOf(NextAt(res, kids, i).value) == res[kids[i].uid].node
    ensures NextResource(NextAt(res, kids, i)) == Some(res[kids[i].uid])
  {
  }

  /** A node brought in by a creating action sends its kids down as new, so all of
      them are placed or created from nothing: their old kids are ignored. */
  lemma CreatingNewIgnoresPrevs(res: Registry, prevs: seq<RNode>, i: nat)
    ensures PrevAt(res, prevs, i, true).None?
  {
  }

  /** When creating new, an old kid beyond the new ones is never skipped, and its
      target has neither side: the assertion fails. */
  lemma CreatingNewWithTrailingPrevFails(res: Registry, parent: RNode, prevs: seq<RNode>, placed: set<string>,
                                          compat: CompatOracle, nodeCompat: NodeCompatOracle, conv: PropVectors.Converters)
    requires |parent.kids| < |prevs|
    ensures Walk(res, parent, prevs, true, |parent.kids|, placed, compat, nodeCompat, conv) ==
              Err(AssertionError("Neither prev nor next exists"))
  {
  }

  /** A trailing old kid whose uid is in the shared `_placed` set is skipped without
      computing anything: with a stale set from an earlier call, an old kid that
      should be removed yields no `Unplace`. */
  lemma StalePlacedSkipsRemoval(res: Registry, parent: RNode, prevs: seq<RNode>, i: nat, placed: set<string>,
                                compat: CompatOracle, nodeCompat: NodeCompatOracle, conv: PropVectors.Converters)
    requires |parent.kids| <= i < |prevs| && prevs[i].uid in placed
    ensures Walk(res, parent, prevs, false, i, placed, compat, nodeCompat, conv) ==
              Walk(res, parent, prevs, false, i + 1, placed, compat, nodeCompat, conv)
  {
  }

  /** A kid that has kids and no registered resource makes the whole walk fail:
      recursing into it looks it up in the registry. Nothing registers anything
      while the walk runs, so whatever happens before it, the result is an
      error. */
  lemma {:induction false} UnregisteredParentFails(res: Registry, parent: RNode, prevs: seq<RNode>, creatingNew: bool,
                                                   i: nat, j: nat, placed: set<string>,
                                                   compat: CompatOracle, nodeCompat: NodeCompatOracle, conv: PropVectors.Converters)
    requires i <= j < |parent.kids| && parent.kids[j].kids != [] && parent.kids[j].uid !in res
    ensures Walk(res, parent, prevs, creatingNew, i, placed, compat, nodeCompat, conv).Err?
    decreases j - i
  {
    var kids := parent.kids;
    var placed' := placed + {kids[i].uid};
    var a := OuterAction(PrevAt(res, prevs, i, creatingNew), NextAt(res, kids, i), parent, i, compat, nodeCompat, conv);
    if a.Ok? {
      if i == j {
        var inner := Compute(res, kids[i], !CreatingNew(a.value) && !creatingNew, placed', compat, nodeCompat, conv);
        assert inner.Err?;
      } else {
        var sub := if kids[i].kids != [] then Compute(res, kids[i], !CreatingNew(a.value) && !creatingNew, placed', compat, nodeCompat, conv)
                   else Ok(placed');
        if sub.Ok? {
          UnregisteredParentFails(res, parent, prevs, creatingNew, i + 1, j, sub.value, compat, nodeCompat, conv);
        }
      }
    }
  }

  /** The placed set only grows, and a successful call has placed the parent's
      kids and everything below them. */
  lemma PlacedGrows(res: Registry, parent: RNode, creatingNew: bool, placed: set<string>,
                    compat: CompatOracle, nodeCompat: NodeCompatOracle, conv: PropVectors.Converters)
    requires Compute(res, parent, creatingNew, placed, compat, nodeCompat, conv).Ok?
    ensures placed <= Compute(res, parent, creatingNew, placed, compat, nodeCompat, conv).value
    ensures forall k | 0 <= k < |parent.kids| ::
              parent.kids[k].uid in Compute(res, parent, creatingNew, placed, compat, nodeCompat, conv).value
  {
    forall k | 0 <= k < |parent.kids| ensures parent.kids[k].uid in DescFrom(parent.kids, 0) {
      DescFromHas(parent.kids, 0, k);
    }
  }

  lemma {:induction false} DescFromHas(ks: seq<RNode>, i: nat, k: nat)
    requires i <= k < |ks|
    ensures ks[k].uid in DescFrom(ks, i)
    decreases k - i
  {
    if i < k {
      DescFromHas(ks, i + 1, k);
    }
  }
}
