/** The reconciler of rendering/stateful_reconciler.py: `ReconcileTarget.get_action`
    classifies one (previous, next) pair of siblings, `compute_reconcile_actions`
    pairs the registered parent's old kids with the new rendering, and
    `_do_create_action` / `_do_reconcile_action` carry the actions out.

    The registry `_key_to_resource` is a value threaded through; the resources'
    side effects (`update`, `place`, `replace`, ...) are recorded as `Effect`s in
    order; `self.create`, `Resource.migrate` and `get_compatibility` are
    parameters. A resource's kids (`resource.kids`, which `Resource` does not
    define) are read as the kids of its node. */
module StatefulReconcile {
  import opened Errors
  import opened PyValue
  import PropVectors
  import PropDiff
  import opened Resources
  import opened FutureActions
  import opened Duplicates

  /** `_key_to_resource`. */
  type Registry = map<string, Resource>

  /** `dict.get`. */
  function Registered(res: Registry, uid: string): Option<Resource> {
    if uid in res then Some(res[uid]) else None
  }

  // ---------------------------------------------------------------------------
  // get_action
  // ---------------------------------------------------------------------------

  /** The constructive action for an incoming node, given what is registered under
      its uid: `Create` when nothing is, `Recreate` when that resource says
      "recreate", otherwise `Update` with the diff of its props against the next
      node's. */
  function InnerAction(oldNext: Option<Resource>, next: RNode, compat: CompatOracle, conv: PropVectors.Converters): (r: Result<Sub>)
    ensures oldNext.None? ==> r == MakeCreate(next, conv)
    ensures r.Ok? ==> r.value.next == next
    ensures r.Ok? ==> (r.value.Create? <==> oldNext.None?)
    ensures r.Ok? && r.value.Recreate? ==>
              r.value.oldResource == oldNext.value && compat(oldNext.value, next) == "recreate"
    ensures r.Ok? && r.value.Update? ==>
              r.value.existing == oldNext.value && compat(oldNext.value, next) != "recreate" &&
              PropDiff.Diff(oldNext.value.node.values, next.values) == Ok(r.value.diff)
    ensures oldNext.Some? && compat(oldNext.value, next) != "recreate" ==>
              (r.Ok? <==> PropDiff.Diff(oldNext.value.node.values, next.values).Ok?)
  {
    if oldNext.None? then MakeCreate(next, conv)
    else if compat(oldNext.value, next) == "recreate" then MakeRecreate(oldNext.value, next, conv)
    else
      var d :- PropDiff.Diff(oldNext.value.node.values, next.values);
      Ok(Update(oldNext.value, next, d))
  }

  /** The action brings a node in by creating a resource for it. */
  predicate Creates(a: Action) {
    (a.Place? && a.what.Create?) || (a.Replace? && a.withWhat.Create?)
  }

  /** The action creates a resource for the incoming node, fresh or in place of an
      old one (and so registers it when carried out). */
  predicate Registers(a: Action) {
    (a.Place? && !a.what.Update?) || (a.Replace? && !a.withWhat.Update?)
  }

  /** `get_action`. Both absent fails the assertion; an absent `next` unplaces;
      an absent `prev` places; differing uids replace; equal uids need a
      registered `old_next_placement` and let `prev`'s compatibility decide,
      after the diff of `prev`'s props against `next`'s has been taken. */
  function GetAction(prev: Option<Resource>, next: Option<RNode>, oldNext: Option<Resource>, container: RNode,
                     compat: CompatOracle, conv: PropVectors.Converters): (r: Result<Action>)
    ensures next.None? ==> (r.Ok? <==> prev.Some?)
    ensures next.None? && prev.Some? ==> r == Ok(Unplace(prev.value, container))
    ensures r.Ok? ==> (r.value.Unplace? <==> next.None?)
    ensures r.Ok? ==> (r.value.Place? <==> prev.None? && next.Some?)
    ensures r.Ok? && next.Some? ==> Incoming(r.value) == next
    ensures r.Ok? && r.value.Replace? ==>
              Some(r.value.replaced) == prev &&
              (ResourceUid(prev.value) != next.value.uid || compat(prev.value, next.value) in {"replace", "recreate"})
    ensures r.Ok? && r.value.Updated? ==>
              prev.Some? && ResourceUid(prev.value) == next.value.uid &&
              compat(prev.value, next.value) == "update" && Some(r.value.existing) == oldNext &&
              PropDiff.Diff(prev.value.node.values, next.value.values) == Ok(r.value.diff)
    ensures r.Ok? ==> (Creates(r.value) <==> next.Some? && oldNext.None?)
    ensures r.Ok? && next.Some? && !Registers(r.value) ==> oldNext.Some?
    ensures prev.Some? && next.Some? && ResourceUid(prev.value) == next.value.uid && oldNext.None? ==> r.Err?
    ensures prev.Some? && next.Some? && ResourceUid(prev.value) == next.value.uid && oldNext.Some? &&
            PropDiff.Diff(prev.value.node.values, next.value.values).Ok? &&
            compat(prev.value, next.value) !in CompatValues ==>
              r == Err(UnknownCompat(compat(prev.value, next.value)))
  {
    match next
    case None =>
      if prev.None? then Err(AssertionError("Neither prev nor next exists"))
      else Ok(Unplace(prev.value, container))
    case Some(n) =>
      if prev.None? then
        var w :- InnerAction(oldNext, n, compat, conv);
        Ok(Place(container, w))
      else if ResourceUid(prev.value) != n.uid then
        var w :- InnerAction(oldNext, n, compat, conv);
        Ok(Replace(container, prev.value, w))
      else if oldNext.None? then Err(AssertionError("old_next_placement"))
      else
        var d :- PropDiff.Diff(prev.value.node.values, n.values);
        var c := compat(prev.value, n);
        if c == "update" then Ok(Updated(oldNext.value, n, d))
        else if c == "replace" then Ok(Replace(container, prev.value, Update(oldNext.value, n, d)))
        else if c == "recreate" then
          var w :- MakeRecreate(oldNext.value, n, conv);
          Ok(Replace(container, prev.value, w))
        else Err(UnknownCompat(c))
  }

  // ---------------------------------------------------------------------------
  // compute_reconcile_actions
  // ---------------------------------------------------------------------------

  /** The uids among the first `i` nodes of the rendering: the `placed` set after
      `i` positions. */
  function Seen(rendering: seq<RNode>, i: nat): set<string> {
    set j | 0 <= j < |rendering| && j < i :: rendering[j].uid
  }

  function Longest(prevs: seq<RNode>, rendering: seq<RNode>): nat {
    if |prevs| < |rendering| then |rendering| else |prevs|
  }

  /** The action of position `i` of `zip_longest(resource.kids, rendering)`: the
      previous resource is the one registered under the old kid's uid, and
      `old_next_placement` the one registered under the next node's. */
  function PairAction(res: Registry, parent: RNode, prevs: seq<RNode>, rendering: seq<RNode>, i: nat,
                      compat: CompatOracle, conv: PropVectors.Converters): Result<Action> {
    var prev := if i < |prevs| then Registered(res, prevs[i].uid) else None;
    var next := if i < |rendering| then Some(rendering[i]) else None;
    var oldNext := if i < |rendering| then Registered(res, rendering[i].uid) else None;
    GetAction(prev, next, oldNext, parent, compat, conv)
  }

  /** The loop of `compute_reconcile_actions` from position `i`, with the uids
      placed so far: a position with no next node whose old kid's uid was already
      placed is skipped; every other position yields its action. */
  function Walk(res: Registry, parent: RNode, prevs: seq<RNode>, rendering: seq<RNode>, i: nat, placed: set<string>,
                compat: CompatOracle, conv: PropVectors.Converters): (r: Result<seq<Action>>)
    decreases Longest(prevs, rendering) - i
  {
    if i >= |prevs| && i >= |rendering| then Ok([])
    else if i >= |rendering| && prevs[i].uid in placed then
      Walk(res, parent, prevs, rendering, i + 1, placed, compat, conv)
    else
      var placed' := if i < |rendering| then placed + {rendering[i].uid} else placed;
      var a :- PairAction(res, parent, prevs, rendering, i, compat, conv);
      var rest :- Walk(res, parent, prevs, rendering, i + 1, placed', compat, conv);
      Ok([a] + rest)
  }

  /** `compute_reconcile_actions(parent, rendering)`, with the generator drained:
      the duplicate check first, then the registered parent (a KeyError when
      there is none), then the walk with an empty `placed` set. */
  function ComputeActions(res: Registry, parent: RNode, rendering: seq<RNode>,
                          compat: CompatOracle, conv: PropVectors.Converters): (r: Result<seq<Action>>)
    ensures CheckDuplicates(Uids(rendering)).Err? ==> r == Err(CheckDuplicates(Uids(rendering)).error)
    ensures CheckDuplicates(Uids(rendering)).Ok? && parent.uid !in res ==> r == Err(KeyError(parent.uid))
  {
    var unique :- CheckDuplicates(Uids(rendering));
    if parent.uid !in res then Err(KeyError(parent.uid))
    else Walk(res, parent, res[parent.uid].node.kids, rendering, 0, {}, compat, conv)
  }

  /** How many old kids from position `from` on carry a uid the rendering does not
      place: the trailing removals that are not skipped. */
  function Kept(prevs: seq<RNode>, rendering: seq<RNode>, from: nat): nat
    decreases |prevs| - from
  {
    if from >= |prevs| then 0
    else (if prevs[from].uid in Seen(rendering, |rendering|) then 0 else 1) + Kept(prevs, rendering, from + 1)
  }

  function Max(a: nat, b: nat): nat {
    if a < b then b else a
  }

  /** The walk from any position: one action per remaining new node, each that
      position's `get_action`, followed by one `Unplace` per old kid beyond the
      rendering whose uid the rendering does not place. */
  lemma WalkShape(res: Registry, parent: RNode, prevs: seq<RNode>, rendering: seq<RNode>, i: nat,
                  compat: CompatOracle, conv: PropVectors.Converters)
    requires Walk(res, parent, prevs, rendering, i, Seen(rendering, i), compat, conv).Ok?
    ensures var acts := Walk(res, parent, prevs, rendering, i, Seen(rendering, i), compat, conv).value;
            var newOnes := if i < |rendering| then |rendering| - i else 0;
            |acts| == newOnes + Kept(prevs, rendering, Max(i, |rendering|)) &&
            (forall k | i <= k < |rendering| ::
               PairAction(res, parent, prevs, rendering, k, compat, conv) == Ok(acts[k - i])) &&
            (forall j | newOnes <= j < |acts| :: acts[j].Unplace? && acts[j].container == parent)
  {
    var acts := Walk(res, parent, prevs, rendering, i, Seen(rendering, i), compat, conv).value;
    WalkLength(res, parent, prevs, rendering, i, compat, conv);
    WalkUnplaces(res, parent, prevs, rendering, i, compat, conv);
    forall k | i <= k < |rendering|
      ensures PairAction(res, parent, prevs, rendering, k, compat, conv) == Ok(acts[k - i])
    {
      WalkPairAt(res, parent, prevs, rendering, i, k, acts, compat, conv);
    }
  }

  lemma {:induction false} WalkLength(res: Registry, parent: RNode, prevs: seq<RNode>, rendering: seq<RNode>, i: nat,
                                      compat: CompatOracle, conv: PropVectors.Converters)
    requires Walk(res, parent, prevs, rendering, i, Seen(rendering, i), compat, conv).Ok?
    ensures var acts := Walk(res, parent, prevs, rendering, i, Seen(rendering, i), compat, conv).value;
            |acts| == (if i < |rendering| then |rendering| - i else 0) + Kept(prevs, rendering, Max(i, |rendering|))
    decreases Longest(prevs, rendering) - i
  {
    SeenStep(rendering, i);
    if i >= |prevs| && i >= |rendering| {
    } else {
      WalkLength(res, parent, prevs, rendering, i + 1, compat, conv);
      if i >= |rendering| {
        SeenPast(rendering, i);
      }
    }
  }

  /** The action the walk from `i` yields for position `k` of the rendering is
      that position's own action. */
  lemma {:induction false} WalkPairAt(res: Registry, parent: RNode, prevs: seq<RNode>, rendering: seq<RNode>, i: nat, k: nat,
                                      acts: seq<Action>, compat: CompatOracle, conv: PropVectors.Converters)
    requires Walk(res, parent, prevs, rendering, i, Seen(rendering, i), compat, conv) == Ok(acts)
    requires i <= k < |rendering|
    ensures k - i < |acts| && PairAction(res, parent, prevs, rendering, k, compat, conv) == Ok(acts[k - i])
    decreases k - i
  {
    var a, rest := WalkPlacing(res, parent, prevs, rendering, i, compat, conv);
    PropVectors.ConsShift(a, rest);
    if k > i {
      WalkPairAt(res, parent, prevs, rendering, i + 1, k, rest, compat, conv);
    }
  }

  /** A position the rendering covers is never skipped: it yields its action and
      the walk goes on with its uid placed. */
  lemma WalkPlacing(res: Registry, parent: RNode, prevs: seq<RNode>, rendering: seq<RNode>, i: nat,
                    compat: CompatOracle, conv: PropVectors.Converters) returns (a: Action, rest: seq<Action>)
    requires i < |rendering| && Walk(res, parent, prevs, rendering, i, Seen(rendering, i), compat, conv).Ok?
    ensures PairAction(res, parent, prevs, rendering, i, compat, conv) == Ok(a)
    ensures Walk(res, parent, prevs, rendering, i + 1, Seen(rendering, i + 1), compat, conv) == Ok(rest)
    ensures Walk(res, parent, prevs, rendering, i, Seen(rendering, i), compat, conv) == Ok([a] + rest)
  {
    SeenStep(rendering, i);
    a := PairAction(res, parent, prevs, rendering, i, compat, conv).value;
    rest := Walk(res, parent, prevs, rendering, i + 1, Seen(rendering, i + 1), compat, conv).value;
  }

  lemma {:induction false} WalkUnplaces(res: Registry, parent: RNode, prevs: seq<RNode>, rendering: seq<RNode>, i: nat,
                                        compat: CompatOracle, conv: PropVectors.Converters)
    requires Walk(res, parent, prevs, rendering, i, Seen(rendering, i), compat, conv).Ok?
    ensures var acts := Walk(res, parent, prevs, rendering, i, Seen(rendering, i), compat, conv).value;
            var newOnes := if i < |rendering| then |rendering| - i else 0;
            forall j | newOnes <= j < |acts| :: acts[j].Unplace? && acts[j].container == parent
    decreases Longest(prevs, rendering) - i
  {
    SeenStep(rendering, i);
    if i >= |prevs| && i >= |rendering| {
    } else {
      WalkUnplaces(res, parent, prevs, rendering, i + 1, compat, conv);
    }
  }

  /** One more position adds its uid to the uids placed so far. */
  lemma SeenStep(rendering: seq<RNode>, i: nat)
    ensures Seen(rendering, i + 1) == if i < |rendering| then Seen(rendering, i) + {rendering[i].uid} else Seen(rendering, i)
  {
    if i < |rendering| {
      forall u | u in Seen(rendering, i + 1) ensures u in Seen(rendering, i) + {rendering[i].uid} {
        var j :| 0 <= j < |rendering| && j < i + 1 && rendering[j].uid == u;
        if j < i { assert u in Seen(rendering, i); }
      }
    }
  }

  /** Past the rendering, every uid of it has been placed. */
  lemma SeenPast(rendering: seq<RNode>, i: nat)
    requires i >= |rendering|
    ensures Seen(rendering, i) == Seen(rendering, |rendering|)
  {
  }

  /** The actions of `compute_reconcile_actions`: position `k` of the rendering
      yields exactly `get_action` of its pair, and the actions after the
      rendering's are `Unplace`s, one per old kid beyond the rendering whose uid the
      rendering does not place (an old kid whose uid moved earlier is not removed
      twice). */
  lemma ActionsFollowPairs(res: Registry, parent: RNode, rendering: seq<RNode>, compat: CompatOracle, conv: PropVectors.Converters)
    requires ComputeActions(res, parent, rendering, compat, conv).Ok?
    ensures parent.uid in res
    ensures var acts := ComputeActions(res, parent, rendering, compat, conv).value;
            var prevs := res[parent.uid].node.kids;
            |acts| == |rendering| + Kept(prevs, rendering, |rendering|) &&
            (forall k | 0 <= k < |rendering| :: PairAction(res, parent, prevs, rendering, k, compat, conv) == Ok(acts[k])) &&
            (forall j | |rendering| <= j < |acts| :: acts[j].Unplace? && acts[j].container == parent)
  {
    assert Seen(rendering, 0) == {};
    WalkShape(res, parent, res[parent.uid].node.kids, rendering, 0, compat, conv);
  }

  // ---------------------------------------------------------------------------
  // Carrying actions out
  // ---------------------------------------------------------------------------

  /** A resource's side effects, in the order they are made. */
  datatype Effect =
    | Created(made: Resource)
    | Applied(target: Resource, props: map<string, Value>)
    | Destroyed(target: Resource)
    | Placed(target: Resource, props: map<string, Value>)
    | Unplaced(target: Resource)
    | Replaced(target: Resource, replacement: Resource, props: map<string, Value>)

  /** `self.create` and `Resource.migrate`, which this model does not see. */
  datatype Backend = Backend(create: RNode -> Resource, migrate: (Resource, RNode) -> Resource)

  /** The reconciler's state: its registry, `_placement`, and the effects so far. */
  datatype Exec = Exec(registry: Registry, placement: seq<RNode>, effects: seq<Effect>)

  datatype Made = Made(exec: Exec, made: Resource)

  /** `_do_create_action`. A `Create` makes the resource, applies the full computed
      props to it and registers it under the next node's uid; an `Update` applies
      its diff only when it is non-empty and returns the migrated resource without
      registering it; a `Recreate` fails the assertion. */
  function DoCreate(st: Exec, w: Sub, b: Backend): (r: Result<Made>)
    ensures r.Err? <==> w.Recreate?
    ensures r.Ok? ==> st.effects <= r.value.exec.effects && r.value.exec.placement == st.placement
    ensures r.Ok? ==> st.registry.Keys <= r.value.exec.registry.Keys
    ensures r.Ok? && w.Create? ==>
              r.value.made == b.create(w.next) &&
              r.value.exec.registry == st.registry[w.next.uid := r.value.made] &&
              r.value.exec.effects[|st.effects|..] == [Created(r.value.made), Applied(r.value.made, w.diff)]
    ensures r.Ok? && w.Update? ==>
              r.value.made == b.migrate(w.existing, w.next) &&
              r.value.exec.registry == st.registry &&
              (r.value.exec.effects == st.effects <==> w.diff == map[])
  {
    match w
    case Create(next, d) =>
      var n := b.create(next);
      Ok(Made(st.(registry := st.registry[next.uid := n], effects := st.effects + [Created(n), Applied(n, d)]), n))
    case Update(existing, next, d) =>
      var applied := if d != map[] then [Applied(existing, d)] else [];
      Ok(Made(st.(effects := st.effects + applied), b.migrate(existing, next)))
    case Recreate(_, _, _) => Err(AssertionError("Unknown action"))
  }

  /** `_do_reconcile_action`. A falsy action (an update with an empty diff) does
      nothing. A recreation builds a `Create` for the next node (computing its props
      again), then destroys the old resource before placing, or after replacing. */
  function DoReconcile(st: Exec, a: Action, b: Backend, conv: PropVectors.Converters): (r: Result<Exec>)
    ensures !ActionTruthy(a) ==> r == Ok(st)
    ensures r.Ok? ==> st.effects <= r.value.effects && r.value.placement == st.placement
    ensures r.Ok? ==> st.registry.Keys <= r.value.registry.Keys
    ensures r.Ok? && Registers(a) ==> Incoming(a).value.uid in r.value.registry
    ensures r.Ok? && a.Unplace? ==> r.value == st.(effects := st.effects + [Unplaced(a.removed)])
    ensures (a.Place? && a.what.Recreate?) || (a.Replace? && a.withWhat.Recreate?) ==>
              (r.Ok? <==> PropVectors.Compute(Incoming(a).value.values, conv).Ok?)
  {
    if !ActionTruthy(a) then Ok(st)
    else
      match a
      case Updated(existing, next, d) =>
        Ok(DoCreate(st, Update(existing, next, d), b).value.exec)
      case Unplace(existing, _) =>
        Ok(st.(effects := st.effects + [Unplaced(existing)]))
      case Place(_, w) =>
        if w.Recreate? then
          var c :- MakeCreate(w.next, conv);
          var m := DoCreate(st, c, b).value;
          Ok(m.exec.(effects := m.exec.effects + [Destroyed(w.oldResource), Placed(m.made, w.diff)]))
        else
          var m := DoCreate(st, w, b).value;
          Ok(m.exec.(effects := m.exec.effects + [Placed(m.made, w.diff)]))
      case Replace(_, existing, w) =>
        if w.Recreate? then
          var c :- MakeCreate(w.next, conv);
          var m := DoCreate(st, c, b).value;
          Ok(m.exec.(effects := m.exec.effects + [Replaced(existing, m.made, w.diff), Destroyed(w.oldResource)]))
        else
          var m := DoCreate(st, w, b).value;
          Ok(m.exec.(effects := m.exec.effects + [Replaced(existing, m.made, w.diff)]))
  }

  /** `Place(Recreate)`: create (and apply the full props), destroy the old
      resource, then place the new one. */
  lemma PlaceRecreateOrder(st: Exec, container: RNode, oldResource: Resource, next: RNode, d: map<string, Value>,
                           b: Backend, conv: PropVectors.Converters)
    requires PropVectors.Compute(next.values, conv).Ok?
    ensures var r := DoReconcile(st, Place(container, Recreate(oldResource, next, d)), b, conv);
            var n := b.create(next);
            r.Ok? && r.value.effects == st.effects +
              [Created(n), Applied(n, PropVectors.Compute(next.values, conv).value), Destroyed(oldResource), Placed(n, d)]
  {
  }

  /** `Replace(Recreate)`: create, have the replaced resource replaced by the new
      one, then destroy the old resource. */
  lemma ReplaceRecreateOrder(st: Exec, container: RNode, existing: Resource, oldResource: Resource, next: RNode,
                             d: map<string, Value>, b: Backend, conv: PropVectors.Converters)
    requires PropVectors.Compute(next.values, conv).Ok?
    ensures var r := DoReconcile(st, Replace(container, existing, Recreate(oldResource, next, d)), b, conv);
            var n := b.create(next);
            r.Ok? && r.value.effects == st.effects +
              [Created(n), Applied(n, PropVectors.Compute(next.values, conv).value), Replaced(existing, n, d), Destroyed(oldResource)]
  {
  }

  /** The reconcile loop: the actions in order, the first failure aborting. */
  function Run(st: Exec, acts: seq<Action>, b: Backend, conv: PropVectors.Converters): (r: Result<Exec>)
    ensures r.Ok? ==> st.effects <= r.value.effects && r.value.placement == st.placement
    ensures r.Ok? ==> st.registry.Keys <= r.value.registry.Keys
    decreases |acts|
  {
    if acts == [] then Ok(st)
    else
      var st' :- DoReconcile(st, acts[0], b, conv);
      Run(st', acts[1..], b, conv)
  }

  /** An action whose incoming node will be registered once it is carried out:
      either it creates the resource, or one is registered under the uid already. */
  predicate Grounded(keys: set<string>, a: Action) {
    Incoming(a).None? || Registers(a) || Incoming(a).value.uid in keys
  }

  /** After a successful run, every node a grounded action brings in is
      registered. */
  lemma {:induction false} RunRegisters(st: Exec, acts: seq<Action>, b: Backend, conv: PropVectors.Converters)
    requires forall j | 0 <= j < |acts| :: Grounded(st.registry.Keys, acts[j])
    requires Run(st, acts, b, conv).Ok?
    ensures forall j | 0 <= j < |acts| && Incoming(acts[j]).Some? ::
              Incoming(acts[j]).value.uid in Run(st, acts, b, conv).value.registry
    decreases |acts|
  {
    if acts != [] {
      var st' := DoReconcile(st, acts[0], b, conv).value;
      forall j | 0 <= j < |acts| - 1 ensures Grounded(st'.registry.Keys, acts[1..][j]) {
        assert acts[1..][j] == acts[j + 1];
      }
      RunRegisters(st', acts[1..], b, conv);
      forall j | 0 <= j < |acts| && Incoming(acts[j]).Some?
        ensures Incoming(acts[j]).value.uid in Run(st, acts, b, conv).value.registry
      {
        if j > 0 {
          assert acts[1..][j - 1] == acts[j];
        }
      }
    }
  }

  // ---------------------------------------------------------------------------
  // reconcile
  // ---------------------------------------------------------------------------

  /** `reconcile(rendering)` as written: it calls `compute_reconcile_actions` with
      one argument where two are required, which raises TypeError before any
      action is computed. */
  function Reconcile(st: Exec, rendering: seq<RNode>): (r: Result<Exec>)
    ensures r.Err? && r.error.TypeError?
  {
    Err(TypeError("compute_reconcile_actions() missing 1 required positional argument"))
  }

  /** The counterexample: even an empty rendering fails. */
  lemma ReconcileAlwaysFails(st: Exec)
    ensures Reconcile(st, []).Err?
    ensures Reconcile(st, []) != Ok(st.(placement := []))
  {
  }

  /** `reconcile` with the parent passed: compute the actions against the current
      registry, carry them out in order, then record the rendering as the
      placement. */
  function ReconcileIntended(st: Exec, parent: RNode, rendering: seq<RNode>, compat: CompatOracle,
                             conv: PropVectors.Converters, b: Backend): (r: Result<Exec>)
    ensures r.Ok? ==> r.value.placement == rendering
    ensures r.Ok? ==> st.registry.Keys <= r.value.registry.Keys && st.effects <= r.value.effects
  {
    var acts :- ComputeActions(st.registry, parent, rendering, compat, conv);
    var done :- Run(st, acts, b, conv);
    Ok(done.(placement := rendering))
  }

  /** After a successful reconcile every rendered node has a registered resource:
      each is either created (and registered) by its action or was registered
      already, and nothing is ever unregistered. */
  lemma ReconcileRegistersRendering(st: Exec, parent: RNode, rendering: seq<RNode>, compat: CompatOracle,
                                    conv: PropVectors.Converters, b: Backend)
    requires ReconcileIntended(st, parent, rendering, compat, conv, b).Ok?
    ensures forall k | 0 <= k < |rendering| ::
              rendering[k].uid in ReconcileIntended(st, parent, rendering, compat, conv, b).value.registry
  {
    var acts := ComputeActions(st.registry, parent, rendering, compat, conv).value;
    ActionsFollowPairs(st.registry, parent, rendering, compat, conv);
    var prevs := st.registry[parent.uid].node.kids;
    forall j | 0 <= j < |acts| ensures Grounded(st.registry.Keys, acts[j]) {
      if j < |rendering| {
        assert PairAction(st.registry, parent, prevs, rendering, j, compat, conv) == Ok(acts[j]);
      }
    }
    RunRegisters(st, acts, b, conv);
    forall k | 0 <= k < |rendering|
      ensures rendering[k].uid in ReconcileIntended(st, parent, rendering, compat, conv, b).value.registry
    {
      assert PairAction(st.registry, parent, prevs, rendering, k, compat, conv) == Ok(acts[k]);
      assert Incoming(acts[k]) == Some(rendering[k]);
    }
  }
}
