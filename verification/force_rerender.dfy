/** `RootRenderer.force_rerender` (rendering/component/renderer.py), up to the
    point where actions are computed: render the mounted component, wrap the
    resulting nodes as the kids of a fresh top-level node, register that node
    under its uid with a placeholder resource, and open a transient state.
    Computing and running the actions (`ComputeTreeActions`, the per-node
    reconcilers) is not part of this model. */
module ForceRerenders {
  import opened Errors
  import opened Traces
  import opened Elements
  import opened Renderers
  import opened TkReconcileState
  import opened ReconcileState

  /** What the pass has set up: the state with the top node registered, the
      transient state the actions are computed against, and the top node. */
  datatype Prepared<R> = Prepared(state: State<R, Elem>, transient: TransientState<R, Elem>, top: Elem)

  /** `TopLevelNode().__merge__(KIDS=nodes)`: a node with no key and no trace of its
      own, carrying the rendered nodes as its kids. `initial` is the prop state the
      `schema_setter` constructor gives the new node; that decorator, and the
      `KIDS` merge of the node module this renderer imports, are not part of this
      model, so the merge is taken as setting the kids. */
  function TopLevel(initial: Props, nodes: seq<Elem>): (n: Elem)
    ensures n.Node? && n.kids == nodes && n.trace.None? && n.key.None? && n.props == initial
  {
    Node("TopLevelNode", None, None, nodes, None, initial)
  }

  /** `force_rerender` up to `_compute_actions`. `placeholder` stands for the
      `object()` the top node is registered with. */
  function Prepare<R>(st: State<R, Elem>, mounted: Elem, initial: Props, placeholder: R, uid: Elem -> string): (r: Result<Prepared<R>>)
    ensures r.Ok? <==> ComputeRender(Root, mounted).Ok?
    ensures r.Ok? ==> r.value.top.Node? && r.value.top.kids == ComputeRender(Root, mounted).value
    ensures r.Ok? ==> uid(r.value.top) in r.value.state.existing && r.value.state.existing[uid(r.value.top)] == Rendered(placeholder, r.value.top)
    ensures r.Ok? ==> forall u | u in st.existing && u != uid(r.value.top) :: u in r.value.state.existing && r.value.state.existing[u] == st.existing[u]
    ensures r.Ok? ==> r.value.transient.existing == r.value.state.existing && r.value.transient.placed == {}
  {
    var nodes :- ComputeRender(Root, mounted);
    var top := TopLevel(initial, nodes);
    var st' := ReconcileState.Overwrite(st, Rendered(placeholder, top), uid);
    Ok(Prepared(st', ReconcileState.NewTransient(st'), top))
  }

  /** Every kid of the top node is a traced node whose trace starts with the
      mounted component's root frame. */
  lemma TopKidsTraced<R>(st: State<R, Elem>, mounted: Elem, initial: Props, placeholder: R, uid: Elem -> string)
    requires Prepare(st, mounted, initial, placeholder, uid).Ok?
    ensures forall i | 0 <= i < |Prepare(st, mounted, initial, placeholder, uid).value.top.kids| ::
              Traced(Prepare(st, mounted, initial, placeholder, uid).value.top.kids[i], Trace([FrameOf(mounted, 1, RootLine(Root))]))
  {
  }
}
