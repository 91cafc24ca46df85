/** The two renderers: `ComponentMount` (rendering/renderer.py) and `RootRenderer`
    (rendering/component/renderer.py). Both walk a component's yields with one
    occurrence counter per line and per scope, stamp every yielded element with the
    scope's base trace plus a frame `(occurrence, class, key, line)`, and differ in
    what happens to a node's kids:
    - `Mount`: the kids are expanded by `__merge__(__CHILDREN__=...)` and the clone
      that call returns is dropped, so the node keeps its original kids; the node
      appended is the clone `with_trace` returns, `__merge__(__TRACE__=...)`. Both
      calls are `HasPropsSchema.__merge__` of `ShadowNodes`, and either may fail;
    - `Root`: the node is rebound to the clone carrying the expanded kids. This
      draft's node module and `RenderTraceAccessor` are not part of this model,
      so its `KIDS` merge and trace setting are taken as field updates.
    In both, a component among the kids is rendered by a fresh `_compute_render`,
    under the empty trace, not under its parent's. */
module Renderers {
  import opened Errors
  import opened PyValue
  import opened Traces
  import opened Elements
  import opened PropSchemas
  import ShadowNodes
  import OD = OrderedDict

  datatype Draft = Mount | Root

  /** The line of the `yield_(root)` call in `_compute_render`, which is the line
      number the root element's frame records. */
  function RootLine(d: Draft): int {
    if d == Mount then 93 else 98
  }

  /** `occurence_by_line`: a `defaultdict` of counters starting at 1. */
  type Occurrences = map<int, nat>

  function Occ(o: Occurrences, line: int): nat {
    if line in o then o[line] else 1
  }

  /** The nodes added to `rendering`, and the scope's counters afterwards. */
  datatype Rendering = Rendering(nodes: seq<Elem>, occ: Occurrences)

  /** The frame of an element yielded from `line` while the line's count is `n`. */
  function FrameOf(e: Elem, n: nat, line: int): Frame {
    Frame(n, e.typeName, e.key, line)
  }

  /** A node as the `HasPropsSchema` instance `__merge__` is called on. */
  function HolderOf(e: Elem): ShadowNodes.Holder
    requires e.Node?
  {
    ShadowNodes.Holder(e.typeName, e.props.schema, e.props.values)
  }

  /** The tuple of rendered kids and the `RenderTrace` as the keyword values of
      `__merge__`. The prop model stores such a value and compares it with None,
      nothing else, so each stands for its object by a non-None token: a tuple with
      one entry per kid, and the trace's frame count. */
  function KidsValue(kids: seq<Elem>): Value {
    VTuple(seq(|kids|, i => VNone))
  }

  function TraceValue(t: Trace): Value {
    VInt(|t.frames|)
  }

  /** The two merges of `ComponentMount` for a node: `__merge__(__CHILDREN__=kids)`,
      whose clone is dropped but whose receiver may have been given fresh values,
      then `with_trace` on that receiver, whose clone's prop state is the result.
      The class schema is kept, and the first merge must have passed. */
  function MountMerge(e: Elem, kids: seq<Elem>, t: Trace): (r: Result<Props>)
    requires e.Node?
    ensures r.Ok? ==> r.value.schema == e.props.schema
    ensures r.Ok? ==> ShadowNodes.Merge(HolderOf(e), map[], map["__CHILDREN__" := KidsValue(kids)]).Ok?
  {
    var withKids :- ShadowNodes.Merge(HolderOf(e), map[], map["__CHILDREN__" := KidsValue(kids)]);
    var traced :- ShadowNodes.Merge(withKids.self, map[], map["__TRACE__" := TraceValue(t)]);
    Ok(Props(traced.clone.schema, traced.clone.values))
  }

  /** The node that is appended for `e` once its kids are rendered: in `Mount`
      the clone the merges give, with the original kids; in `Root` the node with
      the rendered kids. Either way it carries the frame's trace. */
  function Appended(d: Draft, e: Elem, kids: seq<Elem>, t: Trace): (r: Result<Elem>)
    requires e.Node?
    ensures d == Mount ==> (r.Ok? <==> MountMerge(e, kids, t).Ok?)
    ensures r.Ok? ==> r.value.Node? && r.value.trace == Some(t)
    ensures d == Root ==> r.Ok? && r.value.props == e.props
    ensures r.Ok? ==> r.value.kids == if d == Mount then e.kids else kids
  {
    if d == Mount then
      var props :- MountMerge(e, kids, t);
      Ok(e.(trace := Some(t), props := props))
    else
      Ok(e.(kids := kids, trace := Some(t)))
  }

  /** The body of the loop in `on_yielded`, for one element. The frame is built
      first, which reads the element's `key`: an object without one raises
      AttributeError there. The line's count then moves on, whatever the element.
      A node is added with its trace, after its kids are rendered and, in `Mount`,
      after both of its merges succeed; a component renders in a new scope under
      its own trace, its nodes added in order; anything else raises TypeError. */
  function RenderOne(d: Draft, base: Trace, occ: Occurrences, line: int, e: Elem): (r: Result<Rendering>)
    ensures e.Other? && !e.hasKey ==> r == Err(AttributeError("key"))
    ensures e.Other? && e.hasKey ==> r == Err(TypeError("render result"))
    ensures r.Ok? ==> Occ(r.value.occ, line) == Occ(occ, line) + 1
    ensures r.Ok? ==> forall l | l != line :: Occ(r.value.occ, l) == Occ(occ, l)
    ensures r.Ok? ==> forall i | 0 <= i < |r.value.nodes| :: Traced(r.value.nodes[i], AddFrame(base, FrameOf(e, Occ(occ, line), line)))
    ensures r.Ok? && e.Node? ==>
              (|r.value.nodes| == 1 && r.value.nodes[0].Node? &&
               r.value.nodes[0].trace == Some(AddFrame(base, FrameOf(e, Occ(occ, line), line))))
    decreases e, 0
  {
    if e.Other? && !e.hasKey then Err(AttributeError("key"))
    else
      var trace := AddFrame(base, FrameOf(e, Occ(occ, line), line));
      var occ' := occ[line := Occ(occ, line) + 1];
      if e.Node? then
        var kids :- RenderKids(d, e.kids);
        var node :- Appended(d, e, kids, trace);
        Ok(Rendering([node], occ'))
      else if e.Comp? then
        var inner :- Scope(d, trace, map[], e.body);
        Ok(Rendering(inner.nodes, occ'))
      else Err(TypeError("render result"))
  }

  /** A node whose trace extends `t` (by nothing or more). */
  predicate Traced(x: Elem, t: Trace) {
    x.Node? && x.trace.Some? && t.frames <= x.trace.value.frames
  }

  /** `on_yielded(node)` for a list of elements, all from one line. */
  function RenderAll(d: Draft, base: Trace, occ: Occurrences, line: int, es: seq<Elem>): (r: Result<Rendering>)
    ensures r.Ok? ==> Occ(r.value.occ, line) == Occ(occ, line) + |es|
    ensures r.Ok? ==> forall l | l != line :: Occ(r.value.occ, l) == Occ(occ, l)
    ensures r.Ok? ==> forall i | 0 <= i < |r.value.nodes| :: Traced(r.value.nodes[i], base)
    decreases es, 0
  {
    if es == [] then Ok(Rendering([], occ))
    else
      var first :- RenderOne(d, base, occ, line, es[0]);
      var rest :- RenderAll(d, base, first.occ, line, es[1..]);
      Ok(Rendering(first.nodes + rest.nodes, rest.occ))
  }

  /** One `yield_` call. */
  function YieldOne(d: Draft, base: Trace, occ: Occurrences, y: Yield): (r: Result<Rendering>)
    ensures r.Ok? ==> Occ(r.value.occ, y.line) == Occ(occ, y.line) + |Listed(y)|
    ensures r.Ok? ==> forall l | l != y.line :: Occ(r.value.occ, l) == Occ(occ, l)
    ensures r.Ok? ==> forall i | 0 <= i < |r.value.nodes| :: Traced(r.value.nodes[i], base)
    decreases y, 0
  {
    match y
    case One(line, e) => RenderOne(d, base, occ, line, e)
    case Many(line, es) => RenderAll(d, base, occ, line, es)
  }

  /** How many elements the yields of `ys` hand over from line `line`. */
  function CountAt(ys: seq<Yield>, line: int): nat {
    if ys == [] then 0
    else (if ys[0].line == line then |Listed(ys[0])| else 0) + CountAt(ys[1..], line)
  }

  /** One scope of `on_yielded_for(base)`: a render's yields in order, sharing the
      scope's counters. Each line's count grows by the number of elements yielded
      from it. */
  function Scope(d: Draft, base: Trace, occ: Occurrences, ys: seq<Yield>): (r: Result<Rendering>)
    ensures r.Ok? ==> forall l :: Occ(r.value.occ, l) == Occ(occ, l) + CountAt(ys, l)
    ensures r.Ok? ==> forall i | 0 <= i < |r.value.nodes| :: Traced(r.value.nodes[i], base)
    decreases ys, 0
  {
    if ys == [] then Ok(Rendering([], occ))
    else
      var first :- YieldOne(d, base, occ, ys[0]);
      var rest :- Scope(d, base, first.occ, ys[1..]);
      Ok(Rendering(first.nodes + rest.nodes, rest.occ))
  }

  /** `_render_kids`: nodes pass through untouched, components are expanded by a
      fresh `_compute_render`, anything else raises TypeError. */
  function RenderKids(d: Draft, kids: seq<Elem>): (r: Result<seq<Elem>>)
    ensures (exists i | 0 <= i < |kids| :: kids[i].Other?) ==> r.Err?
    ensures (forall i | 0 <= i < |kids| :: kids[i].Node?) ==> r == Ok(kids)
    decreases kids, 0
  {
    if kids == [] then Ok([])
    else
      var k := kids[0];
      var first :- if k.Node? then Ok([k])
                   else if k.Comp? then ComputeRender(d, k)
                   else Err(TypeError("kid"));
      var rest :- RenderKids(d, kids[1..]);
      assert forall i | 1 <= i < |kids| :: kids[i] == kids[1..][i - 1];
      assert kids == [k] + kids[1..];
      Ok(first + rest)
  }

  /** `_compute_render(root)`: a first scope under the empty trace, into which the
      root is yielded from `RootLine(d)`. */
  function ComputeRender(d: Draft, root: Elem): (r: Result<seq<Elem>>)
    ensures r.Ok? ==> forall i | 0 <= i < |r.value| ::
              Traced(r.value[i], Trace([FrameOf(root, 1, RootLine(d))]))
    decreases root, 1
  {
    var out :- RenderOne(d, Trace([]), map[], RootLine(d), root);
    Ok(out.nodes)
  }

  // ---------------------------------------------------------------------------
  // Properties
  // ---------------------------------------------------------------------------

  /** What becomes of a yielded node's kids: in `Mount` they are rendered (so a
      bad kid still raises) and then dropped, and the node passes only if its
      merges do; in `Root` the node carries them. */
  lemma RenderNodeKids(d: Draft, base: Trace, occ: Occurrences, line: int, e: Elem)
    requires e.Node?
    ensures d == Root ==> (RenderOne(d, base, occ, line, e).Ok? <==> RenderKids(d, e.kids).Ok?)
    ensures d == Mount ==>
              (RenderOne(d, base, occ, line, e).Ok? <==>
                 RenderKids(d, e.kids).Ok? &&
                 MountMerge(e, RenderKids(d, e.kids).value, AddFrame(base, FrameOf(e, Occ(occ, line), line))).Ok?)
    ensures RenderOne(d, base, occ, line, e).Ok? ==>
              RenderOne(d, base, occ, line, e).value.nodes[0].kids ==
                if d == Mount then e.kids else RenderKids(d, e.kids).value
    ensures RenderOne(d, base, occ, line, e).Ok? && d == Root ==>
              RenderOne(d, base, occ, line, e).value.nodes[0].props == e.props
  {
  }

  /** In `ComponentMount`, a yielded node whose values have a section (every
      widget has `font` and `Pack`) cannot be rendered: its `__merge__` fails. */
  lemma MountRejectsSections(base: Trace, occ: Occurrences, line: int, e: Elem, i: nat)
    requires e.Node? && OD.Unique(e.props.values.schema.props, EntryKey)
    requires i < |e.props.values.schema.props| && e.props.values.schema.props[i].Section?
    ensures RenderOne(Mount, base, occ, line, e).Err?
  {
    var kids := RenderKids(Mount, e.kids);
    if kids.Ok? {
      ShadowNodes.MergeFailsWithSections(HolderOf(e), map[], map["__CHILDREN__" := KidsValue(kids.value)], i);
    }
  }

  /** Each node of `nodes` is traced as the element of `es` at its position,
      counted on from `o` on `line`. */
  predicate Numbered(nodes: seq<Elem>, es: seq<Elem>, base: Trace, o: nat, line: int) {
    |nodes| == |es| &&
    forall i | 0 <= i < |es| :: nodes[i].Node? && nodes[i].trace == Some(AddFrame(base, FrameOf(es[i], o + i, line)))
  }

  /** The nodes of one `yield_` of a list take the line's consecutive counts, in
      list order. */
  lemma {:induction false} YieldNumbering(d: Draft, base: Trace, occ: Occurrences, line: int, es: seq<Elem>)
    requires forall i | 0 <= i < |es| :: es[i].Node?
    requires RenderAll(d, base, occ, line, es).Ok?
    ensures Numbered(RenderAll(d, base, occ, line, es).value.nodes, es, base, Occ(occ, line), line)
    decreases es
  {
    if es != [] {
      RenderAllCons(d, base, occ, line, es);
      var first := RenderOne(d, base, occ, line, es[0]).value;
      YieldNumbering(d, base, first.occ, line, es[1..]);
      var rest := RenderAll(d, base, first.occ, line, es[1..]).value;
      assert first.nodes == [first.nodes[0]];
      NumberingCons(first.nodes[0], rest.nodes, es, base, Occ(occ, line), line);
    }
  }

  /** A first node numbered `o`, then nodes numbered on from `o + 1`. */
  lemma NumberingCons(node: Elem, rest: seq<Elem>, es: seq<Elem>, base: Trace, o: nat, line: int)
    requires |es| > 0 && node.Node? && node.trace == Some(AddFrame(base, FrameOf(es[0], o, line)))
    requires Numbered(rest, es[1..], base, o + 1, line)
    ensures Numbered([node] + rest, es, base, o, line)
  {
    var nodes := [node] + rest;
    forall i | 1 <= i < |es| ensures nodes[i].Node? && nodes[i].trace == Some(AddFrame(base, FrameOf(es[i], o + i, line))) {
      assert nodes[i] == rest[i - 1] && es[i] == es[1..][i - 1];
    }
  }

  /** A list of elements renders its first element, then the rest from the
      counters that leaves. */
  lemma RenderAllCons(d: Draft, base: Trace, occ: Occurrences, line: int, es: seq<Elem>)
    requires es != [] && RenderAll(d, base, occ, line, es).Ok?
    ensures RenderOne(d, base, occ, line, es[0]).Ok?
    ensures var first := RenderOne(d, base, occ, line, es[0]).value;
            RenderAll(d, base, first.occ, line, es[1..]).Ok? &&
            RenderAll(d, base, occ, line, es).value.nodes ==
              first.nodes + RenderAll(d, base, first.occ, line, es[1..]).value.nodes
  {
  }

  /** Every scope starts its counters afresh: the first element a component yields
      from any line has occurrence 1, under the component's own trace. */
  lemma ScopeStartsAtOne(d: Draft, base: Trace, occ: Occurrences, line: int, c: Elem)
    requires c.Comp? && |c.body| > 0 && c.body[0].One? && c.body[0].elem.Node?
    requires RenderOne(d, base, occ, line, c).Ok?
    ensures var n := c.body[0].elem;
            var ct := AddFrame(base, FrameOf(c, Occ(occ, line), line));
            |RenderOne(d, base, occ, line, c).value.nodes| > 0 &&
            RenderOne(d, base, occ, line, c).value.nodes[0].trace == Some(AddFrame(ct, FrameOf(n, 1, c.body[0].line)))
  {
    var ct := AddFrame(base, FrameOf(c, Occ(occ, line), line));
    var first := YieldOne(d, ct, map[], c.body[0]);
    assert first.Ok?;
    assert Scope(d, ct, map[], c.body).value.nodes[0] == first.value.nodes[0];
  }

  /** Components among the kids do not render under their parent: whatever the
      parent's trace, their nodes' traces start with the component's own frame,
      occurrence 1 at `RootLine(d)`. */
  lemma KidComponentsStartAfresh(d: Draft, kids: seq<Elem>, i: nat)
    requires RenderKids(d, kids).Ok? && i < |kids| && kids[i].Comp?
    ensures ComputeRender(d, kids[i]).Ok?
    ensures forall x | x in ComputeRender(d, kids[i]).value ::
              x.trace.Some? && |x.trace.value.frames| > 0 &&
              x.trace.value.frames[0] == FrameOf(kids[i], 1, RootLine(d))
  {
    KidsRendered(d, kids, i);
    var out := ComputeRender(d, kids[i]).value;
    forall x | x in out
      ensures x.trace.Some? && |x.trace.value.frames| > 0 && x.trace.value.frames[0] == FrameOf(kids[i], 1, RootLine(d))
    {
      var j :| 0 <= j < |out| && out[j] == x;
      assert Traced(out[j], Trace([FrameOf(kids[i], 1, RootLine(d))]));
    }
  }

  /** When `_render_kids` succeeds, so did the render of each component kid. */
  lemma {:induction false} KidsRendered(d: Draft, kids: seq<Elem>, i: nat)
    requires RenderKids(d, kids).Ok? && i < |kids| && kids[i].Comp?
    ensures ComputeRender(d, kids[i]).Ok?
    decreases kids
  {
    if i > 0 {
      assert kids[i] == kids[1..][i - 1];
      KidsRendered(d, kids[1..], i - 1);
    }
  }
}
