/** The render sink (component/render_sink.py): every pushed element is stamped with
    the sink's root trace plus a sequenced frame, a node's kids are rendered under
    the node's trace, and a component's pushes are spliced in place.

    The counters of `RenderState` are threaded through as a value: child sinks
    share the parent's state, so each call returns the counters it leaves behind.
    `RenderFrame.create` and `to_sequenced` are not part of this model and are
    parameters. */
module RenderSinks {
  import opened Errors
  import opened Traces
  import opened Elements

  /** `next_render_trace_seq_id`: a `defaultdict` of counters starting at 0. */
  type Counters = map<(Trace, Frame), nat>

  function Count(c: Counters, t: Trace, f: Frame): nat {
    if (t, f) in c then c[(t, f)] else 0
  }

  /** No counter went down. */
  ghost predicate Grows(c: Counters, c': Counters) {
    forall t: Trace, f: Frame :: Count(c, t, f) <= Count(c', t, f)
  }

  datatype Sequenced = Sequenced(frame: Frame, counters: Counters)

  /** `RenderState.produce_sequenced(trace, frame)`: the pair's current counter
      becomes the frame's sequence id and the counter moves on by one; no other
      counter changes. */
  function ProduceSequenced(c: Counters, t: Trace, f: Frame, toSequenced: (Frame, nat) -> Frame): (r: Sequenced)
    ensures r.frame == toSequenced(f, Count(c, t, f))
    ensures Count(r.counters, t, f) == Count(c, t, f) + 1
    ensures forall t': Trace, f': Frame | (t', f') != (t, f) :: Count(r.counters, t', f') == Count(c, t', f')
  {
    Sequenced(toSequenced(f, Count(c, t, f)), c[(t, f) := Count(c, t, f) + 1])
  }

  /** `n` successive `produce_sequenced` calls for one pair: the frames they return,
      and the counters after them. */
  function ProduceMany(c: Counters, t: Trace, f: Frame, toSequenced: (Frame, nat) -> Frame, n: nat): (r: (seq<Frame>, Counters))
    ensures |r.0| == n
    ensures forall i | 0 <= i < n :: r.0[i] == toSequenced(f, Count(c, t, f) + i)
    ensures Count(r.1, t, f) == Count(c, t, f) + n
    ensures forall t': Trace, f': Frame | (t', f') != (t, f) :: Count(r.1, t', f') == Count(c, t', f')
    decreases n
  {
    if n == 0 then ([], c)
    else
      var before := ProduceMany(c, t, f, toSequenced, n - 1);
      var s := ProduceSequenced(before.1, t, f, toSequenced);
      (before.0 + [s.frame], s.counters)
  }

  /** The ids a fresh state hands out for one pair are 0, 1, 2, ... */
  lemma FreshIdsCountFromZero(t: Trace, f: Frame, toSequenced: (Frame, nat) -> Frame, n: nat, i: nat)
    requires i < n
    ensures ProduceMany(map[], t, f, toSequenced, n).0[i] == toSequenced(f, i)
  {
  }

  // ---------------------------------------------------------------------------
  // RenderSink
  // ---------------------------------------------------------------------------

  /** The two helpers the sink calls but which are not part of this model:
      `RenderFrame.create(node, construct_trace)` (given the node's class name and
      key) and `frame.to_sequenced(seq_id)`. */
  datatype SinkEnv = SinkEnv(create: (string, Option<string>, nat) -> Frame, toSequenced: (Frame, nat) -> Frame)

  /** What a sink has appended to `rendered`, and the shared counters afterwards. */
  datatype Pass = Pass(rendered: seq<Elem>, counters: Counters)

  /** A rendered element: a node whose trace extends `root` by at least one frame,
      and whose kids are, in turn, rendered under the node's own trace. */
  predicate Stamped(x: Elem, root: Trace)
    decreases x
  {
    x.Node? && x.trace.Some? && root.frames < x.trace.value.frames &&
    forall i | 0 <= i < |x.kids| :: Stamped(x.kids[i], x.trace.value)
  }

  /** Appending a later pass. */
  function Then(p: Pass, r: Result<Pass>): Result<Pass> {
    if r.Ok? then Ok(Pass(p.rendered + r.value.rendered, r.value.counters)) else r
  }

  /** The frame `_send_one` stamps an element with: `produce_sequenced` of the
      created frame under the sink's root. */
  function StampFor(c: Counters, root: Trace, e: Elem, env: SinkEnv): Sequenced
    requires !e.Other? && e.construct.Some?
  {
    ProduceSequenced(c, root, env.create(e.typeName, e.key, e.construct.value), env.toSequenced)
  }

  /** `_send_one(node)`. A non-element raises TypeError and an element without a
      construct trace raises RuntimeError (`_get_construct_trace`). A node's kids are
      pushed into a child sink under the node's new trace and re-attached (`__merge__`
      with the rendered kids) before the node is appended; a component renders into
      a child sink whose output is spliced into this one. */
  function SendOne(c: Counters, root: Trace, e: Elem, env: SinkEnv): (r: Result<Pass>)
    ensures e.Other? ==> r == Err(TypeError("render element"))
    ensures !e.Other? && e.construct.None? ==> r == Err(RuntimeError("construct trace"))
    ensures r.Ok? ==> Grows(c, r.value.counters)
    ensures r.Ok? ==> forall i | 0 <= i < |r.value.rendered| :: Stamped(r.value.rendered[i], root)
    ensures r.Ok? && e.Node? ==> |r.value.rendered| == 1
    decreases e
  {
    if e.Other? then Err(TypeError("render element"))
    else if e.construct.None? then Err(RuntimeError("construct trace"))
    else
      var s := StampFor(c, root, e, env);
      var trace := AddFrame(root, s.frame);
      if e.Node? then
        var kids :- Push(s.counters, trace, e.kids, env);
        Ok(Pass([e.(kids := kids.rendered, trace := Some(trace))], kids.counters))
      else
        var out :- PushYields(s.counters, trace, e.body, env);
        assert forall i | 0 <= i < |out.rendered| :: Stamped(out.rendered[i], root) by {
          forall i | 0 <= i < |out.rendered| ensures Stamped(out.rendered[i], root) {
            var x := out.rendered[i];
            assert Stamped(x, trace);
            assert root.frames < trace.frames;
          }
        }
        Ok(out)
  }

  /** `push(nodes)` of a list: `_send_one` for each, in order. */
  function Push(c: Counters, root: Trace, es: seq<Elem>, env: SinkEnv): (r: Result<Pass>)
    ensures r.Ok? ==> Grows(c, r.value.counters)
    ensures r.Ok? ==> forall i | 0 <= i < |r.value.rendered| :: Stamped(r.value.rendered[i], root)
    decreases es
  {
    if es == [] then Ok(Pass([], c))
    else
      var first :- SendOne(c, root, es[0], env);
      Then(first, Push(first.counters, root, es[1..], env))
  }

  /** A component's `render`, pushing each of its outputs into the sink in turn. */
  function PushYields(c: Counters, root: Trace, ys: seq<Yield>, env: SinkEnv): (r: Result<Pass>)
    ensures r.Ok? ==> Grows(c, r.value.counters)
    ensures r.Ok? ==> forall i | 0 <= i < |r.value.rendered| :: Stamped(r.value.rendered[i], root)
    decreases ys
  {
    if ys == [] then Ok(Pass([], c))
    else
      var first :- PushOne(c, root, ys[0], env);
      Then(first, PushYields(first.counters, root, ys[1..], env))
  }

  /** One `push`: of a single element, or of each element of an iterable. */
  function PushOne(c: Counters, root: Trace, y: Yield, env: SinkEnv): (r: Result<Pass>)
    ensures r.Ok? ==> Grows(c, r.value.counters)
    ensures r.Ok? ==> forall i | 0 <= i < |r.value.rendered| :: Stamped(r.value.rendered[i], root)
    decreases y
  {
    match y
    case One(_, e) => SendOne(c, root, e, env)
    case Many(_, es) => Push(c, root, es, env)
  }

  // ---------------------------------------------------------------------------
  // Properties
  // ---------------------------------------------------------------------------

  /** Pushing `xs + ys` is pushing `xs`, then `ys` with the counters `xs` left. */
  lemma {:induction false} PushAppend(c: Counters, root: Trace, xs: seq<Elem>, ys: seq<Elem>, env: SinkEnv)
    ensures Push(c, root, xs + ys, env) ==
              var p := Push(c, root, xs, env);
              if p.Ok? then Then(p.value, Push(p.value.counters, root, ys, env)) else p
    decreases xs
  {
    if xs == [] {
      assert xs + ys == ys;
      var w := Push(c, root, ys, env);
      assert w.Ok? ==> [] + w.value.rendered == w.value.rendered;
    } else {
      assert (xs + ys)[0] == xs[0] && (xs + ys)[1..] == xs[1..] + ys;
      var first := SendOne(c, root, xs[0], env);
      if first.Ok? {
        PushAppend(first.value.counters, root, xs[1..], ys, env);
        var q := Push(first.value.counters, root, xs[1..], env);
        if q.Ok? {
          var w := Push(q.value.counters, root, ys, env);
          if w.Ok? {
            assert first.value.rendered + (q.value.rendered + w.value.rendered)
                == (first.value.rendered + q.value.rendered) + w.value.rendered;
          }
        }
      }
    }
  }

  /** A single element is pushed as the one-element list. */
  lemma PushOneIsPush(c: Counters, root: Trace, y: Yield, env: SinkEnv)
    ensures PushOne(c, root, y, env) == Push(c, root, Listed(y), env)
  {
    if y.One? {
      var r := SendOne(c, root, y.elem, env);
      assert [y.elem][1..] == [];
      assert r.Ok? ==> r.value.rendered + [] == r.value.rendered;
    }
  }

  /** `push` flattens one level: a render's pushes, one after the other, are one
      push of all their elements in order. */
  lemma {:induction false} PushYieldsFlat(c: Counters, root: Trace, ys: seq<Yield>, env: SinkEnv)
    ensures PushYields(c, root, ys, env) == Push(c, root, Flat(ys), env)
    decreases ys
  {
    if ys != [] {
      var es := Listed(ys[0]);
      PushAppend(c, root, es, Flat(ys[1..]), env);
      PushOneIsPush(c, root, ys[0], env);
      var p := Push(c, root, es, env);
      if p.Ok? {
        PushYieldsFlat(p.value.counters, root, ys[1..], env);
      }
    }
  }

  /** A node is appended once, with trace `trace_root + sequenced frame` and with
      the kids rendered under that trace by the shared counters. */
  lemma SendNode(c: Counters, root: Trace, e: Elem, env: SinkEnv)
    requires e.Node? && e.construct.Some?
    ensures var s := StampFor(c, root, e, env);
            var trace := AddFrame(root, s.frame);
            var kids := Push(s.counters, trace, e.kids, env);
            s.frame == env.toSequenced(env.create(e.typeName, e.key, e.construct.value),
                                       Count(c, root, env.create(e.typeName, e.key, e.construct.value))) &&
            (SendOne(c, root, e, env).Ok? <==> kids.Ok?) &&
            (kids.Ok? ==> SendOne(c, root, e, env).value.rendered ==
                            [e.(kids := kids.value.rendered, trace := Some(trace))])
  {
  }

  /** A component contributes exactly what its render pushed, in order, each
      element rendered under the component's own trace. */
  lemma SendComponent(c: Counters, root: Trace, e: Elem, env: SinkEnv)
    requires e.Comp? && e.construct.Some?
    ensures var s := StampFor(c, root, e, env);
            SendOne(c, root, e, env) == Push(s.counters, AddFrame(root, s.frame), Flat(e.body), env)
  {
    var s := StampFor(c, root, e, env);
    PushYieldsFlat(s.counters, AddFrame(root, s.frame), e.body, env);
  }

  /** A push with any non-element in it fails. */
  lemma {:induction false} PushRejectsNonElements(c: Counters, root: Trace, es: seq<Elem>, env: SinkEnv, i: nat)
    requires i < |es| && es[i].Other?
    ensures Push(c, root, es, env).Err?
    decreases es
  {
    var first := SendOne(c, root, es[0], env);
    if i > 0 && first.Ok? {
      PushRejectsNonElements(first.value.counters, root, es[1..], env, i - 1);
    }
  }

  // ---------------------------------------------------------------------------
  // run
  // ---------------------------------------------------------------------------

  /** `RenderSink.run(component)` as written: `_run_render` tests for a ShadowNode,
      not a Component, so a component renders nothing and `run` returns the empty
      `rendered`; a node is asked to `render`, which a ShadowNode does not define. */
  function Run(c: Counters, root: Trace, e: Elem, env: SinkEnv): (r: Result<Pass>)
    ensures !e.Node? ==> r == Ok(Pass([], c))
    ensures e.Node? ==> r.Err?
  {
    if e.Node? then Err(AttributeError("render")) else Ok(Pass([], c))
  }

  /** `run` as evidently intended: a component renders into this sink, under the
      sink's root trace; anything else adds nothing. */
  function RunIntended(c: Counters, root: Trace, e: Elem, env: SinkEnv): (r: Result<Pass>)
    ensures e.Comp? ==> r == Push(c, root, Flat(e.body), env)
    ensures !e.Comp? ==> r == Ok(Pass([], c))
    ensures r.Ok? ==> forall i | 0 <= i < |r.value.rendered| :: Stamped(r.value.rendered[i], root)
  {
    if e.Comp? then
      PushYieldsFlat(c, root, e.body, env);
      PushYields(c, root, e.body, env)
    else Ok(Pass([], c))
  }

  /** A component that pushes one node: `run` as written returns nothing, the
      intended `run` returns that node. */
  lemma RunDropsComponentOutput(c: Counters, root: Trace, env: SinkEnv, p: Props)
    ensures var n := Node("Label", None, Some(0), [], None, p);
            var comp := Comp("App", None, Some(1), [One(5, n)]);
            Run(c, root, comp, env) == Ok(Pass([], c)) &&
            RunIntended(c, root, comp, env).Ok? &&
            |RunIntended(c, root, comp, env).value.rendered| == 1
  {
    var n := Node("Label", None, Some(0), [], None, p);
    var comp := Comp("App", None, Some(1), [One(5, n)]);
    assert Flat(comp.body) == [n] by {
      assert Flat(comp.body[1..]) == [];
    }
    var s := StampFor(c, root, n, env);
    assert Push(s.counters, AddFrame(root, s.frame), [], env).Ok?;
    var one := SendOne(c, root, n, env);
    assert one.Ok? && |one.value.rendered| == 1;
    assert [n][1..] == [];
    assert Push(one.value.counters, root, [], env) == Ok(Pass([], one.value.counters));
    assert Push(c, root, [n], env) == Ok(Pass(one.value.rendered + [], one.value.counters));
  }
}
