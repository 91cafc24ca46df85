/** What the Tk reconcilers (tk/reconcilers/window_reconciler.py and
    widget_reconciler.py) work with.

    Their patterns destructure an action union in which the creating actions name
    their container and placements their position `at`; that union is written out
    here as they read it. The diff an action carries is the `values` dict of a
    computed mapping, whose sections are plain dicts (`VDict`).

    A Tk object is a `Handle`, and what the reconcilers do to Tk is recorded as a
    sequence of `Call`s on a `Host`, which also holds the registry of rendered
    nodes by uid. New Tk objects get the next unused handle. */
module TkBackend {
  import opened Errors
  import opened PyValue
  import opened Resources
  import opened TkReconcileState

  type Handle = nat

  /** A `RenderedNode` over a Tk object. */
  type Entry = Rendered<Handle, RNode>

  type Diff = map<string, Value>

  /** The creating actions. */
  datatype Creation =
    | Create(next: RNode, container: RNode, diff: Diff)
    | Recreate(previous: Entry, next: RNode, container: RNode, diff: Diff)
    | Update(existing: Entry, next: RNode, diff: Diff)

  /** The reconcile actions; `Updated` is a bare `Update`. */
  datatype Action =
    | Place(container: RNode, at: int, what: Creation)
    | Replace(container: RNode, existing: Entry, withWhat: Creation)
    | Unplace(existing: Entry)
    | Updated(existing: Entry, next: RNode, diff: Diff)

  /** `x.diff` of an action that has one. */
  function ActionDiff(a: Action): Diff {
    match a
    case Place(_, _, w) => w.diff
    case Replace(_, _, w) => w.diff
    case Unplace(_) => map[]
    case Updated(_, _, d) => d
  }

  /** `if action:`: only an `Update` can be falsy, when its diff is empty. */
  predicate ActionTruthy(a: Action) {
    !a.Updated? || a.diff != map[]
  }

  /** Where `pack_configure` is told to put a widget among its master's slaves. */
  datatype PackPosition = Anywhere | After(anchor: Handle) | Before(anchor: Handle)

  /** The Tk calls the reconcilers make, in the order they make them. */
  datatype Call =
    | NewWindow(h: Handle)                                 // Tk() on a new UI thread
    | NewLabel(h: Handle, master: Handle)                  // Label(container)
    | Attributes(h: Handle, args: seq<Value>)
    | Configure(h: Handle, options: map<string, Value>)
    | OverrideRedirect(h: Handle, flag: Value)
    | WmGeometry(h: Handle, spec: string)
    | Deiconify(h: Handle)
    | Withdraw(h: Handle)
    | Destroy(h: Handle)
    | PackConfigure(h: Handle, options: map<string, Value>, position: PackPosition, inMaster: Option<Handle>)
    | PackForget(h: Handle)

  /** The registry of rendered nodes, the next free handle, and the calls so far. */
  datatype Host = Host(registry: map<string, Entry>, nextHandle: Handle, calls: seq<Call>)

  /** Every handle the host knows of was handed out before `nextHandle`. */
  predicate Valid(st: Host) {
    (forall u | u in st.registry :: st.registry[u].resource < st.nextHandle) &&
    (forall i | 0 <= i < |st.calls| :: CallHandles(st.calls[i]) < st.nextHandle)
  }

  /** The largest handle a call mentions. */
  function CallHandles(c: Call): Handle {
    match c
    case NewLabel(h, m) => Larger(h, m)
    case PackConfigure(h, _, pos, inMaster) =>
      Larger(Larger(h, if pos.Anywhere? then 0 else pos.anchor), if inMaster.Some? then inMaster.value else 0)
    case _ => c.h
  }

  function Larger(a: nat, b: nat): nat {
    if a < b then b else a
  }

  /** The entries an action names were handed out by the host. */
  predicate Grounded(st: Host, a: Action) {
    match a
    case Place(_, _, w) => CreationGrounded(st, w)
    case Replace(_, e, w) => e.resource < st.nextHandle && CreationGrounded(st, w)
    case Unplace(e) => e.resource < st.nextHandle
    case Updated(e, _, _) => e.resource < st.nextHandle
  }

  predicate CreationGrounded(st: Host, w: Creation) {
    match w
    case Create(_, _, _) => true
    case Recreate(p, _, _, _) => p.resource < st.nextHandle
    case Update(e, _, _) => e.resource < st.nextHandle
  }

  /** A section of the computed mapping as the dict it is; anything else cannot be
      unpacked with `**` or iterated with `.items()`. */
  function AsMapping(v: Value, what: string): (r: Result<map<string, Value>>)
    ensures r.Ok? <==> v.VDict?
    ensures r.Ok? ==> r.value == v.m
  {
    if v.VDict? then Ok(v.m) else Err(TypeError(what))
  }

  /** The Tk object a creating action brings in: the existing one for an update,
      otherwise the next handle, which creation hands out. */
  function IncomingHandle(st: Host, w: Creation): Handle {
    if w.Update? then w.existing.resource else st.nextHandle
  }

  /** The host with more calls made. */
  function Emit(st: Host, cs: seq<Call>): (r: Host)
    ensures r.registry == st.registry && r.nextHandle == st.nextHandle && r.calls == st.calls + cs
  {
    st.(calls := st.calls + cs)
  }

  /** Every call names only handles below `n`. */
  predicate CallsBelow(cs: seq<Call>, n: Handle) {
    forall i | 0 <= i < |cs| :: CallHandles(cs[i]) < n
  }

  /** Making calls keeps the host valid when they name only known handles. */
  lemma EmitBelow(st: Host, cs: seq<Call>)
    requires Valid(st) && CallsBelow(cs, st.nextHandle)
    ensures Valid(Emit(st, cs))
  {
    assert Emit(st, cs).calls == st.calls + cs;
  }

  /** Two lists of calls below `n` make one. */
  lemma CallsBelowConcat(cs: seq<Call>, ds: seq<Call>, n: Handle)
    requires CallsBelow(cs, n) && CallsBelow(ds, n)
    ensures CallsBelow(cs + ds, n)
  {
    forall i | 0 <= i < |cs + ds| ensures CallHandles((cs + ds)[i]) < n {
      if i >= |cs| {
        assert (cs + ds)[i] == ds[i - |cs|];
      }
    }
  }
}
