/** The window reconciler (tk/reconcilers/window_reconciler.py) and the pure
    parts of the window wrapper (tk/window_wrapper.py): windows are updated
    through `attributes`, `configure` and `overrideredirect`, placed by a geometry
    string, hidden by `withdraw` and shown by `deiconify`.

    Creating a window starts a Tk UI thread; here it is a `NewWindow` call on the
    next free handle. The screen size a window reports is the parameter `screen`. */
module WindowReconciler {
  import opened Errors
  import opened PyValue
  import opened Resources
  import TkReconcileState
  import opened TkBackend
  import opened Geometries
  import PropVectors
  import PropDiff
  import StatefulReconcile

  /** The order in which a dict yields its keys (insertion order in CPython), which
      a Dafny map does not have. */
  type KeyOrder = map<string, Value> -> seq<string>

  // ---------------------------------------------------------------------------
  // Updating a window
  // ---------------------------------------------------------------------------

  /** The keys, in order, whose value is present and truthy. */
  function Kept(keys: seq<string>, m: map<string, Value>): (r: seq<string>)
    ensures forall k | k in r :: k in keys && k in m && Truthy(m[k])
    ensures forall k | k in keys && k in m && Truthy(m[k]) :: k in r
    ensures |r| <= |keys|
  {
    if keys == [] then []
    else (if keys[0] in m && Truthy(m[keys[0]]) then [keys[0]] else []) + Kept(keys[1..], m)
  }

  /** `[item for k, v in attrs.items() for item in (f"-{k}", v) if v]`: an option
      name and its value for every truthy value, in order. */
  function FlattenAttrs(keys: seq<string>, m: map<string, Value>): (r: seq<Value>)
    ensures |r| == 2 * |Kept(keys, m)|
    ensures forall j | 0 <= j < |Kept(keys, m)| ::
              Kept(keys, m)[j] in m && r[2 * j] == VStr("-" + Kept(keys, m)[j]) && r[2 * j + 1] == m[Kept(keys, m)[j]]
  {
    if keys == [] then []
    else
      var rest := FlattenAttrs(keys[1..], m);
      if keys[0] in m && Truthy(m[keys[0]]) then
        assert Kept(keys, m) == [keys[0]] + Kept(keys[1..], m);
        FlattenCons(keys[0], Kept(keys[1..], m), m, rest);
        [VStr("-" + keys[0]), m[keys[0]]] + rest
      else
        assert Kept(keys, m) == Kept(keys[1..], m);
        rest
  }

  /** Flattening one more kept key puts its option name and value in front. */
  lemma FlattenCons(k: string, ks: seq<string>, m: map<string, Value>, rest: seq<Value>)
    requires k in m
    requires |rest| == 2 * |ks|
    requires forall j | 0 <= j < |ks| :: ks[j] in m && rest[2 * j] == VStr("-" + ks[j]) && rest[2 * j + 1] == m[ks[j]]
    ensures var r, kept := [VStr("-" + k), m[k]] + rest, [k] + ks;
            |r| == 2 * |kept| &&
            forall j | 0 <= j < |kept| :: kept[j] in m && r[2 * j] == VStr("-" + kept[j]) && r[2 * j + 1] == m[kept[j]]
  {
    var r, kept := [VStr("-" + k), m[k]] + rest, [k] + ks;
    forall j | 0 <= j < |kept| ensures kept[j] in m && r[2 * j] == VStr("-" + kept[j]) && r[2 * j + 1] == m[kept[j]] {
      if j > 0 {
        assert kept[j] == ks[j - 1];
        assert r[2 * j] == rest[2 * (j - 1)] && r[2 * j + 1] == rest[2 * (j - 1) + 1];
      }
    }
  }

  /** The order the update calls come in. */
  function Rank(c: Call): nat {
    match c
    case Attributes(_, _) => 0
    case Configure(_, _) => 1
    case _ => 2
  }

  /** `if attrs := values.get("attributes"): resource.attributes(*flattened)`. */
  function AttributesCall(h: Handle, attrs: Value, order: KeyOrder): (r: Result<seq<Call>>)
    ensures r.Ok? <==> !Truthy(attrs) || attrs.VDict?
    ensures r.Ok? && !Truthy(attrs) ==> r.value == []
    ensures r.Ok? && Truthy(attrs) ==> r.value == [Attributes(h, FlattenAttrs(order(attrs.m), attrs.m))]
  {
    if !Truthy(attrs) then Ok([])
    else
      var m :- AsMapping(attrs, "attributes");
      Ok([Attributes(h, FlattenAttrs(order(m), m))])
  }

  /** `if configure := values.get("configure"): resource.configure(**configure)`. */
  function ConfigureCall(h: Handle, conf: Value): (r: Result<seq<Call>>)
    ensures r.Ok? <==> !Truthy(conf) || conf.VDict?
    ensures r.Ok? && !Truthy(conf) ==> r.value == []
    ensures r.Ok? && Truthy(conf) ==> r.value == [Configure(h, conf.m)]
  {
    if !Truthy(conf) then Ok([])
    else
      var m :- AsMapping(conf, "configure");
      Ok([Configure(h, m)])
  }

  /** `_update(resource, props)` (and the wrapper's `update`): every call it makes
      is an update of the given window. What the calls are is `UpdateCallsSpec`. */
  function UpdateCalls(h: Handle, props: Diff, order: KeyOrder): (r: Result<seq<Call>>)
    ensures r.Ok? <==>
              (Truthy(Get(props, "attributes", VNone)) ==> Get(props, "attributes", VNone).VDict?) &&
              (Truthy(Get(props, "configure", VNone)) ==> Get(props, "configure", VNone).VDict?)
    ensures r.Ok? ==> forall i | 0 <= i < |r.value| ::
              r.value[i].h == h && (r.value[i].Attributes? || r.value[i].Configure? || r.value[i].OverrideRedirect?)
  {
    var attrs := Get(props, "attributes", VNone);
    var conf := Get(props, "configure", VNone);
    var flag := Get(props, "override_redirect", VNone);
    var a :- AttributesCall(h, attrs, order);
    var c :- ConfigureCall(h, conf);
    Ok(a + c + (if flag != VNone then [OverrideRedirect(h, flag)] else []))
  }

  /** The calls `_update` makes: the attribute options, then the configure
      options, then the override-redirect flag, each only when present --
      attributes and configure when truthy, the flag when it is not None. An empty
      mapping makes no call. */
  lemma UpdateCallsSpec(h: Handle, props: Diff, order: KeyOrder)
    requires UpdateCalls(h, props, order).Ok?
    ensures var cs := UpdateCalls(h, props, order).value;
            forall i, j | 0 <= i < j < |cs| :: Rank(cs[i]) < Rank(cs[j])
    ensures var cs := UpdateCalls(h, props, order).value;
            (exists i | 0 <= i < |cs| :: cs[i].Attributes?) <==> Truthy(Get(props, "attributes", VNone))
    ensures var cs := UpdateCalls(h, props, order).value;
            (exists i | 0 <= i < |cs| :: cs[i].Configure?) <==> Truthy(Get(props, "configure", VNone))
    ensures var cs := UpdateCalls(h, props, order).value;
            (exists i | 0 <= i < |cs| :: cs[i].OverrideRedirect?) <==> Get(props, "override_redirect", VNone) != VNone
    ensures var cs := UpdateCalls(h, props, order).value;
            forall i | 0 <= i < |cs| ::
              (cs[i].Attributes? ==> cs[i].args == FlattenAttrs(order(props["attributes"].m), props["attributes"].m)) &&
              (cs[i].Configure? ==> cs[i].options == props["configure"].m) &&
              (cs[i].OverrideRedirect? ==> cs[i].flag == props["override_redirect"])
    ensures props == map[] ==> UpdateCalls(h, props, order).value == []
  {
    var attrs := Get(props, "attributes", VNone);
    var conf := Get(props, "configure", VNone);
    var flag := Get(props, "override_redirect", VNone);
    var a := AttributesCall(h, attrs, order).value;
    var c := ConfigureCall(h, conf).value;
    var tail := if flag != VNone then [OverrideRedirect(h, flag)] else [];
    assert a + c + tail == UpdateCalls(h, props, order).value;
    ThreeSlots(a, c, tail);
  }

  /** At most one attributes call, then at most one configure call, then at most
      one override-redirect call. */
  predicate Slots(a: seq<Call>, c: seq<Call>, t: seq<Call>) {
    |a| <= 1 && |c| <= 1 && |t| <= 1 &&
    (forall i | 0 <= i < |a| :: a[i].Attributes?) &&
    (forall i | 0 <= i < |c| :: c[i].Configure?) &&
    (forall i | 0 <= i < |t| :: t[i].OverrideRedirect?)
  }

  /** Calls in three slots: the ranks rise, each kind is present exactly when
      its slot is filled, and a call of a kind is that slot's call. */
  lemma ThreeSlots(a: seq<Call>, c: seq<Call>, t: seq<Call>)
    requires Slots(a, c, t)
    ensures var cs := a + c + t;
            (forall i, j | 0 <= i < j < |cs| :: Rank(cs[i]) < Rank(cs[j])) &&
            ((exists i | 0 <= i < |cs| :: cs[i].Attributes?) <==> |a| == 1) &&
            ((exists i | 0 <= i < |cs| :: cs[i].Configure?) <==> |c| == 1) &&
            ((exists i | 0 <= i < |cs| :: cs[i].OverrideRedirect?) <==> |t| == 1) &&
            (forall i | 0 <= i < |cs| ::
               (cs[i].Attributes? ==> cs[i] == a[0]) && (cs[i].Configure? ==> cs[i] == c[0]) &&
               (cs[i].OverrideRedirect? ==> cs[i] == t[0]))
  {
    SlotsRank(a, c, t);
    SlotsPresent(a, c, t);
    SlotsContents(a, c, t);
  }

  /** Where each index of the three slots falls. */
  lemma SlotsIndex(a: seq<Call>, c: seq<Call>, t: seq<Call>, i: nat)
    requires Slots(a, c, t) && i < |a + c + t|
    ensures var cs := a + c + t;
            (i < |a| && cs[i] == a[i] && Rank(cs[i]) == 0) ||
            (|a| <= i < |a| + |c| && cs[i] == c[i - |a|] && Rank(cs[i]) == 1) ||
            (|a| + |c| <= i && cs[i] == t[i - |a| - |c|] && Rank(cs[i]) == 2)
  {
  }

  lemma SlotsRank(a: seq<Call>, c: seq<Call>, t: seq<Call>)
    requires Slots(a, c, t)
    ensures var cs := a + c + t; forall i, j | 0 <= i < j < |cs| :: Rank(cs[i]) < Rank(cs[j])
  {
    var cs := a + c + t;
    forall i, j | 0 <= i < j < |cs| ensures Rank(cs[i]) < Rank(cs[j]) {
      SlotsIndex(a, c, t, i);
      SlotsIndex(a, c, t, j);
    }
  }

  lemma SlotsPresent(a: seq<Call>, c: seq<Call>, t: seq<Call>)
    requires Slots(a, c, t)
    ensures var cs := a + c + t;
            ((exists i | 0 <= i < |cs| :: cs[i].Attributes?) <==> |a| == 1) &&
            ((exists i | 0 <= i < |cs| :: cs[i].Configure?) <==> |c| == 1) &&
            ((exists i | 0 <= i < |cs| :: cs[i].OverrideRedirect?) <==> |t| == 1)
  {
    var cs := a + c + t;
    forall i | 0 <= i < |cs| ensures (cs[i].Attributes? ==> |a| == 1) && (cs[i].Configure? ==> |c| == 1) &&
                                     (cs[i].OverrideRedirect? ==> |t| == 1) {
      SlotsIndex(a, c, t, i);
    }
    if |a| == 1 { assert cs[0].Attributes?; }
    if |c| == 1 { assert cs[|a|].Configure?; }
    if |t| == 1 { assert cs[|cs| - 1].OverrideRedirect?; }
  }

  lemma SlotsContents(a: seq<Call>, c: seq<Call>, t: seq<Call>)
    requires Slots(a, c, t)
    ensures var cs := a + c + t;
            forall i | 0 <= i < |cs| ::
              (cs[i].Attributes? ==> cs[i] == a[0]) && (cs[i].Configure? ==> cs[i] == c[0]) &&
              (cs[i].OverrideRedirect? ==> cs[i] == t[0])
  {
    var cs := a + c + t;
    forall i | 0 <= i < |cs| ensures (cs[i].Attributes? ==> cs[i] == a[0]) && (cs[i].Configure? ==> cs[i] == c[0]) &&
                                     (cs[i].OverrideRedirect? ==> cs[i] == t[0]) {
      SlotsIndex(a, c, t, i);
    }
  }

  // ---------------------------------------------------------------------------
  // Placing, hiding and showing
  // ---------------------------------------------------------------------------

  /** `_place(pair, diff)`: set the geometry from the diff's "Geometry" section,
      then show the window. */
  function PlaceCalls(h: Handle, diff: Diff, screen: (int, int)): (r: Result<seq<Call>>)
    ensures "Geometry" !in diff ==> r == Err(KeyError("Geometry"))
    ensures r.Ok? <==> "Geometry" in diff && GeometryOf(diff["Geometry"]).Ok?
    ensures r.Ok? ==>
              var g := GeometryOf(diff["Geometry"]).value;
              var p := Position(g, screen.0, screen.1);
              |r.value| == 2 && r.value[0].WmGeometry? && r.value[0].h == h && r.value[1] == Deiconify(h) &&
              ParseGeometry(r.value[0].spec) == Some((g.width, g.height, p.0, p.1))
  {
    if "Geometry" !in diff then Err(KeyError("Geometry"))
    else
      var g :- GeometryOf(diff["Geometry"]);
      Ok([WmGeometry(h, NormalizeGeo(g, screen.0, screen.1)), Deiconify(h)])
  }

  /** `_replace(existing, replacement)`: hide the first window, show the second. */
  function ReplaceCalls(hidden: Handle, shown: Handle): (r: seq<Call>)
    ensures |r| == 2 && r[0] == Withdraw(hidden) && r[1] == Deiconify(shown)
  {
    [Withdraw(hidden), Deiconify(shown)]
  }

  /** The `_replace` call of a non-recreating `Replace`: as written it hides the
      incoming window and shows the replaced one. */
  function Swap(replaced: Handle, incoming: Handle, showIncoming: bool): (r: seq<Call>)
    ensures showIncoming ==> r == [Withdraw(replaced), Deiconify(incoming)]
    ensures !showIncoming ==> r == [Withdraw(incoming), Deiconify(replaced)]
  {
    if showIncoming then ReplaceCalls(replaced, incoming) else ReplaceCalls(incoming, replaced)
  }

  // ---------------------------------------------------------------------------
  // Running actions
  // ---------------------------------------------------------------------------

  /** `_do_create_action`. `Create` makes a window and registers it under the next
      node's uid WITHOUT applying any of its props; `Update` applies a non-empty
      diff to the existing window and migrates the entry in place, so the registry
      slot holding it now shows the next node, and no uid is added; anything else is a failed assertion. */
  function DoCreate(st: Host, c: Creation, order: KeyOrder): (r: Result<(Host, Entry)>)
    ensures c.Recreate? ==> r.Err?
    ensures c.Create? ==> r.Ok?
    ensures r.Ok? && c.Create? ==>
              r.value.1 == TkReconcileState.Rendered(st.nextHandle, c.next) &&
              r.value.0.registry == st.registry[c.next.uid := r.value.1] && r.value.0.nextHandle == st.nextHandle + 1 &&
              r.value.0.calls == st.calls + [NewWindow(st.nextHandle)]
    ensures c.Update? ==> (r.Ok? <==> c.diff == map[] || UpdateCalls(c.existing.resource, c.diff, order).Ok?)
    ensures r.Ok? && c.Update? ==>
              r.value.1 == TkReconcileState.Migrate(c.existing, c.next) &&
              r.value.0.registry == TkReconcileState.MigrateIn(st.registry, c.existing, c.next) &&
              r.value.0.nextHandle == st.nextHandle &&
              r.value.0.calls == st.calls + (if c.diff == map[] then [] else UpdateCalls(c.existing.resource, c.diff, order).value)
    ensures r.Ok? ==> st.calls <= r.value.0.calls && st.registry.Keys <= r.value.0.registry.Keys
    ensures r.Ok? ==> r.value.1.resource == IncomingHandle(st, c)
    ensures Valid(st) && CreationGrounded(st, c) && r.Ok? ==> Valid(r.value.0) && r.value.1.resource < r.value.0.nextHandle
  {
    match c
    case Create(next, _, _) =>
      var made := TkReconcileState.Rendered(st.nextHandle, next);
      Ok((Host(st.registry[next.uid := made], st.nextHandle + 1, st.calls + [NewWindow(st.nextHandle)]), made))
    case Update(existing, next, diff) =>
      var migrated := st.(registry := TkReconcileState.MigrateIn(st.registry, existing, next));
      if diff == map[] then Ok((migrated, TkReconcileState.Migrate(existing, next)))
      else
        var cs :- UpdateCalls(existing.resource, diff, order);
        Ok((Emit(migrated, cs), TkReconcileState.Migrate(existing, next)))
    case Recreate(_, _, _, _) => Err(AssertionError("Unknown action"))
  }

  /** The last call about `h`'s visibility shows it. */
  predicate ShownLast(cs: seq<Call>, h: Handle) {
    exists i | 0 <= i < |cs| :: cs[i] == Deiconify(h) && forall j | i < j < |cs| :: cs[j] != Withdraw(h)
  }

  /** The last call about `h`'s visibility hides it. */
  predicate HiddenLast(cs: seq<Call>, h: Handle) {
    exists i | 0 <= i < |cs| :: cs[i] == Withdraw(h) && forall j | i < j < |cs| :: cs[j] != Deiconify(h)
  }

  /** The `Place` cases: a recreation creates the new window, destroys the old one,
      then places the new one; any other inner action is run and its window
      placed with the diff. */
  function PlaceStep(st: Host, w: Creation, screen: (int, int), order: KeyOrder): (r: Result<Host>)
    ensures r.Ok? ==> st.calls <= r.value.calls && st.registry.Keys <= r.value.registry.Keys
  {
    match w
    case Recreate(gone, next, container, d) =>
      var m := DoCreate(st, Create(next, container, d), order).value;
      var cs :- PlaceCalls(m.1.resource, d, screen);
      Ok(Emit(Emit(m.0, [Destroy(gone.resource)]), cs))
    case Create(_, _, d) =>
      var m := DoCreate(st, w, order).value;
      var cs :- PlaceCalls(m.1.resource, d, screen);
      Ok(Emit(m.0, cs))
    case Update(_, _, d) =>
      var m :- DoCreate(st, w, order);
      var cs :- PlaceCalls(m.1.resource, d, screen);
      Ok(Emit(m.0, cs))
  }

  /** The `Replace` cases: a recreation creates the new window, hides the replaced
      one and shows the new one, then destroys the old one. Any other inner action
      is run, the replaced window is updated with the diff, and `_replace` is
      handed the incoming window first (`showIncoming` false, as written) or the
      replaced one first (`showIncoming` true, as in the recreating case). */
  function ReplaceStep(st: Host, existing: Entry, w: Creation, screen: (int, int), order: KeyOrder, showIncoming: bool): (r: Result<Host>)
    ensures r.Ok? ==> st.calls <= r.value.calls && st.registry.Keys <= r.value.registry.Keys
  {
    match w
    case Recreate(gone, next, container, d) =>
      var m := DoCreate(st, Create(next, container, d), order).value;
      Ok(Emit(m.0, ReplaceCalls(existing.resource, m.1.resource) + [Destroy(gone.resource)]))
    case Create(_, _, d) =>
      var m := DoCreate(st, w, order).value;
      var cs :- UpdateCalls(existing.resource, d, order);
      Ok(Emit(m.0, cs + Swap(existing.resource, m.1.resource, showIncoming)))
    case Update(_, _, d) =>
      var m :- DoCreate(st, w, order);
      var cs :- UpdateCalls(existing.resource, d, order);
      Ok(Emit(m.0, cs + Swap(existing.resource, m.1.resource, showIncoming)))
  }

  /** `_run_action_main_thread`, as written (`showIncoming` false) or with the
      non-recreating `Replace` handing `_replace` the windows in the order the
      recreating one does (`showIncoming` true). A falsy action does nothing. */
  function Step(st: Host, a: Action, screen: (int, int), order: KeyOrder, showIncoming: bool): (r: Result<Host>)
    ensures !ActionTruthy(a) ==> r == Ok(st)
    ensures r.Ok? ==> st.calls <= r.value.calls && st.registry.Keys <= r.value.registry.Keys
    ensures a.Unplace? ==> r == Ok(Emit(st, [Withdraw(a.existing.resource)]))
    ensures a.Updated? && ActionTruthy(a) ==>
              r == (var cs :- UpdateCalls(a.existing.resource, a.diff, order); Ok(Emit(st, cs)))
    ensures a.Place? ==> r == PlaceStep(st, a.what, screen, order)
    ensures a.Replace? ==> r == ReplaceStep(st, a.existing, a.withWhat, screen, order, showIncoming)
  {
    if !ActionTruthy(a) then Ok(st)
    else
      match a
      case Updated(e, _, d) =>
        var cs :- UpdateCalls(e.resource, d, order);
        Ok(Emit(st, cs))
      case Unplace(e) =>
        Ok(Emit(st, [Withdraw(e.resource)]))
      case Place(_, _, w) => PlaceStep(st, w, screen, order)
      case Replace(_, existing, w) => ReplaceStep(st, existing, w, screen, order, showIncoming)
  }

  /** Running an action only ever names windows the host handed out: the ones the
      action names and the one it creates. */
  lemma StepKeepsValid(st: Host, a: Action, screen: (int, int), order: KeyOrder, showIncoming: bool)
    requires Valid(st) && Grounded(st, a)
    requires Step(st, a, screen, order, showIncoming).Ok?
    ensures Valid(Step(st, a, screen, order, showIncoming).value)
  {
    if ActionTruthy(a) {
      match a
      case Updated(e, _, d) =>
        UpdateCallsBelow(e.resource, d, order, st.nextHandle);
        EmitBelow(st, UpdateCalls(e.resource, d, order).value);
      case Unplace(e) =>
        EmitBelow(st, [Withdraw(e.resource)]);
      case Place(_, _, w) =>
        PlaceStepValid(st, w, screen, order);
      case Replace(_, existing, w) =>
        ReplaceStepValid(st, existing, w, screen, order, showIncoming);
    }
  }

  lemma UpdateCallsBelow(h: Handle, props: Diff, order: KeyOrder, n: Handle)
    requires h < n && UpdateCalls(h, props, order).Ok?
    ensures CallsBelow(UpdateCalls(h, props, order).value, n)
  {
    var cs := UpdateCalls(h, props, order).value;
    forall i | 0 <= i < |cs| ensures CallHandles(cs[i]) < n {
      assert cs[i].h == h && !cs[i].NewLabel? && !cs[i].PackConfigure?;
    }
  }

  /** What a successful `Place` appends, and to which host. */
  lemma PlaceStepShape(st: Host, w: Creation, screen: (int, int), order: KeyOrder)
    requires PlaceStep(st, w, screen, order).Ok?
    ensures var m := DoCreate(st, Fresh(w), order).value;
            var cs := PlaceCalls(m.1.resource, w.diff, screen).value;
            PlaceStep(st, w, screen, order).value ==
              if w.Recreate? then Emit(Emit(m.0, [Destroy(w.previous.resource)]), cs) else Emit(m.0, cs)
  {
  }

  /** What a successful `Replace` appends, and to which host. */
  lemma ReplaceStepShape(st: Host, existing: Entry, w: Creation, screen: (int, int), order: KeyOrder, showIncoming: bool)
    requires ReplaceStep(st, existing, w, screen, order, showIncoming).Ok?
    ensures var m := DoCreate(st, Fresh(w), order).value;
            ReplaceStep(st, existing, w, screen, order, showIncoming).value ==
              if w.Recreate? then Emit(m.0, ReplaceCalls(existing.resource, m.1.resource) + [Destroy(w.previous.resource)])
              else Emit(m.0, UpdateCalls(existing.resource, w.diff, order).value + Swap(existing.resource, m.1.resource, showIncoming))
  {
  }

  /** The calls a successful `Place` makes: a creating one starts with a new
      window, registered under the next uid; a recreating one then destroys the old
      window, sets the geometry and shows the new one; every one ends by showing
      the incoming window. */
  lemma PlaceStepCalls(st: Host, w: Creation, screen: (int, int), order: KeyOrder)
    requires PlaceStep(st, w, screen, order).Ok?
    ensures var r := PlaceStep(st, w, screen, order).value;
            !w.Update? ==>
              |r.calls| > |st.calls| && r.calls[|st.calls|] == NewWindow(st.nextHandle) &&
              w.next.uid in r.registry && r.registry[w.next.uid] == TkReconcileState.Rendered(st.nextHandle, w.next)
    ensures var r := PlaceStep(st, w, screen, order).value;
            w.Recreate? ==>
              var n := |st.calls|;
              |r.calls| == n + 4 && r.calls[n + 1] == Destroy(w.previous.resource) &&
              r.calls[n + 2].WmGeometry? && r.calls[n + 2].h == st.nextHandle &&
              r.calls[n + 3] == Deiconify(st.nextHandle)
    ensures var r := PlaceStep(st, w, screen, order).value;
            |r.calls| >= 2 && r.calls[|r.calls| - 1] == Deiconify(IncomingHandle(st, w))
  {
    PlaceStepShape(st, w, screen, order);
    var m := DoCreate(st, Fresh(w), order).value;
    var cs := PlaceCalls(m.1.resource, w.diff, screen).value;
    if w.Recreate? {
      PlacedAfter(st, m.0, [NewWindow(st.nextHandle), Destroy(w.previous.resource)], cs, m.1.resource);
    } else if w.Create? {
      PlacedAfter(st, m.0, [NewWindow(st.nextHandle)], cs, m.1.resource);
    } else {
      PlacedAfter(st, m.0, [], cs, m.1.resource);
    }
  }

  /** The calls of a `Place`: what the creation made, then the place calls. */
  lemma PlacedAfter(st: Host, made: Host, pre: seq<Call>, cs: seq<Call>, h: Handle)
    requires |cs| == 2 && cs[0].WmGeometry? && cs[0].h == h && cs[1] == Deiconify(h)
    ensures var calls := st.calls + pre + cs;
            |calls| == |st.calls| + |pre| + 2 && calls[|st.calls| + |pre|] == cs[0] && calls[|calls| - 1] == Deiconify(h) &&
            forall i | 0 <= i < |pre| :: calls[|st.calls| + i] == pre[i]
  {
  }

  /** The calls a successful `Replace` makes: a creating one starts with a new
      window, registered under the next uid; a recreating one then hides the
      replaced window, shows the new one and destroys the old; any other ends with
      the swap, which as written hides the incoming window and shows the replaced
      one. */
  lemma ReplaceStepCalls(st: Host, existing: Entry, w: Creation, screen: (int, int), order: KeyOrder, showIncoming: bool)
    requires ReplaceStep(st, existing, w, screen, order, showIncoming).Ok?
    ensures var r := ReplaceStep(st, existing, w, screen, order, showIncoming).value;
            !w.Update? ==>
              |r.calls| > |st.calls| && r.calls[|st.calls|] == NewWindow(st.nextHandle) &&
              w.next.uid in r.registry && r.registry[w.next.uid] == TkReconcileState.Rendered(st.nextHandle, w.next)
    ensures var r := ReplaceStep(st, existing, w, screen, order, showIncoming).value;
            w.Recreate? ==>
              r.calls[|st.calls|..] == [NewWindow(st.nextHandle), Withdraw(existing.resource),
                                        Deiconify(st.nextHandle), Destroy(w.previous.resource)]
    ensures var r := ReplaceStep(st, existing, w, screen, order, showIncoming).value;
            !w.Recreate? ==>
              |r.calls| >= |st.calls| + 2 &&
              r.calls[|r.calls| - 2..] == if showIncoming then ReplaceCalls(existing.resource, IncomingHandle(st, w))
                                          else ReplaceCalls(IncomingHandle(st, w), existing.resource)
  {
    ReplaceCreates(st, existing, w, screen, order, showIncoming);
    ReplaceRecreateCalls(st, existing, w, screen, order, showIncoming);
    ReplaceSwapCalls(st, existing, w, screen, order, showIncoming);
  }

  lemma ReplaceCreates(st: Host, existing: Entry, w: Creation, screen: (int, int), order: KeyOrder, showIncoming: bool)
    requires ReplaceStep(st, existing, w, screen, order, showIncoming).Ok?
    ensures var r := ReplaceStep(st, existing, w, screen, order, showIncoming).value;
            !w.Update? ==>
              |r.calls| > |st.calls| && r.calls[|st.calls|] == NewWindow(st.nextHandle) &&
              w.next.uid in r.registry && r.registry[w.next.uid] == TkReconcileState.Rendered(st.nextHandle, w.next)
  {
    if !w.Update? {
      ReplaceStepShape(st, existing, w, screen, order, showIncoming);
      var m := DoCreate(st, Fresh(w), order).value;
      var r := ReplaceStep(st, existing, w, screen, order, showIncoming).value;
      assert m.0.calls == st.calls + [NewWindow(st.nextHandle)];
      assert r.calls[..|m.0.calls|] == m.0.calls && r.registry == m.0.registry;
    }
  }

  lemma ReplaceRecreateCalls(st: Host, existing: Entry, w: Creation, screen: (int, int), order: KeyOrder, showIncoming: bool)
    requires ReplaceStep(st, existing, w, screen, order, showIncoming).Ok?
    ensures var r := ReplaceStep(st, existing, w, screen, order, showIncoming).value;
            w.Recreate? ==>
              r.calls[|st.calls|..] == [NewWindow(st.nextHandle), Withdraw(existing.resource),
                                        Deiconify(st.nextHandle), Destroy(w.previous.resource)]
  {
    if w.Recreate? {
      ReplaceStepShape(st, existing, w, screen, order, showIncoming);
      var r := ReplaceStep(st, existing, w, screen, order, showIncoming).value;
      assert r.calls == st.calls + [NewWindow(st.nextHandle), Withdraw(existing.resource),
                                    Deiconify(st.nextHandle), Destroy(w.previous.resource)];
    }
  }

  lemma ReplaceSwapCalls(st: Host, existing: Entry, w: Creation, screen: (int, int), order: KeyOrder, showIncoming: bool)
    requires ReplaceStep(st, existing, w, screen, order, showIncoming).Ok?
    ensures var r := ReplaceStep(st, existing, w, screen, order, showIncoming).value;
            !w.Recreate? ==>
              |r.calls| >= |st.calls| + 2 &&
              r.calls[|r.calls| - 2..] == if showIncoming then ReplaceCalls(existing.resource, IncomingHandle(st, w))
                                          else ReplaceCalls(IncomingHandle(st, w), existing.resource)
  {
    if !w.Recreate? {
      ReplaceStepShape(st, existing, w, screen, order, showIncoming);
      var m := DoCreate(st, Fresh(w), order).value;
      var r := ReplaceStep(st, existing, w, screen, order, showIncoming).value;
      var us := UpdateCalls(existing.resource, w.diff, order).value;
      var sw := Swap(existing.resource, m.1.resource, showIncoming);
      assert r.calls == (m.0.calls + us) + sw;
      EndsWithPair(m.0.calls + us, sw);
    }
  }

  /** Two calls appended last are the last two calls. */
  lemma EndsWithPair(a: seq<Call>, b: seq<Call>)
    requires |b| == 2
    ensures |a + b| == |a| + 2 && (a + b)[|a + b| - 2..] == b
  {
  }

  /** The inner action a recreation runs first. */
  function Fresh(w: Creation): (r: Creation)
    ensures !r.Recreate? && r.next == w.next && r.diff == w.diff
  {
    if w.Recreate? then Create(w.next, w.container, w.diff) else w
  }

  lemma PlaceCallsBelow(h: Handle, d: Diff, screen: (int, int), n: Handle)
    requires h < n && PlaceCalls(h, d, screen).Ok?
    ensures CallsBelow(PlaceCalls(h, d, screen).value, n)
  {
    var cs := PlaceCalls(h, d, screen).value;
    var g := GeometryOf(d["Geometry"]).value;
    assert cs == [WmGeometry(h, NormalizeGeo(g, screen.0, screen.1)), Deiconify(h)];
    ShowAtBelow(h, NormalizeGeo(g, screen.0, screen.1), n);
  }

  lemma ShowAtBelow(h: Handle, spec: string, n: Handle)
    requires h < n
    ensures CallsBelow([WmGeometry(h, spec), Deiconify(h)], n)
  {
    var cs := [WmGeometry(h, spec), Deiconify(h)];
    assert CallHandles(cs[0]) == h && CallHandles(cs[1]) == h;
  }

  lemma PlaceStepValid(st: Host, w: Creation, screen: (int, int), order: KeyOrder)
    requires Valid(st) && CreationGrounded(st, w)
    requires PlaceStep(st, w, screen, order).Ok?
    ensures Valid(PlaceStep(st, w, screen, order).value)
  {
    PlaceStepShape(st, w, screen, order);
    var m := DoCreate(st, Fresh(w), order).value;
    var cs := PlaceCalls(m.1.resource, w.diff, screen).value;
    PlaceCallsBelow(m.1.resource, w.diff, screen, m.0.nextHandle);
    if w.Recreate? {
      PlaceRecreateValid(m.0, w.previous.resource, cs);
    } else {
      EmitBelow(m.0, cs);
    }
  }

  lemma PlaceRecreateValid(st: Host, gone: Handle, cs: seq<Call>)
    requires Valid(st) && gone < st.nextHandle && CallsBelow(cs, st.nextHandle)
    ensures Valid(Emit(Emit(st, [Destroy(gone)]), cs))
  {
    EmitBelow(st, [Destroy(gone)]);
    EmitBelow(Emit(st, [Destroy(gone)]), cs);
  }

  lemma ReplaceStepValid(st: Host, existing: Entry, w: Creation, screen: (int, int), order: KeyOrder, showIncoming: bool)
    requires Valid(st) && existing.resource < st.nextHandle && CreationGrounded(st, w)
    requires ReplaceStep(st, existing, w, screen, order, showIncoming).Ok?
    ensures Valid(ReplaceStep(st, existing, w, screen, order, showIncoming).value)
  {
    ReplaceStepShape(st, existing, w, screen, order, showIncoming);
    var m := DoCreate(st, Fresh(w), order).value;
    if w.Recreate? {
      ReplaceRecreateValid(m.0, existing.resource, m.1.resource, w.previous.resource);
    } else {
      ReplaceSwapValid(m.0, existing.resource, m.1.resource, w.diff, order, showIncoming);
    }
  }

  lemma ReplaceRecreateValid(st: Host, replaced: Handle, incoming: Handle, gone: Handle)
    requires Valid(st) && replaced < st.nextHandle && incoming < st.nextHandle && gone < st.nextHandle
    ensures Valid(Emit(st, ReplaceCalls(replaced, incoming) + [Destroy(gone)]))
  {
    var cs := ReplaceCalls(replaced, incoming) + [Destroy(gone)];
    assert CallHandles(cs[0]) == replaced && CallHandles(cs[1]) == incoming && CallHandles(cs[2]) == gone;
    EmitBelow(st, cs);
  }

  lemma ReplaceSwapValid(st: Host, replaced: Handle, incoming: Handle, d: Diff, order: KeyOrder, showIncoming: bool)
    requires Valid(st) && replaced < st.nextHandle && incoming < st.nextHandle
    requires UpdateCalls(replaced, d, order).Ok?
    ensures Valid(Emit(st, UpdateCalls(replaced, d, order).value + Swap(replaced, incoming, showIncoming)))
  {
    var us := UpdateCalls(replaced, d, order).value;
    var sw := Swap(replaced, incoming, showIncoming);
    UpdateCallsBelow(replaced, d, order, st.nextHandle);
    assert CallHandles(sw[0]) < st.nextHandle && CallHandles(sw[1]) < st.nextHandle;
    CallsBelowConcat(us, sw, st.nextHandle);
    EmitBelow(st, us + sw);
  }

  /** `_run_action_main_thread` as written: the calls only grow, and a host whose
      handles were all handed out stays so. */
  function RunAction(st: Host, a: Action, screen: (int, int), order: KeyOrder): (r: Result<Host>)
    ensures r == Step(st, a, screen, order, false)
    ensures r.Ok? ==> st.calls <= r.value.calls
    ensures Valid(st) && Grounded(st, a) && r.Ok? ==> Valid(r.value)
  {
    var r := Step(st, a, screen, order, false);
    if Valid(st) && Grounded(st, a) && r.Ok? then
      StepKeepsValid(st, a, screen, order, false);
      r
    else r
  }

  /** `_run_action_main_thread` with the windows of a non-recreating `Replace`
      handed to `_replace` in the order the recreating case uses. Only `Replace`
      is affected: every other action runs as written. */
  function RunActionIntended(st: Host, a: Action, screen: (int, int), order: KeyOrder): (r: Result<Host>)
    ensures r == Step(st, a, screen, order, true)
    ensures !a.Replace? ==> r == RunAction(st, a, screen, order)
    ensures Valid(st) && Grounded(st, a) && r.Ok? ==> Valid(r.value)
  {
    var r := Step(st, a, screen, order, true);
    if Valid(st) && Grounded(st, a) && r.Ok? then
      StepKeepsValid(st, a, screen, order, true);
      r
    else r
  }

  /** As written, a `Replace` whose inner action creates a new window hides that
      new window and shows the one it was meant to replace. */
  lemma ReplaceHidesIncoming(st: Host, existing: Entry, next: RNode, container: RNode, screen: (int, int), order: KeyOrder)
    requires existing.resource != st.nextHandle
    ensures RunAction(st, Replace(container, existing, Create(next, container, map[])), screen, order).Ok?
    ensures var cs := RunAction(st, Replace(container, existing, Create(next, container, map[])), screen, order).value.calls;
            HiddenLast(cs, st.nextHandle) && ShownLast(cs, existing.resource)
  {
    var w := Create(next, container, map[]);
    var a := Replace(container, existing, w);
    ReplaceCreateOk(st, existing, w, screen, order);
    assert RunAction(st, a, screen, order) == ReplaceStep(st, existing, w, screen, order, false);
    ReplaceSwapCalls(st, existing, w, screen, order, false);
    SwapLast(ReplaceStep(st, existing, w, screen, order, false).value.calls, st.nextHandle, existing.resource);
  }

  /** A `Replace` whose inner action creates a window with an empty diff runs. */
  lemma ReplaceCreateOk(st: Host, existing: Entry, w: Creation, screen: (int, int), order: KeyOrder)
    requires w.Create? && w.diff == map[]
    ensures ReplaceStep(st, existing, w, screen, order, false).Ok?
  {
    UpdateCallsSpec(existing.resource, map[], order);
  }

  /** Calls ending with a swap leave the hidden window hidden and the shown one
      shown. */
  lemma SwapLast(cs: seq<Call>, hidden: Handle, shown: Handle)
    requires |cs| >= 2 && cs[|cs| - 2..] == ReplaceCalls(hidden, shown)
    ensures ShownLast(cs, shown)
    ensures hidden != shown ==> HiddenLast(cs, hidden)
  {
    var n := |cs|;
    assert cs[n - 2] == cs[n - 2..][0] && cs[n - 1] == cs[n - 2..][1];
  }

  /** With the windows handed over in the recreating case's order, every
      successful `Replace` leaves the incoming window shown, and the replaced one
      hidden unless it is the incoming one. */
  lemma ReplaceShowsIncoming(st: Host, a: Action, screen: (int, int), order: KeyOrder)
    requires a.Replace? && ActionTruthy(a) && RunActionIntended(st, a, screen, order).Ok?
    ensures var cs := RunActionIntended(st, a, screen, order).value.calls;
            ShownLast(cs, IncomingHandle(st, a.withWhat)) &&
            (a.existing.resource != IncomingHandle(st, a.withWhat) ==> HiddenLast(cs, a.existing.resource))
  {
    var r := ReplaceStep(st, a.existing, a.withWhat, screen, order, true);
    assert RunActionIntended(st, a, screen, order) == r;
    var inc := IncomingHandle(st, a.withWhat);
    if a.withWhat.Recreate? {
      ReplaceRecreateCalls(st, a.existing, a.withWhat, screen, order, true);
      assert inc == st.nextHandle;
      RecreateLast(r.value.calls, |st.calls|, a.existing.resource, inc, a.withWhat.previous.resource);
    } else {
      ReplaceSwapCalls(st, a.existing, a.withWhat, screen, order, true);
      SwapLast(r.value.calls, a.existing.resource, inc);
    }
  }

  /** Calls ending with a recreating replacement leave the new window shown and
      the replaced one hidden, unless they are the same. */
  lemma RecreateLast(cs: seq<Call>, k: nat, replaced: Handle, made: Handle, gone: Handle)
    requires k <= |cs| && cs[k..] == [NewWindow(made), Withdraw(replaced), Deiconify(made), Destroy(gone)]
    ensures ShownLast(cs, made)
    ensures replaced != made ==> HiddenLast(cs, replaced)
  {
    assert |cs| == k + 4;
    assert cs[k + 1] == Withdraw(replaced) && cs[k + 2] == Deiconify(made) && cs[k + 3] == Destroy(gone);
  }

  // ---------------------------------------------------------------------------
  // The wrapper
  // ---------------------------------------------------------------------------

  /** `WindowWrapper.get_compatibility`: every window is compatible with every
      next window. */
  function WindowCompat(older: Resource, newer: RNode): (c: Compat)
    ensures c == "update" && c in CompatValues
  {
    "update"
  }

  /** So a window whose uid is seen again is always updated in place, never
      replaced or recreated, by the stateful reconciler. */
  lemma WindowsUpdateInPlace(prev: Resource, next: RNode, oldNext: Resource, container: RNode, conv: PropVectors.Converters)
    requires ResourceUid(prev) == next.uid
    requires PropDiff.Diff(prev.node.values, next.values).Ok?
    ensures StatefulReconcile.GetAction(Some(prev), Some(next), Some(oldNext), container, WindowCompat, conv).Ok?
    ensures StatefulReconcile.GetAction(Some(prev), Some(next), Some(oldNext), container, WindowCompat, conv).value.Updated?
  {
  }
}
