/** The widget reconciler (tk/reconcilers/widget_reconciler.py), the widget
    wrapper (tk/widget_wrapper.py), and the compatibility rule and schema data of
    tk/widget.py. A widget is a Tk label inside its container: it is made by
    `NewLabel`, set up by `Configure`, packed by `PackConfigure` and unpacked by
    `PackForget`.

    Which slaves a master has packed is Tk state. It is the parameter `slaves`:
    the slaves of the master at the moment the widget is packed. */
module WidgetReconciler {
  import opened Errors
  import opened PyValue
  import opened Resources
  import TkReconcileState
  import opened TkBackend
  import PS = PropSchemas
  import PropVectors
  import PropDiff
  import Fonts
  import OD = OrderedDict

  // ---------------------------------------------------------------------------
  // Compatibility
  // ---------------------------------------------------------------------------

  /** The rule shared by `Widget.get_compatibility`, the wrapper's and the
      reconciler's: a different class name means recreate; otherwise the props
      are diffed (which can raise), and a non-empty diff means replace. */
  function CompatBy(olderType: string, older: PropVectors.PropVector, newer: RNode): (r: Result<Compat>)
    ensures r.Ok? ==> r.value in CompatValues
    ensures r == Ok("recreate") <==> olderType != newer.typeName
    ensures olderType == newer.typeName ==> (r.Ok? <==> PropDiff.Diff(older, newer.values).Ok?)
    ensures r == Ok("update") ==> PropDiff.Diff(older, newer.values) == Ok(map[])
    ensures r == Ok("replace") ==> PropDiff.Diff(older, newer.values).Ok? && PropDiff.Diff(older, newer.values).value != map[]
  {
    if olderType != newer.typeName then Ok("recreate")
    else
      var d :- PropDiff.Diff(older, newer.values);
      Ok(if d != map[] then "replace" else "update")
  }

  /** `Widget.get_compatibility` and `WidgetWrapperBase.get_compatibility`: the
      older node's type against the newer one's. */
  function WidgetCompat(older: RNode, newer: RNode): (r: Result<Compat>)
    ensures r == Ok("recreate") <==> older.typeName != newer.typeName
    ensures older.typeName == newer.typeName ==> (r.Ok? <==> PropDiff.Diff(older.values, newer.values).Ok?)
    ensures r.Ok? ==> (r.value == "update" <==> older.typeName == newer.typeName && PropDiff.Diff(older.values, newer.values) == Ok(map[]))
  {
    CompatBy(older.typeName, older.values, newer)
  }

  /** The class name of the object the reconciler's `get_compatibility` is
      handed as `older`. */
  const RenderedNodeClass: string := "RenderedNode"

  /** `WidgetReconciler.get_compatibility` as written: `older` is the
      `RenderedNode` that holds the widget, so the class name compared with the
      new node's is "RenderedNode", not the widget's type. */
  function ReconcilerCompat(older: Entry, newer: RNode): (r: Result<Compat>)
    ensures r == Ok("recreate") <==> newer.typeName != RenderedNodeClass
  {
    CompatBy(RenderedNodeClass, older.node.values, newer)
  }

  /** As written, a widget node is recreated on every render, even when the new
      node is the very same node again. */
  lemma ReconcilerAlwaysRecreates(older: Entry, newer: RNode)
    requires newer.typeName != RenderedNodeClass
    ensures ReconcilerCompat(older, newer) == Ok("recreate")
    ensures older.node == newer ==> ReconcilerCompat(older, newer) != WidgetCompat(older.node, newer)
  {
  }

  /** The reconciler's `get_compatibility` comparing the type of the node the
      entry holds, as the wrapper and `Widget` do. */
  function ReconcilerCompatIntended(older: Entry, newer: RNode): (r: Result<Compat>)
    ensures r == WidgetCompat(older.node, newer)
  {
    CompatBy(older.node.typeName, older.node.values, newer)
  }

  /** Corrected, a widget is recreated exactly when its type changes. */
  lemma IntendedRecreatesOnTypeChange(older: Entry, newer: RNode)
    ensures ReconcilerCompatIntended(older, newer) == Ok("recreate") <==> older.node.typeName != newer.typeName
    ensures older.node.typeName == newer.typeName && ReconcilerCompatIntended(older, newer).Ok? ==>
              ReconcilerCompatIntended(older, newer).value in {"replace", "update"}
  {
  }

  /** Two nodes of the same type whose schema has a section diffed as a whole
      ("simple" or "never") that the newer schema has too are always replaced: the
      section is in the diff whether it changed or not. */
  lemma {:induction false} SameTypeReplaces(older: RNode, newer: RNode, i: nat)
    requires older.typeName == newer.typeName
    requires PS.WellKeyed(older.values.schema) && i < |older.values.schema.props|
    requires older.values.schema.props[i].Section? && older.values.schema.props[i].schema.repr != PS.Recursive
    requires older.values.schema.props[i].Name() in PS.Names(newer.values.schema)
    requires PropDiff.Diff(older.values, newer.values).Ok?
    ensures WidgetCompat(older, newer) == Ok("replace")
  {
    var a, b := older.values, newer.values;
    var k := a.schema.props[i].Name();
    PropDiff.GetItemAt(a, i);
    assert PropVectors.Wrap(a, a.schema.props[i]).Ok?;
    assert k in PS.Names(a.schema);
    PropDiff.DiffFixedSection(a, b, k);
    assert k in PropDiff.Diff(a, b).value;
  }

  // ---------------------------------------------------------------------------
  // The schema of a widget
  // ---------------------------------------------------------------------------

  /** A leaf of the widget schemas: `prop_meta(no_value=...)`, optionally in a
      subsection. `id` stands for the prop's identity. */
  function Leaf(id: nat, name: string, noValue: Value, subsection: Option<string>): PS.Entry {
    PS.Leaf(PS.Prop(id, name, PS.Untyped, noValue, None, subsection, None))
  }

  /** `Font`: family and size are required, style defaults to "normal". */
  const FontSchema: PS.PropSchema := PS.PropSchema("font", [
    Leaf(30, "family", VIsRequired, None),
    Leaf(31, "size", VIsRequired, None),
    Leaf(32, "style", Fonts.DefaultStyle, None)], PS.Simple, None)

  /** `PackProps`, declared with `repr="simple"`. */
  const PackSchema: PS.PropSchema := PS.PropSchema("Pack", [
    Leaf(20, "ipadx", VInt(0), None),
    Leaf(21, "ipady", VInt(0), None),
    Leaf(22, "fill", VStr("none"), None),
    Leaf(23, "side", VStr("top"), None),
    Leaf(24, "expand", VBool(false), None),
    Leaf(25, "anchor", VStr("n"), None)], PS.Simple, None)

  /** `WidgetProps` (text and the look of the label, in the "configure"
      subsection; `font` as a section diffed whole), the `Pack` section, and the
      entries every node has. */
  const WidgetSchema: PS.PropSchema := PS.PropSchema("Widget", [
    Leaf(1, "key", VNone, None),
    Leaf(2, "text", VStr(" "), Some("configure")),
    PS.Section(FontSchema),
    Leaf(3, "borderwidth", VInt(0), Some("configure")),
    Leaf(4, "border", VInt(0), Some("configure")),
    Leaf(5, "background", VStr("#000001"), Some("configure")),
    Leaf(6, "foreground", VStr("#ffffff"), Some("configure")),
    Leaf(7, "justify", VStr("center"), Some("configure")),
    Leaf(8, "wraplength", VNone, Some("configure")),
    Leaf(9, "relief", VStr("solid"), Some("configure")),
    PS.Section(PackSchema),
    Leaf(10, "__TRACE__", VIsRequired, None),
    Leaf(11, "__CHILDREN__", VTuple([]), None)], PS.Recursive, None)

  /** Neither `font` nor `Pack` is diffed key by key, and a label's text
      defaults to a single space set through `configure`. */
  lemma WidgetSchemaFacts()
    ensures WidgetSchema.props[2] == PS.Section(FontSchema) && FontSchema.repr != PS.Recursive
    ensures WidgetSchema.props[10] == PS.Section(PackSchema) && PackSchema.repr != PS.Recursive
    ensures WidgetSchema.props[1].prop.noValue == VStr(" ") && WidgetSchema.props[1].prop.subsection == Some("configure")
    ensures PS.WellKeyed(WidgetSchema)
  {
    WidgetNamesUnique();
    SectionsWellKeyed();
    assert forall i | 0 <= i < |WidgetSchema.props| && WidgetSchema.props[i].Section? ::
             i == 2 || i == 10;
  }

  lemma WidgetNamesUnique()
    ensures OD.Unique(WidgetSchema.props, PS.EntryKey)
  {
    var ks := ["key", "text", "font", "borderwidth", "border", "background", "foreground", "justify",
               "wraplength", "relief", "Pack", "__TRACE__", "__CHILDREN__"];
    assert forall i | 0 <= i < |ks| :: WidgetSchema.props[i].Name() == ks[i];
    forall i, j | 0 <= i < j < |ks| ensures ks[i] != ks[j] {
      assert |ks[i]| != |ks[j]| || ks[i][0] != ks[j][0];
    }
  }

  lemma SectionsWellKeyed()
    ensures PS.WellKeyed(FontSchema) && PS.WellKeyed(PackSchema)
  {
    FontWellKeyed();
    PackWellKeyed();
  }

  lemma FontWellKeyed()
    ensures PS.WellKeyed(FontSchema)
  {
    var fs := ["family", "size", "style"];
    assert forall i | 0 <= i < 3 :: FontSchema.props[i].Leaf? && FontSchema.props[i].Name() == fs[i];
    assert fs[0] != fs[1] && fs[0] != fs[2] && fs[1] != fs[2] by {
      assert fs[0][1] == 'a' && fs[1][1] == 'i' && fs[2][1] == 't';
    }
  }

  lemma PackWellKeyed()
    ensures PS.WellKeyed(PackSchema)
  {
    var ps := ["ipadx", "ipady", "fill", "side", "expand", "anchor"];
    assert forall i | 0 <= i < 6 :: PackSchema.props[i].Leaf? && PackSchema.props[i].Name() == ps[i];
    forall i, j | 0 <= i < j < 6 ensures ps[i] != ps[j] {
      assert |ps[i]| != |ps[j]| || ps[i][0] != ps[j][0] || ps[i][4] != ps[j][4];
    }
  }

  /** So any two widgets of the same type are replaced, never updated in place:
      `Pack` is in every diff. */
  lemma WidgetsAlwaysReplace(older: RNode, newer: RNode)
    requires older.typeName == newer.typeName
    requires older.values.schema == WidgetSchema && newer.values.schema == WidgetSchema
    requires PropDiff.Diff(older.values, newer.values).Ok?
    ensures WidgetCompat(older, newer) == Ok("replace")
  {
    PackSectionFacts();
    SameTypeReplaces(older, newer, 10);
  }

  /** `Pack` is the widget schema's eleventh entry, a section diffed as a whole. */
  lemma PackSectionFacts()
    ensures PS.WellKeyed(WidgetSchema) && 10 < |WidgetSchema.props|
    ensures WidgetSchema.props[10].Section? && WidgetSchema.props[10].schema.repr != PS.Recursive
    ensures WidgetSchema.props[10].Name() in PS.Names(WidgetSchema)
  {
    WidgetSchemaFacts();
    assert WidgetSchema.props[10].Name() == "Pack";
  }

  // ---------------------------------------------------------------------------
  // Packing
  // ---------------------------------------------------------------------------

  /** The index rule of `_pack_at` and of the wrapper's `place`: with no slaves,
      no position; past the end, after the last slave; at or before the start,
      before the first; otherwise after the slave just before index `at`. */
  function PackChoice(slaves: seq<Handle>, at: int): (p: PackPosition)
    ensures p.Anywhere? <==> slaves == []
    ensures !p.Anywhere? ==> p.anchor in slaves
  {
    if slaves == [] then Anywhere
    else if at >= |slaves| then After(slaves[|slaves| - 1])
    else if at <= 0 then Before(slaves[0])
    else After(slaves[at - 1])
  }

  predicate Distinct(s: seq<Handle>) {
    forall i, j | 0 <= i < j < |s| :: s[i] != s[j]
  }

  /** Where Tk's packer puts a widget that is not packed yet: last, or right
      after or right before the anchor. */
  function PackInto(slaves: seq<Handle>, w: Handle, p: PackPosition): (r: seq<Handle>)
    ensures |r| == |slaves| + 1 && multiset(r) == multiset(slaves) + multiset{w}
  {
    if p.Anywhere? || p.anchor !in slaves then slaves + [w]
    else
      var i := OD.FirstIndex(slaves, p.anchor);
      var k := if p.After? then i + 1 else i;
      assert slaves == slaves[..k] + slaves[k..];
      slaves[..k] + [w] + slaves[k..]
  }

  /** `at` clamped to the positions a list of `n` slaves has. */
  function Clamp(at: int, n: nat): (k: nat)
    ensures k <= n
    ensures 0 <= at <= n ==> k == at
    ensures at < 0 ==> k == 0
    ensures at > n ==> k == n
  {
    if at < 0 then 0 else if at > n then n else at
  }

  lemma FirstIndexDistinct(s: seq<Handle>, i: nat)
    requires Distinct(s) && i < |s|
    ensures OD.FirstIndex(s, s[i]) == i
  {
  }

  /** The index rule makes the new widget the `at`-th slave of its master,
      clamped to the list: first for `at <= 0`, last for `at >= len`, the other
      slaves keeping their order. */
  lemma PackLandsAt(slaves: seq<Handle>, w: Handle, at: int)
    requires Distinct(slaves) && w !in slaves
    ensures var k := Clamp(at, |slaves|);
            PackInto(slaves, w, PackChoice(slaves, at)) == slaves[..k] + [w] + slaves[k..]
    ensures PackInto(slaves, w, PackChoice(slaves, at))[Clamp(at, |slaves|)] == w
  {
    var k := Clamp(at, |slaves|);
    var p := PackChoice(slaves, at);
    if slaves == [] {
      assert slaves[..k] + [w] + slaves[k..] == [w];
    } else {
      var i := if at >= |slaves| then |slaves| - 1 else if at <= 0 then 0 else at - 1;
      FirstIndexDistinct(slaves, i);
      PackIntoAt(slaves, w, p, k);
    }
    SpliceAt(slaves, k, w);
  }

  /** Packing next to an anchor inserts at the anchor's first position, or just
      after it. */
  lemma PackIntoAt(slaves: seq<Handle>, w: Handle, p: PackPosition, k: nat)
    requires !p.Anywhere? && p.anchor in slaves
    requires k == OD.FirstIndex(slaves, p.anchor) + (if p.After? then 1 else 0)
    ensures PackInto(slaves, w, p) == slaves[..k] + [w] + slaves[k..]
  {
  }

  lemma SpliceAt<T>(s: seq<T>, k: nat, w: T)
    requires k <= |s|
    ensures (s[..k] + [w] + s[k..])[k] == w
  {
  }

  /** The options a pack call is given: the "Pack" section, whose "after" or
      "before" key the code overwrites with the position (kept apart here). */
  function PackOptions(m: map<string, Value>, p: PackPosition): (r: map<string, Value>)
    ensures r.Keys <= m.Keys
    ensures forall k | k in m && k != "after" && k != "before" :: k in r && r[k] == m[k]
    ensures p.After? ==> "after" !in r
    ensures p.Before? ==> "before" !in r
  {
    match p
    case Anywhere => m
    case After(_) => m - {"after"}
    case Before(_) => m - {"before"}
  }

  /** `diff.get("Pack", {})`. */
  function PackSection(diff: Diff): Value {
    Get(diff, "Pack", VDict(map[]))
  }

  /** `_pack_at(resource, diff, at)`: nothing without a truthy "Pack" section;
      otherwise one `pack_configure` with its options at the position the index
      rule picks among `slaves`. A section that is not a dict cannot be written
      to or unpacked. */
  function PackAtCalls(h: Handle, diff: Diff, at: int, slaves: seq<Handle>): (r: Result<seq<Call>>)
    ensures !Truthy(PackSection(diff)) ==> r == Ok([])
    ensures r.Ok? <==> !Truthy(PackSection(diff)) || PackSection(diff).VDict?
    ensures r.Ok? && Truthy(PackSection(diff)) ==>
              |r.value| == 1 && r.value[0].PackConfigure? && r.value[0].h == h &&
              r.value[0].position == PackChoice(slaves, at) && r.value[0].inMaster.None? &&
              r.value[0].options == PackOptions(diff["Pack"].m, PackChoice(slaves, at))
  {
    var pack := PackSection(diff);
    if !Truthy(pack) then Ok([])
    else
      var m :- AsMapping(pack, "Pack");
      var p := PackChoice(slaves, at);
      Ok([PackConfigure(h, PackOptions(m, p), p, None)])
  }

  /** `_pack_replace(what, replaced, diff)`: nothing without a truthy "Pack"
      section; otherwise the widget is packed right after the one it replaced. */
  function PackReplaceCalls(what: Handle, replaced: Handle, diff: Diff): (r: Result<seq<Call>>)
    ensures !Truthy(Get(diff, "Pack", VNone)) ==> r == Ok([])
    ensures r.Ok? <==> !Truthy(Get(diff, "Pack", VNone)) || diff["Pack"].VDict?
    ensures r.Ok? && Truthy(Get(diff, "Pack", VNone)) ==>
              r.value == [PackConfigure(what, diff["Pack"].m - {"after"}, After(replaced), None)]
  {
    var pack := Get(diff, "Pack", VNone);
    if !Truthy(pack) then Ok([])
    else
      var m :- AsMapping(pack, "Pack");
      Ok([PackConfigure(what, PackOptions(m, After(replaced)), After(replaced), None)])
  }

  // ---------------------------------------------------------------------------
  // Updating a widget
  // ---------------------------------------------------------------------------

  /** `diff.get("configure", {})`. */
  function ConfigureSection(diff: Diff): Value {
    Get(diff, "configure", VDict(map[]))
  }

  /** The local `configure` of `_update` once the font is added: the converted
      font is stored into the section, which must then be a dict. The font is
      converted before the section is written. */
  function LocalConfigure(diff: Diff): (r: Result<Value>)
    ensures "font" !in diff ==> r == Ok(ConfigureSection(diff))
    ensures "font" in diff ==>
              (r.Ok? <==> Fonts.ToTkFont(diff["font"]).Ok? && ConfigureSection(diff).VDict?)
    ensures "font" in diff && r.Ok? ==>
              r.value == VDict(ConfigureSection(diff).m["font" := Fonts.ToTkFont(diff["font"]).value])
  {
    var conf := ConfigureSection(diff);
    if "font" !in diff then Ok(conf)
    else
      var font :- Fonts.ToTkFont(diff["font"]);
      var m :- AsMapping(conf, "configure");
      Ok(VDict(m["font" := font]))
  }

  /** `_update(resource, props)` and the wrapper's `update`: nothing when the
      local `configure` is empty, else one `configure` call. As written
      (`intended` false) that call is given `diff.get("configure", {})` again,
      which is the local dict only when the diff has a "configure" section; the
      intended call (`intended` true) is given the local dict. */
  function UpdateCallsBy(h: Handle, diff: Diff, intended: bool): (r: Result<seq<Call>>)
    ensures r.Ok? <==> LocalConfigure(diff).Ok? && (Truthy(LocalConfigure(diff).value) ==> LocalConfigure(diff).value.VDict?)
    ensures r.Ok? ==> (r.value == [] <==> !Truthy(LocalConfigure(diff).value))
    ensures r.Ok? && r.value != [] ==>
              |r.value| == 1 && r.value[0].Configure? && r.value[0].h == h &&
              r.value[0].options == if intended || "configure" in diff then LocalConfigure(diff).value.m else map[]
  {
    var conf :- LocalConfigure(diff);
    if !Truthy(conf) then Ok([])
    else
      var m :- AsMapping(conf, "configure");
      Ok([Configure(h, if intended || "configure" in diff then m else map[])])
  }

  /** `_update` as written. */
  function UpdateCalls(h: Handle, diff: Diff): (r: Result<seq<Call>>)
    ensures r == UpdateCallsBy(h, diff, false)
    ensures r.Ok? ==> forall i | 0 <= i < |r.value| :: r.value[i] == Configure(h, r.value[i].options)
  {
    UpdateCallsBy(h, diff, false)
  }

  /** `_update` configuring the widget with the dict it built. */
  function UpdateCallsIntended(h: Handle, diff: Diff): (r: Result<seq<Call>>)
    ensures r == UpdateCallsBy(h, diff, true)
    ensures r.Ok? ==> forall i | 0 <= i < |r.value| :: r.value[i] == Configure(h, r.value[i].options)
    ensures "configure" in diff ==> r == UpdateCalls(h, diff)
  {
    UpdateCallsBy(h, diff, true)
  }

  /** As written, a diff that changes only the font makes a `configure()` call
      with no options: the converted font is lost. */
  lemma FontLostWithoutConfigure(h: Handle, family: Value, size: Value)
    ensures var diff := map["font" := VDict(map["family" := family, "size" := size])];
            UpdateCalls(h, diff) == Ok([Configure(h, map[])])
  {
    var diff := map["font" := VDict(map["family" := family, "size" := size])];
    assert "configure" !in diff;
    assert LocalConfigure(diff).value == VDict(map["font" := VTuple([family, size, Fonts.DefaultStyle])]);
  }

  /** Corrected, the font reaches `configure` whenever the diff has one, next to
      exactly the options of the diff's "configure" section; and a diff with
      neither a font nor a truthy "configure" section makes no call. */
  lemma IntendedUpdateAppliesFont(h: Handle, diff: Diff)
    requires UpdateCallsIntended(h, diff).Ok?
    ensures var cs := UpdateCallsIntended(h, diff).value;
            ("font" in diff ==> |cs| == 1 && "font" in cs[0].options &&
                                cs[0].options["font"] == Fonts.ToTkFont(diff["font"]).value) &&
            (cs == [] <==> "font" !in diff && !Truthy(ConfigureSection(diff))) &&
            (cs != [] ==> forall k | k != "font" :: k in cs[0].options <==> k in ConfigureSection(diff).m)
  {
    var cs := UpdateCallsIntended(h, diff).value;
    if "font" in diff {
      assert Truthy(LocalConfigure(diff).value);
    }
  }

  // ---------------------------------------------------------------------------
  // Running actions
  // ---------------------------------------------------------------------------

  /** `_do_create_action`. `Create` makes a label inside the container's widget
      (KeyError when the container was never rendered), applies ALL the new
      node's props, and registers it under the new node's uid. `Update` applies a
      non-empty diff to the existing widget and migrates the entry in place, so
      the registry slot holding it now shows the next node; no uid is added. Anything else is a failed
      assertion. */
  function DoCreate(st: Host, c: Creation): (r: Result<(Host, Entry)>)
    ensures c.Recreate? ==> r.Err?
    ensures c.Create? && c.container.uid !in st.registry ==> r == Err(KeyError(c.container.uid))
    ensures c.Create? ==> (r.Ok? <==> c.container.uid in st.registry && UpdateCalls(st.nextHandle, c.diff).Ok?)
    ensures r.Ok? && c.Create? ==>
              c.container.uid in st.registry &&
              r.value.1 == TkReconcileState.Rendered(st.nextHandle, c.next) &&
              r.value.0.registry == st.registry[c.next.uid := r.value.1] && r.value.0.nextHandle == st.nextHandle + 1 &&
              r.value.0.calls == st.calls + [NewLabel(st.nextHandle, st.registry[c.container.uid].resource)] +
                                 UpdateCalls(st.nextHandle, c.diff).value
    ensures c.Update? ==> (r.Ok? <==> c.diff == map[] || UpdateCalls(c.existing.resource, c.diff).Ok?)
    ensures r.Ok? && c.Update? ==>
              r.value.1 == TkReconcileState.Migrate(c.existing, c.next) &&
              r.value.0.registry == TkReconcileState.MigrateIn(st.registry, c.existing, c.next) &&
              r.value.0.nextHandle == st.nextHandle &&
              r.value.0.calls == st.calls + (if c.diff == map[] then [] else UpdateCalls(c.existing.resource, c.diff).value)
    ensures r.Ok? ==> r.value.1.resource == IncomingHandle(st, c)
  {
    match c
    case Create(next, container, d) =>
      if container.uid !in st.registry then Err(KeyError(container.uid))
      else
        var h := st.nextHandle;
        var cs :- UpdateCalls(h, d);
        var made := TkReconcileState.Rendered(h, next);
        Ok((Host(st.registry[next.uid := made], h + 1, st.calls + [NewLabel(h, st.registry[container.uid].resource)] + cs), made))
    case Update(existing, next, d) =>
      var migrated := st.(registry := TkReconcileState.MigrateIn(st.registry, existing, next));
      if d == map[] then Ok((migrated, TkReconcileState.Migrate(existing, next)))
      else
        var cs :- UpdateCalls(existing.resource, d);
        Ok((Emit(migrated, cs), TkReconcileState.Migrate(existing, next)))
    case Recreate(_, _, _, _) => Err(AssertionError("Unknown action"))
  }

  /** The inner action a recreation runs: a plain `Create` of the next node. */
  function Fresh(w: Creation): (r: Creation)
    ensures !r.Recreate? && r.next == w.next && r.diff == w.diff
    ensures w.Recreate? ==> r.Create? && r.container == w.container
  {
    if w.Recreate? then Create(w.next, w.container, w.diff) else w
  }

  /** The `Place` cases: a recreation creates the new widget, destroys the old
      one and packs the new one at `at`; any other inner action is run and its
      widget packed at `at`. */
  function PlaceStep(st: Host, at: int, w: Creation, slaves: seq<Handle>): (r: Result<Host>)
    ensures r.Ok? <==> DoCreate(st, Fresh(w)).Ok? && PackAtCalls(IncomingHandle(st, w), w.diff, at, slaves).Ok?
    ensures r.Ok? ==>
              var m := DoCreate(st, Fresh(w)).value;
              r.value.registry == m.0.registry && r.value.nextHandle == m.0.nextHandle &&
              r.value.calls == m.0.calls + (if w.Recreate? then [Destroy(w.previous.resource)] else []) +
                               PackAtCalls(IncomingHandle(st, w), w.diff, at, slaves).value
  {
    var m :- DoCreate(st, Fresh(w));
    var cs :- PackAtCalls(m.1.resource, w.diff, at, slaves);
    Ok(Emit(m.0, (if w.Recreate? then [Destroy(w.previous.resource)] else []) + cs))
  }

  /** The `Replace` cases: a recreation creates the new widget, packs it after
      the replaced one and destroys the old one; any other inner action is run
      and its widget packed after the replaced one, with the inner action's
      diff. */
  function ReplaceStep(st: Host, existing: Entry, w: Creation): (r: Result<Host>)
    ensures r.Ok? <==> DoCreate(st, Fresh(w)).Ok? && PackReplaceCalls(IncomingHandle(st, w), existing.resource, w.diff).Ok?
    ensures r.Ok? ==>
              var m := DoCreate(st, Fresh(w)).value;
              r.value.registry == m.0.registry && r.value.nextHandle == m.0.nextHandle &&
              r.value.calls == m.0.calls + PackReplaceCalls(IncomingHandle(st, w), existing.resource, w.diff).value +
                               (if w.Recreate? then [Destroy(w.previous.resource)] else [])
  {
    var m :- DoCreate(st, Fresh(w));
    var cs :- PackReplaceCalls(m.1.resource, existing.resource, w.diff);
    Ok(Emit(m.0, cs + (if w.Recreate? then [Destroy(w.previous.resource)] else [])))
  }

  /** `_run_action_main_thread`. A falsy action does nothing; a bare update
      updates the widget and migrates its entry in place; an unplace unpacks. */
  function RunAction(st: Host, a: Action, slaves: seq<Handle>): (r: Result<Host>)
    ensures !ActionTruthy(a) ==> r == Ok(st)
    ensures r.Ok? ==> st.calls <= r.value.calls && st.registry.Keys <= r.value.registry.Keys
    ensures a.Unplace? ==> r == Ok(Emit(st, [PackForget(a.existing.resource)]))
    ensures a.Updated? && ActionTruthy(a) ==>
              (r.Ok? <==> UpdateCalls(a.existing.resource, a.diff).Ok?) &&
              (r.Ok? ==> r.value == Emit(st.(registry := TkReconcileState.MigrateIn(st.registry, a.existing, a.next)),
                                         UpdateCalls(a.existing.resource, a.diff).value))
    ensures a.Place? ==> r == PlaceStep(st, a.at, a.what, slaves)
    ensures a.Replace? ==> r == ReplaceStep(st, a.existing, a.withWhat)
  {
    if !ActionTruthy(a) then Ok(st)
    else
      match a
      case Updated(e, next, d) =>
        var m :- DoCreate(st, Update(e, next, d));
        Ok(m.0)
      case Unplace(e) =>
        Ok(Emit(st, [PackForget(e.resource)]))
      case Place(_, at, w) => PlaceStep(st, at, w, slaves)
      case Replace(_, existing, w) => ReplaceStep(st, existing, w)
  }

  /** A recreating `Place` creates the new widget and applies its props, then
      destroys the old widget, then packs the new one: every call before the
      destroy and every one after it is about the new widget. */
  lemma PlaceRecreateOrder(st: Host, container: RNode, at: int, w: Creation, slaves: seq<Handle>)
    requires w.Recreate? && RunAction(st, Place(container, at, w), slaves).Ok?
    ensures var cs := RunAction(st, Place(container, at, w), slaves).value.calls[|st.calls|..];
            var j := 1 + |UpdateCalls(st.nextHandle, w.diff).value|;
            j < |cs| && cs[j] == Destroy(w.previous.resource) &&
            cs[0].NewLabel? && cs[0].h == st.nextHandle &&
            (forall i | 0 < i < j :: cs[i].Configure? && cs[i].h == st.nextHandle) &&
            (forall i | j < i < |cs| :: cs[i].PackConfigure? && cs[i].h == st.nextHandle)
  {
    var n := st.nextHandle;
    var us := UpdateCalls(n, w.diff).value;
    var ps := PackAtCalls(n, w.diff, at, slaves).value;
    var tail := [NewLabel(n, st.registry[w.container.uid].resource)] + us + [Destroy(w.previous.resource)] + ps;
    assert RunAction(st, Place(container, at, w), slaves) == PlaceStep(st, at, w, slaves);
    PlaceRecreateShape(st, at, w, slaves);
    assert (st.calls + tail)[|st.calls|..] == tail;
    assert forall i | 0 <= i < |ps| :: ps[i].PackConfigure? && ps[i].h == n;
    CreateDestroyPack(tail, n, st.registry[w.container.uid].resource, us, w.previous.resource, ps);
  }

  lemma PlaceRecreateShape(st: Host, at: int, w: Creation, slaves: seq<Handle>)
    requires w.Recreate? && PlaceStep(st, at, w, slaves).Ok?
    ensures w.container.uid in st.registry && UpdateCalls(st.nextHandle, w.diff).Ok?
    ensures PackAtCalls(st.nextHandle, w.diff, at, slaves).Ok?
    ensures PlaceStep(st, at, w, slaves).value.calls ==
              st.calls + ([NewLabel(st.nextHandle, st.registry[w.container.uid].resource)] + UpdateCalls(st.nextHandle, w.diff).value +
              [Destroy(w.previous.resource)] + PackAtCalls(st.nextHandle, w.diff, at, slaves).value)
  {
    var c := Fresh(w);
    assert c.Create? && DoCreate(st, c).Ok?;
    assert IncomingHandle(st, w) == st.nextHandle;
  }

  /** The order of a recreating `Place`, on any calls of its shape. */
  lemma CreateDestroyPack(cs: seq<Call>, n: Handle, parent: Handle, us: seq<Call>, gone: Handle, ps: seq<Call>)
    requires cs == [NewLabel(n, parent)] + us + [Destroy(gone)] + ps
    requires forall i | 0 <= i < |us| :: us[i].Configure? && us[i].h == n
    requires forall i | 0 <= i < |ps| :: ps[i].PackConfigure? && ps[i].h == n
    ensures var j := 1 + |us|;
            j < |cs| && cs[j] == Destroy(gone) && cs[0] == NewLabel(n, parent) &&
            (forall i | 0 < i < j :: cs[i].Configure? && cs[i].h == n) &&
            (forall i | j < i < |cs| :: cs[i].PackConfigure? && cs[i].h == n)
  {
    var j := 1 + |us|;
    assert forall i | 0 < i < j :: cs[i] == us[i - 1];
    assert forall i | j < i < |cs| :: cs[i] == ps[i - j - 1];
  }

  /** A recreating `Replace` creates the new widget, packs it after the replaced
      one, and destroys the old widget last. */
  lemma ReplaceRecreateOrder(st: Host, container: RNode, existing: Entry, w: Creation)
    requires w.Recreate? && RunAction(st, Replace(container, existing, w), []).Ok?
    requires Truthy(Get(w.diff, "Pack", VNone))
    ensures var cs := RunAction(st, Replace(container, existing, w), []).value.calls[|st.calls|..];
            |cs| >= 3 && cs[0].NewLabel? && cs[0].h == st.nextHandle &&
            cs[|cs| - 2].PackConfigure? && cs[|cs| - 2].h == st.nextHandle && cs[|cs| - 2].position == After(existing.resource) &&
            cs[|cs| - 1] == Destroy(w.previous.resource)
  {
    var n := st.nextHandle;
    var us := UpdateCalls(n, w.diff).value;
    var ps := PackReplaceCalls(n, existing.resource, w.diff).value;
    var cs := RunAction(st, Replace(container, existing, w), []).value.calls[|st.calls|..];
    assert cs == [NewLabel(n, st.registry[w.container.uid].resource)] + us + ps + [Destroy(w.previous.resource)];
  }

  /** A `Replace` never unpacks anything: the replaced widget stays packed,
      and the only widget destroyed is the one a recreation supersedes. */
  lemma ReplaceLeavesReplacedPacked(st: Host, container: RNode, existing: Entry, w: Creation, slaves: seq<Handle>)
    requires RunAction(st, Replace(container, existing, w), slaves).Ok?
    ensures var cs := RunAction(st, Replace(container, existing, w), slaves).value.calls[|st.calls|..];
            forall i | 0 <= i < |cs| :: !cs[i].PackForget? && (cs[i].Destroy? ==> w.Recreate? && cs[i].h == w.previous.resource)
  {
    assert RunAction(st, Replace(container, existing, w), slaves) == ReplaceStep(st, existing, w);
    var made, ps, tail := ReplaceShape(st, existing, w);
    var cs := made + ps + tail;
    assert (st.calls + cs)[|st.calls|..] == cs;
    forall i | 0 <= i < |cs| ensures !cs[i].PackForget? && (cs[i].Destroy? ==> w.Recreate? && cs[i].h == w.previous.resource) {
      if i < |made| {
        assert cs[i] == made[i];
      } else if i < |made| + |ps| {
        assert cs[i] == ps[i - |made|];
      } else {
        assert cs[i] == tail[i - |made| - |ps|];
      }
    }
  }

  /** The three parts of what a successful `Replace` appends: what the inner
      action makes, the packing after the replaced widget, and the destroy of a
      recreation. */
  lemma ReplaceShape(st: Host, existing: Entry, w: Creation) returns (made: seq<Call>, ps: seq<Call>, tail: seq<Call>)
    requires ReplaceStep(st, existing, w).Ok?
    ensures ReplaceStep(st, existing, w).value.calls == st.calls + (made + ps + tail)
    ensures forall i | 0 <= i < |made| :: made[i].NewLabel? || made[i].Configure?
    ensures forall i | 0 <= i < |ps| :: ps[i].PackConfigure?
    ensures tail == if w.Recreate? then [Destroy(w.previous.resource)] else []
  {
    made := CreatedCalls(st, Fresh(w));
    ps := PackReplaceCalls(IncomingHandle(st, w), existing.resource, w.diff).value;
    tail := if w.Recreate? then [Destroy(w.previous.resource)] else [];
    assert ReplaceStep(st, existing, w).value.calls == st.calls + made + ps + tail;
    Regroup(st.calls, made, ps, tail);
  }

  lemma Regroup<T>(a: seq<T>, b: seq<T>, c: seq<T>, d: seq<T>)
    ensures a + b + c + d == a + (b + c + d)
  {
  }

  /** The calls the inner action of a `Place` or `Replace` makes: it creates a
      label or configures a widget, and nothing else. */
  function CreatedCalls(st: Host, c: Creation): (made: seq<Call>)
    requires !c.Recreate? && DoCreate(st, c).Ok?
    ensures DoCreate(st, c).value.0.calls == st.calls + made
    ensures forall i | 0 <= i < |made| :: made[i].NewLabel? || made[i].Configure?
  {
    if c.Update? then
      if c.diff == map[] then [] else UpdateCalls(c.existing.resource, c.diff).value
    else
      [NewLabel(st.nextHandle, st.registry[c.container.uid].resource)] + UpdateCalls(st.nextHandle, c.diff).value
  }

  // ---------------------------------------------------------------------------
  // The wrapper
  // ---------------------------------------------------------------------------

  /** `WidgetWrapperBase.place(container, a, at)`: a container that is not a Tk
      widget (`None` here) is a TypeError; otherwise as `_pack_at` with the
      container's slaves, packing into the container. An "in_" key in the
      section clashes with the explicit keyword. */
  function WrapperPlace(h: Handle, container: Option<Handle>, diff: Diff, at: int, slaves: seq<Handle>): (r: Result<seq<Call>>)
    ensures container.None? ==> r.Err? && r.error.TypeError?
    ensures container.Some? && !Truthy(PackSection(diff)) ==> r == Ok([])
    ensures r.Ok? && r.value != [] ==> |r.value| == 1 && r.value[0].PackConfigure? && r.value[0].inMaster == container
  {
    if container.None? then Err(TypeError("Container is not a TkWidget"))
    else
      var pack := PackSection(diff);
      if !Truthy(pack) then Ok([])
      else
        var m :- AsMapping(pack, "Pack");
        var p := PackChoice(slaves, at);
        if "in_" in PackOptions(m, p) then Err(TypeError("multiple values for keyword argument 'in_'"))
        else Ok([PackConfigure(h, PackOptions(m, p), p, container)])
  }

  /** The wrapper places exactly as the reconciler packs, into the container. */
  lemma WrapperPlaceAgrees(h: Handle, container: Handle, diff: Diff, at: int, slaves: seq<Handle>)
    requires !(Truthy(PackSection(diff)) && PackSection(diff).VDict? && "in_" in PackSection(diff).m)
    ensures WrapperPlace(h, Some(container), diff, at, slaves).Ok? <==> PackAtCalls(h, diff, at, slaves).Ok?
    ensures WrapperPlace(h, Some(container), diff, at, slaves).Ok? ==>
              var (cs, ds) := (WrapperPlace(h, Some(container), diff, at, slaves).value, PackAtCalls(h, diff, at, slaves).value);
              |cs| == |ds| && forall i | 0 <= i < |cs| :: cs[i] == ds[i].(inMaster := Some(container))
  {
    if Truthy(PackSection(diff)) && PackSection(diff).VDict? {
      var p := PackChoice(slaves, at);
      assert "in_" !in PackOptions(PackSection(diff).m, p);
    }
  }

  /** `WidgetWrapperBase.replace(other, a)`: packs the widget after itself with
      the "Pack" options (a non-dict cannot be unpacked; an "after" key clashes
      with the explicit one), then unpacks it. */
  function WrapperReplace(h: Handle, other: Handle, diff: Diff): (r: Result<seq<Call>>)
    ensures r.Ok? <==> PackSection(diff).VDict? && "after" !in PackSection(diff).m
    ensures r.Ok? ==> r.value == [PackConfigure(h, PackSection(diff).m, After(h), None), PackForget(h)]
  {
    var m :- AsMapping(PackSection(diff), "Pack");
    if "after" in m then Err(TypeError("multiple values for keyword argument 'after'"))
    else Ok([PackConfigure(h, m, After(h), None), PackForget(h)])
  }

  /** `other` plays no part: the result is the same whatever it is, no call
      names it, and the widget ends up unpacked. */
  lemma WrapperReplaceIgnoresOther(h: Handle, other: Handle, other': Handle, diff: Diff)
    ensures WrapperReplace(h, other, diff) == WrapperReplace(h, other', diff)
    ensures WrapperReplace(h, other, diff).Ok? ==>
              var cs := WrapperReplace(h, other, diff).value;
              cs[|cs| - 1] == PackForget(h) && forall i | 0 <= i < |cs| :: other != h ==> CallHandles(cs[i]) != other
  {
  }

  /** `migrate(node)` of both wrappers: a wrapper of the same class around the
      same Tk object, holding the new node. */
  function WrapperMigrate(r: Resource, node: RNode): (r': Resource)
    ensures r'.cls == r.cls && r'.handle == r.handle && r'.node == node
  {
    Resource(r.cls, node, r.handle)
  }

  /** A migrated wrapper has the new node's uid, and is equal (`__eq__` with
      `is_same_resource` comparing the Tk widgets) to any wrapper of its class
      around the same widget whose node has the new node's class. In particular it
      equals the wrapper it was migrated from whenever the node keeps its class,
      though the uids may differ. */
  lemma MigrateIsSameResource(r: Resource, node: RNode, q: Resource)
    ensures ResourceUid(WrapperMigrate(r, node)) == node.uid
    ensures ResourceEq(WrapperMigrate(r, node), q, (a: Resource, b: Resource) => a.handle == b.handle) <==>
              q.cls == r.cls && q.node.typeName == node.typeName && q.handle == r.handle
    ensures node.typeName == r.node.typeName ==>
              ResourceEq(WrapperMigrate(r, node), r, (a: Resource, b: Resource) => a.handle == b.handle)
  {
  }
}
