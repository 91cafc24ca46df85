/** The reconcile state of react_tk/rendering/actions/reconcile_state.py: the
    resources rendered so far, keyed by their node's uid, and the uids placed by
    the last pass. Entries are `RenderedNode`s, a resource of any type `R` with the
    node of type `N` it currently shows; a node's `__uid__` is the parameter `uid`.

    The Python states are mutable objects and `new_transient` hands the SAME dict
    and set to the transient state; here states are values, and "sharing" is
    equality of the parts at the moment the transient state is made. */
module TkReconcileState {
  import opened Errors

  /** `RenderedNode`. */
  datatype Rendered<R, N> = Rendered(resource: R, node: N)

  /** `RenderedNode.migrate(node)`: the same resource, now showing `node`. */
  function Migrate<R, N>(x: Rendered<R, N>, node: N): (r: Rendered<R, N>)
    ensures r.resource == x.resource && r.node == node
  {
    x.(node := node)
  }

  /** Migrating twice keeps only the last node; migrating to the node already
      shown changes nothing. */
  lemma MigrateLastWins<R, N>(x: Rendered<R, N>, a: N, b: N)
    ensures Migrate(Migrate(x, a), b) == Migrate(x, b)
    ensures Migrate(x, x.node) == x
  {
  }

  /** `migrate` assigns the node of the `RenderedNode` object in place, so every
      slot of a registry that holds that object shows the new node afterwards.
      Entries are values here: the slots holding it are those whose entry equals
      it. No slot is added or dropped, and every slot keeps its resource. */
  function MigrateIn<R(==), N(==)>(existing: map<string, Rendered<R, N>>, x: Rendered<R, N>, node: N): (r: map<string, Rendered<R, N>>)
    ensures r.Keys == existing.Keys
    ensures forall u | u in existing :: r[u].resource == existing[u].resource
    ensures forall u | u in existing && existing[u] == x :: r[u].node == node
    ensures forall u | u in existing && existing[u] != x :: r[u] == existing[u]
  {
    map u | u in existing :: if existing[u] == x then Migrate(x, node) else existing[u]
  }

  /** An entry registered under its node's uid is found there migrated, so the
      next lookup by that uid sees the new node; an entry that is not registered
      leaves the registry as it was. */
  lemma MigrateInThenGet<R, N>(s: Persistent<R, N>, x: Rendered<R, N>, node: N, uid: N -> string)
    ensures uid(x.node) in s.existing && s.existing[uid(x.node)] == x ==>
              Get(Persistent(MigrateIn(s.existing, x, node), s.placedLast), x.node, uid) == Some(Migrate(x, node))
    ensures (forall u | u in s.existing :: s.existing[u] != x) ==> MigrateIn(s.existing, x, node) == s.existing
  {
    var m := MigrateIn(s.existing, x, node);
    if forall u | u in s.existing :: s.existing[u] != x {
      assert forall u | u in m :: m[u] == s.existing[u];
    }
  }

  /** `PersistentReconcileState`. */
  datatype Persistent<R, N> = Persistent(existing: map<string, Rendered<R, N>>, placedLast: set<string>)

  /** `TransientReconcileState`: a persistent state plus `being_placed`. */
  datatype Transient<R, N> = Transient(base: Persistent<R, N>, beingPlaced: set<string>)

  /** `overwrite(rendered)`: register under the node's uid, replacing any earlier
      entry, and count the uid as placed last. */
  function Overwrite<R, N>(s: Persistent<R, N>, x: Rendered<R, N>, uid: N -> string): (r: Persistent<R, N>)
    ensures uid(x.node) in r.existing && r.existing[uid(x.node)] == x
    ensures forall u | u != uid(x.node) :: (u in r.existing <==> u in s.existing)
    ensures forall u | u != uid(x.node) && u in s.existing :: r.existing[u] == s.existing[u]
    ensures r.placedLast == s.placedLast + {uid(x.node)}
  {
    Persistent(s.existing[uid(x.node) := x], s.placedLast + {uid(x.node)})
  }

  /** `was_last_placed(node)`. */
  predicate WasLastPlaced<R, N>(s: Persistent<R, N>, node: N, uid: N -> string) {
    uid(node) in s.placedLast
  }

  /** `will_be_placed(node)`. */
  predicate WillBePlaced<R, N>(t: Transient<R, N>, node: N, uid: N -> string) {
    uid(node) in t.beingPlaced
  }

  /** `new_transient()`: the same entries and `placed_last`, nothing being placed. */
  function NewTransient<R, N>(s: Persistent<R, N>): (t: Transient<R, N>)
    ensures t.base.existing == s.existing && t.base.placedLast == s.placedLast
    ensures forall u :: u !in t.beingPlaced
  {
    Transient(s, {})
  }

  /** `from_transient(t)`: adopt the transient's entries; what it placed becomes
      what was placed last. */
  function FromTransient<R, N>(s: Persistent<R, N>, t: Transient<R, N>): (r: Persistent<R, N>)
    ensures r.existing == t.base.existing
    ensures forall u :: u in r.placedLast <==> u in t.beingPlaced
  {
    Persistent(t.base.existing, t.beingPlaced)
  }

  /** `get(node)`: the entry, or `None` for an unknown uid. */
  function Get<R, N>(s: Persistent<R, N>, node: N, uid: N -> string): (r: Option<Rendered<R, N>>)
    ensures r.None? <==> uid(node) !in s.existing
    ensures r.Some? ==> r.value == s.existing[uid(node)]
  {
    if uid(node) in s.existing then Some(s.existing[uid(node)]) else None
  }

  /** `state[node]`: the entry, or a KeyError for an unknown uid. */
  function GetItem<R, N>(s: Persistent<R, N>, node: N, uid: N -> string): (r: Result<Rendered<R, N>>)
    ensures r.Err? <==> uid(node) !in s.existing
    ensures r.Err? ==> r.error == KeyError(uid(node))
    ensures r.Ok? ==> r.value == s.existing[uid(node)]
  {
    if uid(node) in s.existing then Ok(s.existing[uid(node)]) else Err(KeyError(uid(node)))
  }

  /** `get` and `[]` agree wherever `[]` does not raise. */
  lemma GetAgreesWithGetItem<R, N>(s: Persistent<R, N>, node: N, uid: N -> string)
    ensures GetItem(s, node, uid).Ok? <==> Get(s, node, uid).Some?
    ensures GetItem(s, node, uid).Ok? ==> Get(s, node, uid) == Some(GetItem(s, node, uid).value)
  {
  }

  /** What was overwritten is found again by any node with the same uid, and it was
      placed last; other nodes see what they saw before. */
  lemma OverwriteThenGet<R, N>(s: Persistent<R, N>, x: Rendered<R, N>, node: N, uid: N -> string)
    ensures uid(node) == uid(x.node) ==>
              Get(Overwrite(s, x, uid), node, uid) == Some(x) && WasLastPlaced(Overwrite(s, x, uid), node, uid)
    ensures uid(node) != uid(x.node) ==> Get(Overwrite(s, x, uid), node, uid) == Get(s, node, uid)
  {
  }

  /** A pass that places nothing leaves nothing placed last, and keeps the entries. */
  lemma EmptyPassForgetsPlacement<R, N>(s: Persistent<R, N>)
    ensures FromTransient(s, NewTransient(s)) == Persistent(s.existing, {})
  {
  }

  /** Overwriting through the transient state (the inherited `overwrite`) and
      adopting it registers the entry but does not count it as placed: only
      `being_placed` survives `from_transient`, and nothing shown fills it. */
  lemma TransientOverwriteNotPlaced<R, N>(s: Persistent<R, N>, x: Rendered<R, N>, uid: N -> string)
    ensures var t := NewTransient(s);
            var t' := t.(base := Overwrite(t.base, x, uid));
            var r := FromTransient(s, t');
            Get(r, x.node, uid) == Some(x) && !WasLastPlaced(r, x.node, uid)
  {
  }
}

/** The reconcile state of reactk/rendering/actions/reconcile_state.py: entries
    keyed by uid, and a transient state with a `placed` set. */
module ReconcileState {
  import opened Errors
  import opened TkReconcileState

  datatype State<R, N> = State(existing: map<string, Rendered<R, N>>)

  datatype TransientState<R, N> = TransientState(existing: map<string, Rendered<R, N>>, placed: set<string>)

  /** `overwrite(rendered)`: register under the node's uid, replacing any earlier
      entry for it and nothing else. */
  function Overwrite<R, N>(s: State<R, N>, x: Rendered<R, N>, uid: N -> string): (r: State<R, N>)
    ensures r.existing.Keys == s.existing.Keys + {uid(x.node)}
    ensures r.existing[uid(x.node)] == x
    ensures forall u | u in s.existing && u != uid(x.node) :: r.existing[u] == s.existing[u]
  {
    State(s.existing[uid(x.node) := x])
  }

  /** `new_transient()`: the same entries, nothing placed yet. */
  function NewTransient<R, N>(s: State<R, N>): (t: TransientState<R, N>)
    ensures t.existing == s.existing
    ensures forall u :: u !in t.placed
  {
    TransientState(s.existing, {})
  }

  /** Overwriting twice under one uid keeps the second entry; overwriting under
      two different uids commutes. */
  lemma OverwriteLastWins<R, N>(s: State<R, N>, x: Rendered<R, N>, y: Rendered<R, N>, uid: N -> string)
    ensures uid(x.node) == uid(y.node) ==> Overwrite(Overwrite(s, x, uid), y, uid) == Overwrite(s, y, uid)
    ensures uid(x.node) != uid(y.node) ==>
              Overwrite(Overwrite(s, x, uid), y, uid) == Overwrite(Overwrite(s, y, uid), x, uid)
  {
  }
}
