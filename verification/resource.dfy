/** Resources (model/resource.py): what a reconciler keeps for a rendered node, and
    the node as the reconcilers see it. */
module Resources {
  import opened PropVectors

  /** A ShadowNode in the reconcile layer: its class name, `uid` (its trace in the
      "id" display, `Traces.Uid`), its prop values and its kids (`__CHILDREN__`). */
  datatype RNode = RNode(typeName: string, uid: string, values: PropVector, kids: seq<RNode>)

  /** A `Resource`: its concrete class, its node, and `handle`, standing for the
      underlying object (`resource`) that `is_same_resource` and the Tk calls see. */
  datatype Resource = Resource(cls: string, node: RNode, handle: nat)

  /** `Compat` is declared as the three strings below; the oracle that produces one
      (`get_compatibility`, per resource class) is a parameter wherever it is used,
      and may return anything else, which the reconcilers reject. */
  type Compat = string

  const CompatValues: set<Compat> := {"update", "replace", "recreate"}

  /** `get_compatibility(next)` of a resource, abstract here. */
  type CompatOracle = (Resource, RNode) -> Compat

  /** `Resource.uid`: its node's uid, whatever the class and the object. */
  function ResourceUid(r: Resource): (u: string)
    ensures u == r.node.uid
  {
    r.node.uid
  }

  /** The uids of a sequence of nodes. */
  function Uids(ns: seq<RNode>): (us: seq<string>)
    ensures |us| == |ns|
    ensures forall i | 0 <= i < |ns| :: us[i] == ns[i].uid
  {
    if ns == [] then [] else [ns[0].uid] + Uids(ns[1..])
  }

  /** `self.node == value.node`: `ShadowNode` is a dataclass that declares no
      field, and the node classes inherit its generated `__eq__` without being
      dataclasses themselves. That `__eq__` compares the empty field tuples of two
      instances of the same class, so two nodes are equal exactly when they are of
      the same class, whatever their uids, props and kids. */
  predicate NodeEq(x: RNode, y: RNode) {
    x.typeName == y.typeName
  }

  /** `Resource.__eq__`, with `is_same_resource` a parameter. `isinstance(value,
      self.__class__)` also accepts an instance of a subclass; classes here are
      names without a hierarchy, so the test is read as equality of classes. Equal
      resources are the same resource by `is_same_resource`, are of one class, and
      hold nodes of one class. */
  predicate ResourceEq(a: Resource, b: Resource, sameResource: (Resource, Resource) -> bool): (eq: bool)
    ensures eq ==> sameResource(a, b)
    ensures eq ==> a.cls == b.cls && a.node.typeName == b.node.typeName
  {
    a.cls == b.cls && NodeEq(a.node, b.node) && sameResource(a, b)
  }

  /** Equality looks at the node's class only: resources of one class around
      nodes of one class are equal whenever `is_same_resource` says so, whatever
      the nodes' uids; nodes of different classes never make equal resources; and
      a resource equals itself exactly when `is_same_resource` accepts it. The
      relation is symmetric wherever `is_same_resource` is. */
  lemma ResourceEqIgnoresUid(a: Resource, b: Resource, sameResource: (Resource, Resource) -> bool)
    ensures a.cls == b.cls && a.node.typeName == b.node.typeName && sameResource(a, b) ==> ResourceEq(a, b, sameResource)
    ensures a.cls != b.cls || a.node.typeName != b.node.typeName ==> !ResourceEq(a, b, sameResource)
    ensures ResourceEq(a, a, sameResource) <==> sameResource(a, a)
    ensures ResourceEq(a, b, sameResource) ==> (ResourceEq(b, a, sameResource) <==> sameResource(b, a))
  {
  }

  /** Two resources can be equal while their uids differ: two wrappers of one
      class around one object, holding nodes of one class with different uids. */
  lemma EqualResourcesMayDifferInUid(v: PropVector)
    ensures var a := Resource("LabelWrapper", RNode("Label", "a", v, []), 0);
            var b := Resource("LabelWrapper", RNode("Label", "b", v, []), 0);
            ResourceEq(a, b, (x: Resource, y: Resource) => x.handle == y.handle) && ResourceUid(a) != ResourceUid(b)
  {
  }
}
