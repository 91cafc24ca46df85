/** What components produce: render elements, as the renderers and the render sink
    see them. Only the fields those modules read are kept. */
module Elements {
  import opened Errors
  import opened Traces
  import opened PropSchemas
  import opened PropVectors

  /** A node's prop state: its class's `__PROPS__` and its own `__PROP_VALUES__`. */
  datatype Props = Props(schema: PropSchema, values: PropVector)

  /** A render element:
      - `Node`: a ShadowNode, with its class name, `key`, construct trace (an opaque
        token, `None` when missing), kids (`KIDS` / `__CHILDREN__`), `__TRACE__` and
        the prop state that `__merge__` works on. The kids and the trace are kept as
        fields of their own, since the renderers read and set them as such;
      - `Comp`: a Component, whose `render` yields (or pushes) the outputs in `body`;
      - `Other`: any other object, with its class name and, when it has a `key`
        attribute at all (`hasKey`), that attribute's value. */
  datatype Elem =
    | Node(typeName: string, key: Option<string>, construct: Option<nat>, kids: seq<Elem>, trace: Option<Trace>, props: Props)
    | Comp(typeName: string, key: Option<string>, construct: Option<nat>, body: seq<Yield>)
    | Other(typeName: string, hasKey: bool, key: Option<string>)

  /** One call of `yield_` (or `push`), made from source line `line` of the render,
      with a single element or with an iterable of them. */
  datatype Yield = One(line: int, elem: Elem) | Many(line: int, elems: seq<Elem>)

  /** `list(node) if isinstance(node, Iterable) else [node]`: one level of flattening. */
  function Listed(y: Yield): seq<Elem> {
    match y
    case One(_, e) => [e]
    case Many(_, es) => es
  }

  /** Everything a render hands over, in order, one level flattened. */
  function Flat(ys: seq<Yield>): (es: seq<Elem>)
    ensures |es| == 0 <==> forall j | 0 <= j < |ys| :: Listed(ys[j]) == []
  {
    if ys == [] then []
    else
      var es := Listed(ys[0]) + Flat(ys[1..]);
      assert forall j | 1 <= j < |ys| :: ys[j] == ys[1..][j - 1];
      es
  }
}
