/** The Python values that flow through props, diffs and the Tk layer.

    Only the distinctions the modelled code observes are kept: `None`, the `MISSING`,
    `Nothing` and `IS_REQUIRED` sentinels, numbers, strings, tuples, dicts, and the
    three objects of the prop model that end up stored inside dicts (a `PDiff`, a
    `PropScalar`, a `PropVector`). Python dicts are Dafny maps: their iteration order is not modelled
    here and is modelled by sequences wherever the code depends on it. */
module PyValue {

  datatype Value =
    | VNone
    | VMissing                       // the MISSING sentinel of a PropScalar
    | VNothing                       // `Nothing`, the empty Option
    | VIsRequired                    // the IS_REQUIRED sentinel, `no_value` of a required prop
    | VBool(b: bool)
    | VInt(i: int)
    | VFloat(r: real)
    | VStr(s: string)
    | VTuple(items: seq<Value>)
    | VDict(m: map<string, Value>)
    | VPDiff(diff: map<string, Value>)          // a nested PDiff
    | VScalar(value: Value, previous: Value)    // a PropScalar object
    | VVector(values: map<string, Value>, previous: Value, width: nat) // a PropVector object

  /** Python truthiness. A PropVector is as truthy as its schema is long (`__len__`);
      PropScalar, MISSING, Nothing and IS_REQUIRED define no `__bool__`/`__len__` and are truthy. */
  predicate Truthy(v: Value) {
    match v
    case VNone => false
    case VBool(b) => b
    case VInt(i) => i != 0
    case VFloat(r) => r != 0.0
    case VStr(s) => |s| > 0
    case VTuple(items) => |items| > 0
    case VDict(m) => |m| > 0
    case VPDiff(d) => |d| > 0
    case VVector(_, _, width) => width > 0
    case _ => true
  }

  /** The numeric value of a bool, int or float (`True == 1 == 1.0` in Python). */
  function Numeric(v: Value): (r: real)
    requires v.VBool? || v.VInt? || v.VFloat?
  {
    match v
    case VBool(b) => if b then 1.0 else 0.0
    case VInt(i) => i as real
    case VFloat(r) => r
  }

  predicate IsNumber(v: Value) {
    v.VBool? || v.VInt? || v.VFloat?
  }

  /** Python `==`. Numbers compare by value across bool/int/float; tuples elementwise;
      dicts by key set and values; the prop-model objects structurally. */
  predicate PyEq(a: Value, b: Value)
    decreases a
  {
    if IsNumber(a) && IsNumber(b) then Numeric(a) == Numeric(b)
    else
      match (a, b)
      case (VNone, VNone) => true
      case (VMissing, VMissing) => true
      case (VNothing, VNothing) => true
      case (VIsRequired, VIsRequired) => true
      case (VStr(s), VStr(t)) => s == t
      case (VTuple(xs), VTuple(ys)) =>
        |xs| == |ys| && forall i | 0 <= i < |xs| :: PyEq(xs[i], ys[i])
      case (VDict(m), VDict(n)) =>
        m.Keys == n.Keys && forall k | k in m :: PyEq(m[k], n[k])
      case (VPDiff(d), VPDiff(e)) => d == e
      case (VScalar(x, _), VScalar(y, _)) => PyEq(x, y)
      case (VVector(_, _, _), VVector(_, _, _)) => a == b
      case _ => false
  }

  /** `==` is reflexive on the modelled values (NaN is not modelled). */
  lemma {:induction false} PyEqReflexive(v: Value)
    ensures PyEq(v, v)
    decreases v
  {
    match v
    case VTuple(xs) =>
      forall i | 0 <= i < |xs|
        ensures PyEq(xs[i], xs[i])
      {
        PyEqReflexive(xs[i]);
      }
    case VDict(m) =>
      forall k | k in m
        ensures PyEq(m[k], m[k])
      {
        PyEqReflexive(m[k]);
      }
    case VScalar(x, _) =>
      PyEqReflexive(x);
    case _ =>
  }

  /** `d.get(k, default)` on a dict. */
  function Get(d: map<string, Value>, k: string, default: Value): (r: Value)
    ensures k in d ==> r == d[k]
    ensures k !in d ==> r == default
  {
    if k in d then d[k] else default
  }

  /** Decimal rendering of an integer, as Python's `str(int)` / f-string does. */
  function IntToString(i: int): (r: string)
    ensures |r| > 0
    ensures r[0] == '-' <==> i < 0
  {
    if i < 0 then "-" + NatToString(-i)
    else
      var digits := NatToString(i);
      assert digits[0] in digits;
      digits
  }

  function NatToString(n: nat): (r: string)
    ensures |r| > 0
    ensures forall c | c in r :: IsDigit(c)
    decreases n
  {
    if n < 10 then [Digit(n)] else NatToString(n / 10) + [Digit(n % 10)]
  }

  function Digit(d: nat): (c: char)
    requires d < 10
    ensures IsDigit(c)
  {
    "0123456789"[d]
  }

  predicate IsDigit(c: char) {
    '0' <= c <= '9'
  }
}
