/** Window geometry (tk/types/geometry.py, and `_normalize_geo` /
    `normalize_geo` of the window reconciler and wrapper): a position given
    relative to a screen corner and an anchor point becomes a Tk geometry string
    `"{w}x{h}+{x}+{y}"`. */
module Geometries {
  import opened Errors
  import opened PyValue

  /** The `Geometry` mapping. `anchorPoint` is whatever value it holds: only the
      four corner names shift the window. */
  datatype Geometry = Geometry(anchorPoint: Value, width: int, height: int, x: int, y: int)

  /** `geo[k]` for the four numeric keys, read from a mapping value: a missing key
      is a KeyError. The comparisons and arithmetic on them are modelled for ints
      only; any other value is reported as a TypeError. */
  function GeometryOf(v: Value): (r: Result<Geometry>)
    ensures !v.VDict? ==> r.Err?
    ensures v.VDict? && "x" !in v.m ==> r == Err(KeyError("x"))
    ensures r.Ok? ==> v.VDict? && "x" in v.m && "y" in v.m && "width" in v.m && "height" in v.m && "anchor_point" in v.m
    ensures r.Ok? ==> v.m["x"] == VInt(r.value.x) && v.m["y"] == VInt(r.value.y) &&
                      v.m["width"] == VInt(r.value.width) && v.m["height"] == VInt(r.value.height) &&
                      v.m["anchor_point"] == r.value.anchorPoint
  {
    if !v.VDict? then Err(TypeError("Geometry is not a mapping"))
    else
      var x :- IntAt(v.m, "x");
      var y :- IntAt(v.m, "y");
      var w :- IntAt(v.m, "width");
      var h :- IntAt(v.m, "height");
      if "anchor_point" !in v.m then Err(KeyError("anchor_point"))
      else Ok(Geometry(v.m["anchor_point"], w, h, x, y))
  }

  function IntAt(m: map<string, Value>, k: string): (r: Result<int>)
    ensures k !in m ==> r == Err(KeyError(k))
    ensures r.Ok? <==> k in m && m[k].VInt?
    ensures r.Ok? ==> m[k] == VInt(r.value)
  {
    if k !in m then Err(KeyError(k))
    else if !m[k].VInt? then Err(TypeError(k))
    else Ok(m[k].i)
  }

  /** A negative coordinate counts back from the far edge of the screen. */
  function Wrap(c: int, screen: int): (r: int)
    ensures c >= 0 ==> r == c
    ensures c < 0 ==> r - screen == c
  {
    if c < 0 then screen + c else c
  }

  predicate ShiftsX(anchor: Value) {
    anchor == VStr("rt") || anchor == VStr("rb")
  }

  predicate ShiftsY(anchor: Value) {
    anchor == VStr("lb") || anchor == VStr("rb")
  }

  /** The top-left corner Tk is given: the screen-wrapped point, moved so that the
      window's anchor corner (rather than its top-left corner) lies on it. */
  function Position(g: Geometry, screenWidth: int, screenHeight: int): (p: (int, int))
    ensures p.0 + (if ShiftsX(g.anchorPoint) then g.width else 0) == Wrap(g.x, screenWidth)
    ensures p.1 + (if ShiftsY(g.anchorPoint) then g.height else 0) == Wrap(g.y, screenHeight)
  {
    var x := Wrap(g.x, screenWidth);
    var y := Wrap(g.y, screenHeight);
    (if ShiftsX(g.anchorPoint) then x - g.width else x,
     if ShiftsY(g.anchorPoint) then y - g.height else y)
  }

  /** `normalize_geo`: the geometry string. Its four numbers, read back, are the
      width and height unchanged and the position above. */
  function NormalizeGeo(g: Geometry, screenWidth: int, screenHeight: int): (s: string)
    ensures ParseGeometry(s) == Some((g.width, g.height, Position(g, screenWidth, screenHeight).0,
                                      Position(g, screenWidth, screenHeight).1))
  {
    var p := Position(g, screenWidth, screenHeight);
    var s := IntToString(g.width) + "x" + IntToString(g.height) + "+" + IntToString(p.0) + "+" + IntToString(p.1);
    FormatParses(g.width, g.height, p.0, p.1);
    s
  }

  /** The corner each anchor pins to the given point: for "lt" the window's
      top-left corner, for "rt" its top-right, for "lb" its bottom-left, for "rb"
      its bottom-right; any other anchor behaves as "lt". */
  lemma AnchorCorners(g: Geometry, sw: int, sh: int)
    ensures var p := Position(g, sw, sh);
            var (x, y) := (Wrap(g.x, sw), Wrap(g.y, sh));
            (g.anchorPoint == VStr("lt") ==> p == (x, y)) &&
            (g.anchorPoint == VStr("rt") ==> p == (x - g.width, y)) &&
            (g.anchorPoint == VStr("lb") ==> p == (x, y - g.height)) &&
            (g.anchorPoint == VStr("rb") ==> p == (x - g.width, y - g.height)) &&
            (!ShiftsX(g.anchorPoint) && !ShiftsY(g.anchorPoint) ==> p == (x, y))
  {
  }

  /** The wrap happens before the shift: a window 100 pixels wide anchored by its
      right edge at x = -10 on a 1920-pixel screen starts at 1810, not at
      1920 - 110 computed any other way round; and a shift may leave the
      position negative. */
  lemma WrapBeforeShift()
    ensures Position(Geometry(VStr("rt"), 100, 50, -10, 0), 1920, 1080) == (1810, 0)
    ensures Position(Geometry(VStr("rb"), 100, 50, 30, 20), 1920, 1080) == (-70, -30)
  {
  }

  /** The screen size matters only for negative coordinates. */
  lemma ScreenIrrelevantWhenNonNegative(g: Geometry, sw: int, sh: int, sw': int, sh': int)
    requires g.x >= 0 && g.y >= 0
    ensures NormalizeGeo(g, sw, sh) == NormalizeGeo(g, sw', sh')
  {
    assert Wrap(g.x, sw) == Wrap(g.x, sw') && Wrap(g.y, sh) == Wrap(g.y, sh');
    assert Position(g, sw, sh) == Position(g, sw', sh');
  }

  // ---------------------------------------------------------------------------
  // Reading a geometry string back
  // ---------------------------------------------------------------------------

  /** The value of a string of decimal digits. */
  function DigitsValue(s: string): (n: nat)
    requires forall c | c in s :: IsDigit(c)
  {
    if s == [] then 0
    else
      assert forall c | c in s[..|s| - 1] :: c in s;
      assert s[|s| - 1] in s && IsDigit(s[|s| - 1]);
      DigitsValue(s[..|s| - 1]) * 10 + (s[|s| - 1] as int - '0' as int)
  }

  /** An optionally signed decimal integer, as `int()` would read it. */
  function ParseInt(s: string): (r: Option<int>)
  {
    if |s| > 0 && s[0] == '-' then
      if |s| > 1 && forall c | c in s[1..] :: IsDigit(c) then Some(-(DigitsValue(s[1..]) as int)) else None
    else if |s| > 0 && forall c | c in s :: IsDigit(c) then Some(DigitsValue(s))
    else None
  }

  /** The parts before and after the first `c`. */
  function SplitAt(s: string, c: char): (r: Option<(string, string)>)
    ensures r.Some? ==> s == r.value.0 + [c] + r.value.1 && c !in r.value.0
    ensures r.None? <==> c !in s
  {
    if s == [] then None
    else if s[0] == c then Some(([], s[1..]))
    else
      match SplitAt(s[1..], c)
      case None => None
      case Some((a, b)) => Some(([s[0]] + a, b))
  }

  /** `"{w}x{h}+{x}+{y}"` read back into its four numbers. */
  function ParseGeometry(s: string): (r: Option<(int, int, int, int)>)
  {
    match SplitAt(s, 'x')
    case None => None
    case Some((ws, rest)) =>
      match SplitAt(rest, '+')
      case None => None
      case Some((hs, rest')) =>
        match SplitAt(rest', '+')
        case None => None
        case Some((xs, ys)) =>
          match (ParseInt(ws), ParseInt(hs), ParseInt(xs), ParseInt(ys))
          case (Some(w), Some(h), Some(x), Some(y)) => Some((w, h, x, y))
          case _ => None
  }

  lemma {:induction false} DigitsOfNat(n: nat)
    ensures DigitsValue(NatToString(n)) == n
    decreases n
  {
    if n >= 10 {
      DigitsOfNat(n / 10);
      var s := NatToString(n);
      assert s[..|s| - 1] == NatToString(n / 10);
      DigitValue(n % 10);
    } else {
      DigitValue(n);
    }
  }

  lemma DigitValue(d: nat)
    requires d < 10
    ensures Digit(d) as int - '0' as int == d
  {
  }

  /** `str(i)` reads back as `i`, and holds no 'x' or '+'. */
  lemma IntRoundTrip(i: int)
    ensures ParseInt(IntToString(i)) == Some(i)
    ensures 'x' !in IntToString(i) && '+' !in IntToString(i)
  {
    if i < 0 {
      NegativeRoundTrip(i);
    } else {
      var d := NatToString(i);
      DigitsOfNat(i);
      DigitsHoldNoSeparator(d);
      assert d[0] in d;
    }
  }

  lemma NegativeRoundTrip(i: int)
    requires i < 0
    ensures ParseInt(IntToString(i)) == Some(i)
    ensures 'x' !in IntToString(i) && '+' !in IntToString(i)
  {
    var d := NatToString(-i);
    var s := IntToString(i);
    assert s == ['-'] + d;
    assert s[1..] == d;
    DigitsOfNat(-i);
    DigitsHoldNoSeparator(d);
    assert s[0] == '-' && |s| > 1;
    assert forall c | c in s[1..] :: IsDigit(c);
    assert ParseInt(s) == Some(-(DigitsValue(d) as int));
  }

  lemma DigitsHoldNoSeparator(d: string)
    requires forall c | c in d :: IsDigit(c)
    ensures 'x' !in d && '+' !in d && '-' !in d
  {
  }

  lemma {:induction false} SplitAtJoin(a: string, c: char, b: string)
    requires c !in a
    ensures SplitAt(a + [c] + b, c) == Some((a, b))
    decreases |a|
  {
    var s := a + [c] + b;
    if a == [] {
      assert s[0] == c && s[1..] == b;
    } else {
      assert s[0] == a[0] && a[0] != c;
      assert s[1..] == a[1..] + [c] + b;
      assert c !in a[1..];
      SplitAtJoin(a[1..], c, b);
      assert [a[0]] + a[1..] == a;
    }
  }

  lemma FormatParses(w: int, h: int, x: int, y: int)
    ensures ParseGeometry(IntToString(w) + "x" + IntToString(h) + "+" + IntToString(x) + "+" + IntToString(y)) == Some((w, h, x, y))
  {
    IntRoundTrip(w);
    IntRoundTrip(h);
    IntRoundTrip(x);
    IntRoundTrip(y);
    var ws, hs, xs, ys := IntToString(w), IntToString(h), IntToString(x), IntToString(y);
    var tail := xs + ['+'] + ys;
    var rest := hs + ['+'] + tail;
    SplitAtJoin(ws, 'x', rest);
    SplitAtJoin(hs, '+', tail);
    SplitAtJoin(xs, '+', ys);
    JoinFour(ws, hs, xs, ys);
  }

  /** The geometry string, grouped from the right. */
  lemma JoinFour(ws: string, hs: string, xs: string, ys: string)
    ensures ws + "x" + hs + "+" + xs + "+" + ys == ws + ['x'] + (hs + ['+'] + (xs + ['+'] + ys))
  {
    assert "x" == ['x'] && "+" == ['+'];
  }

  /** Two geometries that normalise to the same string agree on size and on the
      position handed to Tk. */
  lemma NormalizeGeoInjective(g: Geometry, g': Geometry, sw: int, sh: int)
    requires NormalizeGeo(g, sw, sh) == NormalizeGeo(g', sw, sh)
    ensures g.width == g'.width && g.height == g'.height
    ensures Position(g, sw, sh) == Position(g', sw, sh)
  {
  }
}
