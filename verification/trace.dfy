/** Render traces (render_frame.py, render_trace.py, key_tools.py): a trace is the
    sequence of frames from the root to a rendered element, and its string rendering
    is the element's identity. */
module Traces {
  import opened Errors
  import opened PyValue

  /** The three ways of rendering a frame or trace (`Display`). */
  datatype Display = Log | Safe | Id

  /** A `RenderFrame`: the position of an element among its siblings. `key` is the
      element's `key`, `None` when it has none; `typeName` is its class's name. */
  datatype Frame = Frame(invocation: int, typeName: string, key: Option<string>, lineno: int) {
    /** `if self.key`: a key that is neither None nor empty. */
    predicate HasKey() {
      key.Some? && key.value != ""
    }
  }

  /** A `RenderTrace`: its tuple of frames. Trace equality (`__eq__`) and frame
      equality are the datatypes' equality: all four frame fields, frame by frame. */
  datatype Trace = Trace(frames: seq<Frame>)

  /** `format_subscript`, which is not part of this model: any rendering of an int. */
  type Subscript = int -> string

  // ---------------------------------------------------------------------------
  // Characters
  // ---------------------------------------------------------------------------

  /** `[a-zA-Z0-9_]`: the characters that are kept by the safe display and that
      make the trace rendering insert a delimiter. */
  predicate IsWordChar(c: char) {
    'a' <= c <= 'z' || 'A' <= c <= 'Z' || '0' <= c <= '9' || c == '_'
  }

  /** `[a-z0-9_]`: what the safe display is made of. */
  predicate IsSafeChar(c: char) {
    'a' <= c <= 'z' || '0' <= c <= '9' || c == '_'
  }

  predicate AllWordChars(s: string) {
    forall i | 0 <= i < |s| :: IsWordChar(s[i])
  }

  /** `replace_chars_in_key.sub("_", s)`: every maximal run of characters outside
      `[a-zA-Z0-9_]` becomes one `_`. */
  function Sanitize(s: string): (r: string)
    ensures AllWordChars(r)
    ensures |r| <= |s|
    ensures |s| > 0 ==> |r| > 0
  {
    SanitizeFrom(s, false)
  }

  /** `inRun`: the preceding character was already replaced. */
  function SanitizeFrom(s: string, inRun: bool): (r: string)
    ensures AllWordChars(r)
    ensures |r| <= |s|
    ensures |s| > 0 && !(inRun && !IsWordChar(s[0])) ==> |r| > 0
    decreases |s|
  {
    if s == [] then ""
    else if IsWordChar(s[0]) then [s[0]] + SanitizeFrom(s[1..], false)
    else (if inRun then "" else "_") + SanitizeFrom(s[1..], true)
  }

  /** A string of word characters is left as it is. */
  lemma {:induction false} SanitizeWordChars(s: string, inRun: bool)
    requires AllWordChars(s)
    ensures SanitizeFrom(s, inRun) == s
    decreases |s|
  {
    if s != [] {
      SanitizeWordChars(s[1..], false);
    }
  }

  /** Substitution is idempotent. */
  lemma SanitizeIdempotent(s: string)
    ensures Sanitize(Sanitize(s)) == Sanitize(s)
  {
    SanitizeWordChars(Sanitize(s), false);
  }

  /** A run of several non-word characters becomes a single `_`. */
  lemma SanitizeCollapsesRuns()
    ensures Sanitize("a.-b") == "a_b"
    ensures Sanitize("..") == "_"
  {
  }

  /** `str.lower()` on the ASCII letters, which is all that is left after `Sanitize`. */
  function Lower(s: string): (r: string)
    ensures |r| == |s|
    ensures forall i | 0 <= i < |s| :: r[i] == if 'A' <= s[i] <= 'Z' then (s[i] as int + 32) as char else s[i]
  {
    seq(|s|, i requires 0 <= i < |s| => if 'A' <= s[i] <= 'Z' then (s[i] as int + 32) as char else s[i])
  }

  // ---------------------------------------------------------------------------
  // RenderFrame.to_string
  // ---------------------------------------------------------------------------

  /** `RenderFrame.to_string(display)`. In the safe display: the key, or
      `"{invocation}+{lineno}_{TypeName}"` without one, sanitized and lowercased.
      Otherwise: the key verbatim, or the positional part followed by the type name,
      the positional part being `":{lineno}{subscript(invocation)}〉"` for a
      non-negative invocation and empty otherwise. */
  function FrameToString(f: Frame, d: Display, sub: Subscript): (r: string)
    ensures d == Safe ==> forall i | 0 <= i < |r| :: IsSafeChar(r[i])
    ensures d == Safe && f.HasKey() ==> r == Lower(Sanitize(f.key.value))
    ensures d == Safe && !f.HasKey() ==>
              r == Lower(Sanitize(IntToString(f.invocation) + "+" + IntToString(f.lineno) + "_" + f.typeName))
    ensures d != Safe && f.HasKey() ==> r == f.key.value
    ensures d != Safe && !f.HasKey() && f.invocation < 0 ==> r == f.typeName
    ensures d != Safe && !f.HasKey() && f.invocation >= 0 ==>
              r == ":" + IntToString(f.lineno) + sub(f.invocation) + "〉" + f.typeName
    ensures d == Safe || f.HasKey() || f.invocation >= 0 || f.typeName != "" ==> r != ""
  {
    if d == Safe then
      var result := if !f.HasKey() then IntToString(f.invocation) + "+" + IntToString(f.lineno) + "_" + f.typeName
                    else f.key.value;
      var sanitized := Sanitize(result);
      var r := Lower(sanitized);
      assert forall i | 0 <= i < |r| :: IsSafeChar(r[i]) by {
        forall i | 0 <= i < |r| ensures IsSafeChar(r[i]) {
          assert IsWordChar(sanitized[i]);
        }
      }
      r
    else
      var posPart := if f.invocation >= 0 then ":" + IntToString(f.lineno) + sub(f.invocation) + "〉" else "";
      if f.HasKey() then f.key.value else posPart + f.typeName
  }

  /** The safe display of a keyless frame from a non-negative invocation and line,
      for a class name made of word characters: the `+` becomes `_`, and the rest
      is only lowercased. */
  lemma SafeKeylessFrame(f: Frame, sub: Subscript)
    requires !f.HasKey() && f.invocation >= 0 && f.lineno >= 0 && AllWordChars(f.typeName)
    ensures FrameToString(f, Safe, sub) ==
              Lower(NatToString(f.invocation) + "_" + NatToString(f.lineno) + "_" + f.typeName)
  {
    DigitsAreWordChars(f.invocation);
    DigitsAreWordChars(f.lineno);
    SanitizePlus(NatToString(f.invocation), NatToString(f.lineno), f.typeName);
  }

  lemma DigitsAreWordChars(n: nat)
    ensures AllWordChars(NatToString(n))
  {
    var a := NatToString(n);
    forall i | 0 <= i < |a| ensures IsWordChar(a[i]) {
      assert a[i] in a;
    }
  }

  /** `a+b_name` sanitizes to `a_b_name` when all three are word strings. */
  lemma SanitizePlus(a: string, b: string, name: string)
    requires |a| > 0 && AllWordChars(a) && AllWordChars(b) && AllWordChars(name)
    ensures Sanitize(a + "+" + b + "_" + name) == a + "_" + b + "_" + name
  {
    var tail := b + "_" + name;
    assert AllWordChars(tail) by {
      forall i | 0 <= i < |tail| ensures IsWordChar(tail[i]) {
        if i < |b| {
          assert tail[i] == b[i];
        } else if i > |b| {
          assert tail[i] == name[i - |b| - 1];
        }
      }
    }
    assert a + "+" + b + "_" + name == a + ("+" + tail);
    SanitizeWordPrefix(a, "+" + tail, false);
    assert ("+" + tail)[1..] == tail;
    SanitizeWordChars(tail, true);
    assert a + "_" + b + "_" + name == a + ("_" + tail);
  }

  /** A prefix of word characters passes through, and ends any run. */
  lemma {:induction false} SanitizeWordPrefix(a: string, b: string, inRun: bool)
    requires |a| > 0 && AllWordChars(a)
    ensures SanitizeFrom(a + b, inRun) == a + SanitizeFrom(b, false)
    decreases |a|
  {
    assert (a + b)[0] == a[0] && (a + b)[1..] == a[1..] + b;
    if |a| > 1 {
      SanitizeWordPrefix(a[1..], b, false);
      assert a == [a[0]] + a[1..];
    } else {
      assert a == [a[0]] && a[1..] + b == b;
    }
  }

  // ---------------------------------------------------------------------------
  // RenderTrace
  // ---------------------------------------------------------------------------

  /** `trace + frame`: a new trace, one frame longer. */
  function AddFrame(t: Trace, f: Frame): (r: Trace)
    ensures |r.frames| == |t.frames| + 1
    ensures r.frames[..|t.frames|] == t.frames && r.frames[|t.frames|] == f
  {
    Trace(t.frames + [f])
  }

  /** `trace + trace`: a new trace with the frames of both, in order. */
  function Concat(t: Trace, u: Trace): (r: Trace)
    ensures |r.frames| == |t.frames| + |u.frames|
    ensures r.frames[..|t.frames|] == t.frames && r.frames[|t.frames|..] == u.frames
  {
    Trace(t.frames + u.frames)
  }

  /** Neither operand changes, and the two additions compose associatively. */
  lemma ConcatAssociative(t: Trace, u: Trace, w: Trace, f: Frame)
    ensures Concat(Concat(t, u), w) == Concat(t, Concat(u, w))
    ensures AddFrame(Concat(t, u), f) == Concat(t, AddFrame(u, f))
    ensures Concat(t, Trace([])) == t && Concat(Trace([]), t) == t
  {
    assert (t.frames + u.frames) + w.frames == t.frames + (u.frames + w.frames);
    assert (t.frames + u.frames) + [f] == t.frames + (u.frames + [f]);
    assert t.frames + [] == t.frames;
  }

  /** `render_delim` for "log" and "id"; "__" for "safe". */
  function Delimiter(d: Display): string {
    if d == Safe then "__" else "."
  }

  /** `starts_with_non_breaking.search(part)`: the part begins with a character
      outside `[A-Za-z0-9_]`. */
  predicate StartsNonBreaking(part: string) {
    |part| > 0 && !IsWordChar(part[0])
  }

  /** One step of the loop in `to_string`: the delimiter goes in front of `part`
      when something precedes it and `part` does not start with a non-word
      character (an empty part included). */
  function Glue(acc: string, part: string, delim: string): (r: string)
    ensures |r| >= |part|
    ensures acc == "" ==> r == part
    ensures acc != "" && StartsNonBreaking(part) ==> r == acc + part
    ensures acc != "" && !StartsNonBreaking(part) ==> r == acc + delim + part
  {
    if acc != "" && !StartsNonBreaking(part) then acc + delim + part else acc + part
  }

  /** `[frame.to_string(display) for frame in self.frames]`. */
  function Parts(frames: seq<Frame>, d: Display, sub: Subscript): (ps: seq<string>)
    ensures |ps| == |frames|
    ensures forall i | 0 <= i < |frames| :: ps[i] == FrameToString(frames[i], d, sub)
  {
    seq(|frames|, i requires 0 <= i < |frames| => FrameToString(frames[i], d, sub))
  }

  /** The loop of `to_string` over the parts, left to right. */
  function Join(parts: seq<string>, delim: string): string
    decreases |parts|
  {
    if parts == [] then ""
    else
      var n := |parts| - 1;
      Glue(Join(parts[..n], delim), parts[n], delim)
  }

  /** `RenderTrace.to_string(display)`: the empty trace is "", and a trace of one
      frame is that frame's display. */
  function ToString(t: Trace, d: Display, sub: Subscript): (r: string)
    ensures t.frames == [] ==> r == ""
    ensures |t.frames| == 1 ==> r == FrameToString(t.frames[0], d, sub)
  {
    var ps := Parts(t.frames, d, sub);
    assert |ps| == 1 ==> ps[..0] == [] && Join(ps, Delimiter(d)) == Glue(Join([], Delimiter(d)), ps[0], Delimiter(d));
    Join(ps, Delimiter(d))
  }

  /** Rendering a trace one frame longer glues that frame's display to the
      rendering of the shorter trace, as one pass of the loop of `to_string`. */
  lemma ToStringAddFrame(t: Trace, f: Frame, d: Display, sub: Subscript)
    ensures ToString(AddFrame(t, f), d, sub) == Glue(ToString(t, d, sub), FrameToString(f, d, sub), Delimiter(d))
  {
    var ps := Parts(AddFrame(t, f).frames, d, sub);
    assert ps[..|t.frames|] == Parts(t.frames, d, sub);
  }

  /** A node's `uid`: its trace in the "id" display. A node traced by one frame
      is named by that frame; a key is taken verbatim. */
  function Uid(t: Trace, sub: Subscript): (u: string)
    ensures |t.frames| == 1 && t.frames[0].HasKey() ==> u == t.frames[0].key.value
  {
    ToString(t, Id, sub)
  }

  /** The empty trace renders as "". */
  lemma EmptyTraceRendersEmpty(d: Display, sub: Subscript)
    ensures ToString(Trace([]), d, sub) == ""
  {
  }

  predicate AllSafeChars(s: string) {
    forall i | 0 <= i < |s| :: IsSafeChar(s[i])
  }

  /** The safe display of a trace is made of `[a-z0-9_]` only. */
  lemma SafeTraceCharacters(t: Trace, sub: Subscript)
    ensures AllSafeChars(ToString(t, Safe, sub))
  {
    JoinSafe(Parts(t.frames, Safe, sub), "__");
  }

  lemma {:induction false} JoinSafe(parts: seq<string>, delim: string)
    requires AllSafeChars(delim)
    requires forall i | 0 <= i < |parts| :: AllSafeChars(parts[i])
    ensures AllSafeChars(Join(parts, delim))
    decreases |parts|
  {
    if parts != [] {
      var n := |parts| - 1;
      JoinSafe(parts[..n], delim);
      var a := Join(parts[..n], delim);
      assert AllSafeChars(a + delim + parts[n]) by {
        var r := a + delim + parts[n];
        forall i | 0 <= i < |r| ensures IsSafeChar(r[i]) {
          if i < |a| { assert r[i] == a[i]; }
          else if i < |a| + |delim| { assert r[i] == delim[i - |a|]; }
          else { assert r[i] == parts[n][i - |a| - |delim|]; }
        }
      }
      assert AllSafeChars(a + parts[n]) by {
        var r := a + parts[n];
        forall i | 0 <= i < |r| ensures IsSafeChar(r[i]) {
          if i < |a| { assert r[i] == a[i]; }
          else { assert r[i] == parts[n][i - |a|]; }
        }
      }
    }
  }

  /** A frame whose string cannot be empty: it has a key, is positional, or has a
      type name (every class has one). */
  predicate RendersNonEmpty(f: Frame) {
    f.HasKey() || f.invocation >= 0 || f.typeName != ""
  }

  /** When no frame renders to "", the rendering of `t + u`, for a non-empty `u`,
      is the rendering of `t` glued to the rendering of `u`, exactly as if `u` were
      a single part. */
  lemma ToStringConcat(t: Trace, u: Trace, d: Display, sub: Subscript)
    requires u.frames != []
    requires forall i | 0 <= i < |u.frames| :: RendersNonEmpty(u.frames[i])
    ensures ToString(Concat(t, u), d, sub) == Glue(ToString(t, d, sub), ToString(u, d, sub), Delimiter(d))
  {
    PartsConcat(t.frames, u.frames, d, sub);
    PartsNonEmpty(u.frames, d, sub);
    JoinConcat(Parts(t.frames, d, sub), Parts(u.frames, d, sub), Delimiter(d));
  }

  lemma PartsConcat(xs: seq<Frame>, ys: seq<Frame>, d: Display, sub: Subscript)
    ensures Parts(xs + ys, d, sub) == Parts(xs, d, sub) + Parts(ys, d, sub)
  {
    var l := Parts(xs + ys, d, sub);
    var r := Parts(xs, d, sub) + Parts(ys, d, sub);
    forall i | 0 <= i < |l| ensures l[i] == r[i] {
      if i >= |xs| {
        assert (xs + ys)[i] == ys[i - |xs|];
      }
    }
  }

  lemma PartsNonEmpty(fs: seq<Frame>, d: Display, sub: Subscript)
    requires forall i | 0 <= i < |fs| :: RendersNonEmpty(fs[i])
    ensures forall i | 0 <= i < |fs| :: Parts(fs, d, sub)[i] != ""
  {
    forall i | 0 <= i < |fs| ensures Parts(fs, d, sub)[i] != "" {
      assert RendersNonEmpty(fs[i]);
    }
  }

  /** Joining `ps + qs` is gluing the two joins, when `qs` has no empty part. */
  lemma {:induction false} JoinConcat(ps: seq<string>, qs: seq<string>, delim: string)
    requires qs != []
    requires forall i | 0 <= i < |qs| :: qs[i] != ""
    ensures Join(ps + qs, delim) == Glue(Join(ps, delim), Join(qs, delim), delim)
    decreases |qs|
  {
    var n := |qs| - 1;
    var q' := qs[..n];
    assert (ps + qs)[..|ps + qs| - 1] == ps + q';
    if n == 0 {
      assert ps + q' == ps;
      assert q' == [];
    } else {
      JoinConcat(ps, q', delim);
      var b := Join(q', delim);
      assert b != "" by {
        assert |b| >= |q'[n - 1]|;
      }
      GlueAssociative(Join(ps, delim), b, qs[n], delim);
    }
  }

  /** Gluing is associative once the middle part is non-empty. */
  lemma GlueAssociative(a: string, b: string, p: string, delim: string)
    requires b != ""
    ensures Glue(Glue(a, b, delim), p, delim) == Glue(a, Glue(b, p, delim), delim)
  {
    var mid := if StartsNonBreaking(p) then "" else delim;
    GlueKeepsStart(b, p, delim);
    if a != "" {
      var front := if StartsNonBreaking(b) then "" else delim;
      AppendFive(a, front, b, mid, p);
    }
  }

  /** Gluing onto a non-empty string keeps its first character, and so whether
      it starts with a non-word character. */
  lemma GlueKeepsStart(b: string, p: string, delim: string)
    requires b != ""
    ensures Glue(b, p, delim) == b + (if StartsNonBreaking(p) then "" else delim) + p
    ensures StartsNonBreaking(Glue(b, p, delim)) == StartsNonBreaking(b)
  {
    var bp := Glue(b, p, delim);
    assert bp[0] == b[0];
  }

  lemma AppendFive<T>(a: seq<T>, f: seq<T>, b: seq<T>, m: seq<T>, p: seq<T>)
    ensures (a + f + b) + m + p == a + f + (b + m + p)
  {
  }

  /** The "id" display is not injective: a single frame keyed "a.b" and two frames
      keyed "a" and "b" render alike, so two different traces share a uid. */
  lemma UidNotInjective(sub: Subscript)
    ensures var one := Trace([Frame(1, "Label", Some("a.b"), 10)]);
            var two := Trace([Frame(1, "Label", Some("a"), 10), Frame(1, "Label", Some("b"), 10)]);
            one != two && Uid(one, sub) == Uid(two, sub)
  {
    var one := Trace([Frame(1, "Label", Some("a.b"), 10)]);
    var two := Trace([Frame(1, "Label", Some("a"), 10), Frame(1, "Label", Some("b"), 10)]);
    var ps := Parts(two.frames, Id, sub);
    assert ps == ["a", "b"];
    assert ps[..1] == ["a"] && ps[..1][..0] == [];
    assert Join(["a"], ".") == "a";
    assert Join(ps, ".") == "a" + "." + "b";
    assert Parts(one.frames, Id, sub) == ["a.b"];
    assert ["a.b"][..0] == [];
  }
}
