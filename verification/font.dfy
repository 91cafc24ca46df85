/** Fonts (tk/font.py): a `Font` mapping with a required family and size and an
    optional style, and its conversion to the tuple Tk takes. */
module Fonts {
  import opened Errors
  import opened PyValue

  /** The style a font has when it names none: `no_value` of `style`, and the
      default of the lookup in `to_tk_font`. */
  const DefaultStyle: Value := VStr("normal")

  /** `to_tk_font(font)`: `(font["family"], font["size"], font.get("style",
      "normal"))`. The family is looked up first, so a font missing both reports
      the family. Only a dict can be subscripted here. */
  function ToTkFont(font: Value): (r: Result<Value>)
    ensures !font.VDict? ==> r.Err? && r.error.TypeError?
    ensures font.VDict? ==> (r.Ok? <==> "family" in font.m && "size" in font.m)
    ensures font.VDict? && "family" !in font.m ==> r == Err(KeyError("family"))
    ensures font.VDict? && "family" in font.m && "size" !in font.m ==> r == Err(KeyError("size"))
    ensures r.Ok? ==> r.value.VTuple? && |r.value.items| == 3 &&
                      r.value.items[0] == font.m["family"] && r.value.items[1] == font.m["size"] &&
                      r.value.items[2] == (if "style" in font.m then font.m["style"] else DefaultStyle)
  {
    if !font.VDict? then Err(TypeError("font is not subscriptable"))
    else if "family" !in font.m then Err(KeyError("family"))
    else if "size" !in font.m then Err(KeyError("size"))
    else Ok(VTuple([font.m["family"], font.m["size"], Get(font.m, "style", DefaultStyle)]))
  }

  /** The style is the only optional part: two fonts that differ only in an
      explicit "normal" style convert alike, and extra keys are ignored. */
  lemma StyleDefaultsToNormal(family: Value, size: Value, extra: map<string, Value>)
    requires "family" !in extra && "size" !in extra && "style" !in extra
    ensures ToTkFont(VDict(extra["family" := family]["size" := size])) ==
            ToTkFont(VDict(extra["family" := family]["size" := size]["style" := DefaultStyle]))
    ensures ToTkFont(VDict(extra["family" := family]["size" := size])) == Ok(VTuple([family, size, VStr("normal")]))
  {
  }
}
