/** `maybe_normalize` (model2/util/maybe.py): turn a value that may or may not
    be an `Option` into one. */
module Maybe {
  import opened PyValue

  /** What `maybe_normalize` can be handed: a plain value, or `Some(x)` of the
      `expression` library wrapping anything, itself an object of this kind.
      `Nothing` is the plain value `VNothing`. */
  datatype Obj = Plain(v: Value) | SomeOf(inner: Obj)

  /** `isinstance(x, Option)`: `Nothing` or a `Some`. */
  predicate IsOption(x: Obj) {
    x == Plain(VNothing) || x.SomeOf?
  }

  /** `maybe_normalize(x)`: `Nothing` stays `Nothing`, any other `Option`
      (`Some(None)` included) is returned as it is, `None` becomes `Nothing`, and
      anything else is wrapped in `Some`. */
  function MaybeNormalize(x: Obj): (r: Obj)
    ensures IsOption(r)
    ensures IsOption(x) ==> r == x
    ensures x == Plain(VNone) ==> r == Plain(VNothing)
    ensures !IsOption(x) && x != Plain(VNone) ==> r == SomeOf(x)
  {
    if x == Plain(VNothing) then x
    else if x.SomeOf? then x
    else if x == Plain(VNone) then Plain(VNothing)
    else SomeOf(x)
  }

  /** Normalising twice is normalising once; `None` and `Nothing` meet at
      `Nothing`, and no other input does. */
  lemma NormalizeIdempotent(x: Obj)
    ensures MaybeNormalize(MaybeNormalize(x)) == MaybeNormalize(x)
    ensures MaybeNormalize(x) == Plain(VNothing) <==> x == Plain(VNothing) || x == Plain(VNone)
  {
  }

  /** The values `maybe_normalize` hands back unchanged are exactly the
      `Option`s. */
  lemma FixedPointsAreOptions(x: Obj)
    ensures MaybeNormalize(x) == x <==> IsOption(x)
  {
  }
}
