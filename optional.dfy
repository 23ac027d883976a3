/** The missing-value wrapper shared by the whole model, and the element-wise
    maps over vectors of optional values that every vectorised operation of
    the source is built from (`iter().map(...).collect()`). */
module Optional {
  /** `None` is an R `NA`, or a date that could not be formed. */
  datatype Option<+T> = None | Some(value: T)

  /** Apply `f` to every present element; a missing element stays missing
      at the same index and does not affect any other index. */
  function MapPresent<A, B>(xs: seq<Option<A>>, f: A --> B): (r: seq<Option<B>>)
    requires forall i :: 0 <= i < |xs| && xs[i].Some? ==> f.requires(xs[i].value)
    ensures |r| == |xs|
    ensures forall i :: 0 <= i < |xs| ==> r[i] == (if xs[i].Some? then Some(f(xs[i].value)) else None)
  {
    if xs == [] then []
    else [if xs[0].Some? then Some(f(xs[0].value)) else None] + MapPresent(xs[1..], f)
  }

  /** Like `MapPresent`, for an `f` that may itself fail with `None`. */
  function BindPresent<A, B>(xs: seq<Option<A>>, f: A --> Option<B>): (r: seq<Option<B>>)
    requires forall i :: 0 <= i < |xs| && xs[i].Some? ==> f.requires(xs[i].value)
    ensures |r| == |xs|
    ensures forall i :: 0 <= i < |xs| ==> r[i] == (if xs[i].Some? then f(xs[i].value) else None)
  {
    if xs == [] then []
    else [if xs[0].Some? then f(xs[0].value) else None] + BindPresent(xs[1..], f)
  }
}
