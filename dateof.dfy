/** Date-part extractors (`dateof.rs`): element-wise projections of an
    optional-date vector, a missing date giving a missing part. */
module DateOf {
  import opened Optional
  import opened Calendar

  /** `year`: the calendar year of each present date. */
  function Year(xs: seq<Option<NaiveDate>>): (r: seq<Option<int>>)
    ensures |r| == |xs|
    ensures forall i :: 0 <= i < |xs| ==> (r[i].Some? <==> xs[i].Some?)
    ensures forall i :: 0 <= i < |xs| && xs[i].Some? ==> r[i].value == xs[i].value.year
  {
    MapPresent(xs, (d: NaiveDate) => d.year)
  }

  /** `month`: the month, 1 to 12, of each present date. */
  function Month(xs: seq<Option<NaiveDate>>): (r: seq<Option<int>>)
    ensures |r| == |xs|
    ensures forall i :: 0 <= i < |xs| ==> (r[i].Some? <==> xs[i].Some?)
    ensures forall i :: 0 <= i < |xs| && xs[i].Some? ==> r[i].value == xs[i].value.month
    ensures forall i :: 0 <= i < |xs| && r[i].Some? ==> 1 <= r[i].value <= 12
  {
    MapPresent(xs, (d: NaiveDate) => d.month)
  }

  /** `month2quarter`: months 1-3, 4-6, 7-9 and 10-12 form quarters 1 to 4.
      The source panics outside 1..12, which no valid date reaches. */
  function Month2Quarter(m: int): (q: int)
    requires 1 <= m <= 12
    ensures 1 <= q <= 4
    ensures 3 * (q - 1) < m <= 3 * q
  {
    if m <= 3 then 1 else if m <= 6 then 2 else if m <= 9 then 3 else 4
  }

  /** `quarter`: the quarter of each present date's month. */
  function Quarter(xs: seq<Option<NaiveDate>>): (r: seq<Option<int>>)
    ensures |r| == |xs|
    ensures forall i :: 0 <= i < |xs| ==> (r[i].Some? <==> xs[i].Some?)
    ensures forall i :: 0 <= i < |xs| && r[i].Some? ==> 1 <= r[i].value <= 4
  {
    MapPresent(xs, (d: NaiveDate) => Month2Quarter(d.month))
  }

  /** `mday`: the day of the month, 1 to 31, of each present date. */
  function Mday(xs: seq<Option<NaiveDate>>): (r: seq<Option<int>>)
    ensures |r| == |xs|
    ensures forall i :: 0 <= i < |xs| ==> (r[i].Some? <==> xs[i].Some?)
    ensures forall i :: 0 <= i < |xs| && xs[i].Some? ==> r[i].value == xs[i].value.day
    ensures forall i :: 0 <= i < |xs| && r[i].Some? ==> 1 <= r[i].value <= 31
  {
    MapPresent(xs, (d: NaiveDate) => d.day)
  }

  /** The quarter vector is the month vector passed through `month2quarter`. */
  lemma QuarterOfMonth(xs: seq<Option<NaiveDate>>, i: int)
    requires 0 <= i < |xs| && xs[i].Some?
    ensures Month(xs)[i].Some? && 1 <= Month(xs)[i].value <= 12
    ensures Quarter(xs)[i] == Some(Month2Quarter(Month(xs)[i].value))
  {
  }
}
