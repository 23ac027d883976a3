/** The R day-count codec (`rdate.rs`): R stores a date as the number of
    days since 1970-01-01, and `NA` marks a missing one. */
module RDate {
  import opened Optional
  import opened Int32
  import opened Calendar

  /** `R_DATE_FROM_CE`: the chrono day count of 1970-01-01. */
  const RDateFromCE: int := 719163

  /** `date2rnum`: the R day number of a date. Every chrono date fits in an
      i32, and 1970-01-01 alone is day 0. */
  function DateToRNum(d: NaiveDate): (k: int)
    ensures IsI32(k) && IsI32(k + RDateFromCE)
    ensures k == 0 <==> d == Date(1970, 1, 1)
  {
    DaysFromCERoundTrip(d);
    DayRangeValues();
    assert DaysFromCE(Date(1970, 1, 1)) == RDateFromCE;
    DaysFromCEInjective(d, Date(1970, 1, 1));
    DaysFromCE(d) - RDateFromCE
  }

  /** The integer branch of `robj2date` for one element: `NA` stays missing,
      and a day number `k` becomes the date whose chrono day count is
      `k + R_DATE_FROM_CE`, or missing when chrono cannot represent it. */
  function RNumToDate(k: Option<int>): (r: Option<NaiveDate>)
    requires k.Some? ==> IsI32(k.value) && IsI32(k.value + RDateFromCE)
    ensures r.Some? <==> k.Some? && InDayRange(k.value + RDateFromCE)
    ensures r.Some? ==> DateToRNum(r.value) == k.value
  {
    match k
    case None => None
    case Some(v) => FromDaysFromCEOpt(v + RDateFromCE)
  }

  /** Encoding a date and decoding it gives the date back. */
  lemma RNumRoundTrip(d: NaiveDate)
    ensures RNumToDate(Some(DateToRNum(d))) == Some(d)
  {
    DaysFromCERoundTrip(d);
    DaysFromCEInjective(RNumToDate(Some(DateToRNum(d))).value, d);
  }

  /** The R day numbers keep the order of the dates. */
  lemma RNumOrder(a: NaiveDate, b: NaiveDate)
    ensures LessEq(a, b) <==> DateToRNum(a) <= DateToRNum(b)
  {
    OrderIsDayCountOrder(a, b);
  }

  predicate DecodableRNums(ks: seq<Option<int>>) {
    forall i :: 0 <= i < |ks| && ks[i].Some? ==> IsI32(ks[i].value) && IsI32(ks[i].value + RDateFromCE)
  }

  /** `robj2date` on an integer vector tagged as a Date. */
  function Robj2Date(ks: seq<Option<int>>): (r: seq<Option<NaiveDate>>)
    requires DecodableRNums(ks)
    ensures |r| == |ks|
    ensures forall i :: 0 <= i < |ks| ==> r[i] == RNumToDate(ks[i])
  {
    BindPresent(ks, (k: int) requires IsI32(k) && IsI32(k + RDateFromCE) => RNumToDate(Some(k)))
  }

  /** `to_rdate` on `[Option<NaiveDate>]`: `date2rnum` on every present date. */
  function ToRDate(xs: seq<Option<NaiveDate>>): (r: seq<Option<int>>)
    ensures |r| == |xs|
    ensures forall i :: 0 <= i < |xs| ==> (r[i].Some? <==> xs[i].Some?)
    ensures forall i :: 0 <= i < |xs| && xs[i].Some? ==> r[i].value == DateToRNum(xs[i].value)
    ensures DecodableRNums(r)
  {
    MapPresent(xs, DateToRNum)
  }

  /** Writing a date vector out to R and reading it back is the identity:
      what the vectorised entry points rely on when they decode the output
      of the parser. */
  lemma VectorRoundTrip(xs: seq<Option<NaiveDate>>)
    ensures Robj2Date(ToRDate(xs)) == xs
  {
    forall i | 0 <= i < |xs| && xs[i].Some?
      ensures Robj2Date(ToRDate(xs))[i] == xs[i]
    {
      RNumRoundTrip(xs[i].value);
    }
  }

  /** The source's test vector: 2021-12-29 and 2021-12-30 are R's 18990
      and 18991. */
  lemma RNumExamples()
    ensures DateToRNum(Date(2021, 12, 29)) == 18990 && DateToRNum(Date(2021, 12, 30)) == 18991
  {
  }

  /** The same test vector read back from R. */
  lemma RNumDecodeExample()
    ensures RNumToDate(Some(18990)) == Some(Date(2021, 12, 29))
  {
    RNumExamples();
    var d: NaiveDate := Date(2021, 12, 29);
    RNumRoundTrip(d);
  }
}
