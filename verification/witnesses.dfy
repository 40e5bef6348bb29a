/** Concrete inputs on which the code and its doc-comments part ways, one per
    finding: the whole of 2023 (no year is ever reported), February 2023
    with the 1st listed twice and the 28th missing (reported all the same),
    and January split across 2023 and 2024 (reported all the same). */
module Witnesses {
  import opened Wrappers
  import opened Seqs
  import opened SetFacts
  import opened Moments
  import opened DisabledPeriods
  import opened MonthProperties
  import opened YearProperties
  import opened Intended

  /** `n` distinct objects for consecutive days of one month, starting at
      day `first`, with identities `base`, `base + 1`, .... */
  function {:induction false} Run(base: nat, year: int, month: int, dim: int, first: int, n: nat): (r: seq<Moment>)
    ensures forall m :: m in r ==> m.year == year && m.month == month && m.daysInMonth == dim
    ensures forall m :: m in r ==> first <= m.day < first + n
    ensures n > 0 ==> Moment(base, year, month, first, dim) in r
    decreases n
  {
    if n == 0 then []
    else
      var init := Run(base, year, month, dim, first, n - 1);
      init + [Moment(base + n - 1, year, month, first + n - 1, dim)]
  }

  /** A run holds `n` distinct objects ... */
  lemma {:induction false} RunIds(base: nat, year: int, month: int, dim: int, first: int, n: nat)
    ensures Ids(Run(base, year, month, dim, first, n)) == Range(base, n)
    decreases n
  {
    if n > 0 {
      var init := Run(base, year, month, dim, first, n - 1);
      var last := Moment(base + n - 1, year, month, first + n - 1, dim);
      assert Run(base, year, month, dim, first, n) == init + [last];
      RunIds(base, year, month, dim, first, n - 1);
      IdsSnoc(init, last);
      RangeSnoc(base, n);
    }
  }

  /** ... and `n` distinct dates. */
  lemma {:induction false} RunDays(base: nat, year: int, month: int, dim: int, first: int, n: nat)
    ensures Days(Run(base, year, month, dim, first, n)) == Range(first, n)
    decreases n
  {
    if n > 0 {
      var init := Run(base, year, month, dim, first, n - 1);
      var last := Moment(base + n - 1, year, month, first + n - 1, dim);
      assert Run(base, year, month, dim, first, n) == init + [last];
      RunDays(base, year, month, dim, first, n - 1);
      ImageSnoc(init, last, (m: Moment) => m.day);
      RangeSnoc(first, n);
    }
  }

  // ------------------------------------------------------------ a full year

  /** The lengths of the twelve months of some year. */
  predicate MonthLengths(dims: seq<int>) {
    |dims| == 12 && forall k :: 0 <= k < 12 ==> 28 <= dims[k] <= 31
  }

  /** Every day of month `k` of `year`, one object each. */
  function WholeMonth(year: int, dims: seq<int>, k: int): seq<Moment>
    requires MonthLengths(dims)
    requires 0 <= k < 12
  {
    Run(31 * k, year, k, dims[k], 1, dims[k])
  }

  /** Every day of months `k` .. 11 of `year`, one object each. */
  function {:induction false} WholeYearFrom(year: int, dims: seq<int>, k: nat): (r: seq<Moment>)
    requires MonthLengths(dims)
    ensures forall m :: m in r ==>
      && m.year == year && k <= m.month < 12
      && m.daysInMonth == dims[m.month] && 1 <= m.day <= m.daysInMonth
    decreases 12 - k
  {
    if k >= 12 then []
    else
      var rest := WholeYearFrom(year, dims, k + 1);
      assert forall m :: m in WholeMonth(year, dims, k) ==>
        m.month == k && 1 <= m.day <= m.daysInMonth;
      WholeMonth(year, dims, k) + rest
  }

  /** Every day of `year`, one object each. */
  function WholeYear(year: int, dims: seq<int>): seq<Moment>
    requires MonthLengths(dims)
  {
    WholeYearFrom(year, dims, 0)
  }

  /** One step of `CalendarMonthOfWholeYear`: prepending month `k` adds its
      run to the calendar month `k` and nothing to any other. */
  lemma CalendarMonthStep(year: int, dims: seq<int>, k: nat, month: int)
    requires MonthLengths(dims)
    requires 0 <= month < 12
    requires k < 12
    requires CalendarMonth(WholeYearFrom(year, dims, k + 1), year, month) ==
             if k + 1 <= month then WholeMonth(year, dims, month) else []
    ensures CalendarMonth(WholeYearFrom(year, dims, k), year, month) ==
            if k <= month then WholeMonth(year, dims, month) else []
  {
    var first, rest := WholeMonth(year, dims, k), WholeYearFrom(year, dims, k + 1);
    assert WholeYearFrom(year, dims, k) == first + rest;
    if k == month {
      FilterPrependAll(first, rest, InCalendarMonth(year, month));
      assert first + [] == first;
    } else {
      FilterPrependNone(first, rest, InCalendarMonth(year, month));
    }
  }

  /** The calendar month `month` of months `k` .. 11 is month `month`'s run
      when `k` <= `month`, and empty otherwise. */
  lemma {:induction false} CalendarMonthOfWholeYear(year: int, dims: seq<int>, k: nat, month: int)
    requires MonthLengths(dims)
    requires 0 <= month < 12
    ensures CalendarMonth(WholeYearFrom(year, dims, k), year, month) ==
            if k <= month then WholeMonth(year, dims, month) else []
    decreases 12 - k
  {
    if k < 12 {
      CalendarMonthOfWholeYear(year, dims, k + 1, month);
      CalendarMonthStep(year, dims, k, month);
    } else {
      assert WholeYearFrom(year, dims, k) == [];
    }
  }

  lemma WholeYearIsWellFormed(year: int, dims: seq<int>)
    requires MonthLengths(dims)
    ensures AllValid(WholeYear(year, dims))
    ensures CalendarConsistent(WholeYear(year, dims))
  {
  }

  /** Each entry of a whole year has its month fully listed. */
  lemma WholeYearEntryListed(year: int, dims: seq<int>, m: Moment)
    requires MonthLengths(dims)
    requires m in WholeYear(year, dims)
    ensures ListedIn(WholeYear(year, dims))(m)
  {
    CalendarMonthOfWholeYear(year, dims, 0, m.month);
    RunDays(31 * m.month, year, m.month, dims[m.month], 1, dims[m.month]);
  }

  /** Each month 0 .. 11 occurs in a whole year. */
  lemma WholeYearHasMonth(year: int, dims: seq<int>, k: int)
    requires MonthLengths(dims)
    requires 0 <= k < 12
    ensures k in Months(WholeYear(year, dims))
  {
    var w := WholeYear(year, dims);
    CalendarMonthOfWholeYear(year, dims, 0, k);
    var x := Moment(31 * k, year, k, 1, dims[k]);
    assert x in CalendarMonth(w, year, k);
  }

  /** Every month of a whole year is fully listed, so the corrected months
      filter keeps every entry. */
  lemma WholeYearFullMonths(year: int, dims: seq<int>)
    requires MonthLengths(dims)
    ensures FullMonthsOf(WholeYear(year, dims)) == WholeYear(year, dims)
  {
    var w := WholeYear(year, dims);
    var p := ListedIn(w);
    forall m | m in w
      ensures p(m)
    {
      WholeYearEntryListed(year, dims, m);
    }
    FilterKeepsAll(w, p);
  }

  /** A whole year holds only the months 0 .. 11 ... */
  lemma WholeYearMonthsInRange(year: int, dims: seq<int>)
    requires MonthLengths(dims)
    ensures forall k :: k in Months(WholeYear(year, dims)) ==> 0 <= k < 12
  {
    forall k | k in Months(WholeYear(year, dims))
      ensures 0 <= k < 12
    {
      var x := MonthOwner(WholeYear(year, dims), k);
    }
  }

  /** ... and every one of them. */
  lemma WholeYearHasEveryMonth(year: int, dims: seq<int>)
    requires MonthLengths(dims)
    ensures forall k :: 0 <= k < 12 ==> k in Months(WholeYear(year, dims))
  {
    forall k | 0 <= k < 12
      ensures k in Months(WholeYear(year, dims))
    {
      WholeYearHasMonth(year, dims, k);
    }
  }

  /** All twelve months occur in a whole year. */
  lemma WholeYearMonths(year: int, dims: seq<int>)
    requires MonthLengths(dims)
    ensures |Months(WholeYear(year, dims))| == 12
  {
    WholeYearMonthsInRange(year, dims);
    WholeYearHasEveryMonth(year, dims);
    FullRangeIffSize(Months(WholeYear(year, dims)), 0, 12);
  }

  lemma WholeYearKeptWhenCorrected(year: int, dims: seq<int>)
    requires MonthLengths(dims)
    ensures FullYearsOf(WholeYear(year, dims)) == WholeYear(year, dims)
  {
    var w := WholeYear(year, dims);
    WholeYearFullMonths(year, dims);
    WholeYearMonths(year, dims);
    FilterKeepsAll(w, InYear(year));
    assert forall y :: y in w ==> FullIn(w)(y);
    FilterKeepsAll(w, FullIn(w));
  }

  /** The year-count finding: `getDisabledYears` reports nothing for a year
      every day of which is listed; the corrected filter reports all of it. */
  lemma WholeYearNotReported(year: int, dims: seq<int>)
    requires MonthLengths(dims)
    ensures WholeYear(year, dims) != []
    ensures DisabledYears(Some(WholeYear(year, dims))) == Some([])
    ensures FullYears(Some(WholeYear(year, dims))) == Some(WholeYear(year, dims))
  {
    WholeYearIsWellFormed(year, dims);
    NeverReportsAYear(WholeYear(year, dims));
    WholeYearKeptWhenCorrected(year, dims);
    WholeYearHasMonth(year, dims, 0);
  }

  // ------------------------------------------------------ a padded month

  /** Days 1 .. `dim` - 1 of a month, plus a second, distinct object for the
      1st: `dim` objects, `dim` - 1 dates, the last day missing. */
  function PaddedMonth(year: int, month: int, dim: int): seq<Moment>
    requires 28 <= dim <= 31
  {
    Run(0, year, month, dim, 1, dim - 1) + [Moment(dim - 1, year, month, 1, dim)]
  }

  /** A padded month holds `dim` distinct objects, all of one month ... */
  lemma PaddedMonthIds(year: int, month: int, dim: int)
    requires 28 <= dim <= 31
    ensures |Ids(PaddedMonth(year, month, dim))| == dim
  {
    var run := Run(0, year, month, dim, 1, dim - 1);
    var extra := Moment(dim - 1, year, month, 1, dim);
    assert PaddedMonth(year, month, dim) == run + [extra];
    var ids := Ids(run);
    assert |ids| == dim - 1 && dim - 1 !in ids by {
      RunIds(0, year, month, dim, 1, dim - 1);
    }
    IdsSnoc(run, extra);
  }

  /** ... but only the dates 1 .. `dim` - 1. */
  lemma PaddedMonthDays(year: int, month: int, dim: int)
    requires 28 <= dim <= 31
    ensures Days(PaddedMonth(year, month, dim)) == Range(1, dim - 1)
  {
    var run := Run(0, year, month, dim, 1, dim - 1);
    RunDays(0, year, month, dim, 1, dim - 1);
    ImageSnoc(run, Moment(dim - 1, year, month, 1, dim), (m: Moment) => m.day);
  }

  lemma PaddedMonthShape(year: int, month: int, dim: int)
    requires 28 <= dim <= 31
    ensures forall x :: x in PaddedMonth(year, month, dim) ==>
      x.year == year && x.month == month && x.daysInMonth == dim
  {
    var run := Run(0, year, month, dim, 1, dim - 1);
    assert forall x :: x in PaddedMonth(year, month, dim) ==> x in run || x == Moment(dim - 1, year, month, 1, dim);
  }

  lemma PaddedMonthKeptAsWritten(year: int, month: int, dim: int)
    requires 28 <= dim <= 31
    ensures DisabledMonthsOf(PaddedMonth(year, month, dim)) == PaddedMonth(year, month, dim)
  {
    var p := PaddedMonth(year, month, dim);
    PaddedMonthShape(year, month, dim);
    PaddedMonthIds(year, month, dim);
    FilterKeepsAll(p, InMonth(month));
    assert forall x :: x in p ==> ReportedIn(p)(x);
    FilterKeepsAll(p, ReportedIn(p));
  }

  lemma PaddedMonthDroppedWhenCorrected(year: int, month: int, dim: int)
    requires 28 <= dim <= 31
    ensures FullMonthsOf(PaddedMonth(year, month, dim)) == []
  {
    var p := PaddedMonth(year, month, dim);
    PaddedMonthShape(year, month, dim);
    PaddedMonthDays(year, month, dim);
    FilterKeepsAll(p, InCalendarMonth(year, month));
    assert forall x :: x in p ==> !ListedIn(p)(x);
    FilterKeepsNone(p, ListedIn(p));
  }

  /** The identity finding: `getDisabledMonths` reports the padded month as
      disabled although its last day is not listed; the corrected filter does not. */
  lemma PaddedMonthReported(year: int, month: int, dim: int)
    requires 28 <= dim <= 31
    ensures dim !in Days(PaddedMonth(year, month, dim))
    ensures DisabledMonths(Some(PaddedMonth(year, month, dim))) == Some(PaddedMonth(year, month, dim))
    ensures FullMonths(Some(PaddedMonth(year, month, dim))) == Some([])
  {
    PaddedMonthDays(year, month, dim);
    PaddedMonthKeptAsWritten(year, month, dim);
    PaddedMonthDroppedWhenCorrected(year, month, dim);
  }

  // ------------------------------------------------------ a split month

  /** Days 1 .. `split` of a month in `year` and days `split` + 1 .. `dim` of
      the same month in the next year, distinct objects: `dim` objects in
      one bucket, neither month complete. */
  function SplitMonth(year: int, month: int, dim: int, split: nat): seq<Moment>
    requires 0 < split < dim
  {
    Run(0, year, month, dim, 1, split) + Run(split, year + 1, month, dim, split + 1, dim - split)
  }

  /** Both halves of a split month share one bucket of `dim` distinct objects ... */
  lemma SplitMonthKeptAsWritten(year: int, month: int, dim: int, split: nat)
    requires 0 < split < dim
    ensures DisabledMonthsOf(SplitMonth(year, month, dim, split)) == SplitMonth(year, month, dim, split)
  {
    var a := Run(0, year, month, dim, 1, split);
    var b := Run(split, year + 1, month, dim, split + 1, dim - split);
    var s := SplitMonth(year, month, dim, split);
    RunIds(0, year, month, dim, 1, split);
    RunIds(split, year + 1, month, dim, split + 1, dim - split);
    FilterKeepsAll(a, InMonth(month));
    FilterKeepsAll(b, InMonth(month));
    BucketsPoolAcrossYears(a, b, month);
    PooledBucketSize(a, b, month);
    assert BucketSize(s, month) == dim;
    assert forall x :: x in s ==> x in a || x in b;
    FilterKeepsAll(s, ReportedIn(s));
  }

  /** ... while each calendar month is one half, short of `dim` dates. */
  lemma SplitMonthHalves(year: int, month: int, dim: int, split: nat)
    requires 0 < split < dim
    ensures CalendarMonth(SplitMonth(year, month, dim, split), year, month) ==
            Run(0, year, month, dim, 1, split)
    ensures CalendarMonth(SplitMonth(year, month, dim, split), year + 1, month) ==
            Run(split, year + 1, month, dim, split + 1, dim - split)
  {
    var a := Run(0, year, month, dim, 1, split);
    var b := Run(split, year + 1, month, dim, split + 1, dim - split);
    FilterConcat(a, b, InCalendarMonth(year, month));
    FilterConcat(a, b, InCalendarMonth(year + 1, month));
    FilterKeepsAll(a, InCalendarMonth(year, month));
    FilterKeepsNone(b, InCalendarMonth(year, month));
    FilterKeepsNone(a, InCalendarMonth(year + 1, month));
    FilterKeepsAll(b, InCalendarMonth(year + 1, month));
    assert a + [] == a;
    assert [] + b == b;
  }

  lemma SplitMonthDroppedWhenCorrected(year: int, month: int, dim: int, split: nat)
    requires 0 < split < dim
    ensures FullMonthsOf(SplitMonth(year, month, dim, split)) == []
  {
    var s := SplitMonth(year, month, dim, split);
    SplitMonthHalves(year, month, dim, split);
    RunDays(0, year, month, dim, 1, split);
    RunDays(split, year + 1, month, dim, split + 1, dim - split);
    assert forall x :: x in s ==> !ListedIn(s)(x);
    FilterKeepsNone(s, ListedIn(s));
  }

  /** The bucketing finding: `getDisabledMonths` pools the two halves and
      reports every entry; the corrected filter reports none. */
  lemma SplitMonthReported(year: int, month: int, dim: int, split: nat)
    requires 0 < split < dim
    ensures DisabledMonths(Some(SplitMonth(year, month, dim, split))) == Some(SplitMonth(year, month, dim, split))
    ensures FullMonths(Some(SplitMonth(year, month, dim, split))) == Some([])
  {
    SplitMonthKeptAsWritten(year, month, dim, split);
    SplitMonthDroppedWhenCorrected(year, month, dim, split);
  }
}
