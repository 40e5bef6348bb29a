/** What `getDisabledYears` (src/inputs/shared.tsx:64-87) does, stated about
    the reference filter `DisabledYearsOf`. */
module YearProperties {
  import opened Seqs
  import opened Moments
  import opened DisabledPeriods
  import opened MonthProperties

  /** The result is an order-preserving subsequence of the input. */
  lemma YearsKeepInputOrder(s: seq<Moment>)
    ensures IsSubsequence(DisabledYearsOf(s), s)
    ensures forall y :: y in DisabledYearsOf(s) ==> y in s
  {
    FilterIsSubsequence(s, YearReportedIn(s));
  }

  /** The months filter only ever sees one year, so within a calendar-consistent
      input the days of each of its month buckets agree. */
  lemma YearGroupDaysAgree(s: seq<Moment>, year: int)
    requires CalendarConsistent(s)
    ensures DaysAgreePerMonth(YearGroup(s, year))
  {
  }

  /** On valid, calendar-consistent input the years filter keeps nothing: the
      months filter run on one year returns 0 or at least 28 distinct
      objects, never exactly 12. */
  lemma NeverReportsAYear(s: seq<Moment>)
    requires AllValid(s)
    requires CalendarConsistent(s)
    ensures DisabledYearsOf(s) == []
  {
    forall y | y in s
      ensures !YearReportedIn(s)(y)
    {
      YearGroupDaysAgree(s, y.year);
      ResultHasNoneOrManyObjects(YearGroup(s, y.year));
    }
    FilterKeepsNone(s, YearReportedIn(s));
  }
}
