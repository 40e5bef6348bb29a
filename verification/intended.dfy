/** The disabled-period filters as their doc-comments describe them
    (src/inputs/shared.tsx:25-31 and 57-63): a month is disabled when every
    one of its days is listed, a year when every one of its twelve months is.

    They differ from the code in three places, each recorded as a finding:
    a month is the pair (year, month) rather than the month number alone,
    days are counted by date rather than by object, and a year counts its
    distinct disabled months rather than the objects the months filter
    returns. */
module Intended {
  import opened Wrappers
  import opened Seqs
  import opened SetFacts
  import opened Moments
  import opened DisabledPeriods

  function InCalendarMonth(year: int, month: int): Moment -> bool {
    (m: Moment) => m.year == year && m.month == month
  }

  /** The entries of one month of one year. */
  function CalendarMonth(s: seq<Moment>, year: int, month: int): (r: seq<Moment>)
    ensures forall m :: m in r <==> m in s && m.year == year && m.month == month
  {
    FilterMembership(s, InCalendarMonth(year, month));
    Filter(s, InCalendarMonth(year, month))
  }

  /** Whether the month of `m` has as many distinct dates listed as it has days. */
  predicate EveryDayListed(s: seq<Moment>, m: Moment) {
    |Days(CalendarMonth(s, m.year, m.month))| == m.daysInMonth
  }

  function ListedIn(s: seq<Moment>): Moment -> bool {
    (m: Moment) => EveryDayListed(s, m)
  }

  /** The corrected months filter: the entries whose month is fully listed. */
  function FullMonthsOf(s: seq<Moment>): (r: seq<Moment>)
    ensures |r| <= |s|
    ensures forall m :: m in r <==> m in s && EveryDayListed(s, m)
  {
    FilterMembership(s, ListedIn(s));
    Filter(s, ListedIn(s))
  }

  function FullMonths(moments: Option<seq<Moment>>): (r: Option<seq<Moment>>)
    ensures r.None? <==> moments.None?
    ensures moments == Some([]) ==> r == Some([])
  {
    match moments
    case None => None
    case Some(s) => Some(FullMonthsOf(s))
  }

  /** Whether the corrected months filter, run on the year of `y`, returns
      entries of twelve distinct months. */
  predicate EveryMonthFull(s: seq<Moment>, y: Moment) {
    |Months(FullMonthsOf(YearGroup(s, y.year)))| == 12
  }

  function FullIn(s: seq<Moment>): Moment -> bool {
    (y: Moment) => EveryMonthFull(s, y)
  }

  /** The corrected years filter. */
  function FullYearsOf(s: seq<Moment>): (r: seq<Moment>)
    ensures |r| <= |s|
    ensures forall y :: y in r <==> y in s && EveryMonthFull(s, y)
  {
    FilterMembership(s, FullIn(s));
    Filter(s, FullIn(s))
  }

  function FullYears(moments: Option<seq<Moment>>): (r: Option<seq<Moment>>)
    ensures r.None? <==> moments.None?
    ensures moments == Some([]) ==> r == Some([])
  {
    match moments
    case None => None
    case Some(s) => Some(FullYearsOf(s))
  }

  /** On valid, calendar-consistent input the corrected months filter keeps
      an entry exactly when every day 1 .. `daysInMonth` of its month of its
      year is listed. */
  lemma FullMonthMeansEveryDay(s: seq<Moment>, m: Moment)
    requires AllValid(s)
    requires CalendarConsistent(s)
    requires m in s
    ensures m in FullMonthsOf(s) <==>
            forall d :: 1 <= d <= m.daysInMonth ==> d in Days(CalendarMonth(s, m.year, m.month))
  {
    var month := CalendarMonth(s, m.year, m.month);
    forall d | d in Days(month)
      ensures 1 <= d < 1 + m.daysInMonth
    {
      var x := DayOwner(month, d);
    }
    FullRangeIffSize(Days(month), 1, m.daysInMonth);
  }

  /** Restricting to a year before picking one of its months changes nothing. */
  lemma CalendarMonthWithinYear(s: seq<Moment>, year: int, month: int)
    ensures CalendarMonth(YearGroup(s, year), year, month) == CalendarMonth(s, year, month)
  {
    FilterCommutes(s, InYear(year), InCalendarMonth(year, month));
    FilterKeepsAll(CalendarMonth(s, year, month), InYear(year));
  }

  /** An entry of year `year` is kept by the corrected months filter whether
      it runs on the whole input or on that year alone. */
  lemma ListedWithinYear(s: seq<Moment>, m: Moment)
    ensures m in s ==> (m in FullMonthsOf(YearGroup(s, m.year)) <==> m in FullMonthsOf(s))
  {
    CalendarMonthWithinYear(s, m.year, m.month);
  }

  /** Some entry of month `month` of year `year` is kept by the corrected
      months filter. */
  predicate MonthIsFull(s: seq<Moment>, year: int, month: int) {
    exists m :: m in FullMonthsOf(s) && m.year == year && m.month == month
  }

  lemma MonthIsFullWithinYear(s: seq<Moment>, year: int, month: int)
    ensures month in Months(FullMonthsOf(YearGroup(s, year))) <==> MonthIsFull(s, year, month)
  {
    var full := FullMonthsOf(YearGroup(s, year));
    if month in Months(full) {
      var m := MonthOwner(full, month);
      ListedWithinYear(s, m);
      assert m in FullMonthsOf(s) && m.year == year && m.month == month;
    }
    if MonthIsFull(s, year, month) {
      var m :| m in FullMonthsOf(s) && m.year == year && m.month == month;
      ListedWithinYear(s, m);
      assert m in full;
    }
  }

  /** On valid input the corrected years filter keeps an entry exactly when,
      for every month 0 .. 11 of its year, the corrected months filter keeps
      some entry of that month. */
  lemma FullYearMeansEveryMonth(s: seq<Moment>, y: Moment)
    requires AllValid(s)
    requires y in s
    ensures y in FullYearsOf(s) <==> forall k :: 0 <= k < 12 ==> MonthIsFull(s, y.year, k)
  {
    var full := FullMonthsOf(YearGroup(s, y.year));
    var months := Months(full);
    assert |months| == 12 <==> forall k :: 0 <= k < 12 ==> k in months by {
      forall k | k in months
        ensures 0 <= k < 12
      {
        var x := MonthOwner(full, k);
      }
      FullRangeIffSize(months, 0, 12);
    }
    forall k | 0 <= k < 12
      ensures k in months <==> MonthIsFull(s, y.year, k)
    {
      MonthIsFullWithinYear(s, y.year, k);
    }
  }
}
