/** `getDisabledMonths` and `getDisabledYears` of src/inputs/shared.tsx.

    Each is given twice: once as a filter over the input (the reference
    definition, `DisabledMonths` and `DisabledYears`), and once as a method
    that follows the JavaScript loop by loop, including its `checkedMonths` /
    `checkedYears` guard and its `indexOf` deduplication, proved equal to the
    reference. */
module DisabledPeriods {
  import opened Wrappers
  import opened Seqs
  import opened Moments

  function InMonth(month: int): Moment -> bool {
    (m: Moment) => m.month == month
  }

  function InYear(year: int): Moment -> bool {
    (m: Moment) => m.year == year
  }

  /** `momentsForMonth`: every entry of the input whose `month()` is `month`,
      whatever its year. */
  function MonthBucket(s: seq<Moment>, month: int): (r: seq<Moment>)
    ensures forall m :: m in r <==> m in s && m.month == month
  {
    FilterMembership(s, InMonth(month));
    Filter(s, InMonth(month))
  }

  /** The length of `momentsForMonthUniq`: how many distinct objects the
      bucket of `month` holds. */
  function BucketSize(s: seq<Moment>, month: int): nat {
    |Ids(MonthBucket(s, month))|
  }

  /** Whether `getDisabledMonths` keeps the entry `m` of `s`. */
  predicate MonthReported(s: seq<Moment>, m: Moment) {
    BucketSize(s, m.month) == m.daysInMonth
  }

  function ReportedIn(s: seq<Moment>): Moment -> bool {
    (m: Moment) => MonthReported(s, m)
  }

  /** The result of `getDisabledMonths` on a non-null array. */
  function DisabledMonthsOf(s: seq<Moment>): (r: seq<Moment>)
    ensures |r| <= |s|
    ensures forall m :: m in r <==> m in s && MonthReported(s, m)
  {
    FilterMembership(s, ReportedIn(s));
    Filter(s, ReportedIn(s))
  }

  /** `getDisabledMonths`: nothing for a missing array, the filtered array otherwise. */
  function DisabledMonths(moments: Option<seq<Moment>>): (r: Option<seq<Moment>>)
    ensures r.None? <==> moments.None?
    ensures moments == Some([]) ==> r == Some([])
  {
    match moments
    case None => None
    case Some(s) => Some(DisabledMonthsOf(s))
  }

  /** `moments.filter(...)` at the call into `getDisabledMonths`: every entry
      of the input whose `year()` is `year`. */
  function YearGroup(s: seq<Moment>, year: int): (r: seq<Moment>)
    ensures forall m :: m in r <==> m in s && m.year == year
  {
    FilterMembership(s, InYear(year));
    Filter(s, InYear(year))
  }

  /** Whether `getDisabledYears` keeps the entry `y` of `s`: the months filter
      run on `y`'s year returns exactly twelve distinct objects. */
  predicate YearReported(s: seq<Moment>, y: Moment) {
    |Ids(DisabledMonthsOf(YearGroup(s, y.year)))| == 12
  }

  function YearReportedIn(s: seq<Moment>): Moment -> bool {
    (y: Moment) => YearReported(s, y)
  }

  /** The result of `getDisabledYears` on a non-null array. */
  function DisabledYearsOf(s: seq<Moment>): (r: seq<Moment>)
    ensures |r| <= |s|
    ensures forall y :: y in r <==> y in s && YearReported(s, y)
  {
    FilterMembership(s, YearReportedIn(s));
    Filter(s, YearReportedIn(s))
  }

  /** `getDisabledYears`: nothing for a missing array, the filtered array otherwise. */
  function DisabledYears(moments: Option<seq<Moment>>): (r: Option<seq<Moment>>)
    ensures r.None? <==> moments.None?
    ensures moments == Some([]) ==> r == Some([])
  {
    match moments
    case None => None
    case Some(s) => Some(DisabledYearsOf(s))
  }

  /** The inner loop that fills `momentsForMonthUniq` (and, in the years
      filter, `momentsForYearUniq`): push each reference that `indexOf` does
      not find yet. The result holds one reference per distinct object. */
  method UniqueByIdentity(xs: seq<Moment>) returns (uniq: seq<JsVal>)
    ensures |uniq| == |Ids(xs)|
    ensures forall v :: v in uniq ==> v.Obj? && v.ref in xs
    ensures forall i, j :: 0 <= i < j < |uniq| ==> !StrictEquals(uniq[i], uniq[j])
  {
    uniq := [];
    ghost var kept: seq<Moment> := [];
    for k := 0 to |xs|
      invariant uniq == Refs(kept)
      invariant forall m :: m in kept ==> m in xs
      invariant Ids(kept) == Ids(xs[..k])
      invariant DistinctIds(kept)
    {
      var m := xs[k];
      assert Ids(xs[..k + 1]) == Ids(xs[..k]) + {m.id} by {
        assert xs[..k + 1] == xs[..k] + [m];
        IdsSnoc(xs[..k], m);
      }
      if IndexOf(uniq, Obj(m)) < 0 {
        PushFresh(kept, m);
        uniq := uniq + [Obj(m)];
        kept := kept + [m];
      } else {
        RefFoundIffSameObject(kept, m);
      }
    }
    assert xs[..|xs|] == xs;
    DistinctIdsCount(kept);
  }

  /** One push onto `momentsForMonthUniq`: a reference `indexOf` did not find
      adds one new identity. */
  lemma PushFresh(kept: seq<Moment>, m: Moment)
    requires IndexOf(Refs(kept), Obj(m)) < 0
    requires DistinctIds(kept)
    ensures Refs(kept + [m]) == Refs(kept) + [Obj(m)]
    ensures Ids(kept + [m]) == Ids(kept) + {m.id}
    ensures DistinctIds(kept + [m])
  {
    var pushed := kept + [m];
    assert pushed[..|pushed| - 1] == kept;
    RefFoundIffSameObject(kept, m);
    IdsSnoc(kept, m);
    assert Refs(pushed) == Refs(kept) + [Obj(m)];
  }

  /** `getDisabledMonths` as written: scan the input, skip an entry when
      `checkedMonths.indexOf(m.month())` finds something, otherwise bucket
      by `month()`, deduplicate by identity and keep the entry when the
      count equals its `daysInMonth()`. */
  method GetDisabledMonths(moments: Option<seq<Moment>>) returns (r: Option<seq<Moment>>)
    ensures r.None? <==> moments.None?
    ensures r == DisabledMonths(moments)
  {
    if moments.None? {
      return None;
    }
    var s := moments.value;
    var disabledMonths: seq<Moment> := [];
    var checkedMonths: seq<JsVal> := [];
    for i := 0 to |s|
      invariant checkedMonths == Refs(s[..i])
      invariant disabledMonths == Filter(s[..i], ReportedIn(s))
    {
      var m := s[i];
      FilterPrefixStep(s, i, ReportedIn(s));
      RefsPrefixStep(s, i);
      NumberNeverFoundAmongRefs(s[..i], m.month);
      if IndexOf(checkedMonths, Num(m.month)) < 0 {
        var momentsForMonth := MonthBucket(s, m.month);
        var momentsForMonthUniq := UniqueByIdentity(momentsForMonth);
        if |momentsForMonthUniq| == m.daysInMonth {
          disabledMonths := disabledMonths + [m];
        }
        checkedMonths := checkedMonths + [Obj(m)];
      }
    }
    assert s[..|s|] == s;
    return Some(disabledMonths);
  }

  /** `getDisabledYears` as written: scan the input, skip an entry when
      `checkedYears.indexOf(y.year())` finds something, otherwise run the
      months filter on the entries of that year, deduplicate its result by
      identity and keep the entry when the count is 12. */
  method GetDisabledYears(moments: Option<seq<Moment>>) returns (r: Option<seq<Moment>>)
    ensures r.None? <==> moments.None?
    ensures r == DisabledYears(moments)
  {
    if moments.None? {
      return None;
    }
    var s := moments.value;
    var disabledYears: seq<Moment> := [];
    var checkedYears: seq<JsVal> := [];
    for i := 0 to |s|
      invariant checkedYears == Refs(s[..i])
      invariant disabledYears == Filter(s[..i], YearReportedIn(s))
    {
      var y := s[i];
      FilterPrefixStep(s, i, YearReportedIn(s));
      RefsPrefixStep(s, i);
      NumberNeverFoundAmongRefs(s[..i], y.year);
      if IndexOf(checkedYears, Num(y.year)) < 0 {
        var momentsForYear := GetDisabledMonths(Some(YearGroup(s, y.year)));
        var momentsForYearUniq := UniqueByIdentity(momentsForYear.value);
        assert momentsForYear.value == DisabledMonthsOf(YearGroup(s, y.year));
        assert YearReportedIn(s)(y) <==> |momentsForYearUniq| == 12;
        if |momentsForYearUniq| == 12 {
          disabledYears := disabledYears + [y];
        }
        checkedYears := checkedYears + [Obj(y)];
      }
    }
    assert s[..|s|] == s;
    return Some(disabledYears);
  }
}
