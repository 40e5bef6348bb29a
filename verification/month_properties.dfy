/** What `getDisabledMonths` (src/inputs/shared.tsx:32-55) does, stated
    about the reference filter `DisabledMonthsOf`: which entries it keeps,
    in which order and how often, how its buckets are formed, and when
    running it twice changes nothing. */
module MonthProperties {
  import opened Seqs
  import opened SetFacts
  import opened Moments
  import opened DisabledPeriods

  /** The result is an order-preserving subsequence of the input. */
  lemma MonthsKeepInputOrder(s: seq<Moment>)
    ensures IsSubsequence(DisabledMonthsOf(s), s)
    ensures forall m :: m in DisabledMonthsOf(s) ==> m in s
  {
    FilterIsSubsequence(s, ReportedIn(s));
  }

  /** Every occurrence of a kept entry is kept, so a reference repeated in the
      input is repeated in the result; an entry that is not kept does not
      occur at all. No entry stands in for its month. */
  lemma KeepsEveryOccurrence(s: seq<Moment>, m: Moment)
    ensures multiset(DisabledMonthsOf(s))[m] ==
            if MonthReported(s, m) then multiset(s)[m] else 0
  {
    FilterMultiplicity(s, ReportedIn(s), m);
  }

  /** Buckets are formed by `month()` alone: the entries of two inputs that
      share a month number pool into one bucket whatever their years. */
  lemma BucketsPoolAcrossYears(a: seq<Moment>, b: seq<Moment>, month: int)
    ensures MonthBucket(a + b, month) == MonthBucket(a, month) + MonthBucket(b, month)
  {
    FilterConcat(a, b, InMonth(month));
  }

  /** When two inputs share no object, the distinct counts of their pooled
      buckets add up. */
  lemma PooledBucketSize(a: seq<Moment>, b: seq<Moment>, month: int)
    requires Ids(a) !! Ids(b)
    ensures BucketSize(a + b, month) == BucketSize(a, month) + BucketSize(b, month)
  {
    BucketsPoolAcrossYears(a, b, month);
    var ba, bb := MonthBucket(a, month), MonthBucket(b, month);
    IdsConcat(ba, bb);
    IdsMonotonic(ba, a);
    IdsMonotonic(bb, b);
    assert Ids(ba) * Ids(bb) == {};
  }

  /** Deduplication is by identity: adding a reference to an object already
      in the input leaves every bucket's count unchanged. */
  lemma RepeatedReferenceCountsOnce(s: seq<Moment>, m: Moment, month: int)
    requires m in s
    ensures BucketSize(s + [m], month) == BucketSize(s, month)
  {
    var bucket := MonthBucket(s, month);
    FilterSnoc(s, m, InMonth(month));
    if m.month == month {
      IdsSnoc(bucket, m);
      assert m in bucket;
      assert Ids(bucket) + {m.id} == Ids(bucket);
    }
  }

  /** Deduplication is by identity: adding a new object raises its bucket's
      count by one even when an entry with the same date is already there. */
  lemma NewObjectCountsAgain(s: seq<Moment>, m: Moment)
    requires m.id !in Ids(s)
    ensures BucketSize(s + [m], m.month) == BucketSize(s, m.month) + 1
  {
    FilterSnoc(s, m, InMonth(m.month));
    IdsSnoc(MonthBucket(s, m.month), m);
    IdsMonotonic(MonthBucket(s, m.month), s);
  }

  /** All entries with the same month number report the same number of days,
      as they do when the input lies in a single year. */
  predicate DaysAgreePerMonth(s: seq<Moment>) {
    forall a, b :: a in s && b in s && a.month == b.month ==> a.daysInMonth == b.daysInMonth
  }

  /** When the days of a month agree, a kept entry brings its whole bucket
      with it. */
  lemma {:induction false} KeepsWholeBuckets(s: seq<Moment>, m: Moment)
    requires DaysAgreePerMonth(s)
    requires m in DisabledMonthsOf(s)
    ensures MonthBucket(DisabledMonthsOf(s), m.month) == MonthBucket(s, m.month)
  {
    var bucket := MonthBucket(s, m.month);
    FilterCommutes(s, ReportedIn(s), InMonth(m.month));
    assert forall x :: x in bucket ==> ReportedIn(s)(x);
    FilterKeepsAll(bucket, ReportedIn(s));
  }

  /** When the days of a month agree, filtering a second time changes nothing. */
  lemma {:induction false} IdempotentWhenDaysAgree(s: seq<Moment>)
    requires DaysAgreePerMonth(s)
    ensures DisabledMonthsOf(DisabledMonthsOf(s)) == DisabledMonthsOf(s)
  {
    var r := DisabledMonthsOf(s);
    forall m | m in r
      ensures ReportedIn(r)(m)
    {
      KeepsWholeBuckets(s, m);
    }
    FilterKeepsAll(r, ReportedIn(r));
  }

  /** When the days of a month agree and every entry is a valid moment, the
      result holds no objects at all or at least 28 distinct ones: a kept
      month contributes its whole bucket, which holds `daysInMonth` >= 28
      distinct objects. */
  lemma {:induction false} ResultHasNoneOrManyObjects(s: seq<Moment>)
    requires AllValid(s)
    requires DaysAgreePerMonth(s)
    ensures |Ids(DisabledMonthsOf(s))| == 0 || |Ids(DisabledMonthsOf(s))| >= 28
  {
    var r := DisabledMonthsOf(s);
    if r != [] {
      var m := r[0];
      KeepsWholeBuckets(s, m);
      var bucket := MonthBucket(r, m.month);
      IdsMonotonic(bucket, r);
      SubsetSize(Ids(bucket), Ids(r));
    }
  }
}
