# Disabled months and years of semantic-ui-calendar-react

This project models, in Dafny, the two disabled-period filters of the calendar
picker's shared input code: `getDisabledMonths` and `getDisabledYears` in
`src/inputs/shared.tsx`. The picker calls them with the list of disabled
dates, as moments, to find the months and years none of whose dates remain
selectable, and greys out those cells of its month and year grids.

- `getDisabledMonths` keeps each moment whose month bucket holds as many
  distinct objects as the moment's month has days.
- `getDisabledYears` runs `getDisabledMonths` on each year's moments. It keeps a
  moment when that call returns exactly twelve distinct objects.

## How the model is built

- `wrappers.dfy`: `Option`. An absent (null or undefined) array is `None`.
- `seqs.dfy`: `Filter`, the model of `Array.prototype.filter`. Also
  subsequences, the image of a function over a sequence, and the facts about
  both that the proofs use.
- `set_facts.dfy`: integer ranges and the cardinality facts that turn "n
  distinct values" into "all n values present".
- `moments.dfy`: the slice of a moment.js `Moment` these filters read. The `id`
  field stands for object identity. Also JavaScript values (`Num` / `Obj`),
  `===` and `indexOf`.
- `disabled_periods.dfy`: the two filters twice over.
  - As pure reference filters: `DisabledMonths` and `DisabledYears`.
  - As methods that follow the JavaScript loop by loop:
    `GetDisabledMonths` and `GetDisabledYears`. These include the
    `checkedMonths` / `checkedYears` guard and the `indexOf` deduplication,
    and are proved equal to the reference filters.
- `month_properties.dfy`, `year_properties.dfy`: what the filters do.
  - Input order is kept.
  - Every occurrence of a kept entry is kept.
  - Buckets ignore the year.
  - Deduplication is by identity.
  - The months filter is idempotent when the days of each month agree.
  - The years filter never keeps anything on real moments.
- `intended.dfy`: the filters as the doc-comments at
  `src/inputs/shared.tsx:25-31` and `:57-63` describe them.
  - A month of a year is disabled when each of its dates is listed.
  - A year is disabled when each of its twelve months is.
- `witnesses.dfy`: one concrete input per finding below. On each, the code as
  written and the corrected filter are proved to disagree.

Where the code and its doc-comments part ways, the model follows the code:

- The doc-comment at `src/inputs/shared.tsx:26-27` asks for months with all
  dates disabled, a calendar notion. The code counts distinct objects instead
  (`indexOf` with `===` at `:43`), so two objects holding one date both count.
- The `checkedMonths` / `checkedYears` guard at `:39` and `:71` evidently means
  to examine each month or year once, which would return one moment per month
  or year. It searches arrays filled with moment objects (`:50`, `:82`) for a
  number, so it never fires, and every entry of a kept month or year is
  returned (`Moments.NumberNeverFoundAmongRefs`).
- The doc-comment at `:58-59` asks for years with all months disabled. The
  code at `:79` keeps a year when the months filter returns twelve distinct
  objects, not twelve distinct months.

## Model

| member | source | states |
|---|---|---|
| DisabledPeriods.GetDisabledMonths | src/inputs/shared.tsx:32-55 | The loop returns nothing exactly for an absent array. Otherwise it returns exactly the reference filter: the guard never skips an entry and the inner `indexOf` loop counts distinct objects. |
| DisabledPeriods.GetDisabledYears | src/inputs/shared.tsx:64-87 | The loop returns nothing exactly for an absent array. Otherwise it returns exactly the reference filter: entries whose year's months-filter result holds exactly 12 distinct objects. |
| DisabledPeriods.UniqueByIdentity | src/inputs/shared.tsx:41-46 | The deduplicated array has one entry per distinct object of the bucket. Every entry is a reference into the bucket, and no two entries are `===`. |
| DisabledPeriods.PushFresh | src/inputs/shared.tsx:43-44 | Pushing a reference `indexOf` did not find adds exactly one new identity and keeps the array free of repeated objects. |
| Seqs.Filter | src/inputs/shared.tsx:40 | `Array.prototype.filter`, as used at `:40` and `:72`: the result is never longer than the input. |
| Seqs.FilterMembership | src/inputs/shared.tsx:40 | The filtered array holds exactly the input elements that pass the test. |
| DisabledPeriods.MonthBucket | src/inputs/shared.tsx:40 | `momentsForMonth` holds exactly the input entries whose `month()` equals the given month, of any year. |
| DisabledPeriods.YearGroup | src/inputs/shared.tsx:72 | The array handed to `getDisabledMonths` holds exactly the input entries whose `year()` equals the given year. |
| Moments.StrictEquals | src/inputs/shared.tsx:39-43 | `===` as used at `:39`, `:43` and `:75`: a number never equals an object, and every value equals itself. |
| DisabledPeriods.DisabledMonths | src/inputs/shared.tsx:33-38 | An absent array gives an absent result, and an empty array gives an empty one. |
| DisabledPeriods.DisabledMonthsOf | src/inputs/shared.tsx:38-50 | The result is no longer than the input. It holds exactly the input entries whose month bucket has as many distinct objects as their month has days. |
| DisabledPeriods.DisabledYears | src/inputs/shared.tsx:65-70 | An absent array gives an absent result, and an empty array gives an empty one. |
| DisabledPeriods.DisabledYearsOf | src/inputs/shared.tsx:70-82 | The result is no longer than the input. It holds exactly the input entries for which the months filter on their year returns 12 distinct objects. |
| Moments.IndexOf | src/inputs/shared.tsx:39 | `indexOf` returns the first position whose value is `===` to the key, and -1 exactly when no position is. |
| Moments.NumberNeverFoundAmongRefs | src/inputs/shared.tsx:39-50 | Searching the `checkedMonths` array, which holds moment objects, for a month number always gives -1. |
| Moments.RefFoundIffSameObject | src/inputs/shared.tsx:43 | Searching an array of moment references for a moment succeeds exactly when the same object is already there, whatever the dates. |
| MonthProperties.MonthsKeepInputOrder | src/inputs/shared.tsx:38-48 | The result is an order-preserving subsequence of the input, so every entry comes from the input. |
| MonthProperties.KeepsEveryOccurrence | src/inputs/shared.tsx:47-50 | A kept entry occurs in the result as often as in the input, and an entry that is not kept does not occur at all. |
| MonthProperties.BucketsPoolAcrossYears | src/inputs/shared.tsx:40 | For any two inputs, the bucket of a month of their concatenation is the two inputs' buckets of that month joined, whatever their years. |
| MonthProperties.PooledBucketSize | src/inputs/shared.tsx:40-46 | When two inputs share no object, the distinct count of a pooled bucket is the sum of the two inputs' counts. |
| MonthProperties.RepeatedReferenceCountsOnce | src/inputs/shared.tsx:42-46 | Adding another reference to an object already in the input changes no bucket's count. |
| MonthProperties.NewObjectCountsAgain | src/inputs/shared.tsx:42-46 | Adding a new object raises its bucket's count by one, even when an entry with the same date is already there. |
| MonthProperties.KeepsWholeBuckets | src/inputs/shared.tsx:38-51 | When entries sharing a month number agree on its length, a kept entry brings its whole bucket with it. |
| MonthProperties.IdempotentWhenDaysAgree | src/inputs/shared.tsx:38-51 | When entries sharing a month number agree on its length, running the months filter on its own result changes nothing. |
| MonthProperties.ResultHasNoneOrManyObjects | src/inputs/shared.tsx:47-50 | On valid moments whose month lengths agree, the result holds no objects at all or at least 28 distinct ones. |
| YearProperties.YearsKeepInputOrder | src/inputs/shared.tsx:70-83 | The years result is an order-preserving subsequence of the input. |
| YearProperties.YearGroupDaysAgree | src/inputs/shared.tsx:72 | One year's entries of calendar-consistent input agree on each month's length. |
| YearProperties.NeverReportsAYear | src/inputs/shared.tsx:72-80 | On valid, calendar-consistent moments the years filter returns the empty sequence, because 12 distinct objects is never a possible count. |
| Intended.FullMonthMeansEveryDay | src/inputs/shared.tsx:25-31 | On valid, calendar-consistent input, the corrected months filter keeps an entry exactly when every day 1..`daysInMonth` of its month of its year is listed. |
| Intended.FullYearMeansEveryMonth | src/inputs/shared.tsx:57-63 | On valid input, the corrected years filter keeps an entry exactly when, for each month 0..11 of its year, the corrected months filter keeps some entry of that month. |
| Intended.MonthIsFullWithinYear | src/inputs/shared.tsx:72 | Restricting to one year before running the corrected months filter keeps exactly the full months of that year. |
| Witnesses.WholeYearNotReported | src/inputs/shared.tsx:79 | For every day of a year, one object each: `getDisabledYears` returns the empty result, while the corrected years filter returns every entry. |
| Witnesses.PaddedMonthReported | src/inputs/shared.tsx:42-47 | A month with its last date missing and its 1st listed twice, as two objects: `getDisabledMonths` keeps every entry, while the corrected months filter keeps none. |
| Witnesses.SplitMonthReported | src/inputs/shared.tsx:40 | One month number with its first days in one year and the rest in the next: `getDisabledMonths` keeps every entry, while the corrected months filter keeps none. |

## Left out

- The `get*View` functions (`src/inputs/shared.tsx:89-194`): prop forwarding into view components that are not part of this model. They hold no logic beyond merging props.
- moment.js itself: `year()`, `month()`, `date()` and `daysInMonth()` are fields of the `Moment` record. Calendar arithmetic is not modelled.
  - `Valid` states the ranges moment.js guarantees.
  - `CalendarConsistent` states that real moments of the same year and month agree on its length.
- Object identity is the `id` field. Two moments with the same `id` are taken to be the same object and so to carry the same date. Nothing in the model relies on this beyond `===`.
- `undefined` and `null` inputs are both `None`. The JavaScript returns `undefined` for both.
- Rendering, the host component's view state and localization do not appear in the modelled functions.

## Findings

| source | as written | input that shows it | evidently intended | confidence | as-written member | corrected member |
|---|---|---|---|---|---|---|
| src/inputs/shared.tsx:79 | The year is kept when the months filter's result for the year holds 12 distinct moment objects. A kept month contributes at least 28 objects, so this never holds. | Every day of 2023, one moment object per day (365 objects). | Keep the year when all 12 of its months are disabled: count distinct months, not objects. | medium; not executed | Witnesses.WholeYearNotReported | Intended.FullYearMeansEveryMonth |
| src/inputs/shared.tsx:42-47 | The bucket is deduplicated with `indexOf`, so two objects holding the same date both count. | February 2023 as separate objects for the 1st to the 27th, plus a second object for the 1st: 28 objects, 27 dates, the 28th missing. | Count distinct dates, so a month is disabled only when each of its days is listed. | high; not executed | Witnesses.PaddedMonthReported | Intended.FullMonthMeansEveryDay |
| src/inputs/shared.tsx:40 | Entries are bucketed by `month()` alone, so the same month of different years pools into one bucket. | January 1-15 of 2023 and January 16-31 of 2024, one object each: 31 objects in one bucket, neither January complete. | Bucket by year and month together. | medium; not executed | Witnesses.SplitMonthReported | Intended.FullMonthMeansEveryDay |
