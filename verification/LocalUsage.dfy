/**
 * Usage totals by period and the daily and weekly series: rows are folded into day buckets, day
 * buckets into week buckets, and each series is sorted by its key. Quantities are exact.
 */
module LocalUsage {
  import opened Calendar
  import opened Sequences

  datatype Bucket = Bucket(generated: real, cache: real, cost: real)

  datatype Field = Generated | Cache | Cost

  // A row, or an entry of a Map of buckets.
  datatype Entry = Entry(date: Date, bucket: Bucket)

  function Amount(b: Bucket, field: Field): real {
    match field case Generated => b.generated case Cache => b.cache case Cost => b.cost
  }

  function Add(a: Bucket, b: Bucket): Bucket {
    Bucket(a.generated + b.generated, a.cache + b.cache, a.cost + b.cost)
  }

  ghost predicate ValidDates(entries: seq<Entry>) {
    forall i :: 0 <= i < |entries| ==> Valid(entries[i].date)
  }

  // ----- sums -----

  // The filter-and-reduce over one field of the rows whose day satisfies p.
  function Sum(entries: seq<Entry>, p: Date -> bool, field: Field): real {
    if entries == [] then 0.0
    else (if p(entries[0].date) then Amount(entries[0].bucket, field) else 0.0) + Sum(entries[1..], p, field)
  }

  lemma {:induction false} SumConcat(a: seq<Entry>, b: seq<Entry>, p: Date -> bool, field: Field)
    ensures Sum(a + b, p, field) == Sum(a, p, field) + Sum(b, p, field)
  {
    if a == [] {
      assert a + b == b;
    } else {
      assert (a + b)[1..] == a[1..] + b;
      SumConcat(a[1..], b, p, field);
    }
  }

  lemma {:induction false} SumSame(entries: seq<Entry>, p: Date -> bool, q: Date -> bool, field: Field)
    requires forall i :: 0 <= i < |entries| ==> p(entries[i].date) == q(entries[i].date)
    ensures Sum(entries, p, field) == Sum(entries, q, field)
  {
    if entries != [] {
      SumSame(entries[1..], p, q, field);
    }
  }

  // ----- Maps of buckets, in insertion order -----

  function AddTo(buckets: seq<Entry>, date: Date, b: Bucket): seq<Entry> {
    if buckets == [] then [Entry(date, b)]
    else if buckets[0].date == date then [Entry(date, Add(buckets[0].bucket, b))] + buckets[1..]
    else [buckets[0]] + AddTo(buckets[1..], date, b)
  }

  function Sole(date: Date, b: Bucket, p: Date -> bool, field: Field): real {
    if p(date) then Amount(b, field) else 0.0
  }

  lemma {:induction false} AddToSum(buckets: seq<Entry>, date: Date, b: Bucket, p: Date -> bool, field: Field)
    ensures Sum(AddTo(buckets, date, b), p, field) == Sum(buckets, p, field) + Sole(date, b, p, field)
  {
    if buckets == [] {
      assert [Entry(date, b)][1..] == [];
    } else if buckets[0].date == date {
      assert AddTo(buckets, date, b)[1..] == buckets[1..];
    } else {
      AddToSum(buckets[1..], date, b, p, field);
      assert AddTo(buckets, date, b)[1..] == AddTo(buckets[1..], date, b);
    }
  }

  function DateOf(): Entry -> Date {
    (e: Entry) => e.date
  }

  ghost predicate DistinctKeys(buckets: seq<Entry>) {
    DistinctBy(buckets, DateOf())
  }

  ghost predicate HasKey(buckets: seq<Entry>, date: Date) {
    exists i :: 0 <= i < |buckets| && buckets[i].date == date
  }

  lemma {:induction false} AddToKeys(buckets: seq<Entry>, date: Date, b: Bucket)
    ensures forall d :: HasKey(AddTo(buckets, date, b), d) ==> d == date || HasKey(buckets, d)
    ensures DistinctKeys(buckets) ==> DistinctKeys(AddTo(buckets, date, b))
  {
    if buckets != [] && buckets[0].date != date {
      AddToKeys(buckets[1..], date, b);
      var rest, more := buckets[1..], AddTo(buckets[1..], date, b);
      forall d | HasKey(more, d)
        ensures d == date || HasKey(buckets, d)
      {
        if d != date {
          var i :| 0 <= i < |rest| && rest[i].date == d;
          assert buckets[i + 1].date == d;
        }
      }
      if DistinctKeys(buckets) {
        forall j | 0 <= j < |more|
          ensures more[j].date != buckets[0].date
        {
          assert HasKey(more, more[j].date);
          if more[j].date != date {
            var i :| 0 <= i < |rest| && rest[i].date == more[j].date;
            assert buckets[i + 1].date == more[j].date;
          }
        }
      }
    }
  }

  // ----- the two folds -----

  function DayBuckets(rows: seq<Entry>): seq<Entry> {
    if rows == [] then []
    else AddTo(DayBuckets(rows[..|rows| - 1]), rows[|rows| - 1].date, rows[|rows| - 1].bucket)
  }

  function WeekBuckets(days: seq<Entry>): seq<Entry>
    requires forall i :: 0 <= i < |days| ==> Valid(days[i].date)
  {
    if days == [] then []
    else AddTo(WeekBuckets(days[..|days| - 1]), StartOfWeek(days[|days| - 1].date), days[|days| - 1].bucket)
  }

  lemma SumLast(entries: seq<Entry>, p: Date -> bool, field: Field)
    requires entries != []
    ensures Sum(entries, p, field) ==
              Sum(entries[..|entries| - 1], p, field)
              + Sole(entries[|entries| - 1].date, entries[|entries| - 1].bucket, p, field)
  {
    var last := entries[|entries| - 1];
    assert entries == entries[..|entries| - 1] + [last];
    SumConcat(entries[..|entries| - 1], [last], p, field);
    assert [last][1..] == [];
  }

  // Day buckets lose nothing: every sum over days is the same over buckets and rows.
  lemma {:induction false} DayBucketsSum(rows: seq<Entry>, p: Date -> bool, field: Field)
    ensures Sum(DayBuckets(rows), p, field) == Sum(rows, p, field)
  {
    if rows != [] {
      DayBucketsSum(rows[..|rows| - 1], p, field);
      AddToSum(DayBuckets(rows[..|rows| - 1]), rows[|rows| - 1].date, rows[|rows| - 1].bucket, p, field);
      SumLast(rows, p, field);
    }
  }

  lemma {:induction false} DayBucketsKeys(rows: seq<Entry>)
    ensures DistinctKeys(DayBuckets(rows))
    ensures ValidDates(rows) ==> ValidDates(DayBuckets(rows))
  {
    if rows != [] {
      var front, last := rows[..|rows| - 1], rows[|rows| - 1];
      DayBucketsKeys(front);
      AddToKeys(DayBuckets(front), last.date, last.bucket);
      assert ValidDates(rows) ==> ValidDates(front) && Valid(last.date);
      forall i | 0 <= i < |DayBuckets(rows)| && ValidDates(rows)
        ensures Valid(DayBuckets(rows)[i].date)
      {
        assert HasKey(DayBuckets(rows), DayBuckets(rows)[i].date);
      }
    }
  }

  // A test on weeks, asked of a day.
  ghost function OnWeekOf(q: Date -> bool): Date -> bool {
    d => Valid(d) && q(StartOfWeek(d))
  }

  // Nor do week buckets: a sum over weeks is the sum over the days of those weeks.
  lemma {:induction false} WeekBucketsSum(days: seq<Entry>, q: Date -> bool, field: Field)
    requires ValidDates(days)
    ensures Sum(WeekBuckets(days), q, field) == Sum(days, OnWeekOf(q), field)
  {
    if days != [] {
      var front, last := days[..|days| - 1], days[|days| - 1];
      assert Valid(last.date);
      WeekBucketsSum(front, q, field);
      AddToSum(WeekBuckets(front), StartOfWeek(last.date), last.bucket, q, field);
      SumLast(days, OnWeekOf(q), field);
    }
  }

  lemma {:induction false} WeekBucketsKeys(days: seq<Entry>)
    requires ValidDates(days)
    ensures DistinctKeys(WeekBuckets(days))
    ensures forall i :: 0 <= i < |WeekBuckets(days)| ==>
              Valid(WeekBuckets(days)[i].date) && WeekDay(WeekBuckets(days)[i].date) == 1
  {
    if days != [] {
      var front, last := days[..|days| - 1], days[|days| - 1];
      assert Valid(last.date);
      WeekBucketsKeys(front);
      StartOfWeekIsMonday(last.date);
      AddToKeys(WeekBuckets(front), StartOfWeek(last.date), last.bucket);
      forall i | 0 <= i < |WeekBuckets(days)|
        ensures Valid(WeekBuckets(days)[i].date) && WeekDay(WeekBuckets(days)[i].date) == 1
      {
        assert HasKey(WeekBuckets(days), WeekBuckets(days)[i].date);
      }
    }
  }

  // ----- the series, sorted by key -----

  // The key sorts by date; it is asked of valid dates only.
  function DayOf(): Entry -> int {
    (e: Entry) => if 1 <= e.date.month <= 12 then DayNumber(e.date) else 0
  }

  function SortByDate(s: seq<Entry>): seq<Entry> {
    StableSort(s, DayOf())
  }

  lemma {:induction false} InsertSum(e: Entry, s: seq<Entry>, p: Date -> bool, field: Field)
    ensures Sum(Insert(e, s, DayOf()), p, field) == Sole(e.date, e.bucket, p, field) + Sum(s, p, field)
  {
    if s == [] || DayOf()(e) <= DayOf()(s[0]) {
      assert ([e] + s)[1..] == s;
    } else {
      InsertSum(e, s[1..], p, field);
      assert Insert(e, s, DayOf())[1..] == Insert(e, s[1..], DayOf());
    }
  }

  lemma {:induction false} SortByDateSum(s: seq<Entry>, p: Date -> bool, field: Field)
    ensures Sum(SortByDate(s), p, field) == Sum(s, p, field)
  {
    if s != [] {
      SortByDateSum(s[1..], p, field);
      InsertSum(s[0], SortByDate(s[1..]), p, field);
    }
  }

  ghost predicate Increasing(s: seq<Entry>) {
    forall i, j :: 0 <= i < j < |s| ==> Earlier(s[i].date, s[j].date)
  }

  lemma SortByDateSorts(s: seq<Entry>)
    requires DistinctKeys(s) && ValidDates(s)
    ensures Increasing(SortByDate(s))
    ensures forall x :: x in SortByDate(s) <==> x in s
  {
    var sorted := SortByDate(s);
    StableSortSorts(s, DayOf());
    SameElements(sorted, s);
    SortKeepsDistinct(s, DayOf(), DateOf());
    forall i, j | 0 <= i < j < |sorted|
      ensures Earlier(sorted[i].date, sorted[j].date)
    {
      assert sorted[i] in s && sorted[j] in s;
      assert DayOf()(sorted[i]) <= DayOf()(sorted[j]);
      assert DateOf()(sorted[i]) != DateOf()(sorted[j]);
      DayNumberOrders(sorted[i].date, sorted[j].date);
    }
  }

  // ----- usageStats -----

  datatype Stats = Stats(
    today: Bucket,
    week: Bucket,
    month: Bucket,
    year: Bucket,
    thisWeek: real,
    dailySeries: seq<Entry>,
    weeklySeries: seq<Entry>)

  function Period(rows: seq<Entry>, p: Date -> bool): Bucket {
    Bucket(Sum(rows, p, Generated), Sum(rows, p, Cache), Sum(rows, p, Cost))
  }

  function On(day: Date): Date -> bool {
    d => d == day
  }

  function From(day: Date): Date -> bool {
    d => AtOrAfter(d, day)
  }

  function InMonth(day: Date): Date -> bool {
    (d: Date) => d.year == day.year && d.month == day.month
  }

  function InYear(day: Date): Date -> bool {
    (d: Date) => d.year == day.year
  }

  function Always(): Date -> bool {
    d => true
  }

  method UsageStats(rows: seq<Entry>, today: Date) returns (stats: Stats)
    requires ValidDates(rows) && Valid(today)
    ensures stats.today == Period(rows, On(today)) && stats.week == Period(rows, From(StartOfWeek(today)))
    ensures stats.month == Period(rows, InMonth(today)) && stats.year == Period(rows, InYear(today))
    ensures stats.thisWeek == stats.week.generated + stats.week.cache
    ensures stats.dailySeries == SortByDate(DayBuckets(rows))
    ensures ValidDates(DayBuckets(rows)) && stats.weeklySeries == SortByDate(WeekBuckets(DayBuckets(rows)))
  {
    var week := StartOfWeek(today);
    var days := [];
    for n := 0 to |rows|
      invariant days == DayBuckets(rows[..n])
    {
      assert rows[..n + 1][..n] == rows[..n];
      days := AddTo(days, rows[n].date, rows[n].bucket);
    }
    assert rows[..|rows|] == rows;
    DayBucketsKeys(rows);
    var weeks := [];
    for n := 0 to |days|
      invariant ValidDates(days[..n]) && weeks == WeekBuckets(days[..n])
    {
      assert days[..n + 1][..n] == days[..n];
      weeks := AddTo(weeks, StartOfWeek(days[n].date), days[n].bucket);
    }
    assert days[..|days|] == days;
    var weekTotals := Period(rows, From(week));
    stats := Stats(
      Period(rows, On(today)), weekTotals, Period(rows, InMonth(today)), Period(rows, InYear(today)),
      weekTotals.generated + weekTotals.cache, SortByDate(days), SortByDate(weeks));
  }

  // ----- what a period sums -----

  // Sums, row by row.
  lemma SumMeans(entries: seq<Entry>, e: Entry, p: Date -> bool)
    ensures Sum([], p, Generated) == Sum([], p, Cache) == Sum([], p, Cost) == 0.0
    ensures var more := entries + [e];
      && Sum(more, p, Generated) == Sum(entries, p, Generated) + (if p(e.date) then e.bucket.generated else 0.0)
      && Sum(more, p, Cache) == Sum(entries, p, Cache) + (if p(e.date) then e.bucket.cache else 0.0)
      && Sum(more, p, Cost) == Sum(entries, p, Cost) + (if p(e.date) then e.bucket.cost else 0.0)
  {
    assert [e][1..] == [];
    SumConcat(entries, [e], p, Generated);
    SumConcat(entries, [e], p, Cache);
    SumConcat(entries, [e], p, Cost);
  }

  ghost predicate FourDigitYears(rows: seq<Entry>) {
    forall i :: 0 <= i < |rows| ==> Valid(rows[i].date) && 1000 <= rows[i].date.year <= 9999
  }

  // The tests of the source, on the text of a day.
  ghost function TextIs(today: Date): Date -> bool
    requires Valid(today)
  {
    d => Valid(d) && LocalDay(d) == LocalDay(today)
  }

  ghost function TextFrom(day: Date): Date -> bool
    requires Valid(day)
  {
    d => Valid(d) && !TextLess(LocalDay(d), LocalDay(day))
  }

  ghost function TextStartsWith(prefix: string): Date -> bool {
    d => Valid(d) && prefix <= LocalDay(d)
  }

  // The four periods, for years of four digits: each figure is the sum over the rows whose day, as
  // text, is today's, comes from the Monday on, or begins with today's month or year.
  lemma PeriodsMean(rows: seq<Entry>, today: Date, monday: Date, field: Field)
    requires FourDigitYears(rows) && Valid(today) && 1000 <= today.year <= 9999
    requires Valid(monday) && 1000 <= monday.year <= 9999
    ensures |LocalDay(today)| == 10
    ensures Amount(Period(rows, On(today)), field) == Sum(rows, TextIs(today), field)
    ensures Amount(Period(rows, From(monday)), field) == Sum(rows, TextFrom(monday), field)
    ensures Amount(Period(rows, InMonth(today)), field) == Sum(rows, TextStartsWith(LocalDay(today)[..7]), field)
    ensures Amount(Period(rows, InYear(today)), field) == Sum(rows, TextStartsWith(LocalDay(today)[..4]), field)
  {
    PrefixesTellMonthAndYear(today, today);
    forall i | 0 <= i < |rows|
      ensures On(today)(rows[i].date) == TextIs(today)(rows[i].date)
      ensures From(monday)(rows[i].date) == TextFrom(monday)(rows[i].date)
      ensures InMonth(today)(rows[i].date) == TextStartsWith(LocalDay(today)[..7])(rows[i].date)
      ensures InYear(today)(rows[i].date) == TextStartsWith(LocalDay(today)[..4])(rows[i].date)
    {
      var d := rows[i].date;
      PrefixesTellMonthAndYear(d, today);
      FourDigits(d.year);
      FourDigits(today.year);
      FourDigits(monday.year);
      TextOrdersDays(d, monday);
      SameTextSameDay(d, today);
    }
    SumSame(rows, On(today), TextIs(today), field);
    SumSame(rows, From(monday), TextFrom(monday), field);
    SumSame(rows, InMonth(today), TextStartsWith(LocalDay(today)[..7]), field);
    SumSame(rows, InYear(today), TextStartsWith(LocalDay(today)[..4]), field);
  }

  lemma SameTextSameDay(a: Date, b: Date)
    requires Valid(a) && Valid(b) && a.year >= 0 && b.year >= 0 && Width(a.year) == Width(b.year)
    ensures LocalDay(a) == LocalDay(b) <==> a == b
  {
    TextOrdersDays(a, b);
    TextOrdersDays(b, a);
    TextOrdersDays(a, a);
  }

  // The figures of the report agree with one another, field by field: this week is the sum of the
  // weekly buckets from the current Monday on; the weekly, daily and raw totals are equal; and a
  // day's bucket is the sum of its rows.
  lemma StatsAgree(rows: seq<Entry>, today: Date, field: Field)
    requires ValidDates(rows) && Valid(today)
    ensures ValidDates(DayBuckets(rows))
    ensures var daily, weekly := SortByDate(DayBuckets(rows)), SortByDate(WeekBuckets(DayBuckets(rows)));
            var week := StartOfWeek(today);
      && Sum(rows, From(week), field) == Sum(weekly, From(week), field)
      && Sum(rows, From(week), field) == Sum(daily, From(week), field)
      && Sum(weekly, Always(), field) == Sum(daily, Always(), field) == Sum(rows, Always(), field)
      && (forall day :: Sum(daily, On(day), field) == Sum(rows, On(day), field))
  {
    var days, week := DayBuckets(rows), StartOfWeek(today);
    DayBucketsKeys(rows);
    var weeks := WeekBuckets(days);
    SortedSum(rows, days, From(week), field);
    SortedSum(rows, days, Always(), field);
    SortByDateSum(weeks, From(week), field);
    SortByDateSum(weeks, Always(), field);
    WeekBucketsSum(days, From(week), field);
    WeekBucketsSum(days, Always(), field);
    forall i | 0 <= i < |days|
      ensures OnWeekOf(From(week))(days[i].date) == From(week)(days[i].date)
      ensures OnWeekOf(Always())(days[i].date) == Always()(days[i].date)
    {
      WeekTestIsDayTest(days[i].date, today);
    }
    SumSame(days, OnWeekOf(From(week)), From(week), field);
    SumSame(days, OnWeekOf(Always()), Always(), field);
    forall day
      ensures Sum(SortByDate(days), On(day), field) == Sum(rows, On(day), field)
    {
      SortedSum(rows, days, On(day), field);
    }
  }

  lemma SortedSum(rows: seq<Entry>, days: seq<Entry>, p: Date -> bool, field: Field)
    requires days == DayBuckets(rows)
    ensures Sum(SortByDate(days), p, field) == Sum(rows, p, field) == Sum(days, p, field)
  {
    SortByDateSum(days, p, field);
    DayBucketsSum(rows, p, field);
  }

  // Both series are strictly increasing, and the weekly one is keyed by Mondays.
  lemma SeriesAreOrdered(rows: seq<Entry>)
    requires ValidDates(rows)
    ensures ValidDates(DayBuckets(rows))
    ensures Increasing(SortByDate(DayBuckets(rows)))
    ensures var weekly := SortByDate(WeekBuckets(DayBuckets(rows)));
      Increasing(weekly) && forall e :: e in weekly ==> Valid(e.date) && WeekDay(e.date) == 1
  {
    DayBucketsKeys(rows);
    WeekBucketsKeys(DayBuckets(rows));
    SortByDateSorts(DayBuckets(rows));
    SortByDateSorts(WeekBuckets(DayBuckets(rows)));
  }
}
