/** The time-series view `json_tseries` (app.py lines 78-104): the dates of
    the dated articles, counted per calendar year. The text search is taken
    as already applied. The per-year count is what
    `resample('A', how='count')` computes: one bucket for every year from
    the earliest to the latest date, years without articles counting 0. */
module TimeSeriesView {
  import opened Wrappers
  import opened Records
  import opened Dates
  import opened TimelineView

  /** `dates_list` after the loop over `records` (app.py lines 93-100). */
  function DatedEntries(records: seq<ArticleRec>): (r: Result<seq<DateTriple>, Error>)
    ensures r.Ok? ==> |r.value| <= |records|
  {
    if records == [] then Ok([])
    else
      match DatedEntries(records[..|records| - 1])
      case Err(e) => Err(e)
      case Ok(dates) =>
        var a := records[|records| - 1];
        if !HasYear(a) then Ok(dates)
        else
          match ResolveCalendarDate(a.pubDate)
          case Err(e) => Err(e)
          case Ok(t) => Ok(dates + [t])
  }

  /** One date per dated article, in order, with that article's Year; the
      loop fails exactly when some dated article has an unknown month or
      does not form a calendar date. */
  lemma {:induction false} DatedEntriesMatch(records: seq<ArticleRec>)
    ensures DatedEntries(records).Ok? <==>
      forall i :: 0 <= i < |records| && HasYear(records[i]) ==> ResolveCalendarDate(records[i].pubDate).Ok?
    ensures DatedEntries(records).Ok? ==>
      (|DatedEntries(records).value| == |WithYear(records)| &&
       forall i :: 0 <= i < |WithYear(records)| ==>
         ResolveCalendarDate(WithYear(records)[i].pubDate).Ok? &&
         DatedEntries(records).value[i] == ResolveCalendarDate(WithYear(records)[i].pubDate).value &&
         DatedEntries(records).value[i].year == WithYear(records)[i].pubDate.year.value)
  {
    if records != [] {
      var p := records[..|records| - 1];
      DatedEntriesMatch(p);
      assert forall i :: 0 <= i < |p| ==> p[i] == records[i];
      var a := records[|records| - 1];
      if HasYear(a) {
        CalendarDateAgrees(a.pubDate);
      }
    }
  }

  /** Once a prefix has failed, the whole loop fails with the same error. */
  lemma {:induction false} DatedEntriesErrorPersists(records: seq<ArticleRec>, i: nat)
    requires i <= |records| && DatedEntries(records[..i]).Err?
    ensures DatedEntries(records) == DatedEntries(records[..i])
    decreases |records| - i
  {
    if i < |records| {
      assert records[..i + 1][..i] == records[..i];
      DatedEntriesErrorPersists(records, i + 1);
    } else {
      assert records[..i] == records;
    }
  }

  /** The loop of `json_tseries` that fills `dates_list`. */
  method CollectDates(records: seq<ArticleRec>) returns (r: Result<seq<DateTriple>, Error>)
    ensures r == DatedEntries(records)
  {
    var dates: seq<DateTriple> := [];
    var i := 0;
    while i < |records|
      invariant 0 <= i <= |records|
      invariant DatedEntries(records[..i]) == Ok(dates)
    {
      assert records[..i + 1][..i] == records[..i];
      var date := records[i].pubDate;
      if date.year.Some? {
        var entry := ResolveCalendarDate(date);
        if entry.Err? {
          DatedEntriesErrorPersists(records, i + 1);
          return Err(entry.error);
        }
        dates := dates + [entry.value];
      }
      i := i + 1;
    }
    assert records[..i] == records;
    r := Ok(dates);
  }

  /** The number of dates in year `y`. */
  function CountYear(dates: seq<DateTriple>, y: int): nat
  {
    if dates == [] then 0
    else CountYear(dates[..|dates| - 1], y) + (if dates[|dates| - 1].year == y then 1 else 0)
  }

  /** The number of dates in the years `lo` to `hi - 1`. */
  function CountBetween(dates: seq<DateTriple>, lo: int, hi: int): nat
  {
    if dates == [] then 0
    else CountBetween(dates[..|dates| - 1], lo, hi) + (if lo <= dates[|dates| - 1].year < hi then 1 else 0)
  }

  /** The number of input articles whose stored Year is `y`. */
  function ArticlesInYear(records: seq<ArticleRec>, y: int): nat
  {
    if records == [] then 0
    else ArticlesInYear(records[..|records| - 1], y) + (if records[|records| - 1].pubDate.year == Some(y) then 1 else 0)
  }

  function MinYearOf(dates: seq<DateTriple>): (y: int)
    requires dates != []
    ensures exists i :: 0 <= i < |dates| && dates[i].year == y
    ensures forall i :: 0 <= i < |dates| ==> y <= dates[i].year
  {
    if |dates| == 1 then dates[0].year
    else
      var m := MinYearOf(dates[..|dates| - 1]);
      if dates[|dates| - 1].year < m then dates[|dates| - 1].year else m
  }

  function MaxYearOf(dates: seq<DateTriple>): (y: int)
    requires dates != []
    ensures exists i :: 0 <= i < |dates| && dates[i].year == y
    ensures forall i :: 0 <= i < |dates| ==> dates[i].year <= y
  {
    if |dates| == 1 then dates[0].year
    else
      var m := MaxYearOf(dates[..|dates| - 1]);
      if dates[|dates| - 1].year > m then dates[|dates| - 1].year else m
  }

  /** A bucket of the series: the year and how many dates fall in it. */
  datatype Bucket = Bucket(year: int, count: nat)

  /** The buckets of the `n` consecutive years from `lo`. */
  function Buckets(dates: seq<DateTriple>, lo: int, n: nat): (r: seq<Bucket>)
    ensures |r| == n
    ensures forall i :: 0 <= i < n ==> r[i].year == lo + i
    decreases n
  {
    if n == 0 then [] else [Bucket(lo, CountYear(dates, lo))] + Buckets(dates, lo + 1, n - 1)
  }

  /** The yearly series of `dates`; pandas fails on an empty `dates_list`,
      whose DataFrame has no 'date' column. */
  function YearBuckets(dates: seq<DateTriple>): (r: Result<seq<Bucket>, Error>)
    ensures r.Err? <==> dates == []
    ensures r.Ok? ==> r.value != [] && r.value[0].year == MinYearOf(dates) && r.value[|r.value| - 1].year == MaxYearOf(dates)
  {
    if dates == [] then Err(NoDatedArticles)
    else Ok(Buckets(dates, MinYearOf(dates), MaxYearOf(dates) - MinYearOf(dates) + 1))
  }

  /** `json_tseries` without the JSON encoding. */
  function TimeSeries(records: seq<ArticleRec>): (r: Result<seq<Bucket>, Error>)
    ensures r.Ok? ==> r.value != [] && DatedEntries(records).Ok? && DatedEntries(records).value != []
  {
    match DatedEntries(records)
    case Err(e) => Err(e)
    case Ok(dates) => YearBuckets(dates)
  }

  function Total(buckets: seq<Bucket>): nat
  {
    if buckets == [] then 0 else buckets[0].count + Total(buckets[1..])
  }

  lemma {:induction false} CountBetweenSplit(dates: seq<DateTriple>, lo: int, hi: int)
    requires lo < hi
    ensures CountBetween(dates, lo, hi) == CountYear(dates, lo) + CountBetween(dates, lo + 1, hi)
  {
    if dates != [] {
      CountBetweenSplit(dates[..|dates| - 1], lo, hi);
    }
  }

  lemma {:induction false} CountBetweenEmpty(dates: seq<DateTriple>, lo: int)
    ensures CountBetween(dates, lo, lo) == 0
  {
    if dates != [] {
      CountBetweenEmpty(dates[..|dates| - 1], lo);
    }
  }

  lemma {:induction false} CountBetweenAll(dates: seq<DateTriple>, lo: int, hi: int)
    requires forall i :: 0 <= i < |dates| ==> lo <= dates[i].year < hi
    ensures CountBetween(dates, lo, hi) == |dates|
  {
    if dates != [] {
      CountBetweenAll(dates[..|dates| - 1], lo, hi);
    }
  }

  lemma {:induction false} TotalOfBuckets(dates: seq<DateTriple>, lo: int, n: nat)
    ensures Total(Buckets(dates, lo, n)) == CountBetween(dates, lo, lo + n)
    decreases n
  {
    if n == 0 {
      CountBetweenEmpty(dates, lo);
    } else {
      TotalOfBuckets(dates, lo + 1, n - 1);
      CountBetweenSplit(dates, lo, lo + n);
    }
  }

  /** The count of a year is the number of dates in it. */
  lemma {:induction false} BucketCounts(dates: seq<DateTriple>, lo: int, n: nat)
    ensures forall i :: 0 <= i < n ==> Buckets(dates, lo, n)[i].count == CountYear(dates, lo + i)
    decreases n
  {
    if n > 0 {
      BucketCounts(dates, lo + 1, n - 1);
      assert forall i :: 1 <= i < n ==> Buckets(dates, lo, n)[i] == Buckets(dates, lo + 1, n - 1)[i - 1];
    }
  }

  /** The dates of the dated articles, counted per year, are the articles
      counted per stored Year. */
  lemma {:induction false} CountYearOfArticles(records: seq<ArticleRec>, y: int)
    requires DatedEntries(records).Ok?
    ensures CountYear(DatedEntries(records).value, y) == ArticlesInYear(records, y)
  {
    if records != [] {
      var p, a := records[..|records| - 1], records[|records| - 1];
      CountYearOfArticles(p, y);
      if HasYear(a) {
        var dates := DatedEntries(p).value;
        var t := ResolveCalendarDate(a.pubDate).value;
        assert (dates + [t])[..|dates|] == dates;
      }
    }
  }

  /** Every dated article's Year lies between the earliest and the latest
      date of `dates_list`. */
  lemma DatedYearsInRange(records: seq<ArticleRec>)
    requires DatedEntries(records).Ok? && DatedEntries(records).value != []
    ensures forall a :: a in records && HasYear(a) ==>
      MinYearOf(DatedEntries(records).value) <= a.pubDate.year.value <= MaxYearOf(DatedEntries(records).value)
  {
    var dates := DatedEntries(records).value;
    DatedEntriesMatch(records);
    WithYearExact(records);
    forall a | a in records && HasYear(a)
      ensures MinYearOf(dates) <= a.pubDate.year.value <= MaxYearOf(dates)
    {
      assert multiset(WithYear(records))[a] > 0;
      var k :| 0 <= k < |WithYear(records)| && WithYear(records)[k] == a;
      assert dates[k].year == a.pubDate.year.value;
    }
  }

  /** A year of some entry of `dates_list` is the Year of some dated article. */
  lemma DatedYearAttained(records: seq<ArticleRec>, y: int)
    requires DatedEntries(records).Ok?
    requires exists k :: 0 <= k < |DatedEntries(records).value| && DatedEntries(records).value[k].year == y
    ensures exists a :: a in records && HasYear(a) && a.pubDate.year.value == y
  {
    var dates := DatedEntries(records).value;
    DatedEntriesMatch(records);
    WithYearExact(records);
    var k :| 0 <= k < |dates| && dates[k].year == y;
    var a := WithYear(records)[k];
    assert multiset(WithYear(records))[a] > 0;
    assert a in records && HasYear(a) && a.pubDate.year.value == y;
  }

  /** The series covers the years from the earliest to the latest dated
      article, both ends included, one bucket per year in ascending order,
      and each count is the number of articles with that Year. */
  lemma TimeSeriesBuckets(records: seq<ArticleRec>)
    requires TimeSeries(records).Ok?
    ensures var s := TimeSeries(records).value;
      s != [] &&
      (forall i :: 0 <= i < |s| ==> s[i].year == s[0].year + i && s[i].count == ArticlesInYear(records, s[i].year)) &&
      (forall a :: a in records && HasYear(a) ==> s[0].year <= a.pubDate.year.value <= s[|s| - 1].year) &&
      (exists a :: a in records && HasYear(a) && a.pubDate.year.value == s[0].year) &&
      (exists a :: a in records && HasYear(a) && a.pubDate.year.value == s[|s| - 1].year)
  {
    var dates := DatedEntries(records).value;
    var lo, hi := MinYearOf(dates), MaxYearOf(dates);
    var s := TimeSeries(records).value;
    assert s == Buckets(dates, lo, hi - lo + 1);
    DatedYearAttained(records, lo);
    DatedYearAttained(records, hi);
    BucketCounts(dates, lo, hi - lo + 1);
    forall i | 0 <= i < |s| ensures s[i].count == ArticlesInYear(records, s[i].year) {
      CountYearOfArticles(records, s[i].year);
    }
    DatedYearsInRange(records);
  }

  /** The counts add up to the number of dated articles: undated articles
      are not counted, and every dated one is counted once. */
  lemma TimeSeriesTotal(records: seq<ArticleRec>)
    requires TimeSeries(records).Ok?
    ensures Total(TimeSeries(records).value) == |WithYear(records)|
  {
    var dates := DatedEntries(records).value;
    assert TimeSeries(records) == YearBuckets(dates);
    YearBucketsTotal(dates);
    DatedEntriesMatch(records);
  }

  /** Every date falls in exactly one bucket of its series. */
  lemma YearBucketsTotal(dates: seq<DateTriple>)
    requires dates != []
    ensures Total(YearBuckets(dates).value) == |dates|
  {
    var lo, hi := MinYearOf(dates), MaxYearOf(dates);
    TotalOfBuckets(dates, lo, hi - lo + 1);
    CountBetweenAll(dates, lo, hi + 1);
  }

  /** Appending a dated article whose date resolves appends its date. */
  lemma DatedEntriesAppend(records: seq<ArticleRec>, a: ArticleRec, dates: seq<DateTriple>, t: DateTriple)
    requires DatedEntries(records) == Ok(dates)
    requires HasYear(a) && ResolveCalendarDate(a.pubDate) == Ok(t)
    ensures DatedEntries(records + [a]) == Ok(dates + [t])
  {
    assert (records + [a])[..|records|] == records;
  }

  /** Two dates of the same year make one bucket of two. */
  lemma YearBucketsExample(d: DateTriple)
    ensures YearBuckets([d, d]) == Ok([Bucket(d.year, 2)])
  {
    assert [d, d][..1] == [d];
    assert MinYearOf([d, d]) == d.year && MaxYearOf([d, d]) == d.year;
    assert CountYear([d], d.year) == 1 by { assert [d][..0] == []; }
    assert CountYear([d, d], d.year) == 2;
    assert Buckets([d, d], d.year, 1) == [Bucket(d.year, 2)] + Buckets([d, d], d.year + 1, 0);
    assert Buckets([d, d], d.year, 1) == [Bucket(d.year, 2)];
    assert YearBuckets([d, d]) == Ok(Buckets([d, d], d.year, 1));
  }

  /** Two articles of 2015 and one without a Year give one bucket of two. */
  lemma TimeSeriesExample(a1: ArticleRec, a2: ArticleRec, a3: ArticleRec)
    requires a1.pubDate == a2.pubDate == PubDate(Some(2015), None, None)
    requires a3.pubDate.year.None?
    ensures TimeSeries([a1, a2, a3]) == Ok([Bucket(2015, 2)])
  {
    var d := DateTriple(2015, 1, 1);
    MonthTable();
    assert ResolveCalendarDate(a1.pubDate) == Ok(d);
    DatedEntriesAppend([], a1, [], d);
    assert [] + [a1] == [a1] && [] + [d] == [d];
    DatedEntriesAppend([a1], a2, [d], d);
    assert [a1] + [a2] == [a1, a2] && [d] + [d] == [d, d];
    assert [a1, a2, a3][..2] == [a1, a2];
    assert DatedEntries([a1, a2, a3]) == Ok([d, d]);
    YearBucketsExample(d);
  }
}
