# Bibliographic record normalisation — a Dafny model

This project models the core of a small web service that serves three views of
a PubMed article collection (the Zika virus timeline): a citation graph, a
publication timeline and a yearly publication count. What is left once the web
framework, the database client and pandas are removed is a handful of
deterministic transforms over article documents:

- **Date resolution** (`Dates`): the month table `month_calendar`, built by
  inverting `calendar.month_abbr`. Its entry 0 is the empty string, so `""` maps
  to 0. A missing Month defaults to `'Jan'` and a missing Day to 1, and an
  unknown month raises `KeyError`. The time series additionally passes the
  triple to `datetime.date`, which rejects anything that is not a real calendar
  date (year 1..9999, month 1..12, day within the month, Gregorian leap years).
- **Link resolution** (`Links`, `Articles.GetLink`): `ArticleIdList` is sorted
  in place by length. Python's sort is stable, and the model's sort is too. The
  last (longest) identifier gives `https://doi.org/<id>` when it contains `/`,
  else `None`. An empty list raises `IndexError`. We prove that the sort is a
  stable sort by length and that the chosen identifier is the LAST of the
  longest identifiers of the original list.
- **Abstract normalisation** (`Abstracts`, `Articles.FixAbstract`): a missing or
  `""` abstract becomes `{'AbstractText': " "}`, otherwise `AbstractText` is
  replaced by its first element. Nothing else in the document changes.
- **Citation view** (`CitationView`, `json_bundle`): relations whose source
  PMID is not in the corpus are skipped. Each `citedby` list is pruned to
  corpus ids, keeping order and duplicates. The output map is keyed by PMID,
  and the last relation for a PMID wins.
- **Timeline view** (`TimelineView`, `json_timeline`): the articles with a Year,
  in order, each updated in place by `fix_abstract`, `PubDatetime` and
  `get_link`.
- **Time-series view** (`TimeSeriesView`, `json_tseries`): one date per dated
  article, counted per calendar year as `resample('A', how='count')` does. That
  means one bucket for every year from the earliest to the latest date, with
  empty years counting 0.

Article documents are updated in place by the source, so they are objects of
class `Articles.Article` with one field per key the core reads or writes.
`fix_abstract` and `get_link` are methods that modify an article, proved
against the record-level functions `WithFixedAbstract` and `WithLink`. Each
view is a method with a loop, proved equal to a prefix-recursive
specification function (`Bundle`, `Timeline`, `DatedEntries`), and the
properties are proved as lemmas about those functions.

The database is replaced as follows:
- A `find` query result is a sequence of `ArticleRec` values. Any text search
  is taken as already applied.
- `find_one` by PMID is a lookup in a `map<string, ArticleRec>`.
- Every fetched document is a fresh `Article` object, because the store hands
  out a new dictionary on each call.

A Python exception ends the whole request. The model returns it as the `Err`
of a `Result`, and each builder fails with the first error raised in source
order.

## Behaviour of the code worth noting

- `get_link` raises IndexError on an empty identifier list (app.py:40).
- The `citedby` lists keep their order and any duplicate ids (app.py:64-68).
- An empty month string looks up to 0 on the timeline (app.py:16, app.py:126).
- The time series passes each date to `datetime.date`, which rejects anything that is not a calendar date (app.py:97).
- `resample('A')` emits every year from the earliest to the latest, with zero counts for empty years (app.py:103).

## Model

| member | source | states |
|---|---|---|
| `Dates.IndexTableIsLastIndex` | app.py:16 | the inverted table has exactly the entries of the list as keys, each mapped to the index of its last occurrence |
| `Dates.MonthNumber` | app.py:126 | the lookup succeeds iff the month (default 'Jan') is one of the table's abbreviations, and then the number indexes that abbreviation (an inverse of `month_abbr`); otherwise KeyError on that key |
| `Dates.MonthTable` | app.py:16 | Jan..Dec map to 1..12, a missing month gives 1, the empty string gives 0 |
| `Dates.ResolveDate` | app.py:125-127 | the timeline date keeps the Year, defaults the Day to 1, has a month number in 0..12 whose abbreviation is the stored month (default 'Jan'), and fails with UnknownMonth exactly for an unrecognised month |
| `Dates.ResolveDateDefaults` | app.py:125-127 | a missing Month gives January and a missing Day gives the first |
| `Dates.DaysInMonth` | app.py:97 | month lengths are 28..31, and 29 exactly for February of a Gregorian leap year |
| `Dates.CalendarDate` | app.py:97-99 | the model of `datetime.date`'s check, defined by `IsCalendarDate`; characterised by CalendarDateBoundaries |
| `Dates.CalendarDateBoundaries` | app.py:97-99 | February 29 is accepted exactly in Gregorian leap years 1..9999 (1900 no, 2000 yes); April 31, month 13, day 0, year 0 and year 10000 are rejected; December 31 is accepted in every year 1..9999 |
| `Dates.CalendarDateAgrees` | app.py:97-99 | the time-series date exists iff the timeline date exists and is a calendar date, and then the two agree |
| `Dates.EmptyMonthDiverges` | app.py:97-99 | an empty month string resolves to month 0 on the timeline, but the same date raises ValueError on the time series |
| `Links.SortByLengthIsStable` | app.py:38 | sorting by length yields a list ordered by length, a permutation of the input, and the same order within each length (a stable sort) |
| `Links.LastLongestIndex` | app.py:40 | every non-empty list has exactly one index that is the last of its longest entries |
| `Links.SortedLastIsLastLongest` | app.py:38-40 | after the sort, the last identifier is the last of the longest identifiers of the original list |
| `Links.DoiLinkOfLastLongest` | app.py:36-44 | the link is an error exactly for an empty list; otherwise the DOI prefix plus the last-longest identifier if it contains '/', else None |
| `Links.DoiLinkExample` | app.py:40-41 | ["12345", "10.1000/xyz"] links to https://doi.org/10.1000/xyz |
| `Abstracts.NormalAbstract` | app.py:27-33 | the normalised abstract is always a single text; the normaliser raises IndexError exactly when the AbstractText to index is empty |
| `Abstracts.NormalAbstractCases` | app.py:28-31 | an absent or "" abstract becomes " ", stored sections become their first section |
| `Abstracts.NormalAbstractTwice` | app.py:31 | normalising a second time keeps only the first character: the in-place update is not idempotent |
| `Articles.Article.constructor` | app.py:118 | a fetched document holds exactly the stored record |
| `Articles.WithFixedAbstract` | app.py:27-33 | fixing the abstract succeeds iff the normaliser does, leaves a text abstract, and changes no other field |
| `Articles.WithLink` | app.py:36-44 | writing the link succeeds iff the id list is non-empty, sets the link key, and changes no field except the id list and the link |
| `Articles.FixAbstract` | app.py:27-33 | updates the article in place to `WithFixedAbstract` of its old contents; on IndexError nothing is written |
| `Articles.GetLink` | app.py:36-44 | afterwards the id list is a length-sorted permutation of the old one and the article matches `WithLink` of its old contents; an empty list fails with nothing else written |
| `CitationView.KnownIds` | app.py:64-68 | every kept citer is a corpus PMID and the list is no longer than the input |
| `CitationView.KnownIdsExact` | app.py:64-68 | the kept citers are an order-preserving subsequence holding every occurrence of each corpus PMID and nothing else |
| `CitationView.PruneCitedBy` | app.py:64-68 | the inner loop computes exactly the pruned citers |
| `CitationView.BundleFails` | app.py:71-74 | the view fails, with IndexError, exactly when some relation's existing source article has an empty id list |
| `CitationView.BundleKeys` | app.py:58-74 | the output keys are exactly the PMIDs of relations whose source article exists |
| `CitationView.BundleEntryIsLast` | app.py:70-74 | the entry under a PMID has the source's title, Year (or None) and link, and the pruned citers of the last relation about that PMID |
| `CitationView.BuildBundle` | app.py:55-76 | the loop over relations, with a fresh fetched copy annotated by `get_link`, computes exactly the specified view |
| `CitationView.BundleExample` | app.py:58-74 | {"1" cited by ["2", "9"]} over a corpus of "1" and "2" keeps only "2" |
| `TimelineView.WithYear` | app.py:121-123 | the filter keeps only dated articles and is no longer than its input |
| `TimelineView.WithYearExact` | app.py:120-130 | the filter is an order-preserving subsequence holding every occurrence of each dated article |
| `TimelineView.NormaliseFields` | app.py:124-129 | a normalised article keeps PMID, title and PubDate, and carries the normalised abstract, the sorted ids, the link and the resolved PubDatetime; the error is that of the first failing step |
| `TimelineView.TimelineIsFilterMap` | app.py:120-130 | the timeline is the dated articles in order, each normalised, and fails iff some dated article fails to normalise |
| `TimelineView.TimelineEntries` | app.py:120-130 | the timeline is no longer than its input; entry i carries the PMID and title of the i-th dated input article, taken in input order, and has a Year, a PubDatetime with that Year, a link key and a text abstract |
| `TimelineView.NormaliseInPlace` | app.py:124-129 | the loop body updates the article in place to its normalised contents, or fails with the normaliser's error |
| `TimelineView.BuildTimeline` | app.py:118-130 | the loop returns documents whose contents are exactly the specified timeline, or its error |
| `TimeSeriesView.DatedEntriesMatch` | app.py:93-100 | one calendar date per dated article, in order and with its Year; the loop fails iff some dated article's date does not resolve |
| `TimeSeriesView.CollectDates` | app.py:93-100 | the loop computes exactly the specified date list, or its error |
| `TimeSeriesView.CountYearOfArticles` | app.py:96-100 | the number of dates in a year is the number of input articles whose Year is that year |
| `TimeSeriesView.BucketCounts` | app.py:103 | each bucket counts the dates of its year |
| `TimeSeriesView.DatedYearsInRange` | app.py:103 | every dated article's Year lies between the earliest and the latest date |
| `TimeSeriesView.TimeSeriesBuckets` | app.py:101-103 | the series has one bucket per consecutive year; its first and last years are the Years of some dated article, every dated Year lies between them, and each bucket counts the articles of its Year |
| `TimeSeriesView.TimeSeriesTotal` | app.py:93-103 | the counts add up to the number of dated articles |
| `TimeSeriesView.YearBucketsTotal` | app.py:101-102 | the yearly counts of a non-empty date list add up to its length: each date falls in exactly one bucket |
| `TimeSeriesView.YearBucketsExample` | app.py:101-103 | two dates of one year make a single bucket of two |
| `TimeSeriesView.TimeSeriesExample` | app.py:93-103 | two articles of 2015 and one without a Year give the single bucket (2015, 2) |
| `Dates.IndexTable` | app.py:16 | the inverted table built by `enumerate`, with keys drawn from the list; characterised by IndexTableIsLastIndex |
| `Dates.ResolveCalendarDate` | app.py:97-99 | the time-series date keeps the Year with a month in 1..12 and a day in 1..31, failing only with UnknownMonth or InvalidDate; characterised by CalendarDateAgrees and EmptyMonthDiverges |
| `Links.SortByLength` | app.py:38 | `list.sort(key=len)`, length-preserving; characterised by SortByLengthIsStable and SortedLastIsLastLongest |
| `Links.DoiLink` | app.py:40-43 | fails exactly on an empty list, and a link is the DOI prefix on some identifier containing '/'; characterised by DoiLinkOfLastLongest |
| `CitationView.Entry` | app.py:70-74 | fails exactly on an empty id list, keeps the source's title and Year, and every citer is in the corpus; characterised by BundleEntryIsLast |
| `CitationView.Bundle` | app.py:58-74 | every key is a corpus PMID whose entry carries that article's title; characterised by BundleKeys, BundleEntryIsLast and BundleFails |
| `TimelineView.Normalise` | app.py:124-129 | a normalised article keeps its PMID and Year and gains a PubDatetime; characterised by NormaliseFields |
| `TimelineView.Timeline` | app.py:121-130 | the timeline is no longer than its input and holds only dated articles; characterised by TimelineIsFilterMap and TimelineEntries |
| `TimeSeriesView.DatedEntries` | app.py:93-100 | at most one date per input article; characterised by DatedEntriesMatch and CountYearOfArticles |
| `TimeSeriesView.DatedYearAttained` | app.py:96-100 | every year in the date list is the Year of some dated input article |
| `TimeSeriesView.YearBuckets` | app.py:101-103 | fails exactly on an empty date list, and otherwise runs from the earliest to the latest year of the dates; characterised by BucketCounts |
| `TimeSeriesView.TimeSeries` | app.py:101-103 | a successful series is non-empty and comes from a non-empty date list; characterised by TimeSeriesBuckets and TimeSeriesTotal |

## Left out

- The web layer: routes, `render_template`, `Response`, the error handler and `app.run` (app.py:1-12, 46-49, 132-141). It is transport; the timeline's template rendering is not modelled.
- MongoDB: the client, `find`, `find_one` and the `$text` search filter. They are external I/O, replaced by input sequences and a corpus map. A store holding two articles with one PMID (where `find_one` returns the first) is not represented.
- pandas: the DataFrame, its `DatetimeIndex` and the ISO-8601 `to_json` encoding. They are a foreign library; only the per-year count with its dense year range and the failure on an empty date list are modelled. In particular, `DatetimeIndex` raises OutOfBoundsDatetime for dates outside 1677-09-22..2262-04-11, which `datetime.date` accepts; on such dates `TimeSeries` returns buckets where the code fails.
- The citation view's `year` is `date.get('Year', None)`, the stored Year text, which is never passed to `int()` (app.py:73). The model represents it by the integer Year.
- Python's `int()` parsing of Year and Day (whitespace, signs, non-numeric text). By design, Year and Day are integers in the model.
- `calendar.month_abbr` depends on the process locale; the model fixes the C-locale abbreviations.
- Documents with other shapes: a missing nested key (`MedlineCitation`, `PubDate`, `ArticleIdList`, or an Abstract without `AbstractText`) raises `KeyError`, and a non-empty string Abstract raises `TypeError`. Only well-formed documents are representable.
- `disease_collection` and the `disease` argument (app.py:17-24, 80, 109). They are unused configuration.
