/** Publication date resolution: the month table and the two ways the
    views turn a stored PubDate into numbers. */
module Dates {
  import opened Wrappers
  import opened Records

  /** `calendar.month_abbr` in the C locale: entry 0 is the empty string. */
  const MonthAbbr: seq<string> :=
    ["", "Jan", "Feb", "Mar", "Apr", "May", "Jun", "Jul", "Aug", "Sep", "Oct", "Nov", "Dec"]

  /** `dict((v, k) for k, v in enumerate(s))`: every entry of `s` maps to its
      index, a later equal entry overwriting an earlier one. */
  function IndexTable(s: seq<string>): (m: map<string, int>)
    ensures m.Keys <= set i | 0 <= i < |s| :: s[i]
  {
    if s == [] then map[] else IndexTable(s[..|s| - 1])[s[|s| - 1] := |s| - 1]
  }

  /** The table's keys are the entries of `s`, and each key maps to the
      index of its LAST occurrence. */
  lemma {:induction false} IndexTableIsLastIndex(s: seq<string>, v: string)
    ensures v in IndexTable(s) <==> v in s
    ensures v in IndexTable(s) ==>
      0 <= IndexTable(s)[v] < |s| && s[IndexTable(s)[v]] == v &&
      forall j :: IndexTable(s)[v] < j < |s| ==> s[j] != v
  {
    if s != [] {
      var p := s[..|s| - 1];
      IndexTableIsLastIndex(p, v);
      assert s == p + [s[|s| - 1]];
    }
  }

  /** `month_calendar` (app.py line 16). */
  const MonthCalendar: map<string, int> := IndexTable(MonthAbbr)

  /** `month_calendar[date.get('Month', 'Jan')]`. */
  function MonthNumber(month: Option<string>): (r: Result<int, Error>)
    ensures r.Ok? <==> month.GetOr("Jan") in MonthAbbr
    ensures r.Ok? ==> 0 <= r.value < |MonthAbbr| && MonthAbbr[r.value] == month.GetOr("Jan")
    ensures r.Err? ==> r.error == UnknownMonth(month.GetOr("Jan"))
  {
    var key := month.GetOr("Jan");
    IndexTableIsLastIndex(MonthAbbr, key);
    if key in MonthCalendar then Ok(MonthCalendar[key]) else Err(UnknownMonth(key))
  }

  /** The twelve abbreviations give 1..12, a missing month gives January,
      and the empty string (the table's entry 0) gives 0. */
  lemma MonthTable()
    ensures forall i :: 1 <= i < |MonthAbbr| ==> MonthNumber(Some(MonthAbbr[i])) == Ok(i)
    ensures MonthNumber(None) == Ok(1)
    ensures MonthNumber(Some("")) == Ok(0)
  {
    forall i | 0 <= i < |MonthAbbr|
      ensures MonthNumber(Some(MonthAbbr[i])) == Ok(i)
    {
      var r := MonthNumber(Some(MonthAbbr[i]));
      MonthAbbrInjective(r.value, i);
    }
    assert MonthAbbr[1] == "Jan";
    assert MonthAbbr[0] == "";
  }

  /** The position of an abbreviation in `MonthAbbr`, written out. */
  function AbbrPosition(s: string): int {
    if s == "" then 0 else if s == "Jan" then 1 else if s == "Feb" then 2
    else if s == "Mar" then 3 else if s == "Apr" then 4 else if s == "May" then 5
    else if s == "Jun" then 6 else if s == "Jul" then 7 else if s == "Aug" then 8
    else if s == "Sep" then 9 else if s == "Oct" then 10 else if s == "Nov" then 11
    else if s == "Dec" then 12 else -1
  }

  /** No abbreviation occurs twice in the table. */
  lemma MonthAbbrInjective(j: int, k: int)
    requires 0 <= j < |MonthAbbr| && 0 <= k < |MonthAbbr|
    requires MonthAbbr[j] == MonthAbbr[k]
    ensures j == k
  {
    assert AbbrPosition(MonthAbbr[j]) == j;
    assert AbbrPosition(MonthAbbr[k]) == k;
  }

  /** The Year, Month and Day of `art['PubDatetime']` on the timeline
      (app.py lines 125-127): Month and Day default, nothing is range-checked. */
  function ResolveDate(d: PubDate): (r: Result<DateTriple, Error>)
    requires d.year.Some?
    ensures r.Ok? <==> d.month.GetOr("Jan") in MonthAbbr
    ensures r.Ok? ==> r.value.year == d.year.value && r.value.day == d.day.GetOr(1)
    ensures r.Ok? ==> 0 <= r.value.month <= 12 && MonthAbbr[r.value.month] == d.month.GetOr("Jan")
    ensures r.Err? ==> r.error == UnknownMonth(d.month.GetOr("Jan"))
  {
    match MonthNumber(d.month)
    case Err(e) => Err(e)
    case Ok(m) => Ok(DateTriple(d.year.value, m, d.day.GetOr(1)))
  }

  /** Missing Month and Day resolve to January and the first. */
  lemma ResolveDateDefaults(y: int, month: Option<string>, day: Option<int>)
    ensures month.None? ==> ResolveDate(PubDate(Some(y), month, day)) == Ok(DateTriple(y, 1, day.GetOr(1)))
    ensures day.None? && ResolveDate(PubDate(Some(y), month, day)).Ok? ==>
      ResolveDate(PubDate(Some(y), month, day)).value.day == 1
  {
    MonthTable();
  }

  // datetime.date(year, month, day) accepts only real calendar dates.

  const MinYear: int := 1
  const MaxYear: int := 9999

  predicate IsLeapYear(y: int) {
    y % 4 == 0 && (y % 100 != 0 || y % 400 == 0)
  }

  function DaysInMonth(y: int, m: int): (n: int)
    requires 1 <= m <= 12
    ensures 28 <= n <= 31
    ensures n == 29 <==> m == 2 && IsLeapYear(y)
  {
    if m == 2 then (if IsLeapYear(y) then 29 else 28)
    else if m == 4 || m == 6 || m == 9 || m == 11 then 30
    else 31
  }

  predicate IsCalendarDate(y: int, m: int, d: int) {
    MinYear <= y <= MaxYear && 1 <= m <= 12 && 1 <= d <= DaysInMonth(y, m)
  }

  /** `datetime.date(y, m, d)`: ValueError unless the triple is a real date. */
  function CalendarDate(y: int, m: int, d: int): (r: Result<DateTriple, Error>)
    ensures r.Ok? <==> IsCalendarDate(y, m, d)
    ensures r.Ok? ==> r.value == DateTriple(y, m, d)
    ensures r.Err? ==> r.error == InvalidDate(y, m, d)
  {
    if IsCalendarDate(y, m, d) then Ok(DateTriple(y, m, d)) else Err(InvalidDate(y, m, d))
  }

  /** What `datetime.date` accepts at the edges: February 29 only in leap
      years (every fourth year, except centuries not divisible by 400), no
      April 31, no month 13, no day 0, and only the years 1 to 9999. */
  lemma CalendarDateBoundaries(y: int)
    ensures CalendarDate(y, 2, 29).Ok? <==> 1 <= y <= 9999 && y % 4 == 0 && (y % 100 != 0 || y % 400 == 0)
    ensures CalendarDate(y, 2, 28).Ok? <==> 1 <= y <= 9999
    ensures CalendarDate(y, 12, 31).Ok? <==> 1 <= y <= 9999
    ensures CalendarDate(y, 4, 31).Err? && CalendarDate(y, 13, 1).Err? && CalendarDate(y, 1, 0).Err?
    ensures CalendarDate(0, 1, 1) == Err(InvalidDate(0, 1, 1)) && CalendarDate(10000, 1, 1).Err?
    ensures CalendarDate(1900, 2, 29).Err? && CalendarDate(2000, 2, 29) == Ok(DateTriple(2000, 2, 29))
  {
  }

  /** The date of a time-series entry (app.py lines 97-99): the month is
      looked up first, then `datetime.date` checks the triple. */
  function ResolveCalendarDate(d: PubDate): (r: Result<DateTriple, Error>)
    requires d.year.Some?
    ensures r.Ok? ==> r.value.year == d.year.value && 1 <= r.value.month <= 12 && 1 <= r.value.day <= 31
    ensures r.Err? ==> r.error.UnknownMonth? || r.error.InvalidDate?
  {
    match ResolveDate(d)
    case Err(e) => Err(e)
    case Ok(t) => CalendarDate(t.year, t.month, t.day)
  }

  /** The time-series date agrees with the timeline date whenever it exists,
      and exists exactly when the timeline date is a real calendar date. */
  lemma CalendarDateAgrees(d: PubDate)
    requires d.year.Some?
    ensures ResolveCalendarDate(d).Ok? <==>
      ResolveDate(d).Ok? && IsCalendarDate(ResolveDate(d).value.year, ResolveDate(d).value.month, ResolveDate(d).value.day)
    ensures ResolveCalendarDate(d).Ok? ==>
      ResolveCalendarDate(d) == ResolveDate(d) && 1 <= ResolveCalendarDate(d).value.month <= 12
  {
  }

  /** The empty month string is accepted by the table (as 0) on the
      timeline, but the same date fails on the time series. */
  lemma EmptyMonthDiverges(y: int, day: Option<int>)
    ensures ResolveDate(PubDate(Some(y), Some(""), day)) == Ok(DateTriple(y, 0, day.GetOr(1)))
    ensures ResolveCalendarDate(PubDate(Some(y), Some(""), day)) == Err(InvalidDate(y, 0, day.GetOr(1)))
  {
    MonthTable();
  }
}
