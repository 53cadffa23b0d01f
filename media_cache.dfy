/**
 The statements on the `downloaded_files` table: the URL-keyed media cache
 and the usage report built from its `date_added` column.

 Dates are whole day numbers. The report's window starts `WindowLength(p)`
 days before the day `now`, which the caller supplies in place of the clock.
 A row whose `date_added` is NULL lies in no window.
 */
module MediaCache {
  import opened Tables

  // ---------------------------------------------------------------------------
  // The cache
  // ---------------------------------------------------------------------------

  /** `SELECT file_id FROM downloaded_files WHERE url = %s`: all matching rows. */
  function GetFileId(files: FileTable, url: string): (ids: seq<string>)
    ensures |ids| <= 1
    ensures ids == [] <==> url !in files
    ensures ids != [] ==> ids[0] == files[url].fileId
  {
    if url in files then [files[url].fileId] else []
  }

  /** Whether `INSERT INTO downloaded_files (url, file_id, file_type)` is refused by UNIQUE (url). */
  function InsertFileOutcome(files: FileTable, url: string): (o: InsertOutcome)
    ensures o == Conflict <==> GetFileId(files, url) != []
  {
    if url in files then Conflict else Inserted
  }

  /**
   The table after `INSERT INTO downloaded_files (url, file_id, file_type)`,
   with `date_added` taking its default, the day `today`. A URL already cached
   violates the UNIQUE constraint and the statement changes nothing.
   */
  function InsertFile(files: FileTable, url: string, fileId: string, fileType: Option<string>, today: Day): (r: FileTable)
    ensures InsertFileOutcome(files, url) == Conflict ==> r == files
    ensures InsertFileOutcome(files, url) == Inserted ==>
      && r.Keys == files.Keys + {url}
      && r[url] == FileRow(fileId, fileType, Some(today))
      && forall u :: u in files ==> r[u] == files[u]
    ensures GetFileId(r, url) == (if url in files then GetFileId(files, url) else [fileId])
  {
    if url in files then files else files[url := FileRow(fileId, fileType, Some(today))]
  }

  /**
   The cache is write-once: a second insert for a URL, whatever it carries,
   conflicts and leaves the lookup of that URL returning the first reference.
   */
  lemma {:induction false} SecondInsertConflicts(files: FileTable, url: string,
                                                 id1: string, t1: Option<string>, d1: Day,
                                                 id2: string, t2: Option<string>, d2: Day)
    requires url !in files
    ensures var once := InsertFile(files, url, id1, t1, d1);
      && InsertFileOutcome(once, url) == Conflict
      && InsertFile(once, url, id2, t2, d2) == once
      && GetFileId(InsertFile(once, url, id2, t2, d2), url) == [id1]
  {
  }

  // ---------------------------------------------------------------------------
  // The usage report
  // ---------------------------------------------------------------------------

  datatype Period = Week | Month | Year

  /** The `period` strings that issue a query; any other string issues none. */
  function ParsePeriod(s: string): (p: Option<Period>)
    ensures p == Some(Week) <==> s == "Week"
    ensures p == Some(Month) <==> s == "Month"
    ensures p == Some(Year) <==> s == "Year"
  {
    if s == "Week" then Some(Week)
    else if s == "Month" then Some(Month)
    else if s == "Year" then Some(Year)
    else None
  }

  /** The window of each period, in days: `timedelta(weeks=1)`, `timedelta(days=30)`, `timedelta(days=365)`. */
  function WindowLength(p: Period): (days: nat)
    ensures p == Week ==> days == 7
    ensures p == Month ==> days == 30
    ensures p == Year ==> days == 365
  {
    match p
    case Week => 7
    case Month => 30
    case Year => 365
  }

  /** The first day the report counts: `now` minus the window. */
  function WindowStart(p: Period, now: Day): Day
  {
    now - WindowLength(p)
  }

  /**
   The rows `WHERE date_added >= start` keeps: a NULL `date_added` makes the
   condition UNKNOWN, so such a row is never kept.
   */
  function RowsFrom(files: FileTable, start: Day): set<string>
  {
    set u | u in files && files[u].dateAdded.Some? && files[u].dateAdded.value >= start
  }

  /** The rows whose `DATE(date_added)` is `d`: one group of `GROUP BY DATE(date_added)`. */
  function RowsOn(files: FileTable, d: Day): set<string>
  {
    set u | u in files && files[u].dateAdded == Some(d)
  }

  /** The rows whose day lies in `days`. */
  function RowsOnAny(files: FileTable, days: set<Day>): set<string>
  {
    set u | u in files && files[u].dateAdded.Some? && files[u].dateAdded.value in days
  }

  /** The groups the query forms: the days of the rows it keeps. */
  function DaysFrom(files: FileTable, start: Day): (days: set<Day>)
    ensures forall d :: d in days <==> d >= start && exists u :: u in files && files[u].dateAdded == Some(d)
  {
    set u | u in files && files[u].dateAdded.Some? && files[u].dateAdded.value >= start :: files[u].dateAdded.value
  }

  /** A non-empty set has a member. */
  lemma HasMember(s: set<Day>)
    requires s != {}
    ensures exists x :: x in s
  {
    if forall x :: x !in s {
      assert false;
    }
  }

  predicate IsLeast(m: Day, s: set<Day>)
  {
    m in s && forall y :: y in s ==> m <= y
  }

  /** Every non-empty finite set of days has a least day. */
  lemma {:induction false} LeastExists(s: set<Day>)
    requires s != {}
    ensures exists m :: IsLeast(m, s)
    decreases |s|
  {
    HasMember(s);
    var x :| x in s;
    var rest := s - {x};
    if rest != {} {
      LeastExists(rest);
      var m :| IsLeast(m, rest);
      var least := if x < m then x else m;
      forall y | y in s ensures least <= y {
        assert y == x || y in rest;
      }
      assert IsLeast(least, s);
    } else {
      forall y | y in s ensures y == x {
        assert y == x || y in rest;
      }
      assert IsLeast(x, s);
    }
  }

  function Least(s: set<Day>): (m: Day)
    requires s != {}
    ensures IsLeast(m, s)
  {
    LeastExists(s);
    var m :| IsLeast(m, s);
    m
  }

  /** The days of `s` in ascending order: `ORDER BY DATE(date_added)`. */
  function SortedDays(s: set<Day>): (r: seq<Day>)
    ensures |r| == |s|
    ensures forall d :: d in r <==> d in s
    ensures forall i, j :: 0 <= i < j < |r| ==> r[i] < r[j]
    decreases |s|
  {
    if s == {} then []
    else
      var m := Least(s);
      [m] + SortedDays(s - {m})
  }

  /** One `(date, COUNT(*))` per day, in the order of `days`. */
  function Buckets(files: FileTable, days: seq<Day>): (r: seq<(Day, nat)>)
    ensures |r| == |days|
    ensures forall i :: 0 <= i < |r| ==> r[i].0 == days[i] && r[i].1 == |RowsOn(files, days[i])|
  {
    if days == [] then [] else [(days[0], |RowsOn(files, days[0])|)] + Buckets(files, days[1..])
  }

  /** The counts of a report, added up. */
  function SumCounts(b: seq<(Day, nat)>): nat
  {
    if b == [] then 0 else b[0].1 + SumCounts(b[1..])
  }

  /**
   The query one period issues: the rows of the window grouped by day, one
   `(day, count)` per day in ascending order of day. The dictionary the source
   builds from these rows keeps that order.
   */
  function PeriodReport(files: FileTable, p: Period, now: Day): (r: seq<(Day, nat)>)
    ensures |r| == |DaysFrom(files, WindowStart(p, now))|
    ensures forall i :: 0 <= i < |r| ==> r[i].0 >= WindowStart(p, now)
  {
    var days := SortedDays(DaysFrom(files, WindowStart(p, now)));
    assert forall i :: 0 <= i < |days| ==> days[i] in days;
    Buckets(files, days)
  }

  /**
   `get_downloaded_files_count(period)`: "Week", "Month" and "Year" each issue
   the query of their window; any other string issues none, written `None`.
   */
  function GetDownloadedFilesCount(files: FileTable, period: string, now: Day): (r: Option<seq<(Day, nat)>>)
    ensures r.None? <==> period != "Week" && period != "Month" && period != "Year"
    ensures period == "Week" ==> r == Some(PeriodReport(files, Week, now))
    ensures period == "Month" ==> r == Some(PeriodReport(files, Month, now))
    ensures period == "Year" ==> r == Some(PeriodReport(files, Year, now))
  {
    match ParsePeriod(period)
    case Some(p) => Some(PeriodReport(files, p, now))
    case None => None
  }

  /** The days of the report, in order: the window's days, ascending. */
  lemma ReportDays(files: FileTable, p: Period, now: Day)
    ensures var r := PeriodReport(files, p, now);
      var days := SortedDays(DaysFrom(files, WindowStart(p, now)));
      |r| == |days| && forall i :: 0 <= i < |r| ==> r[i].0 == days[i] && r[i].1 == |RowsOn(files, days[i])|
  {
  }

  /** The report's days ascend strictly, so each day appears once. */
  lemma ReportAscending(files: FileTable, p: Period, now: Day)
    ensures var r := PeriodReport(files, p, now);
      forall i, j :: 0 <= i < j < |r| ==> r[i].0 < r[j].0
  {
    ReportDays(files, p, now);
  }

  /**
   A day has an entry in the report exactly when it lies in the window and
   some row was added on it.
   */
  lemma ReportKeys(files: FileTable, p: Period, now: Day, d: Day)
    ensures var r := PeriodReport(files, p, now);
      (exists i :: 0 <= i < |r| && r[i].0 == d) <==>
        (now - WindowLength(p) <= d && exists u :: u in files && files[u].dateAdded == Some(d))
  {
    var start := WindowStart(p, now);
    var days := SortedDays(DaysFrom(files, start));
    var r := PeriodReport(files, p, now);
    ReportDays(files, p, now);
    if d in days {
      var i :| 0 <= i < |days| && days[i] == d;
      assert r[i].0 == d;
    }
    if exists i :: 0 <= i < |r| && r[i].0 == d {
      var i :| 0 <= i < |r| && r[i].0 == d;
      assert days[i] in days;
    }
  }

  /** A day of the window carries at least one row. */
  lemma WindowDayNonEmpty(files: FileTable, start: Day, d: Day)
    requires d in DaysFrom(files, start)
    ensures |RowsOn(files, d)| >= 1
  {
    var u :| u in files && files[u].dateAdded == Some(d);
    assert u in RowsOn(files, d);
  }

  /** Each entry counts the rows of its day, and no entry is zero. */
  lemma ReportCounts(files: FileTable, p: Period, now: Day)
    ensures var r := PeriodReport(files, p, now);
      forall i :: 0 <= i < |r| ==> r[i].1 == |RowsOn(files, r[i].0)| && r[i].1 >= 1
  {
    var days := SortedDays(DaysFrom(files, WindowStart(p, now)));
    var r := PeriodReport(files, p, now);
    ReportDays(files, p, now);
    forall i | 0 <= i < |r| ensures r[i].1 == |RowsOn(files, r[i].0)| && r[i].1 >= 1 {
      assert days[i] in days;
      WindowDayNonEmpty(files, WindowStart(p, now), days[i]);
    }
  }

  /** Splitting off the least day: its rows and the rows of the other days make up the rows of all. */
  lemma SplitLeast(files: FileTable, days: set<Day>, m: Day)
    requires m in days
    ensures RowsOnAny(files, days) == RowsOn(files, m) + RowsOnAny(files, days - {m})
    ensures RowsOn(files, m) * RowsOnAny(files, days - {m}) == {}
    ensures |RowsOnAny(files, days)| == |RowsOn(files, m)| + |RowsOnAny(files, days - {m})|
  {
  }

  /** Adding up the buckets of a set of days counts each row of those days once. */
  lemma {:induction false} SumOfBuckets(files: FileTable, days: set<Day>)
    ensures SumCounts(Buckets(files, SortedDays(days))) == |RowsOnAny(files, days)|
    decreases |days|
  {
    if days == {} {
      assert RowsOnAny(files, days) == {};
    } else {
      var m := Least(days);
      var rest := SortedDays(days - {m});
      assert SortedDays(days) == [m] + rest;
      assert ([m] + rest)[1..] == rest;
      SumOfBuckets(files, days - {m});
      SplitLeast(files, days, m);
    }
  }

  /** The counts of the report add up to the number of rows inside the window. */
  lemma ReportTotal(files: FileTable, p: Period, now: Day)
    ensures SumCounts(PeriodReport(files, p, now)) == |RowsFrom(files, WindowStart(p, now))|
  {
    var start := WindowStart(p, now);
    var days := DaysFrom(files, start);
    SumOfBuckets(files, days);
    assert RowsOnAny(files, days) == RowsFrom(files, start) by {
      forall u | u in RowsFrom(files, start) ensures u in RowsOnAny(files, days) {
        assert u in RowsOn(files, files[u].dateAdded.value);
      }
    }
  }

  /**
   The week window: on a cache holding a row added yesterday and a row
   added eight days ago, the week report has yesterday's bucket and not the
   other.
   */
  lemma WeekWindowExample(files: FileTable, now: Day, recent: string, stale: string)
    requires recent in files && files[recent].dateAdded == Some(now - 1)
    requires stale in files && files[stale].dateAdded == Some(now - 8)
    ensures var r := GetDownloadedFilesCount(files, "Week", now);
      && r.Some?
      && (exists i :: 0 <= i < |r.value| && r.value[i].0 == now - 1)
      && (forall i :: 0 <= i < |r.value| ==> r.value[i].0 != now - 8)
  {
    ReportKeys(files, Week, now, now - 1);
    ReportKeys(files, Week, now, now - 8);
  }
}
