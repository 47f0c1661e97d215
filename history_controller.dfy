/**
 * HistoryController: a month of the caller's entries with a summary of how the
 * days went, and the caller's seven most recent entries.
 *
 * The controller reads the table through the repository; here it is given the
 * table's rows.
 */
module HistoryController {

  import opened Options
  import opened Calendar
  import opened Users
  import opened Entries
  import opened EntryRepository
  import opened TodayController
  import opened Http

  /** `recent` asks the repository for this many entries. */
  const RecentCount: nat := 7

  // ---------------------------------------------------------------------------
  // The month summary

  /** The counters of the month summary. */
  datatype Summary = Summary(totalDays: nat, completed: nat, notCompleted: nat, skipped: nat)

  /** Which counter, if any, an entry increments. */
  datatype Bucket = SkippedDay | CompletedDay | NotCompletedDay | OpenDay

  /** A skipped entry counts as skipped whatever `completed` holds; an entry still open counts nowhere. */
  function Classify(e: EntryState): (b: Bucket)
    ensures b == SkippedDay <==> e.skipped
    ensures b == CompletedDay <==> !e.skipped && e.completed == Some(true)
    ensures b == NotCompletedDay <==> !e.skipped && e.completed == Some(false)
    ensures b == OpenDay <==> !e.skipped && e.completed.None?
  {
    if e.skipped then SkippedDay
    else
      match e.completed
      case Some(true) => CompletedDay
      case Some(false) => NotCompletedDay
      case None => OpenDay
  }

  /** How many entries of `s` fall in bucket `b`. */
  function CountIn(s: seq<EntryState>, b: Bucket): (n: nat)
    ensures n <= |s|
  {
    if |s| == 0 then 0
    else CountIn(s[..|s| - 1], b) + (if Classify(s[|s| - 1]) == b then 1 else 0)
  }

  /** The summary of a list of entries. */
  function SummaryOf(s: seq<EntryState>): Summary
  {
    Summary(|s|, CountIn(s, CompletedDay), CountIn(s, NotCompletedDay), CountIn(s, SkippedDay))
  }

  /** The summary loop: `total_days` is the count; each entry increments at most one counter. */
  method Summarize(entries: seq<EntryState>) returns (s: Summary)
    ensures s == SummaryOf(entries)
  {
    s := Summary(|entries|, 0, 0, 0);
    for i := 0 to |entries|
      invariant s.totalDays == |entries|
      invariant s.completed == CountIn(entries[..i], CompletedDay)
      invariant s.notCompleted == CountIn(entries[..i], NotCompletedDay)
      invariant s.skipped == CountIn(entries[..i], SkippedDay)
    {
      assert entries[..i + 1][..i] == entries[..i];
      var e := entries[i];
      if e.skipped {
        s := s.(skipped := s.skipped + 1);
      } else if e.completed == Some(true) {
        s := s.(completed := s.completed + 1);
      } else if e.completed == Some(false) {
        s := s.(notCompleted := s.notCompleted + 1);
      }
    }
    assert entries[..|entries|] == entries;
  }

  /** The four buckets split the entries: every entry is in exactly one of them. */
  lemma {:induction false} BucketsPartition(s: seq<EntryState>)
    ensures CountIn(s, CompletedDay) + CountIn(s, NotCompletedDay) + CountIn(s, SkippedDay)
            + CountIn(s, OpenDay) == |s|
  {
    if |s| > 0 {
      BucketsPartition(s[..|s| - 1]);
    }
  }

  /** Entries still open (not skipped, `completed` null) are the only ones no counter sees. */
  lemma {:induction false} OpenDaysCount(s: seq<EntryState>)
    ensures CountIn(s, OpenDay) == 0 <==> forall i :: 0 <= i < |s| ==> s[i].skipped || s[i].completed.Some?
  {
    if |s| > 0 {
      var init := s[..|s| - 1];
      OpenDaysCount(init);
      assert forall i :: 0 <= i < |init| ==> init[i] == s[i];
      var last := s[|s| - 1];
      if !last.skipped && last.completed.Some? {
        assert last.completed.value || !last.completed.value;
        assert Classify(last) != OpenDay;
      }
    }
  }

  /**
   * The counters add up to at most `total_days`, and to exactly `total_days`
   * when no entry of the month is still open.
   */
  lemma SummaryTotals(s: seq<EntryState>)
    ensures var sum := SummaryOf(s);
      && sum.totalDays == |s|
      && sum.completed + sum.notCompleted + sum.skipped <= sum.totalDays
      && (sum.completed + sum.notCompleted + sum.skipped == sum.totalDays
          <==> forall i :: 0 <= i < |s| ==> s[i].skipped || s[i].completed.Some?)
  {
    BucketsPartition(s);
    OpenDaysCount(s);
  }

  // ---------------------------------------------------------------------------
  // The endpoints

  /** `array_map($this->entryToArray(...), $entries)`. */
  function Views(s: seq<EntryState>): (v: seq<EntryView>)
    requires forall i :: 0 <= i < |s| ==> ValidDate(s[i].date)
    ensures |v| == |s|
    ensures forall i :: 0 <= i < |s| ==> v[i] == EntryToArray(s[i]) && ParseYmd(v[i].date) == Some(s[i].date)
  {
    seq(|s|, i requires 0 <= i < |s| => EntryToArray(s[i]))
  }

  /** Every row of a selection from the table holds a real day. */
  lemma SelectionDatesValid(rows: seq<EntryState>, r: seq<EntryState>)
    requires TableInvariant(rows) && multiset(r) <= multiset(rows)
    ensures forall i :: 0 <= i < |r| ==> ValidDate(r[i].date)
  {
    forall i | 0 <= i < |r| ensures ValidDate(r[i].date) {
      assert r[i] in multiset(rows);
    }
  }

  /** The JSON body of a month page. */
  datatype MonthPage = MonthPage(month: string, entries: seq<EntryView>, summary: Summary)

  /**
   * GET /api/history?month=YYYY-MM: 401 without a user, 400 when the month does
   * not match the pattern, 500 when the database refuses the month's bounds
   * (year 0000), otherwise the month's entries, oldest first, and their summary.
   */
  method Month(rows: seq<EntryState>, auth: Option<UserId>, month: string)
    returns (status: int, page: Option<MonthPage>)
    requires TableInvariant(rows) && MonthQueryDefined(month)
    ensures status == StatusUnauthorized <==> auth.None?
    ensures status == StatusBadRequest <==> auth.Some? && !YearMonthPattern(month)
    ensures status == StatusServerError <==> auth.Some? && YearMonthPattern(month) && YearOf(month) == 0
    ensures status == StatusOk <==> auth.Some? && YearMonthPattern(month) && YearOf(month) >= 1
    ensures page.Some? <==> status == StatusOk
    ensures status == StatusOk ==> FindByUserAndMonth(rows, auth.value, month).Some?
    ensures status == StatusOk ==>
      var found := FindByUserAndMonth(rows, auth.value, month).value;
      && page.value.month == month
      && |page.value.entries| == |found|
      && (forall i :: 0 <= i < |found| ==>
            ValidDate(found[i].date) && page.value.entries[i] == EntryToArray(found[i]))
      && page.value.summary == SummaryOf(found)
  {
    if auth.None? {
      return StatusUnauthorized, None;
    }
    if !YearMonthPattern(month) {
      return StatusBadRequest, None;
    }
    var result := FindByUserAndMonth(rows, auth.value, month);
    MonthQueryFailsOnlyForYearZero(rows, auth.value, month);
    if result.None? {
      return StatusServerError, None;
    }
    var found := result.value;
    SelectionDatesValid(rows, found);
    var summary := Summarize(found);
    status, page := StatusOk, Some(MonthPage(month, Views(found), summary));
  }

  /**
   * A month page lists each of the caller's entries of that calendar month once,
   * in strictly increasing date order, and nothing else.
   */
  lemma MonthPageEntries(rows: seq<EntryState>, user: UserId, month: string)
    requires TableInvariant(rows) && StorableMonth(month)
    ensures FindByUserAndMonth(rows, user, month).Some?
    ensures var found := FindByUserAndMonth(rows, user, month).value;
      && (forall i, j :: 0 <= i < j < |found| ==> DateLe(found[i].date, found[j].date) && found[i].date != found[j].date)
      && (forall i :: 0 <= i < |found| ==> InMonth(found[i], user, month) && found[i] in rows)
      && (forall x :: x in rows && InMonth(x, user, month) ==> x in found)
  {
    MonthQueryFailsOnlyForYearZero(rows, user, month);
    var found := FindByUserAndMonth(rows, user, month).value;
    MonthStrictlyAscending(rows, user, month);
    forall i | 0 <= i < |found| ensures found[i] in rows {
      assert multiset(found)[found[i]] > 0;
    }
    forall x | x in rows && InMonth(x, user, month) ensures x in found {
      assert multiset(found)[x] == multiset(rows)[x];
    }
  }

  /** GET /api/history/recent: 401 without a user, otherwise the views of the newest seven entries. */
  function Recent(rows: seq<EntryState>, auth: Option<UserId>): (r: (int, Option<seq<EntryView>>))
    requires TableInvariant(rows)
    ensures r.0 == StatusUnauthorized <==> auth.None?
    ensures r.0 == StatusOk <==> auth.Some?
    ensures r.1.Some? <==> auth.Some?
    ensures auth.Some? ==>
      var found := FindRecentByUser(rows, auth.value, RecentCount);
      && |r.1.value| == |found| <= RecentCount
      && (forall i :: 0 <= i < |found| ==>
            ValidDate(found[i].date) && r.1.value[i] == EntryToArray(found[i]))
      && (forall i, j :: 0 <= i < j < |found| ==>
            DateLe(ParseYmd(r.1.value[j].date).value, ParseYmd(r.1.value[i].date).value))
  {
    if auth.None? then (StatusUnauthorized, None)
    else
      var found := FindRecentByUser(rows, auth.value, RecentCount);
      SelectionDatesValid(rows, found);
      (StatusOk, Some(Views(found)))
  }
}
