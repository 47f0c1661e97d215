/**
 * DailyEntryRepository: the three queries over the `daily_entry` table, as
 * functions of the table's rows.
 */
module EntryRepository {

  import opened Options
  import opened Calendar
  import opened Users
  import opened Entries

  // ---------------------------------------------------------------------------
  // Day lookup

  /**
   * `d.user = :user AND d.date = :date`, where the date is bound as its `Y-m-d`
   * text and read back by the database.
   */
  predicate MatchesDay(e: EntryState, user: UserId, date: Date)
    requires ValidDate(date)
  {
    e.user == user && Some(e.date) == ParseYmd(FormatYmd(date))
  }

  /** Binding the day as text selects exactly the rows keyed by that day. */
  lemma MatchesDayIsKey(e: EntryState, user: UserId, date: Date)
    requires ValidDate(date)
    ensures MatchesDay(e, user, date) <==> HasKeyOf(e, user, date)
  {
    ParseFormat(date);
  }

  /** Position of the first row the day query selects. */
  function IndexOf(rows: seq<EntryState>, user: UserId, date: Date): (r: Option<nat>)
    requires ValidDate(date)
    ensures r.Some? ==> r.value < |rows| && HasKeyOf(rows[r.value], user, date)
    ensures r.Some? ==> forall i :: 0 <= i < r.value ==> !HasKeyOf(rows[i], user, date)
    ensures r.None? <==> !HasKey(rows, user, date)
    decreases |rows|
  {
    if |rows| == 0 then None
    else if MatchesDay(rows[0], user, date) then
      MatchesDayIsKey(rows[0], user, date);
      Some(0)
    else
      MatchesDayIsKey(rows[0], user, date);
      var rest := IndexOf(rows[1..], user, date);
      assert forall i :: 1 <= i < |rows| ==> rows[i] == rows[1..][i - 1];
      match rest
      case None => None
      case Some(k) => Some(k + 1)
  }

  /**
   * `findByUserAndDate`: the one entry of `user` on `date`, or none
   * (`getOneOrNullResult`; the unique index rules out a second match).
   */
  function FindByUserAndDate(rows: seq<EntryState>, user: UserId, date: Date): (r: Option<EntryState>)
    requires ValidDate(date) && UniqueKeys(rows)
    ensures r.None? <==> !HasKey(rows, user, date)
    ensures r.Some? ==> r.value in rows && HasKeyOf(r.value, user, date)
    ensures r.Some? ==> forall i :: 0 <= i < |rows| && HasKeyOf(rows[i], user, date) ==> rows[i] == r.value
  {
    match IndexOf(rows, user, date)
    case None => None
    case Some(k) =>
      assert forall i :: 0 <= i < |rows| && HasKeyOf(rows[i], user, date) ==> i == k by {
        forall i | 0 <= i < |rows| && HasKeyOf(rows[i], user, date) ensures i == k {
          UniqueKeyPosition(rows, k, i);
        }
      }
      Some(rows[k])
  }

  // ---------------------------------------------------------------------------
  // Filtering and ordering

  /** The rows a `WHERE` clause keeps, in table order. */
  function Filter(rows: seq<EntryState>, keep: EntryState -> bool): (r: seq<EntryState>)
    ensures forall i :: 0 <= i < |r| ==> keep(r[i])
    ensures forall x :: multiset(r)[x] == if keep(x) then multiset(rows)[x] else 0
  {
    if |rows| == 0 then []
    else
      assert rows == [rows[0]] + rows[1..];
      var rest := Filter(rows[1..], keep);
      if keep(rows[0]) then [rows[0]] + rest else rest
  }

  predicate SortedAsc(s: seq<EntryState>)
  {
    forall i, j :: 0 <= i < j < |s| ==> DateLe(s[i].date, s[j].date)
  }

  predicate SortedDesc(s: seq<EntryState>)
  {
    forall i, j :: 0 <= i < j < |s| ==> DateLe(s[j].date, s[i].date)
  }

  function InsertByDate(x: EntryState, s: seq<EntryState>): (r: seq<EntryState>)
    requires SortedAsc(s)
    ensures SortedAsc(r)
    ensures multiset(r) == multiset(s) + multiset{x}
  {
    if |s| == 0 then [x]
    else if DateLe(x.date, s[0].date) then [x] + s
    else
      assert s == [s[0]] + s[1..];
      var rest := InsertByDate(x, s[1..]);
      assert forall k :: 0 <= k < |rest| ==> rest[k] in multiset(s[1..]) + multiset{x};
      DateLeTotal(x.date, s[0].date);
      [s[0]] + rest
  }

  /** `ORDER BY d.date ASC`. */
  function SortByDate(s: seq<EntryState>): (r: seq<EntryState>)
    ensures SortedAsc(r)
    ensures multiset(r) == multiset(s)
  {
    if |s| == 0 then []
    else
      assert s == [s[0]] + s[1..];
      InsertByDate(s[0], SortByDate(s[1..]))
  }

  function Reverse(s: seq<EntryState>): (r: seq<EntryState>)
    ensures |r| == |s|
    ensures forall i :: 0 <= i < |s| ==> r[i] == s[|s| - 1 - i]
    ensures multiset(r) == multiset(s)
  {
    if |s| == 0 then []
    else
      assert s == [s[0]] + s[1..];
      Reverse(s[1..]) + [s[0]]
  }

  /** `ORDER BY d.date DESC`: the ascending order read backwards. */
  function SortByDateDesc(s: seq<EntryState>): (r: seq<EntryState>)
    ensures SortedDesc(r)
    ensures multiset(r) == multiset(s)
  {
    Reverse(SortByDate(s))
  }

  // ---------------------------------------------------------------------------
  // Month query

  /** The entry is `user`'s and dated in the calendar month `ym`. */
  predicate InMonth(e: EntryState, user: UserId, ym: string)
    requires MonthShape(ym)
  {
    e.user == user && e.date.year == YearOf(ym) && e.date.month == MonthOf(ym)
  }

  /** The month query's `WHERE` clause. */
  function MonthClause(user: UserId, ym: string): EntryState -> bool
    requires StorableMonth(ym)
  {
    var bounds := MonthBounds(ym);
    (e: EntryState) => e.user == user && DateLe(bounds.0, e.date) && DateLe(e.date, bounds.1)
  }

  /**
   * `findByUserAndMonth`: nothing when `ym` does not match `^\d{4}-\d{2}$`; a
   * database error (`None`) when the start bound `ym-01` is not a date the
   * database accepts; otherwise every entry of `user` from `ym-01` to the
   * month's last day, each once, oldest first.
   */
  function FindByUserAndMonth(rows: seq<EntryState>, user: UserId, ym: string): (r: Option<seq<EntryState>>)
    requires TableInvariant(rows) && MonthQueryDefined(ym)
    ensures !YearMonthPattern(ym) ==> r == Some([])
    ensures YearMonthPattern(ym) ==> (r.None? <==> ParseYmd(ym + "-01").None?)
    ensures YearMonthPattern(ym) && r.Some? ==> SortedAsc(r.value)
    ensures YearMonthPattern(ym) && r.Some? ==> forall i :: 0 <= i < |r.value| ==> InMonth(r.value[i], user, ym)
    ensures YearMonthPattern(ym) && r.Some? ==>
      forall x :: multiset(r.value)[x] == if InMonth(x, user, ym) then multiset(rows)[x] else 0
  {
    if !YearMonthPattern(ym) then Some([])
    else if ParseYmd(ym + "-01").None? then None
    else
      MonthStartParses(ym);
      var keep := MonthClause(user, ym);
      var sel := Filter(rows, keep);
      var r := SortByDate(sel);
      forall x ensures multiset(r)[x] == if InMonth(x, user, ym) then multiset(rows)[x] else 0 {
        if x in rows {
          var i :| 0 <= i < |rows| && rows[i] == x;
          MonthBoundsExact(ym, rows[i].date);
        }
      }
      forall i | 0 <= i < |r| ensures InMonth(r[i], user, ym) {
        assert r[i] in multiset(sel);
        var j :| 0 <= j < |rows| && rows[j] == r[i];
        MonthBoundsExact(ym, rows[j].date);
      }
      Some(r)
  }

  /** The month query fails exactly for year 0000, and answers for every other matching month. */
  lemma MonthQueryFailsOnlyForYearZero(rows: seq<EntryState>, user: UserId, ym: string)
    requires TableInvariant(rows) && MonthQueryDefined(ym) && YearMonthPattern(ym)
    ensures FindByUserAndMonth(rows, user, ym).None? <==> YearOf(ym) == 0
  {
    MonthStartParses(ym);
  }

  /** With the unique index, a month's entries come in strictly increasing date order. */
  lemma MonthStrictlyAscending(rows: seq<EntryState>, user: UserId, ym: string)
    requires TableInvariant(rows) && MonthQueryDefined(ym)
    ensures var r := FindByUserAndMonth(rows, user, ym);
      r.Some? ==> forall i, j :: 0 <= i < j < |r.value| ==> r.value[i].date != r.value[j].date
  {
    var r := FindByUserAndMonth(rows, user, ym);
    if YearMonthPattern(ym) && r.Some? {
      var s := r.value;
      assert multiset(s) <= multiset(rows);
      forall i, j | 0 <= i < j < |s| ensures s[i].date != s[j].date {
        DistinctKeysInSubset(rows, s, i, j);
      }
    }
  }

  /** Two positions of a selection from a table with unique keys hold rows with different keys. */
  lemma DistinctKeysInSubset(rows: seq<EntryState>, r: seq<EntryState>, i: int, j: int)
    requires UniqueKeys(rows) && multiset(r) <= multiset(rows)
    requires 0 <= i < j < |r|
    ensures !HasKeyOf(r[j], r[i].user, r[i].date)
  {
    assert r[i] in multiset(rows) && r[j] in multiset(rows);
    var a :| 0 <= a < |rows| && rows[a] == r[i];
    var b :| 0 <= b < |rows| && rows[b] == r[j];
    if HasKeyOf(r[j], r[i].user, r[i].date) {
      UniqueKeyPosition(rows, a, b);
      TwoPositions(r, i, j);
      RowOnce(rows, a);
      assert false;
    }
  }

  /** A value at two positions of a sequence occurs at least twice in it. */
  lemma TwoPositions(r: seq<EntryState>, i: int, j: int)
    requires 0 <= i < j < |r|
    ensures multiset(r)[r[i]] >= 1 + (if r[i] == r[j] then 1 else 0)
  {
    assert r == r[..i] + [r[i]] + r[i + 1..j] + [r[j]] + r[j + 1..];
  }

  /** In a table with unique keys every row occurs once. */
  lemma RowOnce(rows: seq<EntryState>, a: int)
    requires UniqueKeys(rows) && 0 <= a < |rows|
    ensures multiset(rows)[rows[a]] == 1
  {
    var pre, post := rows[..a], rows[a + 1..];
    assert rows == pre + [rows[a]] + post;
    forall k | 0 <= k < |pre| ensures pre[k] != rows[a] {
      assert pre[k] == rows[k];
    }
    forall k | 0 <= k < |post| ensures post[k] != rows[a] {
      assert post[k] == rows[a + 1 + k];
    }
    assert rows[a] !in multiset(pre);
    assert rows[a] !in multiset(post);
  }

  // ---------------------------------------------------------------------------
  // Most recent entries

  /**
   * `findRecentByUser`: at most `limit` of `user`'s entries, newest first, and
   * they are the newest ones.
   */
  function FindRecentByUser(rows: seq<EntryState>, user: UserId, limit: nat): (r: seq<EntryState>)
    ensures |r| <= limit
    ensures forall i :: 0 <= i < |r| ==> r[i].user == user
    ensures SortedDesc(r)
    ensures multiset(r) <= multiset(rows)
    ensures |r| < limit ==> forall x :: x in rows && x.user == user ==> x in r
    ensures forall x :: x in rows && x.user == user && x !in r ==>
      forall i :: 0 <= i < |r| ==> DateLe(x.date, r[i].date)
  {
    var keep := (e: EntryState) => e.user == user;
    var mine := Filter(rows, keep);
    forall x | x in rows && x.user == user ensures x in multiset(mine) {
      assert keep(x) && multiset(mine)[x] == multiset(rows)[x];
    }
    assert forall i :: 0 <= i < |mine| ==> keep(mine[i]);
    assert multiset(mine) <= multiset(rows) by {
      forall x ensures multiset(mine)[x] <= multiset(rows)[x] {
      }
    }
    var newest := SortByDateDesc(mine);
    var n := if limit < |newest| then limit else |newest|;
    NewestPrefix(rows, user, mine, newest, n);
    var r := newest[..n];
    assert |r| == n;
    r
  }

  lemma NewestPrefix(rows: seq<EntryState>, user: UserId, mine: seq<EntryState>, newest: seq<EntryState>, n: nat)
    requires forall i :: 0 <= i < |mine| ==> mine[i].user == user
    requires forall x :: x in rows && x.user == user ==> x in multiset(mine)
    requires multiset(mine) <= multiset(rows)
    requires SortedDesc(newest) && multiset(newest) == multiset(mine) && n <= |newest|
    ensures SortedDesc(newest[..n])
    ensures forall i :: 0 <= i < n ==> newest[..n][i].user == user
    ensures multiset(newest[..n]) <= multiset(rows)
    ensures n == |newest| ==> forall x :: x in rows && x.user == user ==> x in newest[..n]
    ensures forall x :: x in rows && x.user == user && x !in newest[..n] ==>
      forall i :: 0 <= i < n ==> DateLe(x.date, newest[..n][i].date)
  {
    var r := newest[..n];
    assert newest == r + newest[n..];
    assert multiset(r) <= multiset(newest);
    forall i | 0 <= i < n ensures r[i].user == user {
      assert r[i] == newest[i] && newest[i] in multiset(mine);
    }
    forall x | x in rows && x.user == user && x !in r
      ensures forall i :: 0 <= i < n ==> DateLe(x.date, r[i].date)
    {
      assert x in multiset(newest);
      var k :| 0 <= k < |newest| && newest[k] == x;
      forall i | 0 <= i < n ensures newest[i] != x {
        assert r[i] == newest[i];
      }
    }
    if n == |newest| {
      assert r == newest;
      forall x | x in rows && x.user == user ensures x in r {
        assert x in multiset(newest);
      }
    }
  }
}
