/**
 * The `daily_entry` table: the DailyEntry record with its setters, and the table of
 * stored entries with its unique (user, date) index.
 */
module Entries {

  import opened Options
  import opened Calendar
  import opened Users

  /**
   * One stored row. `updates` counts the writes of `updatedAt`: 0 means the
   * column is still null, and every write stores a new timestamp.
   */
  datatype EntryState = EntryState(
    user: UserId,
    date: Date,
    intention: string,
    completed: Option<bool>,
    skipped: bool,
    updates: nat)

  /** The (user_id, date) pair the unique index `uniq_user_date` is built on. */
  predicate HasKeyOf(e: EntryState, user: UserId, date: Date)
  {
    e.user == user && e.date == date
  }

  /** Some row of `rows` is keyed (user, date). */
  predicate HasKey(rows: seq<EntryState>, user: UserId, date: Date)
  {
    exists i :: 0 <= i < |rows| && HasKeyOf(rows[i], user, date)
  }

  /** At most one row per (user, date). */
  predicate UniqueKeys(rows: seq<EntryState>)
  {
    forall i, j :: 0 <= i < j < |rows| ==> !HasKeyOf(rows[j], rows[i].user, rows[i].date)
  }

  /** What the table guarantees of its rows: real days, and the unique index. */
  predicate TableInvariant(rows: seq<EntryState>)
  {
    (forall i :: 0 <= i < |rows| ==> ValidDate(rows[i].date)) && UniqueKeys(rows)
  }

  /** Two rows of a table with unique keys that share a key are the same row. */
  lemma UniqueKeyPosition(rows: seq<EntryState>, i: int, j: int)
    requires UniqueKeys(rows) && 0 <= i < |rows| && 0 <= j < |rows|
    requires HasKeyOf(rows[j], rows[i].user, rows[i].date)
    ensures i == j
  {
  }

  /** The DailyEntry entity: its columns, as PHP's nullable fields, and its setters. */
  class DailyEntry {
    var user: Option<UserId>
    var date: Option<Date>
    var intention: Option<string>
    var completed: Option<bool>
    var skipped: bool
    /** Whether `createdAt` holds a timestamp. */
    var createdAt: bool
    /** How many times `updatedAt` has been written (0: it is null). */
    var updatedAt: nat

    /** A new entry: only the id and `createdAt` are set. */
    constructor ()
      ensures user == None && date == None && intention == None
      ensures completed == None && !skipped
      ensures createdAt && updatedAt == 0
    {
      user := None;
      date := None;
      intention := None;
      completed := None;
      skipped := false;
      createdAt := true;
      updatedAt := 0;
    }

    method SetUser(u: UserId)
      modifies this`user
      ensures user == Some(u)
    {
      user := Some(u);
    }

    function GetDate(): Option<Date>
      reads this
    {
      date
    }

    method SetDate(d: Date)
      modifies this`date
      ensures GetDate() == Some(d)
    {
      date := Some(d);
    }

    /** Writes the intention and nothing else: `updatedAt` is left as it was. */
    method SetIntention(s: string)
      modifies this`intention
      ensures intention == Some(s)
    {
      intention := Some(s);
    }

    /** Writes `completed` and stamps `updatedAt`. */
    method SetCompleted(c: Option<bool>)
      modifies this`completed, this`updatedAt
      ensures completed == c && updatedAt == old(updatedAt) + 1
    {
      completed := c;
      updatedAt := updatedAt + 1;
    }

    /** Writes `skipped` and stamps `updatedAt`. */
    method SetSkipped(b: bool)
      modifies this`skipped, this`updatedAt
      ensures skipped == b && updatedAt == old(updatedAt) + 1
    {
      skipped := b;
      updatedAt := updatedAt + 1;
    }

    /** The NOT NULL columns hold values, so the entry can be stored. */
    predicate Persistable()
      reads this
    {
      user.Some? && date.Some? && intention.Some? && createdAt
    }

    /** The row this entry is stored as. */
    function State(): EntryState
      reads this
      requires Persistable()
    {
      EntryState(user.value, date.value, intention.value, completed, skipped, updatedAt)
    }
  }

  /** The stored entries, in insertion order. */
  class EntryStore {
    var entries: seq<DailyEntry>

    ghost predicate AllPersistable()
      reads this, entries
    {
      forall i :: 0 <= i < |entries| ==> entries[i].Persistable()
    }

    ghost predicate Valid()
      reads this, entries
    {
      && AllPersistable()
      && (forall i, j :: 0 <= i < j < |entries| ==> entries[i] != entries[j])
      && TableInvariant(Rows())
    }

    /** The table's rows, one per stored entry. */
    function Rows(): seq<EntryState>
      reads this, entries
      requires AllPersistable()
    {
      seq(|entries|, i requires 0 <= i < |entries| && entries[i].Persistable() reads this, entries => entries[i].State())
    }

    constructor ()
      ensures Valid() && entries == []
    {
      entries := [];
    }

    /**
     * `persist` and `flush` of a new entry. The unique index refuses a second
     * row for a (user, date) pair that already has one.
     */
    method Insert(e: DailyEntry) returns (ok: bool)
      requires Valid() && e.Persistable() && ValidDate(e.date.value) && e !in entries
      modifies this`entries
      ensures Valid()
      ensures ok <==> !HasKey(old(Rows()), e.user.value, e.date.value)
      ensures entries == if ok then old(entries) + [e] else old(entries)
      ensures Rows() == if ok then old(Rows()) + [e.State()] else old(Rows())
    {
      ok := !HasKey(Rows(), e.user.value, e.date.value);
      if ok {
        entries := entries + [e];
        assert Rows() == old(Rows()) + [e.State()];
      }
    }
  }
}
