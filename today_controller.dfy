/**
 * TodayController: the caller's entry for "today" is created, re-opened after a
 * skip, completed or skipped. Each endpoint reads that one entry, then rejects,
 * changes it in place, or inserts a new one.
 *
 * "Today" (the date in the user's timezone) and the authenticated user are
 * inputs. Each endpoint that writes is a method that modifies the entry table,
 * proved against a function of the table's rows (`PostSpec`, `CompleteSpec`,
 * `SkipSpec`); the lemmas below state what those functions guarantee.
 */
module TodayController {

  import opened Options
  import opened Calendar
  import opened Request
  import opened Users
  import opened Entries
  import opened EntryRepository
  import opened Http

  /** `Length(max: 65535)` on the intention. */
  const MaxIntentionLength: nat := 65535

  /** The fields of `entryToArray` this model keeps; `updatedAt` says whether it is non-null. */
  datatype EntryView = EntryView(date: string, intention: string, completed: Option<bool>, skipped: bool, updatedAt: bool)

  /** `entryToArray`: the date rendered as `Y-m-d`. */
  function EntryToArray(e: EntryState): (v: EntryView)
    requires ValidDate(e.date)
    ensures ParseYmd(v.date) == Some(e.date)
    ensures v.intention == e.intention && v.completed == e.completed && v.skipped == e.skipped
    ensures v.updatedAt <==> e.updates > 0
  {
    ParseFormat(e.date);
    EntryView(FormatYmd(e.date), e.intention, e.completed, e.skipped, e.updates > 0)
  }

  /** The status, the table afterwards, and the entry sent back (200 and 201 only). */
  datatype Outcome = Outcome(status: int, rows: seq<EntryState>, entry: Option<EntryView>)

  // ---------------------------------------------------------------------------
  // Request validation

  /** `Collection(['intention' => [NotBlank, Length(max: 65535)]])`. */
  predicate PostBodyValid(body: Body)
  {
    CollectionShape(body, {"intention"}, {})
    && NotBlank(body["intention"])
    && MaxLength(body["intention"], MaxIntentionLength)
  }

  /** `Collection(['completed' => [NotNull, Type('bool')]])`. */
  predicate CompleteBodyValid(body: Body)
  {
    CollectionShape(body, {"completed"}, {}) && body["completed"].JBool?
  }

  // ---------------------------------------------------------------------------
  // The transitions, as functions of the table

  /** The row for `user` and `today` after `post` re-opens a skipped entry. */
  function Reopened(e: EntryState, intention: string): EntryState
  {
    // setIntention leaves updatedAt; setSkipped and setCompleted each stamp it.
    e.(intention := intention, skipped := false, completed := None, updates := e.updates + 2)
  }

  /** A row created by `post`: setUser, setDate, setIntention on a new entry. */
  function Posted(user: UserId, today: Date, intention: string): EntryState
  {
    EntryState(user, today, intention, None, false, 0)
  }

  /** A row created by `skip`: setIntention(''), then setSkipped(true), which stamps updatedAt. */
  function SkipPlaceholder(user: UserId, today: Date): EntryState
  {
    EntryState(user, today, "", None, true, 1)
  }

  function PostSpec(rows: seq<EntryState>, auth: Option<UserId>, today: Date, body: Body): Outcome
    requires ValidDate(today)
  {
    if auth.None? then Outcome(StatusUnauthorized, rows, None)
    else if !PostBodyValid(body) then Outcome(StatusBadRequest, rows, None)
    else
      var v := body["intention"];
      match IndexOf(rows, auth.value, today)
      case Some(i) =>
        if !rows[i].skipped then Outcome(StatusConflict, rows, None)
        else if !v.JStr? then Outcome(StatusServerError, rows, None)
        else
          var e := Reopened(rows[i], v.s);
          Outcome(StatusOk, rows[i := e], Some(EntryToArray(e)))
      case None =>
        if !v.JStr? then Outcome(StatusServerError, rows, None)
        else
          var e := Posted(auth.value, today, v.s);
          Outcome(StatusCreated, rows + [e], Some(EntryToArray(e)))
  }

  function CompleteSpec(rows: seq<EntryState>, auth: Option<UserId>, today: Date, body: Body): Outcome
    requires ValidDate(today)
  {
    if auth.None? then Outcome(StatusUnauthorized, rows, None)
    else if !CompleteBodyValid(body) then Outcome(StatusBadRequest, rows, None)
    else
      match IndexOf(rows, auth.value, today)
      case None => Outcome(StatusNotFound, rows, None)
      case Some(i) =>
        var e := rows[i].(completed := Some(body["completed"].b), updates := rows[i].updates + 1);
        Outcome(StatusOk, rows[i := e], Some(EntryToArray(e)))
  }

  function SkipSpec(rows: seq<EntryState>, auth: Option<UserId>, today: Date): Outcome
    requires ValidDate(today)
  {
    if auth.None? then Outcome(StatusUnauthorized, rows, None)
    else
      match IndexOf(rows, auth.value, today)
      case None =>
        var e := SkipPlaceholder(auth.value, today);
        Outcome(StatusOk, rows + [e], Some(EntryToArray(e)))
      case Some(i) =>
        var e := rows[i].(skipped := true, updates := rows[i].updates + 1);
        Outcome(StatusOk, rows[i := e], Some(EntryToArray(e)))
  }

  // ---------------------------------------------------------------------------
  // The endpoints

  /**
   * GET /api/today: 401 without a user, otherwise today's entry, or no entry
   * when there is none (`new JsonResponse(null)`, which Symfony sends as `{}`).
   */
  function Get(rows: seq<EntryState>, auth: Option<UserId>, today: Date): (r: (int, Option<EntryView>))
    requires TableInvariant(rows) && ValidDate(today)
    ensures r.0 == StatusUnauthorized <==> auth.None?
    ensures r.0 == StatusOk <==> auth.Some?
    ensures r.1.Some? <==> auth.Some? && HasKey(rows, auth.value, today)
    ensures r.1.Some? ==> exists i :: 0 <= i < |rows| && HasKeyOf(rows[i], auth.value, today)
                                      && r.1.value == EntryToArray(rows[i])
  {
    if auth.None? then (StatusUnauthorized, None)
    else
      match FindByUserAndDate(rows, auth.value, today)
      case None => (StatusOk, None)
      case Some(e) => (StatusOk, Some(EntryToArray(e)))
  }

  /** POST /api/today. */
  method Post(store: EntryStore, auth: Option<UserId>, today: Date, body: Body)
    returns (status: int, entry: Option<EntryView>)
    requires store.Valid() && ValidDate(today)
    modifies store, store.entries
    ensures store.Valid()
    ensures Outcome(status, store.Rows(), entry) == PostSpec(old(store.Rows()), auth, today, body)
    ensures status == StatusCreated ==>
      && |store.entries| == |old(store.entries)| + 1
      && store.entries[..|old(store.entries)|] == old(store.entries)
      && fresh(store.entries[|old(store.entries)|])
    ensures status != StatusCreated ==> store.entries == old(store.entries)
  {
    if auth.None? {
      return StatusUnauthorized, None;
    }
    if !PostBodyValid(body) {
      return StatusBadRequest, None;
    }
    var found := IndexOf(store.Rows(), auth.value, today);
    if found.Some? && !store.entries[found.value].skipped {
      return StatusConflict, None;
    }
    var intention := body["intention"];
    if !intention.JStr? {
      return StatusServerError, None;
    }
    if found.Some? {
      var e := Reopen(store, found.value, intention.s);
      return StatusOk, Some(EntryToArray(e));
    }
    var e := Create(store, Posted(auth.value, today, intention.s));
    return StatusCreated, Some(EntryToArray(e));
  }

  /** PATCH /api/today/complete. */
  method Complete(store: EntryStore, auth: Option<UserId>, today: Date, body: Body)
    returns (status: int, entry: Option<EntryView>)
    requires store.Valid() && ValidDate(today)
    modifies store.entries
    ensures store.Valid()
    ensures Outcome(status, store.Rows(), entry) == CompleteSpec(old(store.Rows()), auth, today, body)
    ensures store.entries == old(store.entries)
  {
    if auth.None? {
      return StatusUnauthorized, None;
    }
    if !CompleteBodyValid(body) {
      return StatusBadRequest, None;
    }
    var found := IndexOf(store.Rows(), auth.value, today);
    if found.None? {
      return StatusNotFound, None;
    }
    var e := MarkCompleted(store, found.value, body["completed"].b);
    return StatusOk, Some(EntryToArray(e));
  }

  /** PATCH /api/today/skip. */
  method Skip(store: EntryStore, auth: Option<UserId>, today: Date)
    returns (status: int, entry: Option<EntryView>)
    requires store.Valid() && ValidDate(today)
    modifies store, store.entries
    ensures store.Valid()
    ensures Outcome(status, store.Rows(), entry) == SkipSpec(old(store.Rows()), auth, today)
    ensures |store.entries| > |old(store.entries)| ==>
      && |store.entries| == |old(store.entries)| + 1
      && store.entries[..|old(store.entries)|] == old(store.entries)
      && fresh(store.entries[|old(store.entries)|])
    ensures |store.entries| <= |old(store.entries)| ==> store.entries == old(store.entries)
  {
    if auth.None? {
      return StatusUnauthorized, None;
    }
    var found := IndexOf(store.Rows(), auth.value, today);
    if found.None? {
      var e := Create(store, SkipPlaceholder(auth.value, today));
      return StatusOk, Some(EntryToArray(e));
    }
    var e := MarkSkipped(store, found.value);
    return StatusOk, Some(EntryToArray(e));
  }

  // ---------------------------------------------------------------------------
  // What the endpoints do to one entry

  /**
   * A new entry built with the setters the endpoints call (`setUser`, `setDate`,
   * `setIntention`, and `setSkipped(true)` for a skip placeholder), then persisted.
   */
  method Create(store: EntryStore, row: EntryState) returns (e: EntryState)
    requires store.Valid() && ValidDate(row.date) && !HasKey(store.Rows(), row.user, row.date)
    requires row == Posted(row.user, row.date, row.intention) || row == SkipPlaceholder(row.user, row.date)
    modifies store
    ensures store.Valid() && e == row
    ensures store.Rows() == old(store.Rows()) + [row]
    ensures |store.entries| == |old(store.entries)| + 1
    ensures store.entries[..|old(store.entries)|] == old(store.entries)
    ensures fresh(store.entries[|old(store.entries)|])
  {
    var created := new DailyEntry();
    created.SetUser(row.user);
    created.SetDate(row.date);
    created.SetIntention(row.intention);
    if row.skipped {
      created.SetSkipped(true);
    }
    var ok := store.Insert(created);
    assert ok;
    e := created.State();
  }

  /** `post` over a skipped entry: the same row, re-opened with a new intention. */
  method Reopen(store: EntryStore, i: nat, intention: string) returns (e: EntryState)
    requires store.Valid() && i < |store.entries|
    modifies store.entries
    ensures store.Valid() && store.entries == old(store.entries)
    ensures e == Reopened(old(store.Rows())[i], intention)
    ensures store.Rows() == old(store.Rows())[i := e]
  {
    ghost var before := store.Rows();
    var entry := store.entries[i];
    entry.SetIntention(intention);
    entry.SetSkipped(false);
    entry.SetCompleted(None);
    e := entry.State();
    SameKeyUpdateKeepsTable(before, i, e);
    assert store.AllPersistable();
    assert store.Rows() == before[i := e];
  }

  /** `complete`: only `completed` changes (and `updatedAt` is stamped). */
  method MarkCompleted(store: EntryStore, i: nat, completed: bool) returns (e: EntryState)
    requires store.Valid() && i < |store.entries|
    modifies store.entries
    ensures store.Valid() && store.entries == old(store.entries)
    ensures e == old(store.Rows())[i].(completed := Some(completed), updates := old(store.Rows())[i].updates + 1)
    ensures store.Rows() == old(store.Rows())[i := e]
  {
    ghost var before := store.Rows();
    var entry := store.entries[i];
    entry.SetCompleted(Some(completed));
    e := entry.State();
    SameKeyUpdateKeepsTable(before, i, e);
    assert store.AllPersistable();
    assert store.Rows() == before[i := e];
  }

  /** `skip` of an existing entry: only `skipped` changes (and `updatedAt` is stamped). */
  method MarkSkipped(store: EntryStore, i: nat) returns (e: EntryState)
    requires store.Valid() && i < |store.entries|
    modifies store.entries
    ensures store.Valid() && store.entries == old(store.entries)
    ensures e == old(store.Rows())[i].(skipped := true, updates := old(store.Rows())[i].updates + 1)
    ensures store.Rows() == old(store.Rows())[i := e]
  {
    ghost var before := store.Rows();
    var entry := store.entries[i];
    entry.SetSkipped(true);
    e := entry.State();
    SameKeyUpdateKeepsTable(before, i, e);
    assert store.AllPersistable();
    assert store.Rows() == before[i := e];
  }

  // ---------------------------------------------------------------------------
  // Uniqueness and frame

  /**
   * `after` differs from `before` only at the key (user, today): every other row
   * keeps its place and content, rows keep their keys, and at most one row is
   * added, keyed (user, today).
   */
  ghost predicate OnlyKeyChanged(before: seq<EntryState>, after: seq<EntryState>, user: UserId, today: Date)
  {
    && |before| <= |after| <= |before| + 1
    && (forall i :: 0 <= i < |before| ==> HasKeyOf(after[i], before[i].user, before[i].date))
    && (forall i :: 0 <= i < |before| && !HasKeyOf(before[i], user, today) ==> after[i] == before[i])
    && (forall i :: |before| <= i < |after| ==> HasKeyOf(after[i], user, today))
  }

  /** Replacing a row by one with the same key keeps the table invariant. */
  lemma SameKeyUpdateKeepsTable(rows: seq<EntryState>, i: nat, e: EntryState)
    requires TableInvariant(rows) && i < |rows| && HasKeyOf(e, rows[i].user, rows[i].date)
    ensures TableInvariant(rows[i := e])
  {
    var after := rows[i := e];
    forall a, b | 0 <= a < b < |after| ensures !HasKeyOf(after[b], after[a].user, after[a].date) {
      assert HasKeyOf(after[a], rows[a].user, rows[a].date) && HasKeyOf(after[b], rows[b].user, rows[b].date);
    }
  }

  /** Appending a row whose key is absent keeps the table invariant. */
  lemma FreshKeyInsertKeepsTable(rows: seq<EntryState>, e: EntryState)
    requires TableInvariant(rows) && ValidDate(e.date) && !HasKey(rows, e.user, e.date)
    ensures TableInvariant(rows + [e])
  {
    var after := rows + [e];
    forall a, b | 0 <= a < b < |after| ensures !HasKeyOf(after[b], after[a].user, after[a].date) {
      if b == |rows| {
        assert after[a] == rows[a];
      }
    }
  }

  lemma PostKeepsTable(rows: seq<EntryState>, auth: Option<UserId>, today: Date, body: Body)
    requires TableInvariant(rows) && ValidDate(today)
    ensures TableInvariant(PostSpec(rows, auth, today, body).rows)
    ensures auth.Some? ==> OnlyKeyChanged(rows, PostSpec(rows, auth, today, body).rows, auth.value, today)
  {
    var o := PostSpec(rows, auth, today, body);
    if auth.Some? && PostBodyValid(body) && o.status == StatusOk {
      var i := IndexOf(rows, auth.value, today).value;
      SameKeyUpdateKeepsTable(rows, i, o.rows[i]);
    } else if auth.Some? && PostBodyValid(body) && o.status == StatusCreated {
      FreshKeyInsertKeepsTable(rows, Posted(auth.value, today, body["intention"].s));
    }
  }

  lemma CompleteKeepsTable(rows: seq<EntryState>, auth: Option<UserId>, today: Date, body: Body)
    requires TableInvariant(rows) && ValidDate(today)
    ensures TableInvariant(CompleteSpec(rows, auth, today, body).rows)
    ensures auth.Some? ==> OnlyKeyChanged(rows, CompleteSpec(rows, auth, today, body).rows, auth.value, today)
  {
    var o := CompleteSpec(rows, auth, today, body);
    if auth.Some? && CompleteBodyValid(body) && o.status == StatusOk {
      var i := IndexOf(rows, auth.value, today).value;
      SameKeyUpdateKeepsTable(rows, i, o.rows[i]);
    }
  }

  lemma SkipKeepsTable(rows: seq<EntryState>, auth: Option<UserId>, today: Date)
    requires TableInvariant(rows) && ValidDate(today)
    ensures TableInvariant(SkipSpec(rows, auth, today).rows)
    ensures auth.Some? ==> OnlyKeyChanged(rows, SkipSpec(rows, auth, today).rows, auth.value, today)
  {
    var o := SkipSpec(rows, auth, today);
    if auth.Some? {
      match IndexOf(rows, auth.value, today)
      case Some(i) =>
        SameKeyUpdateKeepsTable(rows, i, o.rows[i]);
      case None =>
        FreshKeyInsertKeepsTable(rows, SkipPlaceholder(auth.value, today));
    }
  }

  // ---------------------------------------------------------------------------
  // The transitions, one case at a time

  /** Only requests without an authenticated user get 401, and they change nothing. */
  lemma UnauthenticatedRejected(rows: seq<EntryState>, today: Date, body: Body)
    requires ValidDate(today)
    ensures PostSpec(rows, None, today, body) == Outcome(StatusUnauthorized, rows, None)
    ensures CompleteSpec(rows, None, today, body) == Outcome(StatusUnauthorized, rows, None)
    ensures SkipSpec(rows, None, today) == Outcome(StatusUnauthorized, rows, None)
  {
  }

  /** The intention is accepted exactly when it is the only field, not blank, and at most 65535 characters. */
  lemma PostValidation(body: Body)
    ensures PostBodyValid(body) <==>
      && body.Keys == {"intention"}
      && AsString(body["intention"]) != ""
      && |AsString(body["intention"])| <= MaxIntentionLength
  {
    if body.Keys == {"intention"} {
      NotBlankIsNonEmptyText(body["intention"]);
    }
  }

  /** A blank or over-long intention, or a body of the wrong shape, gets 400 and changes nothing. */
  lemma PostRejectsInvalid(rows: seq<EntryState>, user: UserId, today: Date, body: Body)
    requires ValidDate(today)
    requires body.Keys != {"intention"}
      || AsString(body["intention"]) == ""
      || |AsString(body["intention"])| > MaxIntentionLength
    ensures PostSpec(rows, Some(user), today, body) == Outcome(StatusBadRequest, rows, None)
  {
    PostValidation(body);
  }

  /** An entry for today that is not skipped makes `post` a conflict that changes nothing. */
  lemma PostConflict(rows: seq<EntryState>, user: UserId, today: Date, body: Body)
    requires TableInvariant(rows) && ValidDate(today) && PostBodyValid(body)
    requires FindByUserAndDate(rows, user, today).Some?
    requires !FindByUserAndDate(rows, user, today).value.skipped
    ensures PostSpec(rows, Some(user), today, body) == Outcome(StatusConflict, rows, None)
  {
  }

  /**
   * Over a skipped entry for today, `post` rewrites that same row: the new
   * intention, skipped false, completed null; every other row is as it was.
   */
  lemma PostReopensSkipped(rows: seq<EntryState>, user: UserId, today: Date, body: Body)
    requires TableInvariant(rows) && ValidDate(today) && PostBodyValid(body)
    requires FindByUserAndDate(rows, user, today).Some?
    requires FindByUserAndDate(rows, user, today).value.skipped
    requires body["intention"].JStr?
    ensures var o := PostSpec(rows, Some(user), today, body);
      && o.status == StatusOk
      && |o.rows| == |rows|
      && forall j :: 0 <= j < |rows| ==>
           o.rows[j] == if HasKeyOf(rows[j], user, today) then Reopened(rows[j], body["intention"].s) else rows[j]
  {
    var i := IndexOf(rows, user, today).value;
    forall j | 0 <= j < |rows| && HasKeyOf(rows[j], user, today) ensures j == i {
      UniqueKeyPosition(rows, i, j);
    }
  }

  /** With no entry for today, `post` adds exactly one row, (user, today) with the intention, and 201. */
  lemma PostCreates(rows: seq<EntryState>, user: UserId, today: Date, body: Body)
    requires TableInvariant(rows) && ValidDate(today) && PostBodyValid(body)
    requires FindByUserAndDate(rows, user, today).None?
    requires body["intention"].JStr?
    ensures var o := PostSpec(rows, Some(user), today, body);
      && o.status == StatusCreated
      && o.rows == rows + [EntryState(user, today, body["intention"].s, None, false, 0)]
  {
  }

  /** With no entry for today, `complete` gets 404 and changes nothing. */
  lemma CompleteMissing(rows: seq<EntryState>, user: UserId, today: Date, body: Body)
    requires TableInvariant(rows) && ValidDate(today) && CompleteBodyValid(body)
    requires FindByUserAndDate(rows, user, today).None?
    ensures CompleteSpec(rows, Some(user), today, body) == Outcome(StatusNotFound, rows, None)
  {
  }

  /**
   * With an entry for today, skipped or not, `complete` succeeds and changes only
   * that row's `completed` (and stamps `updatedAt`): intention and skipped stay.
   */
  lemma CompleteChangesOnlyCompleted(rows: seq<EntryState>, user: UserId, today: Date, body: Body)
    requires TableInvariant(rows) && ValidDate(today) && CompleteBodyValid(body)
    requires FindByUserAndDate(rows, user, today).Some?
    ensures var o := CompleteSpec(rows, Some(user), today, body);
      && o.status == StatusOk
      && |o.rows| == |rows|
      && forall j :: 0 <= j < |rows| ==>
           o.rows[j] == if HasKeyOf(rows[j], user, today)
                        then rows[j].(completed := Some(body["completed"].b), updates := rows[j].updates + 1)
                        else rows[j]
  {
    var i := IndexOf(rows, user, today).value;
    forall j | 0 <= j < |rows| && HasKeyOf(rows[j], user, today) ensures j == i {
      UniqueKeyPosition(rows, i, j);
    }
  }

  /** With no entry for today, `skip` adds the placeholder row: empty intention, skipped. */
  lemma SkipCreatesPlaceholder(rows: seq<EntryState>, user: UserId, today: Date)
    requires TableInvariant(rows) && ValidDate(today)
    requires FindByUserAndDate(rows, user, today).None?
    ensures var o := SkipSpec(rows, Some(user), today);
      && o.status == StatusOk
      && o.rows == rows + [EntryState(user, today, "", None, true, 1)]
  {
  }

  /** With an entry for today, `skip` sets only its `skipped` (and stamps `updatedAt`). */
  lemma SkipMarksExisting(rows: seq<EntryState>, user: UserId, today: Date)
    requires TableInvariant(rows) && ValidDate(today)
    requires FindByUserAndDate(rows, user, today).Some?
    ensures var o := SkipSpec(rows, Some(user), today);
      && o.status == StatusOk
      && |o.rows| == |rows|
      && forall j :: 0 <= j < |rows| ==>
           o.rows[j] == if HasKeyOf(rows[j], user, today)
                        then rows[j].(skipped := true, updates := rows[j].updates + 1)
                        else rows[j]
  {
    var i := IndexOf(rows, user, today).value;
    forall j | 0 <= j < |rows| && HasKeyOf(rows[j], user, today) ensures j == i {
      UniqueKeyPosition(rows, i, j);
    }
  }

  /** The content of a row apart from its bookkeeping. */
  predicate SameContent(a: EntryState, b: EntryState)
  {
    a.user == b.user && a.date == b.date
    && a.intention == b.intention && a.completed == b.completed && a.skipped == b.skipped
  }

  /** Skipping twice leaves the same content as skipping once (only `updatedAt` moves). */
  lemma {:induction false} SkipIdempotent(rows: seq<EntryState>, user: UserId, today: Date)
    requires TableInvariant(rows) && ValidDate(today)
    ensures var once := SkipSpec(rows, Some(user), today).rows;
      var twice := SkipSpec(once, Some(user), today).rows;
      && SkipSpec(once, Some(user), today).status == StatusOk
      && |twice| == |once|
      && forall j :: 0 <= j < |once| ==> SameContent(twice[j], once[j])
  {
    var once := SkipSpec(rows, Some(user), today).rows;
    match IndexOf(rows, user, today)
    case None =>
      assert HasKeyOf(once[|rows|], user, today);
      assert forall j :: 0 <= j < |rows| ==> once[j] == rows[j];
    case Some(i) =>
      assert HasKeyOf(once[i], user, today);
      var k := IndexOf(once, user, today).value;
      assert k == i by {
        assert forall j :: 0 <= j < i ==> once[j] == rows[j];
      }
  }
}
