/**
 * MeController: the authenticated user's own profile, changed in place by a
 * partial update of the display name and the timezone.
 */
module MeController {

  import opened Options
  import opened Request
  import opened Users
  import opened Http

  /** `Length(max: 64)` on the timezone (the column's width). */
  const MaxTimezoneLength: nat := 64

  /** `userToArray`, without the creation timestamp. */
  datatype UserView = UserView(id: UserId, email: string, displayName: string, timezone: string)

  function UserToArray(p: Profile): (v: UserView)
    ensures v.id == p.id && v.email == p.email && v.displayName == p.displayName && v.timezone == p.timezone
  {
    UserView(p.id, p.email, p.displayName, p.timezone)
  }

  /** `Optional([NotBlank, Length(max: n)])`: absent, or present, not blank and at most `n` characters. */
  predicate OptionalField(body: Body, field: string, n: nat)
  {
    field in body ==> NotBlank(body[field]) && MaxLength(body[field], n)
  }

  /** The `Collection` of `patch`: only the two optional fields, each valid when present. */
  predicate PatchBodyValid(body: Body)
  {
    && CollectionShape(body, {}, {"displayName", "timezone"})
    && OptionalField(body, "displayName", MaxDisplayNameLength)
    && OptionalField(body, "timezone", MaxTimezoneLength)
  }

  /** PHP's `isset($data[$field])`: present and not null. */
  predicate IsSet(body: Body, field: string)
  {
    field in body && body[field] != JNull
  }

  /** A field `patch` would pass to a typed setter holds something other than a string. */
  predicate PatchTypeError(body: Body)
  {
    (IsSet(body, "displayName") && !body["displayName"].JStr?)
    || (IsSet(body, "timezone") && !body["timezone"].JStr?)
  }

  /** The status and the stored profile after `patch`. */
  datatype PatchOutcome = PatchOutcome(status: int, profile: Profile)

  /**
   * `patch` for an authenticated user: 400 on a validation failure, 500 when a
   * setter gets a non-string (nothing is flushed), otherwise 200 with each field
   * that is set copied into the profile.
   */
  function PatchSpec(p: Profile, body: Body): (r: PatchOutcome)
    ensures r.status == StatusBadRequest <==> !PatchBodyValid(body)
    ensures r.status != StatusOk ==> r.profile == p
    ensures r.profile.(displayName := p.displayName, timezone := p.timezone) == p
  {
    if !PatchBodyValid(body) then PatchOutcome(StatusBadRequest, p)
    else if PatchTypeError(body) then PatchOutcome(StatusServerError, p)
    else
      var name := if IsSet(body, "displayName") then body["displayName"].s else p.displayName;
      var zone := if IsSet(body, "timezone") then body["timezone"].s else p.timezone;
      PatchOutcome(StatusOk, p.(displayName := name, timezone := zone))
  }

  /** PATCH /api/me. The user object is the authenticated one, null without authentication. */
  method Patch(user: User?, body: Body) returns (status: int, view: Option<UserView>)
    modifies user
    ensures user == null ==> status == StatusUnauthorized && view == None
    ensures user != null ==>
      var o := PatchSpec(old(user.State()), body);
      && status == o.status
      && user.State() == o.profile
      && view == if status == StatusOk then Some(UserToArray(o.profile)) else None
  {
    if user == null {
      return StatusUnauthorized, None;
    }
    if !PatchBodyValid(body) {
      return StatusBadRequest, None;
    }
    if PatchTypeError(body) {
      return StatusServerError, None;
    }
    if IsSet(body, "displayName") {
      user.SetDisplayName(body["displayName"].s);
    }
    if IsSet(body, "timezone") {
      user.SetTimezone(body["timezone"].s);
    }
    status, view := StatusOk, Some(UserToArray(user.State()));
  }

  // ---------------------------------------------------------------------------
  // What `patch` guarantees

  /** A present field is accepted exactly when it is not empty text and within its length. */
  lemma PatchValidation(body: Body)
    ensures PatchBodyValid(body) <==>
      && body.Keys <= {"displayName", "timezone"}
      && ("displayName" in body ==>
            AsString(body["displayName"]) != "" && |AsString(body["displayName"])| <= MaxDisplayNameLength)
      && ("timezone" in body ==>
            AsString(body["timezone"]) != "" && |AsString(body["timezone"])| <= MaxTimezoneLength)
  {
    if "displayName" in body {
      NotBlankIsNonEmptyText(body["displayName"]);
    }
    if "timezone" in body {
      NotBlankIsNonEmptyText(body["timezone"]);
    }
  }

  /** An unknown field, or a blank or over-long value, gets 400 and leaves the user as it was. */
  lemma PatchRejectsInvalid(p: Profile, body: Body)
    requires
      || !(body.Keys <= {"displayName", "timezone"})
      || ("displayName" in body &&
            (AsString(body["displayName"]) == "" || |AsString(body["displayName"])| > MaxDisplayNameLength))
      || ("timezone" in body &&
            (AsString(body["timezone"]) == "" || |AsString(body["timezone"])| > MaxTimezoneLength))
    ensures PatchSpec(p, body) == PatchOutcome(StatusBadRequest, p)
  {
    PatchValidation(body);
  }

  /**
   * On success the display name changes exactly when it is present in the body,
   * and likewise the timezone; the accepted values are non-empty and within
   * their lengths.
   */
  lemma PatchChangesPresentFields(p: Profile, body: Body)
    requires PatchSpec(p, body).status == StatusOk
    ensures var q := PatchSpec(p, body).profile;
      && q.displayName == (if "displayName" in body then body["displayName"].s else p.displayName)
      && q.timezone == (if "timezone" in body then body["timezone"].s else p.timezone)
      && ("displayName" in body ==> q.displayName != "" && |q.displayName| <= MaxDisplayNameLength)
      && ("timezone" in body ==> q.timezone != "" && |q.timezone| <= MaxTimezoneLength)
  {
    PatchValidation(body);
  }

  /** Applying the same partial update twice gives what applying it once gives. */
  lemma PatchIdempotent(p: Profile, body: Body)
    ensures var once := PatchSpec(p, body);
      PatchSpec(once.profile, body) == once
  {
  }
}
