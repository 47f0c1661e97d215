# Daily intention tracker: a Dafny model

The application is a small REST service. Each user writes one *intention* per
calendar day and later marks it completed or not completed, or skips the day.
The user can then page through a month of entries with a summary, or list the
most recent ones. This project models the part of the service that carries its
logic:

- **The `daily_entry` table.** It holds at most one entry per (user, date).
- **The `DailyEntry` entity.** This covers its setters and what each one writes to `updatedAt`.
- **The `TodayController` endpoints.** `get`, `post`, `complete` and `skip` work on the caller's entry for today.
- **The three repository queries.** These are the exact day, the calendar month and the most recent entries.
- **The `HistoryController` endpoints.** These are the month page with its summary counters and the recent list.
- **The user table.** This covers registration, log-in, token renewal and the partial profile update (`PATCH /api/me`).

Entities that the source changes in place are Dafny classes. These are
`Entries.DailyEntry`, the entry table `Entries.EntryStore`, `Users.User` and
the user table `Users.UserDirectory`. Each endpoint that writes is a method
that modifies them. Its postcondition relates the new table to a function of the old one:
`PostSpec`, `CompleteSpec`, `SkipSpec`, `RegisterSpec` or `PatchSpec`. The
lemmas about those functions state the guarantees:

- every operation keeps the unique (user, date) index and touches no other key;
- `post` over a skipped entry rewrites that same row;
- `complete` succeeds on a skipped entry;
- `skip` is idempotent;
- `patch` is idempotent and never touches the e-mail, the id or the creation time;
- `register` stores the password only through its hash;
- `login` never looks at the password.

The repository queries and the summary are pure functions or loops over the
table's rows. They are proved against independent statements: membership by
multiset, order, bounds, and a partition of the month's entries into buckets.

Some choices about the environment and the data:

- **Inputs.** "Today" in the user's timezone, the authenticated user, password
  hashing (`hash`), token creation (`jwt`), the validator's e-mail syntax
  (`isEmail`) and the id of a new user are all inputs.
- **Timestamps.** `updatedAt` is modelled as a count of writes, where 0 means null.
  `createdAt` is modelled as a flag.
- **Request bodies.** A request body is a map from field names to JSON values.
  A value is null, a boolean or a string.
- **Constraint rules.** The constraint checks follow Symfony's rules:
  - `NotBlank` refuses null, `false` and `""`, but not white space.
  - `Length` and `Email` compare the PHP `(string)` form of a value.
  - `Collection` refuses missing fields and extra fields.
  - Under `strict_types`, a `true` that passes validation and then reaches a
    string setter raises a TypeError. The model answers 500 and changes nothing.

Behaviours worth knowing:

- **`complete` on a skipped entry.** `complete`
  (src/Controller/Api/TodayController.php:118-126) rejects only a missing
  entry. On a skipped entry it sets `completed` and leaves the entry skipped
  (`CompleteChangesOnlyCompleted`).
- **The month summary.** The loop (src/Controller/Api/HistoryController.php:62-70)
  puts a day that is neither skipped nor answered in no counter. The counters
  therefore add up to `total_days` exactly when there is no such day
  (`SummaryTotals`).
- **`updatedAt`.** `setIntention` does not stamp `updatedAt`
  (src/Entity/DailyEntry.php:86-91), so a newly posted entry keeps `updatedAt`
  null.

`User.php` and `UserRepository.php` are not part of this model. The user's
fields follow the `user` table of migrations/Version20260218140000.php:22-31.
`findOneByEmail` is modelled as an exact match on the stored address.

## Model

| member | source | states |
|---|---|---|
| Calendar.DaysInMonth | src/Repository/DailyEntryRepository.php:47 | a month has 28 to 31 days; February has 29 exactly in Gregorian leap years |
| Calendar.LastDayOfMonth | src/Repository/DailyEntryRepository.php:47 | `last day of this month` is a real day of that month and the day after it is not |
| Calendar.FormatYmd | src/Repository/DailyEntryRepository.php:25 | `format('Y-m-d')` gives ten characters with dashes at positions 4 and 7 |
| Calendar.ParseFormat | src/Repository/DailyEntryRepository.php:24-32 | a date bound as its `Y-m-d` text is read back by the database as the same date |
| Calendar.FormatParse | src/Repository/DailyEntryRepository.php:46-54 | every text read as a date is the canonical `Y-m-d` rendering of that date |
| Calendar.YearMonthPattern | src/Repository/DailyEntryRepository.php:42 | `preg_match('/^\d{4}-\d{2}$/', …)` accepts exactly four digits, a dash and two digits, optionally followed by one final line feed |
| Calendar.MonthStartParses | src/Repository/DailyEntryRepository.php:46 | the start bound `$yearMonth . '-01'` is read as day 1 of that month, except in year 0000, which the database does not accept |
| Calendar.MonthBounds | src/Repository/DailyEntryRepository.php:46-47 | the start bound is day 1 of the month and the end bound is the month's last day |
| Calendar.MonthBoundsExact | src/Repository/DailyEntryRepository.php:46-52 | a day lies between the two bounds exactly when it is in that calendar month |
| Request.NotBlankIsNonEmptyText | src/Controller/Api/TodayController.php:57 | `NotBlank` accepts a value exactly when its string form is not empty |
| Entries.DailyEntry.constructor | src/Entity/DailyEntry.php:44-48 | a new entry has completed null, skipped false, updatedAt null and createdAt set |
| Entries.DailyEntry.SetUser | src/Entity/DailyEntry.php:60-65 | writes the user and no other field |
| Entries.DailyEntry.SetDate | src/Entity/DailyEntry.php:72-79 | writes the date and no other field |
| Entries.DailyEntry.SetIntention | src/Entity/DailyEntry.php:86-91 | writes the intention and no other field, leaving `updatedAt` unchanged |
| Entries.DailyEntry.SetCompleted | src/Entity/DailyEntry.php:98-104 | changes only `completed` and `updatedAt`, and stamps `updatedAt` |
| Entries.DailyEntry.SetSkipped | src/Entity/DailyEntry.php:111-117 | changes only `skipped` and `updatedAt`, and stamps `updatedAt` |
| Entries.EntryStore.constructor | migrations/Version20260218140000.php:33-45 | an empty table satisfies the unique (user, date) index |
| Entries.EntryStore.Insert | src/Entity/DailyEntry.php:14 | an insert succeeds exactly when no row has the same (user, date); on success it appends that row, otherwise the table is unchanged, and the index holds afterwards |
| EntryRepository.MatchesDayIsKey | src/Repository/DailyEntryRepository.php:22-32 | the `d.user = :user AND d.date = :date` clause with the date bound as text selects exactly the rows keyed (user, date) |
| EntryRepository.IndexOf | src/Repository/DailyEntryRepository.php:28-34 | there is no match exactly when no row has the key; a match is the first row with the key |
| EntryRepository.FindByUserAndDate | src/Repository/DailyEntryRepository.php:22-35 | the result is null exactly when no row has the user's key for that calendar day; otherwise it is a row of the table with that key, and every row with that key equals it |
| EntryRepository.Filter | src/Repository/DailyEntryRepository.php:49-52 | a `WHERE` clause keeps each row that satisfies it as often as it occurs in the table, and no other row |
| EntryRepository.SortByDate | src/Repository/DailyEntryRepository.php:56 | `ORDER BY d.date ASC` gives a permutation of its input in ascending date order |
| EntryRepository.SortByDateDesc | src/Repository/DailyEntryRepository.php:71 | `ORDER BY d.date DESC` gives a permutation of its input in descending date order |
| EntryRepository.FindByUserAndMonth | src/Repository/DailyEntryRepository.php:40-59 | an empty list when the text does not match `^\d{4}-\d{2}$`; a database error exactly when the start bound is not a date; otherwise every entry of the user in that calendar month, as often as it is stored, none other, in ascending date order |
| EntryRepository.MonthQueryFailsOnlyForYearZero | src/Repository/DailyEntryRepository.php:46-58 | for a text that matches the pattern, the query fails exactly when the year is 0000 |
| EntryRepository.MonthStrictlyAscending | src/Repository/DailyEntryRepository.php:49-58 | with the unique index, the month's entries all have distinct dates |
| EntryRepository.FindRecentByUser | src/Repository/DailyEntryRepository.php:66-75 | at most `limit` entries, all the user's and drawn from the table, in descending date order; all of that user's entries when fewer are returned; no omitted entry of the user is newer than a returned one |
| TodayController.EntryToArray | src/Controller/Api/TodayController.php:168-181 | the `date` field reads back as the entry's date; intention, completed and skipped are copied; `updatedAt` is non-null exactly when it was written |
| TodayController.Get | src/Controller/Api/TodayController.php:29-45 | 401 exactly without a user; otherwise the view of today's entry, or no entry (sent as `{}`) exactly when there is none |
| TodayController.Post | src/Controller/Api/TodayController.php:47-94 | the status, the entry sent back and the table afterwards are those of `PostSpec`; the index holds; only a 201 adds an entry object, a fresh one |
| TodayController.Complete | src/Controller/Api/TodayController.php:96-130 | the status, the entry sent back and the table afterwards are those of `CompleteSpec`; no entry object is added |
| TodayController.Skip | src/Controller/Api/TodayController.php:132-157 | the status, the entry sent back and the table afterwards are those of `SkipSpec`; only a new placeholder adds an entry object, a fresh one |
| TodayController.PostKeepsTable | src/Controller/Api/TodayController.php:68-93 | `post` keeps at most one entry per (user, date) and leaves rows under every other key as they were |
| TodayController.CompleteKeepsTable | src/Controller/Api/TodayController.php:117-127 | `complete` keeps the unique index and leaves rows under every other key as they were |
| TodayController.SkipKeepsTable | src/Controller/Api/TodayController.php:140-154 | `skip` keeps the unique index and leaves rows under every other key as they were |
| TodayController.UnauthenticatedRejected | src/Controller/Api/TodayController.php:50-53 | without a user, `post`, `complete` and `skip` answer 401 and change nothing |
| TodayController.PostValidation | src/Controller/Api/TodayController.php:56-58 | the body is accepted exactly when `intention` is its only field, is not empty text and has at most 65535 characters |
| TodayController.PostRejectsInvalid | src/Controller/Api/TodayController.php:56-66 | a blank or over-long intention, or a body of another shape, gets 400 and changes nothing |
| TodayController.PostConflict | src/Controller/Api/TodayController.php:69-75 | an entry for today that is not skipped gets 409 and changes nothing |
| TodayController.PostReopensSkipped | src/Controller/Api/TodayController.php:77-82 | over a skipped entry: 200, no new row, that same row gets the new intention with skipped false and completed null, and every other row stays |
| TodayController.PostCreates | src/Controller/Api/TodayController.php:85-93 | with no entry for today: 201 and exactly one row appended for (user, today), with skipped false and completed null |
| TodayController.CompleteMissing | src/Controller/Api/TodayController.php:118-124 | with no entry for today: 404 and nothing changes |
| TodayController.CompleteChangesOnlyCompleted | src/Controller/Api/TodayController.php:118-129 | with an entry for today, skipped or not: 200, and only that row's `completed` (and `updatedAt`) change |
| TodayController.SkipCreatesPlaceholder | src/Controller/Api/TodayController.php:143-149 | with no entry for today: one row appended with intention "" and skipped true |
| TodayController.SkipMarksExisting | src/Controller/Api/TodayController.php:150-152 | with an entry for today: only its `skipped` (set to true) and `updatedAt` change; intention and completed stay |
| TodayController.SkipIdempotent | src/Controller/Api/TodayController.php:140-156 | skipping twice leaves every row with the same content as skipping once; only `updatedAt` moves |
| HistoryController.Classify | src/Controller/Api/HistoryController.php:62-70 | an entry is counted as skipped exactly when skipped; as completed or not completed exactly when not skipped and `completed` is true or false; and nowhere exactly when not skipped and `completed` is null |
| HistoryController.Views | src/Controller/Api/HistoryController.php:74 | `array_map(entryToArray, …)` keeps the length and order, and each view's date reads back as its entry's date |
| HistoryController.Summarize | src/Controller/Api/HistoryController.php:55-70 | the loop computes `SummaryOf` the entries: `total_days` is their count and each counter counts its own bucket |
| HistoryController.BucketsPartition | src/Controller/Api/HistoryController.php:62-70 | each entry falls in exactly one of the skipped, completed, not-completed and open buckets |
| HistoryController.OpenDaysCount | src/Controller/Api/HistoryController.php:62-70 | no entry is left uncounted exactly when every entry is skipped or has `completed` set |
| HistoryController.SummaryTotals | src/Controller/Api/HistoryController.php:55-70 | the counters sum to at most `total_days`, and to exactly `total_days` when no entry is still open |
| HistoryController.Month | src/Controller/Api/HistoryController.php:37-77 | 401 exactly without a user; 400 exactly when the month does not match the pattern; 500 exactly for year 0000; otherwise 200 with the month, the views of the month query in order, and their summary |
| HistoryController.MonthPageEntries | src/Controller/Api/HistoryController.php:53 | a month page lists each of the user's entries of that month, in strictly increasing date order, and nothing else |
| HistoryController.Recent | src/Controller/Api/HistoryController.php:24-35 | 401 exactly without a user; otherwise the views of `findRecentByUser(user, 7)` in order: at most 7, dates descending |
| Users.FindOneByEmail | src/Controller/Api/AuthController.php:50-51 | none exactly when no stored user has that address; otherwise a stored user with it |
| Users.FindOneByEmailUnique | migrations/Version20260218140000.php:31 | with unique addresses, the user found is the one holding the address |
| Users.User.constructor | migrations/Version20260218140000.php:22-30 | a new user has the given fresh id, the default timezone `America/Sao_Paulo` and a creation time |
| Users.User.SetEmail | src/Controller/Api/AuthController.php:59 | writes the address and no other field |
| Users.User.SetPasswordHash | src/Controller/Api/AuthController.php:60 | writes the hash and no other field |
| Users.User.SetDisplayName | src/Controller/Api/MeController.php:59-61 | writes the display name and no other field |
| Users.User.SetTimezone | src/Controller/Api/MeController.php:62-64 | writes the timezone and no other field |
| Users.UserDirectory.constructor | migrations/Version20260218140000.php:22-31 | an empty user table satisfies the unique indexes |
| Users.UserDirectory.Insert | migrations/Version20260218140000.php:24-31 | an insert succeeds exactly when the address is not taken and fits the 180-character `email` column; it appends the user and keeps addresses and ids unique |
| MeController.UserToArray | src/Controller/Api/MeController.php:71-81 | the view carries the user's id, address, display name and timezone |
| MeController.PatchSpec | src/Controller/Api/MeController.php:46-66 | 400 exactly on a validation failure; anything but 200 leaves the user as it was; no field other than displayName and timezone ever changes |
| MeController.Patch | src/Controller/Api/MeController.php:37-69 | 401 without a user; otherwise the status and the user afterwards are those of `PatchSpec`, and a 200 returns the user's view |
| MeController.PatchValidation | src/Controller/Api/MeController.php:46-49 | only `displayName` and `timezone` are allowed; each one present must be non-empty text of at most 255 or 64 characters |
| MeController.PatchRejectsInvalid | src/Controller/Api/MeController.php:46-57 | an unknown field, or a blank or over-long value, gets 400 and leaves the user unchanged |
| MeController.PatchChangesPresentFields | src/Controller/Api/MeController.php:59-64 | on success each of displayName and timezone changes exactly when present in the body, to an accepted value |
| MeController.PatchIdempotent | src/Controller/Api/MeController.php:59-64 | applying the same partial update twice gives the same status and user as applying it once |
| AuthController.Register | src/Controller/Api/AuthController.php:32-76 | the status, the token, the user view and the user table afterwards are those of `RegisterSpec`; the table keeps unique addresses; only a 201 adds a user object, a fresh one |
| AuthController.RegisterValidation | src/Controller/Api/AuthController.php:36-40 | the body is accepted exactly when it has the three fields, the address is non-empty and an e-mail address, the password has at least 6 characters and the display name 1 to 255 |
| AuthController.RegisterRejectsInvalid | src/Controller/Api/AuthController.php:36-48 | a blank or malformed address, a short password, or a blank or over-long display name gets 400 and adds no user |
| AuthController.RegisterEmailTaken | src/Controller/Api/AuthController.php:50-56 | an address already stored gets 422 and adds no user |
| AuthController.RegisterEmailTooLong | src/Controller/Api/AuthController.php:50-64 | a valid address longer than 180 characters gets 422 when taken and otherwise 500, and adds no user |
| AuthController.RegisterCreates | src/Controller/Api/AuthController.php:58-64 | a 201 appends exactly one user: the given address and display name, the password's hash and the default timezone; the address fits its column; addresses and ids stay unique |
| AuthController.RegisterKeepsDirectory | migrations/Version20260218140000.php:31 | every outcome of `register` keeps addresses and ids unique, and only a 201 changes the table |
| AuthController.RegisterStoresOnlyHash | src/Controller/Api/AuthController.php:60 | two requests whose valid passwords have the same hash have the same outcome |
| AuthController.Login | src/Controller/Api/AuthController.php:79-92 | 404 exactly when no user has the address given; otherwise 200 and a token for a user with that address |
| AuthController.LoginIssuesTokenFor | src/Controller/Api/AuthController.php:84-91 | with unique addresses the token is that of the one user holding the address |
| AuthController.LoginIgnoresPassword | src/Controller/Api/AuthController.php:82-91 | the answer is the same whatever the password field holds, and whether or not it is there |
| AuthController.AccountOf | src/Controller/Api/AuthController.php:70-74 | the `user` object of the answer carries the user's id, address and display name |
| AuthController.Refresh | src/Controller/Api/AuthController.php:97-115 | 401 exactly without a user; otherwise a new token and the user's id, address and display name |

## Left out

- **Computing "today".** The user's timezone and the wall clock (src/Controller/Api/TodayController.php:159-165) are not modelled. The date is an input. A stored timezone that PHP does not recognise makes every /api/today endpoint answer 500 (`patch` accepts any non-blank timezone text of at most 64 characters); the model assumes today is always computable.
- **Timestamps and ids.**
  - Timestamp values and their ATOM rendering are not modelled. `updatedAt` is a count of writes and `createdAt` a flag.
  - Entry ids are object identities, and user ids are given fresh by the caller.
- **Foreign calls.** Password hashing, JWT creation and checking, the validator's e-mail syntax and `getUser()` are parameters. The error messages and the JSON encoding of responses are not modelled; in particular `TodayController.Get`'s "no entry" answer is `new JsonResponse(null)`, which Symfony sends as `{}`.
- **JSON decoding.**
  - `json_decode(...) ?: []` is not modelled: the body arrives as a decoded map.
  - JSON numbers, arrays and objects as field values are not modelled.
- **Month strings with no fixed meaning.** `HistoryController.Month` and `EntryRepository.FindByUserAndMonth` require `MonthQueryDefined`, which leaves out two kinds of string that pass the pattern check:
  - **Months outside 01 to 12,** such as "2024-13". Their bounds depend on PHP's date parser.
  - **A month followed by a final line feed.** PHP's `$` accepts that line feed. The model does not fix what PHP's date parser and the database make of the concatenation `$yearMonth . '-01'`, which then holds that line feed.
- **Dates.** Years are limited to 1..9999: the four-digit `Y-m-d` form ends at 9999 and PostgreSQL has no year 0. A month query for year 0000 is modelled as the database error it raises (`HistoryController.Month` answers 500).
- **`EntryRepository.FindRecentByUser`: a negative limit.** `setMaxResults` with a negative limit is not modelled, because the limit is a natural number.
- **`AuthController.Login`: the missing-email path.** A missing, null or non-string `email` is treated as an address no user has, which answers 404. The PHP warning for a missing key and the signature of `findOneByEmail` are not part of this model.
- **A `patch` that fails with a TypeError.** `MeController.Patch` leaves the user object unchanged when a TypeError stops the request. In PHP it may already hold the new display name in memory, but nothing is flushed, so the stored row is unchanged.
- **The widths of the other text columns.** `register` and `patch` check the display name (255) and the timezone (64) against their columns' widths. The password hash is assumed to fit its column.
- **Persistence mechanics.** Doctrine's persist/flush, query building, the identity map and the concurrent-insert race are not modelled. The unique index settles the race, and concurrency is out of scope.
- **GET /api/me.** `MeController.get` only renders the user. The rendering is `MeController.UserToArray`.
- **The login-success listener.** src/EventListener/JwtLoginSuccessListener.php only copies user fields into the token response.
