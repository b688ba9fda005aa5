# Lab access control: the scan-to-session engine

This project is a Dafny model of the engine behind the lab's QR scanner. A supervisor
scans a code. The engine:

- resolves the code to a regular student, a temporary student or a guest;
- applies that kind's validity policy;
- looks up whether the person has an open lab session;
- then either writes an entry log and opens a session ("Welcome"), or writes an exit log
  and closes the open session with its duration ("Goodbye").

The first save of each kind of person is modelled too, including the generated
`student_id` (`PRPC<yy>-[TMP]<initials><counter>`) and `guest_id` (`GUEST-<8 hex>`).

Modules, from leaf to root:

- `Common` (`common.dfy`) holds the Python built-ins the source relies on. These are
  `str(int)`, `s[-n:]`, `str.zfill`, ASCII `str.upper`, and `int(str)` with its
  whitespace, sign, underscore and `ValueError` rules. Lemmas connect them, for example
  `int(str(i).zfill(w)) == i`.
- `StudentIds` (`studentids.dfy`) is `generate_student_id`. It covers the stable sort of
  the same-year rows by `created_at`, the counter read back from the latest id, the year
  part, and the lemmas about the scheme.
- `Models` (`models.dfy`) holds the rows (`RegularStudent`, `TemporaryStudent`, `Guest`,
  `AccessLog`, `LabSession`) and a tagged `Identity`. It also holds the `save` overrides,
  `status`/`is_valid`, `generate_guest_id`, `year_batch`, and the log's
  `get_user_name`/`get_user_id`.
- `SessionLedger` (`ledger.dfy`) holds the two ledger tables as a value, the occupancy
  query (`.first()` over the open sessions), and the ledger invariant. The invariant says:
  sessions are well formed, the entry and exit log links are one-to-one, every log is
  paired with a session, and each person has at most one open session. The module also
  defines the entry and exit writes and proves that both keep the invariant.
- `Store` (`store.dfy`) is the database as a `class` whose five tables are `seq`
  fields. Save methods append a new row; each keeps the database invariant: unique codes
  in each table, the ledger invariant, and every log and session pointing at a stored
  person.
- `Scanning` (`scanning.dfy`) starts with `Scan`, the pure specification of
  `process_scan`, and the lemmas about it. It then has the `QRCodeScanner` class, whose
  methods change the database step by step. `ProcessScan` is proved to leave exactly the
  tables and response that `Scan` computes, and to keep the database invariant. Each
  private helper states the one write it makes. `RecordEntry` and `RecordExit` are proved
  to turn the ledger into `EntryStep` and `ExitStep` of the old one.

Time is an integer count of seconds. A scan reads the clock once: `now` is a parameter
and serves as the log timestamp, the session's entry or exit time, and the basis of the
reported minutes. The session token from `uuid.uuid4()` and the hex string of a guest's
uuid are parameters as well. A row's primary key is its position in its table.

Three behaviours of the code are easy to misread, and the model follows the code in each:

- The scan response's `session_id` is `str(session.id)`, the `LabSession` primary key
  (`dashboard/scanning_logic.py:68`). It is not the uuid token of the entry log.
  `ScanData.AdmittedData.sessionId` is therefore the session's position, and the token
  is kept only on the entry log.
- If a person had several open sessions, the code simply takes the one with the lowest
  primary key, `.first()` at `dashboard/scanning_logic.py:125-128`, and raises no error.
  The model takes the one with the lowest primary key too. The ledger invariant then
  proves that this case never happens (`FirstOpenIsOnlyOpen`).
- Codes are unique only inside each table: `unique=True` is declared on each table's own
  column, and no constraint spans the three tables. The model keeps
  uniqueness inside each table. A code shared across tables resolves by the priority
  order regular, temporary, guest, as `_identify_user` does.

## Model

| member | source | states |
|---|---|---|
| Scanning.QRCodeScanner.ProcessScan | dashboard/scanning_logic.py:15-70 | The response and the new log and session tables are exactly those of `Scan` on the tables before the call. The identity tables are unchanged. The database invariant (unique codes, ledger invariant, ledger rows point at stored people) is kept. |
| Scanning.Scan | dashboard/scanning_logic.py:15-70 | There is no data exactly when no table holds the code. The status is success exactly when the person is found and valid. An error writes nothing. A success appends exactly one log and leaves the earlier logs as they were. The reported user_id is the scanned code. |
| Scanning.UnknownCodeWritesNothing | dashboard/scanning_logic.py:22-27 | A code that is in no table gives ('error', "Invalid QR code or user not found", no data). Nothing is written. |
| Scanning.DeniedWritesNothing | dashboard/scanning_logic.py:30-39 | A found but invalid person gives 'error' with the access-denied message and their kind, "first last" and id. Nothing is written. |
| Scanning.ExpiredTemporaryStaysInside | dashboard/scanning_logic.py:30-42 | An inside temporary student whose valid_until has passed is denied. They stay inside, because validity is decided before occupancy. |
| Scanning.EntryScan | dashboard/scanning_logic.py:45-52 | A valid person who is outside gets 'success' and "Welcome" with their first name. The response carries log_type entry, the time and the new session's key. Exactly one entry log with the fresh token is written. Exactly one open session is added, pointing at that log. The person is then inside. |
| Scanning.ExitScan | dashboard/scanning_logic.py:45-57 | A valid person with open session k gets 'success' and "Goodbye" with the whole minutes since entry. Exactly one exit log without a token is written. Only session k changes: it gets the exit time, the exit log and duration = exit - entry. The person is then outside. |
| Scanning.DirectionFollowsOccupancy | dashboard/scanning_logic.py:42-45 | An admitted scan logs an exit exactly when the person had an open session; otherwise it logs an entry. The log written has the reported log_type. |
| Scanning.FirstScanIsEntry | dashboard/scanning_logic.py:42-52 | A valid person with no session in the ledger is always logged as entering. |
| Scanning.ScanToggles | dashboard/scanning_logic.py:42-57 | An admitted scan flips the scanned person between inside and outside. Everybody else's occupancy is unchanged. |
| Scanning.ScanKeepsLedgerValid | dashboard/scanning_logic.py:46-57 | Every scan keeps the ledger invariant, in particular at most one open session per person. |
| Scanning.ScanKeepsLedgerInRegistry | dashboard/scanning_logic.py:46-57 | Every log and session written by a scan points at a stored person. |
| Scanning.ScanKeepsStoreValid | dashboard/scanning_logic.py:15-70 | A scan keeps the whole database invariant. |
| Scanning.EntryThenExit | dashboard/scanning_logic.py:45-68 | Two scans of a valid person who starts outside give an entry and then an exit of the same session n. The second message reports Minutes(t1, t2). Session n ends as the closed record (entry t1, exit t2, duration t2 - t1, the two logs), and the person is outside. |
| Scanning.ReportedUser | dashboard/scanning_logic.py:34-38 | Every response with data reports the person's kind and "first last". The user_id is the student_id of a student or the guest_id of a guest, and equals the scanned code. |
| Scanning.Resolve | dashboard/scanning_logic.py:72-98 | Not found exactly when no table holds the code. A found person is a stored row with that code. The tables are tried in the order regular, temporary, guest. |
| Scanning.ResolveIsTheRow | dashboard/scanning_logic.py:72-98 | With codes unique in each table, resolving a stored person's code gives back that person whenever no table tried earlier holds the same code. |
| Scanning.ValidityByKind | dashboard/scanning_logic.py:100-117 | A regular student is valid exactly when active. A temporary student is valid exactly when active and valid_from <= now <= valid_until, which is also active and status 'Active'. A guest is always valid. |
| Scanning.IsValidUser | dashboard/scanning_logic.py:100-117 | No contract of its own. Scanning.ValidityByKind states it: is_active for a regular student, is_valid() for a temporary one, always for a guest. |
| Scanning.Message.Text | dashboard/scanning_logic.py:25-57 | No contract of its own. Scanning.TextHead and Scanning.TextTellsMessage state what the four wordings guarantee. |
| Scanning.TextHead | dashboard/scanning_logic.py:25-57 | Every message text is non-empty. Its first letter is 'I' for not found, 'A' for denied, 'W' for welcome and 'G' for goodbye. |
| Scanning.TextTellsMessage | dashboard/scanning_logic.py:25-57 | Two messages with the same text are of the same kind, and two welcomes with the same text greet the same first name. |
| Scanning.Minutes | dashboard/scanning_logic.py:56 | The reported minutes are the floor of the elapsed seconds divided by 60. They are non-negative when the exit is not before the entry. |
| Scanning.QRCodeScanner.IsInsideLab | dashboard/scanning_logic.py:119-143 | True exactly when the database holds an open session for the person. |
| Scanning.QRCodeScanner.CreateLogEntry | dashboard/scanning_logic.py:145-168 | Appends one log for the person, with the direction, the time, the supervisor, and a session token only on entry. Returns its key. |
| Scanning.QRCodeScanner.CreateLabSession | dashboard/scanning_logic.py:170-189 | Appends one open session for the person, entering now through the given entry log. Returns its key. |
| Scanning.QRCodeScanner.UpdateLabSession | dashboard/scanning_logic.py:191-218 | Returns the person's lowest-key open session, if any. Only that session changes, getting the exit time, the exit log and the duration from save. With no open session nothing changes. |
| Scanning.QRCodeScanner.RecordEntry | dashboard/scanning_logic.py:47-52 | The entry branch of the atomic block: the new tables are EntryStep of the old ones, and the new session's key is returned. |
| Scanning.QRCodeScanner.RecordExit | dashboard/scanning_logic.py:47-56 | The exit branch of the atomic block closes the person's first open session k and returns k and its entry time. The new tables are ExitStep of the old ones. |
| SessionLedger.FirstOpen | dashboard/scanning_logic.py:125-128 | The first open session of the person by key, or none exactly when the person has no open session. |
| SessionLedger.FirstOpenIsOnlyOpen | dashboard/scanning_logic.py:125-128 | Under the ledger invariant, any open session of the person is the one `.first()` returns. |
| SessionLedger.EntryStep | dashboard/scanning_logic.py:47-52 | No contract of its own. SessionLedger.EntryKeepsValid, SessionLedger.EntryLeavesInside and Scanning.EntryScan state it: one entry log with the token, one open session through that log, the invariant kept, and the person inside. |
| SessionLedger.ExitStep | dashboard/scanning_logic.py:53-57 | No contract of its own. SessionLedger.ExitKeepsValid, SessionLedger.ExitLeavesOutside and Scanning.ExitScan state it: one exit log, session k closed with its duration, the invariant kept, and the person outside. |
| SessionLedger.EntryKeepsValid | dashboard/scanning_logic.py:47-52 | Writing an entry for a person who is outside keeps the ledger invariant. |
| SessionLedger.ExitKeepsValid | dashboard/scanning_logic.py:47-57 | Closing the person's first open session with an exit log keeps the ledger invariant. |
| SessionLedger.EntryLeavesInside | dashboard/scanning_logic.py:47-52 | After the entry writes, the new session is the person's open session. Nobody else's occupancy changes. |
| SessionLedger.ExitLeavesOutside | dashboard/scanning_logic.py:53-57 | After the exit writes, the person has no open session. Nobody else's occupancy changes. |
| Store.Database.SaveRegularStudent | dashboard/models.py:49-83 | If initials are missing for generation, nothing is saved. Otherwise the row gets created_at = now, its given or generated id and the filled-in year_completed. The row is appended unless its id is taken. The invariant is kept. |
| Store.Database.SaveTemporaryStudent | dashboard/models.py:135-144 | Like the regular save, except that is_active is cleared when valid_until has already passed. The invariant is kept. |
| Store.Database.SaveGuest | dashboard/models.py:172-178 | The row gets created_at = now and its given or generated guest_id. It is appended unless that id is taken. The invariant is kept. |
| Store.RegularRows | dashboard/models.py:67 | Exactly the stored regular students of the given year, as (student_id, created_at) rows. |
| Store.TemporaryRows | dashboard/models.py:64 | Exactly the stored temporary students of the given year, as (student_id, created_at) rows. |
| Models.CompletedOnSave | dashboard/models.py:49-52 | A set year_completed is kept, as is everything when year_joined is 0. Otherwise an unset (None or 0) year_completed becomes year_joined + 3. |
| Models.CompletedOnSaveIdempotent | dashboard/models.py:49-52 | Saving twice fills year_completed as saving once does. |
| Models.IdOnSave | dashboard/models.py:110-113 | A given student_id is kept; an empty one is generated. The result is never empty. |
| Models.SavedRegular | dashboard/models.py:110-116 | The saved row differs from the input only in student_id (given or generated) and year_completed. |
| Models.ActiveOnSave | dashboard/models.py:142-143 | A temporary student stays active exactly when it was active and valid_until is not before now. |
| Models.SavedTemporary | dashboard/models.py:135-144 | The saved row differs from the input only in student_id, year_completed and is_active, each as its rule says. |
| Models.Status | dashboard/models.py:125-129 | 'Active' or 'Expired'. It is 'Active' exactly when valid_from <= now <= valid_until. |
| Models.IsValid | dashboard/models.py:131-133 | No contract of its own. Models.ValidIsActiveAndStatus states it in terms of is_active and status. |
| Models.ValidIsActiveAndStatus | dashboard/models.py:131-133 | is_valid() holds exactly when is_active holds and status is 'Active'. |
| Models.SavedAfterExpiryNeverValid | dashboard/models.py:142-143 | A temporary student saved after its valid_until is never valid afterwards. |
| Models.GenerateGuestId | dashboard/models.py:160-162 | "GUEST-" followed by the first 8 hex digits of the uuid in upper case, 14 characters. |
| Models.SavedGuest | dashboard/models.py:172-175 | A given guest_id is kept and an empty one is generated. Nothing else changes, and the result is never empty. |
| Models.GuestIdsAreNotStudentIds | dashboard/models.py:54-83 | A generated guest id never equals a generated student id. |
| Models.YearBatch | dashboard/models.py:97-100 | No contract of its own. Models.YearPartIsBatch ties it to the student id. |
| Models.YearPartIsBatch | dashboard/models.py:57-58 | From graduation year 10 on, the year written into a student id reads back as year_batch modulo 100. |
| Models.SessionOnSave | dashboard/models.py:249-252 | A session with an exit time gets duration = exit - entry. Otherwise the duration is left as it was. Nothing else changes. |
| Models.GetUserName | dashboard/models.py:211-219 | "Unknown" exactly when the log points at nobody. Otherwise "first last" of the first person set, in the order regular, temporary, guest; each of the three branches is stated. |
| Models.GetUserId | dashboard/models.py:221-229 | None exactly when the log points at nobody. Otherwise the student_id or guest_id of the first person set, in the same order; each of the three branches is stated. |
| Models.LogNamesItsPerson | dashboard/models.py:211-229 | A log written for a person names that person and returns their scanned code. |
| Models.Identity.DisplayName | dashboard/scanning_logic.py:36 | The "first last" name always contains the separating space. |
| Models.Identity.Code | dashboard/scanning_logic.py:220-228 | No contract of its own. Scanning.ReportedUser and Models.LogNamesItsPerson state it: the student_id of a student or the guest_id of a guest, which is the code the person is found by (Scanning.Resolve). |
| Models.Identity.Kind | dashboard/scanning_logic.py:72-98 | The user_type tag: 'regular', 'temporary' and 'guest' for the three kinds of row. |
| StudentIds.GenerateStudentId | dashboard/models.py:54-83 | The id starts "PRPC", has the length of its parts, and ends in the last three characters of the counter. |
| StudentIds.TypePrefix | dashboard/models.py:62-67 | The kind prefix is empty exactly for a regular student. |
| StudentIds.Initials | dashboard/models.py:56 | Two characters: the upper-cased first letters of the first and the last name. |
| StudentIds.YearPart | dashboard/models.py:57-58 | One or two characters; one exactly when year_joined + 3 is a single digit from 0 to 9. |
| StudentIds.SortByCreated | dashboard/models.py:72 | The sort keeps the number of rows. StudentIds.SortIsSortedPermutation and StudentIds.SortLastIsLatest state the rest. |
| StudentIds.LastNumber | dashboard/models.py:75-78 | No contract of its own. StudentIds.CounterAfterValue, StudentIds.CounterWrapsAtThousand and StudentIds.CounterFromUnreadableId state what it reads from an id. |
| StudentIds.NextCounter | dashboard/models.py:74-81 | "001" when there are no rows or the latest row has an empty id. Otherwise the counter after the latest row's id, where latest means greatest created_at with ties going to the later row. Never shorter than 3 characters. |
| StudentIds.CounterAfterValue | dashboard/models.py:75-79 | For a last number n from 0 to 998, the next counter has three characters and its last three read back as n + 1. |
| StudentIds.NextCounterValue | dashboard/models.py:74-81 | While the counters are below the wrap, the new counter reads back as 1 for the first student and as the latest number + 1 after that. |
| StudentIds.GeneratedIdIsFresh | dashboard/models.py:54-83 | While the counters are below the wrap, the new id differs from every stored id of its kind and year, and its counter reads as one past the latest (1 for the first student). Below the wrap means: the latest row's id is non-empty, its number is from 0 to 998, and no other row's number is larger. |
| StudentIds.FreshnessIsKept | dashboard/models.py:54-83 | Storing the new id as the latest row keeps that condition while the latest number is at most 997, so ids generated one after another stay fresh. |
| StudentIds.WrappedCounterRepeatsId | dashboard/models.py:74-83 | With the rows [the first id, a later id ending in "1000"], the next id generated for the same name, year and kind equals that first id. |
| StudentIds.SortIsSortedPermutation | dashboard/models.py:72 | The sort by created_at is ordered and is a permutation of the rows. |
| StudentIds.SortLastIsLatest | dashboard/models.py:72-74 | The last row after the stable sort is the latest one with the greatest created_at. |
| StudentIds.CounterAfter | dashboard/models.py:75-79 | The next counter has at least 3 characters and reads back as the last number + 1. |
| StudentIds.YearPartValue | dashboard/models.py:57-58 | For graduation year n = year_joined + 3 with n >= 10, the year part is two digits reading as n mod 100. |
| StudentIds.FirstCounter | dashboard/models.py:80-81 | With no earlier students the counter is "001". |
| StudentIds.CounterContinues | dashboard/models.py:74-79 | An id ending in counter n (n <= 999) is followed by counter n + 1, zero-padded to 3 digits. |
| StudentIds.SuccessiveCounters | dashboard/models.py:54-83 | Saving one more student of the same kind and year, created last, advances the counter from n to n + 1. |
| StudentIds.CounterWrapsAtThousand | dashboard/models.py:76-79 | An id ending in "1000" reads back as 0, since only its last three digits are read, so the next counter is "001". |
| StudentIds.CounterFromUnreadableId | dashboard/models.py:75-79 | When the last three characters are not a number, the counter restarts at "001". |
| StudentIds.CounterHead | dashboard/models.py:74-81 | A counter starts with a digit or a minus sign. |
| StudentIds.KindsNeverCollide | dashboard/models.py:62-67 | A generated regular id never equals a generated temporary id, whatever the names, years and earlier rows. |
| StudentIds.SameYearPartAcrossCenturies | dashboard/models.py:57-58 | From graduation year 10 on, year_joined values a multiple of 100 apart give the same year part. |
| StudentIds.CenturiesShareIds | dashboard/models.py:57-67 | Two students with the same name and kind, joining a multiple of 100 years apart, get the same id from the same earlier rows, for example the first student of each year. |
| Common.ParseZFilledDecimal | dashboard/models.py:76-79 | int(str(i).zfill(w)) == i for every integer i and width w. |

## Left out

- QR code images (`generate_qr_code`) and photo uploads: not part of the scan logic.
  The image field's second save is not modelled.
- The randomness of `uuid.uuid4()`: the session token and the guest's uuid hex are
  parameters.
- `transaction.atomic` and concurrency: a scan is one atomic step on the tables.
- QRCodeScanner.RecordExit requires an open session. The code's `session is None` exit
  path (`str(session.id) if session else None`) can only happen when another writer
  closes the session between the two queries. That race is out of scope, so the model
  never reports a missing session_id.
- Time zones and the `strftime` text of the response timestamp: time is an integer and
  the timestamp is `now` itself.
- The source reads `timezone.now()` several times per scan. The model uses a single
  `now`, so the log time, the session time and the reported minutes agree.
- Scanning.Minutes: `total_seconds()` is a float in the source. The model uses exact
  integer division, which agrees for whole-second timestamps.
- `str.upper` beyond ASCII, and the Unicode digits and spaces accepted by `int()`: only
  ASCII is modelled.
- `paired_log` on `AccessLog`: the source never writes it.
- Store.Database.SaveRegularStudent: the `IntegrityError` of a taken `student_id` is a
  None result with nothing written. The `IndexError` of an empty name is modelled the
  same way.
- Store.Database.SaveTemporaryStudent: same as the regular save. The third `save()` that
  stores the cleared `is_active` is folded into the single append.
- Store.Database.SaveGuest: a taken `guest_id` is a None result with nothing written.
- `MultipleObjectsReturned` from `.get()` on duplicate codes is not modelled. `Resolve`
  takes the first row, and the database invariant keeps the codes unique in each table
  anyway.
- StudentIds.GenerateStudentId: uniqueness of the id is proved only against the stored
  ids of the same kind and the same year_joined, and only while the counters are below
  the wrap (`GeneratedIdIsFresh`, `FreshnessIsKept`). Two ways to repeat an id remain.
  From the thousandth student of a kind and year on, the counter restarts
  (`WrappedCounterRepeatsId`). And year_joined values a multiple of 100 apart, such as
  2022 and 2122, share the year part but keep separate counters (`CenturiesShareIds`).
  The database then refuses the row, which the save models as a None result.
- The order of `objects.filter(...)` (`dashboard/models.py:64`, `:67`): no
  `Meta.ordering` is declared, so the database may return the rows in any order. The
  model uses table order, so among equal `created_at` values the row with the higher
  primary key counts as the latest. Another order could pick a different row.
- The `UNK` prefix of `generate_student_id` and the "other kind" branches of
  `_is_valid_user`, `_is_inside_lab` and `_get_user_id` are not modelled: every row is
  one of the three kinds.
- Editing a stored row after its first save: the scan never does it. Logs and sessions
  hold the person as a value, and occupancy compares people by value, where the source
  follows a foreign key. The two agree because rows are only appended and codes are
  unique in each table. Modelling an edit, such as an admin clearing `is_active` while
  the person is inside, would need row keys in place of these values.
- `created_by`, `recorded_by` as a user row, `user_type` columns, and the descriptive
  fields (class, boarding, reason, school, contact): they play no part in a scan. The
  supervisor is an opaque `Operator`.
- The views, admin, URL routing, `UserProfile`, `SystemSettings` and the front-end build
  script: not part of the engine.
