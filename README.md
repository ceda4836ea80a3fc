# Shelter kiosk: a Dafny model of the request and attendance core

The shelter kiosk is a small Flask application used at three shelters (Abba,
Haven, Gratitude). Residents submit leave requests and transportation
requests at a kiosk. Staff, signed in and working at one selected shelter,
approve, deny and check in leave requests, schedule transportation, record
residents checking in and out, and look at boards of pending, away and
overdue requests. Administrators manage staff accounts, and staff manage the
resident list. Every staff action appends a row to an audit log.

This project models that core with the SQL database replaced by in-memory
tables and the clock passed in as a number of seconds:

- `common.dfy` (module `Common`): Python's `str.strip()`, the shelter list,
  the `value or None` conventions, handler replies and the audit entry.
- `clock.dfy` (module `Clock`): date-times as the kiosk stores them. It covers
  the subset of `datetime.fromisoformat` that the kiosk's forms produce,
  conversion to seconds on Python's proleptic calendar, `isoformat`, and
  `fmt_dt`. It proves that comparing seconds is the same as comparing
  date-times, and that a stored timestamp parses back to itself.
- `ordering.dfy` (module `Ordering`): a `WHERE` filter and an
  `ORDER BY <integer column>` over a table keyed by row id.
- `leave.dfy` (module `Leave`): the leave form's checks, the pending row a
  submission inserts, the three staff transitions as updates of the
  `leave_requests` table, the table invariant, and the pending, away-now and
  overdue boards.
- `transport.dfy` (module `Transport`): the transport form's checks, the
  scheduling transition and the pending board.
- `attendance.dfy` (module `Attendance`): the attendance event log, the
  latest-event query, the presence and overdue flag the attendance page
  shows, and resident activation.
- `access.dfy` (module `Access`): the `require_*` guards, the new-user
  checks, the self-delete guard and the activation flag check.
- `app.dfy` (module `App`): class `Database`. It holds every table as a field
  and has one method per handler. Each method's contract gives the new
  tables as the module's table update applied to the old ones, plus the
  audit entry it appends. Every method keeps the invariant `Valid()`.

Instants are integers: seconds since 0001-01-01 00:00:00 plus one day, which
is Python's ordinal times 86400 plus the time of day. The SQL queries compare
the `isoformat()` strings the kiosk stores, character by character.
`Clock.IsoFormatKeepsOrder` proves that this text order of two stored
timestamps is their date-time order and the order of their seconds, so the
model compares numbers where the queries compare strings.
`Clock.ParseIsoFormat` proves that a stored timestamp parses back to itself.

Some behaviours of the code worth knowing when reading the model:

- Deny, leave check-in, transport scheduling and resident activation run a
  conditional `UPDATE`. They then log and report success even when no row
  matched, for example a stale request or another shelter's request.
- The overdue board lists approved requests that are not checked in and
  whose `return_at < now`.

## Model

| member | source | states |
|---|---|---|
| Common.Strip | app.py:479 | the stripped value starts and ends with a non-space character, and is no longer than the input |
| Common.StripIsSlice | app.py:479 | the stripped value is a contiguous slice of the input, with only white space (as `str.isspace`) cut before and after it |
| Common.StripEmpty | app.py:495 | stripping leaves the empty string exactly when the field is all white space, so such a field counts as missing |
| Common.StripIdempotent | app.py:479 | stripping a stripped value changes nothing |
| Common.NoneIfEmpty | app.py:538 | `value or None`: None exactly for the empty string, otherwise the value itself |
| Common.ShelterOrBlank | app.py:470-471 | the shelter pre-filled on a resident form is the stripped query value when that names a listed shelter, and blank otherwise |
| Common.SelectShelter | app.py:688-693 | a shelter is accepted exactly when its stripped value is one of Abba, Haven, Gratitude, and the session then holds that stripped value |
| Clock.ToSecondsKeepsOrder | app.py:501-504 | for valid date-times, field-by-field chronological order is order of the seconds values, and equal date-times are equal seconds values |
| Clock.ParseIso | app.py:29-30 | a parsed date-time is valid (years 1 to 9999, real month lengths, leap years) and came from 10, 13, 16 or 19 characters with dashes at positions 4 and 7; Clock.ParseIsoReads, Clock.ParseIsoFields and Clock.ParseIsoPrefix state which value it yields |
| Clock.ParseIsoReads | app.py:29-30 | a successful parse checked the dashes (and the colon of `HH:MM`), and its year, month, day, hour, minute and second are the values of the digit runs at their positions, each field the text lacks being zero |
| Clock.ParseIsoFields | app.py:29-30 | conversely, text of 10, 13, 16 or 19 characters with those separators whose digit runs decode to a valid date-time's fields parses to that date-time, with the fields past the text's end set to zero |
| Clock.ParseIsoPrefix | app.py:29-30 | the first 10, 13, 16 or 19 characters of a stored timestamp, with any character between date and time (a datetime-local field's `YYYY-MM-DDTHH:MM` included), parse to the stored date-time with the missing fields at zero |
| Clock.ToSeconds | app.py:501-504 | the instant of a date-time in seconds; Clock.ToSecondsKeepsOrder states its meaning: it orders and identifies date-times as Python compares them |
| Clock.IsoFormat | app.py:25-26 | the 19-character text the kiosk stores; Clock.ParseIsoFormat and Clock.IsoFormatKeepsOrder state its meaning |
| Clock.TextBeforeAppend | app.py:723-731 | texts built of parts of equal lengths compare as text on their first parts, and on their second parts only where the first parts are equal; equal exactly when both parts are |
| Clock.PaddedOrder | app.py:25-26 | zero-padded numbers of one width compare as text exactly as they compare as numbers, and are equal exactly when the numbers are |
| Clock.PaddedInjective | app.py:25-26 | zero-padded numbers of one width are equal texts exactly when they are equal numbers |
| Clock.DateTextOrder | app.py:25-26 | the `YYYY-MM-DD` parts of two stored timestamps compare as text exactly as the dates compare, and are equal exactly when the dates are |
| Clock.FieldStep | app.py:25-26 | appending one zero-padded field to texts of equal length extends their text order by that field's numeric order |
| Clock.SeparatorStep | app.py:25-26 | appending the same separator character to texts of equal length changes neither their order nor their equality |
| Clock.IsoFormatKeepsOrder | app.py:723-731 | two stored timestamps compare as text (as the `leave_at <= now` and `return_at < now` conditions do) exactly as the date-times compare, and exactly as their seconds compare |
| Clock.ParseIsoFormat | app.py:25-26 | what `isoformat` stores parses back to the same date-time |
| Clock.ParseInstant | app.py:29-30 | parsing to seconds succeeds exactly when parsing succeeds, and yields that date-time's seconds |
| Clock.FmtDt | app.py:33-40 | `fmt_dt`; its contract is stated by Clock.FmtDtCases and Clock.FmtDtOfStored |
| Clock.FmtDtCases | app.py:33-40 | `fmt_dt` is blank exactly for a missing or empty value, returns unparseable text unchanged, and shows parsed text as its own first 10 characters, a space, and its own `HH:MM` (with `:00` added to a 13-character text and ` 00:00` to a bare date) |
| Clock.FmtDtOfStored | app.py:33-40 | a stored timestamp is shown as its own date and minutes |
| Ordering.Where | app.py:709-713 | the selected ids are exactly the table's rows that satisfy the filter |
| Ordering.OrderBy | app.py:709-713 | the result lists every selected id exactly once and nothing else, in ascending key order |
| Leave.LastInstantIsLastDate | app.py:504 | the bound used for the overflow of `leave_dt + timedelta(days=7)` is the instant of 9999-12-31 23:59:59 |
| Leave.CheckWindow | app.py:500-507 | on the two parsed times: "Return must be after leave." iff return <= leave; "Maximum leave is 7 days." iff return > leave + 7 days and that sum does not overflow; "Invalid date or time." iff a time did not parse or adding 7 days overflows; the errors come in check order; none iff the window is acceptable |
| Leave.ConcatRaised | app.py:493-508 | the agreement and required-field checks together with the date checks raise exactly the errors whose conditions hold |
| Leave.ValidateLeave | app.py:494-508 | every error is raised exactly when its condition holds (agreement not "on", a required field empty, the three window errors), in the handler's order; no errors exactly when the submission is admissible |
| Common.Flash | app.py:510-512 | one flashed message per error, each that error's message, in the order the errors were raised |
| Common.FlashNamesErrors | app.py:510-512 | when no two errors share a message, a message is flashed exactly when its error was raised |
| Common.RankedHeadLeast | app.py:493-508 | a list of errors in check order starts with the one checked first |
| Common.RankedTail | app.py:493-508 | after the first error of a list in check order come exactly the other errors of the list |
| Common.RankedHead | app.py:493-508 | two lists in the same check order that hold the same errors start with the same error |
| Common.RankedUnique | app.py:493-512 | two lists in the same check order that hold the same errors are the same list |
| Common.FlashedForUnique | app.py:510-512 | when errors are checked in a fixed order, the list of messages flashed for one set of raised errors is determined: any two such lists are equal |
| Common.FlashedForNames | app.py:510-512 | with distinct messages, a message is among those flashed exactly when its error was raised |
| Leave.MessagesDiffer | app.py:494-508 | the five leave errors flash five different messages and have five different places in the check order |
| Leave.CleanedIsIdempotent | app.py:479-491 | stripping the form's fields again changes nothing |
| Leave.WindowBoundary | app.py:503-504 | a return exactly 7 days after the leave is accepted, and one second later is refused |
| Leave.NewRequest | app.py:515-539 | the inserted row is pending, in the form's shelter, with the parsed times, submitted now, and with every decision and check-in field NULL |
| Leave.NewRequestValid | app.py:515-539 | the row of an admissible submission satisfies the table invariant |
| Leave.TransitionsMoveForward | app.py:774-864 | approve, deny and check-in change at most the named row, keep every key, only move pending to approved or denied, or approved to checked in, and never change a row's request columns (resident, shelter, times, reason, notes, submitted_at) |
| Leave.FinalStatesStay | app.py:780-864 | no handler moves a row out of denied or checked in |
| Leave.TransitionsKeepValid | app.py:774-864 | approve, check-in and deny with a non-empty note keep the table invariant (decision and check-in fields set exactly for the statuses that have them, a denial has a note) |
| Leave.ApproveOnlyOnce | app.py:774-803 | approve changes a row iff it is pending in the selected shelter; the new table is then the old one with only that row's status, decided_at, decided_by and decision_note (`note or None`) replaced; a second approve changes nothing |
| Leave.Approve | app.py:785-799 | the approve `UPDATE`; Leave.ApproveOnlyOnce, Leave.TransitionsMoveForward and Leave.TransitionsKeepValid state its contract |
| Leave.Deny | app.py:817-831 | the deny `UPDATE`; Leave.DenyIsPermanent, Leave.FinalStatesStay and Leave.TransitionsKeepValid state its contract |
| Leave.CheckIn | app.py:846-860 | the check-in `UPDATE`; Leave.CheckInIdempotent, Leave.FinalStatesStay and Leave.CheckInClearsBoards state its contract |
| Leave.DenyIsPermanent | app.py:812-835 | deny changes the table exactly when the row is pending in the shelter, and the new table is then the old one with only that row's status (denied), decided_at, decided_by and decision_note replaced; once denied, a later approve leaves the table unchanged (Leave.FinalStatesStay covers deny and check-in) |
| Leave.CheckInIdempotent | app.py:846-864 | check-in changes a row iff it is approved in the shelter with no check-in time; the new table is then the old one with only that row's status (checked_in), check_in_at and check_in_by replaced; a second check-in changes nothing |
| Leave.PendingBoard | app.py:704-715 | the pending board is exactly the shelter's pending requests, each once, newest submission first |
| Leave.AwayNow | app.py:718-739 | the away-now board is exactly the shelter's approved requests with leave_at <= now and no check-in, each once, by ascending return_at |
| Leave.Overdue | app.py:742-763 | the overdue board is exactly the shelter's approved requests with return_at < now and no check-in, each once, by ascending return_at |
| Leave.OverdueIsAway | app.py:723-763 | in a valid table every overdue request is also on the away-now board |
| Leave.CheckInClearsBoards | app.py:846-864 | checking in a request that is away removes it from the away-now and overdue boards |
| Leave.ApprovalShowsAway | app.py:774-803 | approving a pending request whose leave time has come moves it from the pending board to the away-now board |
| Leave.PendingNotAway | app.py:704-763 | no request is on the pending board and on the away-now or overdue board at once |
| Transport.ValidateTransport | app.py:575-585 | "Complete all required fields." iff a required field is empty; "Invalid needed date or time." iff the needed time did not parse; "Needed time cannot be in the past." iff it is more than one minute before now; the errors come in check order with none twice, missing fields first; no errors iff the submission is acceptable |
| Transport.MessagesDiffer | app.py:575-589 | the three transport errors flash three different messages and have three different places in the check order |
| Transport.CleanedIsIdempotent | app.py:561-574 | stripping the form's fields again changes nothing |
| Transport.NewRequest | app.py:592-624 | the inserted row is pending, in the form's shelter, with the parsed needed time, submitted now, and not scheduled |
| Transport.Schedule | app.py:894-908 | the scheduling `UPDATE`; Transport.ScheduleOnlyFromPending, Transport.ScheduleKeepsValid and Transport.ScheduledLeavesPending state its contract |
| Transport.ScheduleOnlyFromPending | app.py:893-908 | scheduling changes a row iff it is pending in the selected shelter; the new table is then the old one with only that row's status (scheduled), scheduled_at, scheduled_by, driver_name and staff_notes (`notes or None`) replaced; no row's request columns and no other row change; a second scheduling changes nothing |
| Transport.ScheduleKeepsValid | app.py:890-908 | scheduling with a non-empty driver name keeps the invariant that scheduled rows, and only they, carry a driver and a scheduler |
| Transport.PendingBoard | app.py:867-878 | the transport pending board is exactly the shelter's pending requests, each once, newest submission first |
| Transport.ScheduledLeavesPending | app.py:881-908 | a scheduled request leaves the pending board |
| Attendance.LatestEvent | app.py:940-963 | the latest event is one of the resident's events at that shelter and none of them is later; None iff the resident has no event there |
| Attendance.PresenceOf | app.py:952-976 | an overdue resident is checked out with an expected-back time; with no time shown the entry is checked in, blank and not overdue; Attendance.PresenceFollowsLatest ties every field to the latest event |
| Attendance.OverdueEvent | app.py:965-969 | the overdue test on a latest event; Attendance.PresenceFollowsLatest, Attendance.CheckOutShowsOut and Attendance.OverdueStays state its contract |
| Attendance.NoEventsMeansIn | app.py:957-960 | a resident with no events shows as checked in, with no time, not overdue |
| Attendance.PresenceFollowsLatest | app.py:952-976 | the status, the time and the expected-back text (`eb or ""`) are those of a latest event of the resident, and overdue holds exactly when that event is a check-out whose expected-back time parses and is before now |
| Attendance.AppendedIsLatest | app.py:987-1030 | an event appended at a time no earlier than the resident's other events becomes their latest event |
| Attendance.OthersUnaffected | app.py:987-1030 | appending an event for one resident leaves every other resident's entry unchanged |
| Attendance.CheckInClearsOverdue | app.py:987-1003 | after a check-in recorded at the current time the resident shows as in, at that time, not overdue, and with the blank expected-back text that a check-in's NULL gives |
| Attendance.CheckOutShowsOut | app.py:1006-1030 | after a check-out the resident shows as out with its expected-back time, overdue exactly when that time parses and is before now |
| Attendance.OverdueStays | app.py:965-969 | a resident overdue at one time is still overdue later while no event is added |
| Attendance.Board | app.py:925-978 | the status map has an entry for exactly the shelter's active residents, each that resident's presence |
| Attendance.SetActive | app.py:1155-1163 | the activation `UPDATE`; Attendance.SetActiveLists states its contract |
| Attendance.SetActiveLists | app.py:1152-1163 | deactivating a resident of the shelter takes them off the attendance board and activating puts them on; no other resident's listing changes |
| Access.Admit | app.py:401-435 | a staff page is reached exactly when signed in, with a selected shelter where the page needs one, and with the role the page requires; not signed in always goes to login; signed in without a shelter on a shelter page goes to the shelter choice before any role check; a refusal happens exactly when the earlier guards pass and the role does not, with "Admin only." or "Staff or admin only." |
| Access.AdminPassesStaffGate | app.py:419-435 | whoever passes the admin guard passes the staff-or-admin guard; a staff-role user is refused by the admin guard with "Admin only." |
| Access.RequestedRole | app.py:1042 | an empty role field means staff, otherwise the role is the stripped field |
| Access.BlankRoleIsInvalid | app.py:1042-1049 | a role field of only white space is not defaulted to staff and is refused |
| Access.CheckNewUser | app.py:1044-1061 | a user is created exactly when username and password are non-empty, the role is staff or admin, and the username is new; "Username and password required." exactly when either is empty; "Invalid role." exactly when both are given and the role is unknown; "Username already exists." exactly when all that passes and the name is taken |
| Access.CheckDelete | app.py:1071-1073 | deletion is refused exactly when the username is the signed-in user's own |
| Access.ActiveFlag | app.py:1149-1153 | the flag is accepted exactly when the stripped field is "0" or "1", and means active exactly for "1" |
| App.Database.constructor | app.py:116-353 | an empty database satisfies the invariant |
| App.Database.LogAction | app.py:389-398 | exactly one entry is appended to the audit log, stamped now |
| App.Database.InsertLeave | app.py:515-546 | a new leave row is stored under a fresh id, the next one, and the invariant is kept |
| App.Database.InsertTransport | app.py:592-628 | a new transport row is stored under a fresh id, the next one, and the invariant is kept |
| App.Database.AcceptLeave | app.py:494-548 | on a cleaned form: accepted iff admissible; a rejection flashes the messages of exactly the raised errors, one each, in check order (Leave.Flashed; Common.FlashedForUnique makes that list unique) and writes nothing; an acceptance inserts the pending row under the next id and appends exactly the ("leave", id, shelter, None, "create") audit entry |
| App.Database.SubmitLeave | app.py:479-548 | the leave POST: an unlisted shelter is refused with "Select a valid shelter." and nothing written; otherwise the outcome of AcceptLeave on the stripped form and its parsed times, so a rejection flashes exactly the raised errors' messages in check order |
| App.Database.AcceptTransport | app.py:575-630 | on a cleaned form: accepted iff fields present and the needed time acceptable; a rejection flashes the messages of exactly the raised errors, one each, in check order (Transport.Flashed) and writes nothing; an acceptance inserts the pending row and its audit entry |
| App.Database.SubmitTransport | app.py:561-630 | the transport POST: an unlisted shelter is refused with "Select a valid shelter." and nothing written; otherwise the outcome of AcceptTransport on the stripped form, so a rejection flashes exactly the raised errors' messages in check order |
| App.Database.ApproveLeave | app.py:769-803 | the table becomes Leave.Approve of the old one; "Approved." and an audit entry with the note exactly when the row was pending in the shelter; otherwise "Not pending." and no audit entry |
| App.Database.DenyLeave | app.py:809-835 | an empty stripped note gives "Denial note required." and writes nothing; otherwise the table becomes Leave.Deny of the old one and the deny audit entry is appended even when no row matched |
| App.Database.CheckInLeave | app.py:841-864 | the table becomes Leave.CheckIn of the old one, and the check-in is logged and reported whether or not a row matched |
| App.Database.ScheduleTransport | app.py:884-912 | an empty driver name gives "Driver name required." and writes nothing; otherwise the table becomes Transport.Schedule of the old one and "Driver <name>" is logged |
| App.Database.AttendanceCheckIn | app.py:990-1003 | exactly one check-in event, stamped now with the staff id and `note or None`, is appended, plus its audit entry |
| App.Database.AttendanceCheckOut | app.py:1009-1030 | exactly one check-out event with `expected_back or None` is appended, plus an audit entry whose details are the stripped "expected_back=... note" text |
| App.Database.QueryLatestEvent | app.py:940-963 | the scan of the log returns exactly the latest event of the resident at the shelter |
| App.Database.AttendanceBoard | app.py:918-978 | the status map built resident by resident is exactly Attendance.Board of the current tables |
| App.Database.AddResident | app.py:1091-1110 | missing first name, last name or date of birth is refused with nothing written; otherwise an active resident is added under the next id and logged with "first last dob" |
| App.Database.SetResidentActive | app.py:1145-1168 | a flag other than "0"/"1" gives "Invalid action." and writes nothing; otherwise the residents become Attendance.SetActive of the old ones and "active=<flag>" is logged whether or not a resident matched |
| App.Database.CreateUser | app.py:1036-1063 | the account is created exactly when Access.CheckNewUser passes, active with the requested role; otherwise that check's message and nothing written |
| App.Database.DeleteUser | app.py:1070-1083 | the signed-in user's own account is refused; any other username is removed whether or not it exists |

## Left out

- Flask routing, templates, `flash`, `redirect` and `url_for` are left out. A handler's outcome is a `Reply` or `Submission` value that carries its flash messages.
- The session object is left out. Handlers take the staff id, the shelter and (for deletion) the session's username as parameters. `Access.Admit` models the guards in front of them.
- `get_db`, `db_execute`, `db_fetchall`, the SQLite/Postgres branching, `init_db` and its `ALTER TABLE` steps are left out. They are replaced by the fields of `App.Database`.
- `/debug/db` is left out.
- Staff login and password hashing are left out, because werkzeug is a foreign library. A staff row holds no password hash.
- `ensure_admin_bootstrap` is left out, because it reads the environment.
- The clock is a parameter, `now`, and all the clock reads of one request are collapsed into that one value. The code reads the clock separately each time:
  - the transport handler reads it three times: `datetime.utcnow()` for the past check (app.py:582), `utcnow_iso()` for `submitted_at` (app.py:609), and `utcnow_iso()` again inside `log_action` for the audit row (app.py:398);
  - every handler that logs stamps its audit row by its own read in `log_action` (app.py:398), apart from the read that stamps the row it writes (app.py:533, 784, 830, 859, 907, 1001, 1028, 1107);
  - the attendance board calls `datetime.utcnow()` again for each resident it judges overdue (app.py:969).
  So two facts hold in the model but not always in the code: an audit entry's `created_at` equals the time stamped on the row it logs (`App.Database.LogAction` and the handler methods), and `Attendance.Board` and `App.Database.AttendanceBoard` judge every resident at the same instant. In the code the audit stamp may be a later second, and residents later on the board may be judged against a later clock.
- Microseconds of the clock are left out: `now` is whole seconds. The stored stamps drop microseconds, but the transport past check and the attendance overdue check compare with `datetime.utcnow()` itself, which keeps them. So at `expected_back` equal to the current second the code reports overdue once a fraction of that second has passed, and the model does not. The past check is likewise off by under a second.
- Clock.ParseIso: only the forms `YYYY-MM-DD` optionally followed by one separator and `HH`, `HH:MM` or `HH:MM:SS` are parsed. Fractions of seconds, UTC offsets and the other forms Python 3.11 accepts count as unparseable. So a leave time with an offset is refused in the model but may be accepted by Python.
- Clock.DisplayMinutes pads years below 1000 to four digits. Some platforms' `strftime("%Y")` does not.
- Ordering.OrderBy breaks ties between equal keys by ascending id. SQL leaves that order unspecified.
- Attendance.LatestEvent takes the last-appended of several events with the same time. SQL leaves that choice unspecified.
- Resident ordering is left out: the attendance page and the resident list order residents by last and first name, and the model keeps only which residents are listed. The staff users list order and the GET branch of the residents page are left out for the same reason.
- The race between the approve handler's read and its unguarded `UPDATE` is left out. It needs concurrent requests, and this model is sequential.
- The kiosk mixes local times typed into forms with UTC times from `utcnow`. The model compares them as numbers, exactly as the code does.
- A failed insert other than a duplicate username is left out. The new-user handler reports any insert failure as "Username already exists.", and the model produces that message only for a duplicate.
