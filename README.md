# Classroom attendance tracker — Dafny model

A model of the attendance core of a small Flask application (`app.py`): a
teacher logs in, students submit their name on a public form once per day,
and the teacher's pages show today's attendance, every record latest day
first, the present and absent counts, clear the current day and export all
records as a worksheet.

The model keeps the application's one table, `attendance(id, name, date,
time)`, as a sequence of records in stored order together with the next
AUTOINCREMENT id, and its one business rule: no two records share a
`(name, date)` key.

- `Text` — Python's `str.strip()` over the characters `str.isspace` accepts.
- `Order` — the store's text order (SQLite's BINARY collation) as a
  lexicographic order on strings, and the proof that ISO `YYYY-MM-DD` date
  strings sort as text exactly as the dates sort on the calendar.
- `Store` — the record and table types, the table invariant, the lookup
  `SELECT id ... WHERE name=? AND date=?`, marking attendance (INSERT) and
  clearing a day (DELETE) as functions on table values with their lemmas,
  and the class `AttendanceTable` whose methods update the table in place
  and are proved against those functions.
- `Stats` — the dashboard's values: today's records, all records ordered by
  date descending, the number of distinct names, present and absent.
- `Export` — the loop that builds the worksheet's rows.
- `Web` — the session flag as a small state machine, and the class `App`
  whose handler methods follow the routes: login, logout, the
  `login_required` gate on the dashboard, clear-today and export, and the
  public marking form.

The current date (`date.today().isoformat()`) and time
(`now().strftime("%H:%M:%S")`) are parameters of the operations that read
the clock.

Three details of the code that the model keeps as written:
- `absent_today` is `total - present` when `total > 0` and 0 otherwise; it
  is not clamped at 0. Under the uniqueness invariant the two agree
  (`Stats.DashboardCountsAgree`); without it the code's value goes negative
  (`Stats.DuplicateKeyMakesAbsentNegative`).
- `total_students` is the number of distinct names among the records
  stored now; there is no student registry in this code, and a name whose
  only records were deleted by clearing a day no longer counts.
- The day is the server's local date; no fixed time zone is configured. In
  the model it is a parameter either way.

## Model

| member | source | states |
|---|---|---|
| Text.Strip | app.py:120 | the stripped name neither starts nor ends with whitespace |
| Text.StripIsTrimmedSlice | app.py:120 | the stripped name is a contiguous piece of the submission and only whitespace was cut from either side |
| Text.StripIgnoresSurroundingSpace | app.py:120-138 | any whitespace around a name strips away, so `"  Asha "` and `"Asha"` are the same lookup and insert key |
| Text.StripSkipsLeadingSpace | app.py:120 | whitespace in front of a submission does not change what it strips to |
| Text.StripSkipsTrailingSpace | app.py:120 | whitespace after a submission does not change what it strips to |
| Text.StripIdempotent | app.py:120 | stripping an already stripped name changes nothing |
| Text.StripExample | app.py:120 | `"  Asha "` strips to `"Asha"` |
| Order.LexLeFirstDifference | app.py:81 | the store's text order: a prefix sorts first, otherwise the first differing character decides |
| Order.Pad | app.py:71 | a zero-padded number has exactly the given width and only digit characters |
| Order.LexLeTotal | app.py:81 | any two date strings are comparable under the store's text order |
| Order.LexLeTransitive | app.py:81 | the store's text order is transitive |
| Order.LexLeAntisymmetric | app.py:81 | two strings that sort at or before each other are equal |
| Order.LexLeConcat | app.py:81 | for equal-length leading pieces, the pieces decide the comparison unless equal, then the rest decides |
| Order.PadOrder | app.py:71 | zero-padded decimals of one width compare as text exactly as the numbers compare |
| Order.PadInjective | app.py:71 | distinct numbers that fit the width have distinct zero-padded forms |
| Order.IsoFormat | app.py:71 | an ISO date string has ten characters with dashes at positions 4 and 7 |
| Order.IsoOrderIsCalendarOrder | app.py:81 | for valid dates, the ISO strings compare as text if and only if the dates compare on the calendar |
| Store.FindFirst | app.py:127-131 | the lookup finds a record exactly when one has the `(name, date)` key, and then the first such record |
| Store.MarkAttendance | app.py:116-143 | the submission is rejected exactly when a record with the stripped name and today's date exists, and a rejection leaves the table unchanged |
| Store.MarkAppendsOne | app.py:136-140 | an accepted submission appends exactly one record (stripped name, today, the time, the old next id), keeps every earlier record in place and advances the next id |
| Store.AppendPreservesConsistent | app.py:22-28 | appending a record with the next id and a key not yet present keeps ids positive, increasing, below the next id, and keys unique |
| Store.MarkPreservesConsistent | app.py:127-140 | marking attendance preserves the table invariant, including at most one record per `(name, date)` |
| Store.FirstMarkOnEmptyTable | app.py:22-28 | the first mark on a fresh table is accepted under id 1 and stores the one record with the stripped name, and the next id becomes 2 |
| Store.MarkAcceptedConsistent | app.py:127-140 | when the lookup finds nothing, the mark appends the record under the next id and the resulting table still satisfies the invariant |
| Store.MarkTwiceRejected | app.py:120-133 | after a mark, a second submission of the same stripped name on the same day is rejected and changes nothing |
| Store.KeyHeldOnce | app.py:127-133 | in a consistent table two records with the same `(name, date)` are the same record |
| Store.ClearDay | app.py:159 | a record is kept if and only if its date is not today, and the next id is untouched |
| Store.RemoveDate | app.py:159 | a record survives the delete if and only if it was stored and its date is not the deleted day |
| Store.IdsNeverReused | app.py:22-28 | a record marked after a day was cleared receives an id above every id the table held before, deleted ones included |
| Store.RemoveDateKeepsOrder | app.py:159 | the survivors of the delete keep their increasing id order |
| Store.RemoveDateKeepsKeysUnique | app.py:159 | the delete keeps keys unique |
| Store.ClearDayPreservesConsistent | app.py:155-162 | clearing the day preserves the table invariant |
| Store.IdOrderDetermines | app.py:22-28 | two id-ordered sequences holding the same records are equal, so stored order is id order |
| Store.ClearDayExact | app.py:159 | clearing the day leaves exactly the records of other days, in their original relative order |
| Store.AttendanceTable.constructor | app.py:19-33 | the table starts empty with next id 1 and satisfies the invariant |
| Store.AttendanceTable.Mark | app.py:116-143 | updates the table in place as `MarkAttendance` prescribes and keeps the invariant |
| Store.AttendanceTable.ClearToday | app.py:155-162 | updates the table in place as `ClearDay` prescribes and keeps the invariant |
| Stats.TodayRecords | app.py:77-78 | today's `(name, time)` pairs are exactly as many as the records dated today, never more than the table holds |
| Stats.Names | app.py:85-86 | the distinct names are never more than the records |
| Stats.Absent | app.py:89 | with no names stored the absent count is 0; otherwise present plus absent equals total, so absent is `total - present`: non-negative when present is at most total and negative when it exceeds it |
| Stats.Dashboard | app.py:70-96 | the day shown is today; today's list is the `(name, time)` pairs of the records dated today; present is their number; the full listing is the date-descending ordering of the stored records, with dates descending along it; total is the number of distinct stored names, at most the number of records; absent is `Absent(total, present)`; an empty table shows all counts 0 |
| Stats.TodayRecordsMembers | app.py:77-78 | a `(name, time)` pair is among today's records if and only if some record dated today has that name and time |
| Stats.SortByDateDesc | app.py:81 | the listing is a permutation of the stored records (each listed as often as stored) with dates in descending text order |
| Stats.NamesMembers | app.py:85-86 | a name is counted in `total_students` if and only if some record carries it |
| Stats.NamesOnMembers | app.py:77-86 | a name is among today's names if and only if a record has that name and today's date |
| Stats.TodayCountIsTodayNames | app.py:77-88 | under unique keys, `present_today` equals the number of distinct names recorded today |
| Stats.PresentAtMostTotal | app.py:85-88 | under unique keys, `present_today` never exceeds `total_students` |
| Stats.DashboardCountsAgree | app.py:77-89 | under unique keys, present is the count of today's records, total the distinct names, absent is non-negative and present plus absent equals total |
| Stats.DuplicateKeyMakesAbsentNegative | app.py:85-89 | a table holding only two records of one name on one day shows `absent_today` equal to -1 |
| Stats.ClearDayEmptiesToday | app.py:155-162 | after clearing, no record is dated today, and the removed records are exactly today's |
| Stats.ClearDayCanLowerTotal | app.py:85-86 | a table whose only record of a name is dated today shows that name in `total_students` before clearing the day and not after |
| Stats.MarkCountsOnce | app.py:116-143 | an accepted mark adds one to the present count; a rejected one leaves it |
| Export.ExportRows | app.py:170-178 | the worksheet has the header `Name, Date, Time`, then one row per record in stored order, one row more than records |
| Web.Step | app.py:47-64 | a valid login (username `teacher`, password `1234`) always sets the flag, and a logged-out session becomes logged in only that way; logout always clears it; anything else keeps a logged-in session logged in |
| Web.LoggedInIffValidLogin | app.py:47-65 | starting logged out, the flag is set exactly when some login with both configured credentials has not been followed by a logout |
| Web.App.constructor | app.py:9-33 | the application starts logged out with an empty table |
| Web.App.LoginRequest | app.py:47-59 | a POST with matching credentials sets the flag and redirects to the dashboard; otherwise it renders the error and leaves the flag; a GET renders the form |
| Web.App.LogoutRequest | app.py:62-65 | logout clears the flag and redirects to the login page |
| Web.App.DashboardRequest | app.py:68-101 | without the flag the request is redirected to login; with it the dashboard's values are returned |
| Web.App.ClearTodayRequest | app.py:153-162 | without the flag the request is redirected and the table is unchanged; with it today's records are deleted |
| Web.App.ExportRequest | app.py:165-182 | without the flag the request is redirected; with it the worksheet's rows are returned |
| Web.App.MarkRequest | app.py:115-145 | a GET renders the form; a POST marks attendance and answers with the rejection page or a redirect to the success page |
| Web.MarkTwiceOnEmptyTable | app.py:116-143 | on an empty table a first mark is accepted with id 1, the same name resubmitted with surrounding whitespace is rejected with the table unchanged, and the day then counts one present |
| Web.MarkTwiceScenario | app.py:116-143 | on a fresh application, a name marked and then resubmitted on the same day with any whitespace around it: the first is accepted, the second rejected, and the dashboard shows one present |

## Left out

- QR generation (`generate_qr`): a foreign imaging library and file I/O.
- Flask routing, templates, `redirect`, `send_file`, cookies and
  `app.secret_key`: responses are values of `Web.Response`, and the session
  is one boolean. `session.clear()` is modelled as clearing that flag,
  since it is the only thing the session holds.
- A POST whose form lacks a field (`request.form[...]` raises, and Flask
  answers 400): the model's forms always carry their fields.
- sqlite3 connections, cursors and commits; persistence across restarts:
  the table lives in memory and starts empty.
- SQLite's 64-bit rowid limit: ids are unbounded naturals, so the error
  AUTOINCREMENT raises once the largest rowid is used is not modelled.
- The clock reads: the date and time are parameters and are not checked
  to be well-formed.
- The worksheet object, `wb.save` and the file download: only the list of
  rows is modelled.
- The `/success` page, a static template.
- Concurrent `/mark` requests: the lookup and the insert are not atomic in
  the code, so two simultaneous submissions can both be inserted. Requests
  are sequential in the model.
- Stats.SortByDateDesc: ties between records of the same date are listed in
  stored order; SQL leaves that order unspecified, and the model picks one.
