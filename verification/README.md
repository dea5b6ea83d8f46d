# Ticket-count register: a Dafny model

The system records, for every organisational unit and every day, two ticket counts
("manual" and "electronic"). Units are grouped into areas. An administrator manages
editor accounts, locks days (individually or a whole month) so that their counts can no
longer change, and exports a month as a spreadsheet. An editor fills in the month grid of
their own unit. The rural police editor (unit 4000) fills in the grid of every other unit
of area 4.

This project models the core of the web server (`server.js`) and of its persistence
layer (`src/db.js`) as pure functions over immutable data, and proves what they promise:

- `common.dfy` (`Common`): `Option`, `Result` and first-match search. A SQL `.get()`
  returns the first matching row.
- `text.dfy` (`Text`): the JavaScript string and number conversions the code relies on:
  - `String(n)` and `padStart(2, '0')`;
  - `parseInt(v, 10)`, with ECMAScript white space, an optional sign, the longest digit
    prefix, and `NaN` as `None`;
  - `split`, and `LIKE 'ym-%'` read as a prefix test.
- `calendar.dfy` (`Calendar`): `daysOfMonth`, including the `Date(y, m, 0)` reading of
  the month length (a year 0..99 counts from 1900 and the month is normalised), and
  `ymFromQuery` with the clock as a parameter.
- `catalog.dfy` (`Catalog`): the static area/unit catalog, taken as a parameter.
- `store.dfy` (`Store`): the four tables and the database operations behind the routes
  that change data or export it (the page-only reads are listed under "Left out").
  The `counts` table has no uniqueness constraint in its schema, so it is a sequence of
  rows; "one row per (unit, date)" is an invariant that `upsertCount` keeps.
- `save.dfy` (`EditorSave`): the lock-aware merge of `POST /editor/save`, for both the
  single-unit branch and the rural branch.
- `admin.dfy` (`Admin`): the session guards, login, user creation/update/deletion, the
  lock routes and the editor's save route.
- `export.dfy` (`Export`): the array-of-arrays grid of `GET /admin/export`.

Two things the model does not contain because the code does not have them:

- The export writes no total rows or columns.
- There is no route that resets the counts or the locks.

The save and the export read the database with the month text exactly as requested, while
the day keys they use are rebuilt from the numbers in it (see "Findings"). The members
`EditorSave.SaveAsWritten`, `Export.ExportAsWritten` and `Admin.EditorSaveRoute` model the
code as written; `EditorSave.Save` and `Export.Export` are the corrected definitions, and
the `...OnCanonical` lemmas show that the two agree whenever the month text is canonical
("2024-03", as the application's own links and the current-month default produce).

## Model

| member | source | states |
|---|---|---|
| Text.ParseInt | server.js:36 | `parseInt` yields a number exactly when, after leading white space and one optional sign, the text starts with a digit |
| Text.ParseIntOfStr | server.js:36 | `parseInt(String(n), 10)` gives back `n` for every integer |
| Text.ParseIntOfPad2 | server.js:36 | `parseInt` reads a two-digit padded number back to the number |
| Text.SplitPartsWithoutSeparator | server.js:36 | no part of `ym.split('-')` contains '-' |
| Text.NoMinusNoSign | server.js:36 | `parseInt` of a text without '-' is never negative |
| Calendar.PartsReadNonNegative | server.js:36 | every part of `ym.split('-')` that `parseInt` reads gives a number of at least 0 |
| Text.StrInjective | server.js:40 | different numbers render to different texts, padded or not |
| Calendar.DaysInMonth | server.js:37 | month lengths are 28..31: 29 exactly for February of a leap year, 28 for other Februaries, 30 for April, June, September and November |
| Calendar.LastDayIsGregorian | server.js:37 | `new Date(y, m, 0).getDate()` is the Gregorian length of month m (of year 1900+y for y in 0..99), so the grid has that many days |
| Calendar.MonthsFillTheYear | server.js:37 | the twelve month lengths add up to 366 in a leap year and 365 otherwise |
| Calendar.LastDay | server.js:37 | `new Date(y, m, 0).getDate()` is always between 28 and 31 |
| Calendar.ParseMonth | server.js:36 | the year and month are the `parseInt` readings of the first two '-'-separated parts, there is none when a part is missing or not a number, and a reading is never negative because no part of a split on '-' holds the minus sign |
| Calendar.DaysOfMonthText | server.js:35-44 | `daysOfMonth(ym)` is the grid of the parsed year and month, empty when the text does not parse, has as many days as that month has, and every day's key reads back as the same year and month as the text |
| Calendar.DaysOfMonth | server.js:35-44 | the grid has one entry per day 1..last, in order; entry i has d = i+1, key `y-MM-DD` and caption `DD/MM/y` |
| Calendar.MonthFromQuery | server.js:29-33 | a non-empty requested month is used as given; otherwise the month is the clock's current month, which reads back to that year and month and is already in canonical form |
| Calendar.CurrentMonth | server.js:30 | the current month text reads back to the clock's year and one-based month, and is its own canonical form (two-digit month) |
| Calendar.ParseMonthOfParts | server.js:36 | splitting `a-b` on '-' and parsing both halves reads the year and the month, or nothing when either half is not a number |
| Calendar.DayKeysInMonth | server.js:40 | every day key starts with the month text followed by '-' |
| Calendar.DayKeysDistinct | server.js:40 | no two days of a grid share a key |
| Calendar.MonthKeysRoundTrip | server.js:36-40 | the month text reads back to its year and month, is its own canonical form, and every day key reads back to the same month |
| Calendar.KeyParsesToMonth | server.js:36-40 | a day key read as a month text gives back the month it was made from |
| Calendar.FourDigitYearKeys | server.js:40 | for a four-digit year the month text has 7 characters and is the first 7 characters of every day key |
| Calendar.CaptionMatchesKey | server.js:40-41 | caption and key of a day hold the same day, month and year, in the orders `DD/MM/y` and `y-MM-DD` |
| Calendar.MonthPrefixExact | server.js:40 | a day key starts with `month-` exactly when the day belongs to that month, so no day of another month matches a month query |
| Store.Lookup | src/db.js:80 | the row found for (unit, date) is a row with that key, and none is found exactly when no row has it |
| Store.LookupUnique | src/db.js:80 | when each key has one row, every row is the one found for its key |
| Store.UpsertCount | src/db.js:79-86 | afterwards (unit, date) holds the given counts, every other key reads as before, only the counts table changes, uniqueness is kept, and a row is added only when the key was absent |
| Store.UpsertCountIdempotent | src/db.js:79-86 | upserting the same values twice is the same as upserting them once |
| Store.MonthKeyInjective | src/db.js:65 | distinct (unit, date) pairs get distinct month-map keys (unit id, a bar, the date) |
| Store.CountsForMonth | src/db.js:61-68 | every row of the month has its unit-and-date key in the map, and every key comes from such a row with NULL counts read as 0 |
| Store.CountsForUnitMonth | src/db.js:70-77 | every row of the unit in the month has its date in the map, and every key comes from such a row with NULL counts read as 0 |
| Store.CountsForMonthAgrees | src/db.js:61-68 | with one row per key, the month map (0 where missing) gives each unit and day of the month its stored counts |
| Store.CountsForUnitMonthAgrees | src/db.js:70-77 | with one row per key, the unit's month map (0 where missing) gives each day of the month the stored counts |
| Store.LockDate | src/db.js:88-90 | afterwards the date is locked, every other date keeps its lock state, and nothing else changes |
| Store.UnlockDate | src/db.js:92-94 | afterwards the date is not locked, every other date keeps its lock state, and nothing else changes |
| Store.LockUnlockIdempotent | src/db.js:88-99 | locking twice is locking once, locking a locked date changes nothing, and the same holds for unlocking an unlocked date |
| Store.LockedDatesForMonthLike | src/db.js:101-104 | a date is listed exactly when it is locked and is the requested month text followed by '-' and any further characters |
| Store.LockedDatesForMonthExact | src/db.js:101-104 | queried with a canonical month text, a day key is listed exactly when it is locked and belongs to that month |
| Store.GetUserByUsername | src/db.js:28-30 | the user found has the name, and none is found exactly when no user has it |
| Store.GetUserById | src/db.js:32-34 | the user found has the id, and none is found exactly when the id is NaN or no user has it |
| Store.CountUsersByUnit | src/db.js:52-55 | the count is at most the number of users, and it is 0 exactly when no user has the unit |
| Store.CountUsersByUnitCountsOccurrences | src/db.js:52-55 | the count is the number of occurrences of the unit in the unit column |
| Store.CreateEditor | src/db.js:40-42 | the insert is refused exactly when the name is taken; otherwise it appends an editor with the next id and keeps the invariant |
| Store.DeleteUserById | src/db.js:48-50 | exactly the users with the id disappear, nothing else changes, the invariant is kept, and a missing id changes nothing |
| Store.RemoveIdKeepsOrder | src/db.js:48-50 | removing users keeps the rest in increasing id order |
| Store.UpdateUserPassword | src/db.js:44-46 | exactly the users with the id get the new hash; every other user and table is unchanged |
| Store.UpdateUserPasswordValid | src/db.js:44-46 | changing a password keeps the database invariant |
| Store.SeedUnitsSound | src/db.js:22-24 | seeding one area keeps every existing unit, adds exactly the listed ids, and gives each new one its catalog name and the area |
| Store.SeedAreasSound | src/db.js:21-25 | seeding every area keeps the existing units and adds only catalog units |
| Store.SeedAreasUnits | src/db.js:19-26 | seeding never overwrites a unit; afterwards every catalog id is present and every new row comes from the catalog |
| EditorSave.Merge | server.js:228-244 | a missing or empty field keeps the previous count; a numeric text stores its value; any other text stores 0 |
| EditorSave.SaveDays | server.js:238-246 | one unit's pass changes only that unit's rows on unlocked days of the grid, and keeps one row per key |
| EditorSave.SaveDaysWrites | server.js:238-246 | after the pass, every unlocked day holds the merge of the submitted fields with the counts read before the pass |
| EditorSave.SaveUnits | server.js:218-232 | the rural pass changes only rows of listed units other than 4000 on unlocked days, and keeps one row per key |
| EditorSave.SaveUnitsWrites | server.js:218-232 | every listed unit other than 4000 ends with each unlocked day merged from its own `manual[unit][date]` fields |
| EditorSave.SaveAsWritten | server.js:207-249 | as written: only the counts change, one row per key is kept, and only rows of units in the editor's scope on days of the month that the lock list read with the posted text does not hold can change |
| EditorSave.SaveAsWrittenOnCanonical | server.js:209-237 | for a canonical month text the save as written is the corrected save |
| EditorSave.Save | server.js:207-249 | corrected, see Findings: only the counts change; rows outside the editor's scope, outside the month, or on locked days keep their values; each in-scope unlocked day holds, per field, the previous count (0 without a row) when nothing or "" was posted, and the posted number otherwise |
| EditorSave.SingleUnitWrite | server.js:233-247 | outside the rural branch, each unlocked day of the grid holds the merge with the counts read for the queried month |
| EditorSave.SaveAsWrittenIgnoresLock | server.js:209-211 | posting month "2024-3" overwrites the locked 2024-03-05 row and zeroes its unsubmitted field, while the corrected save keeps it |
| Admin.GuardsPartition | server.js:46-59 | a logged-in user passes exactly one of `requireAdmin` and `requireEditor`; without a session neither passes |
| Admin.Login | server.js:65-74 | login succeeds only for a stored user whose hash accepts the password, and the session holds that user's id, role and unit; under the invariant it succeeds exactly then |
| Admin.CreateUserRoute | server.js:117-131 | the refusals come in order: a missing field, then a taken name, then a rural unit that already has a user; otherwise exactly one editor with the parsed unit is appended and the invariant is kept |
| Admin.CreateUserKeepsRuralUnique | server.js:124-128 | user creation never gives unit 4000 a second user |
| Admin.DeleteUserRoute | server.js:147-154 | a missing user or an administrator is not deleted; otherwise exactly the users with that id go; the invariant is kept |
| Admin.DeleteUserRouteKeepsAdmins | server.js:149-152 | under the invariant, no administrator is ever deleted |
| Admin.UpdatePasswordRoute | server.js:139-145 | without both fields nothing changes; otherwise exactly the user with the parsed id gets the new hash |
| Admin.LockAll | server.js:268 | locking each day of a grid adds exactly the grid's keys to the lock set |
| Admin.UnlockAll | server.js:275 | unlocking each day of a grid removes exactly the grid's keys from the lock set |
| Admin.LockMonth | server.js:265-270 | afterwards a date is locked exactly when it was locked before or is a day of the month |
| Admin.UnlockMonth | server.js:272-277 | afterwards a date is locked exactly when it was locked before and is not a day of the month |
| Admin.UnlockMonthUndoesLockMonth | server.js:265-277 | unlocking a month with no locked day undoes locking it |
| Admin.LockMonthFreezesSave | server.js:207-247 | after a month is locked, a save posted with that month's canonical text changes no count |
| Admin.LockMonthFreezesCorrectedSave | server.js:221-224 | corrected, see Findings: after a month is locked, the corrected save for that month changes no count, whatever the month text |
| Admin.MonthOfDate | server.js:254 | the redirect month is the first 7 characters of the date, or the whole date when it is shorter |
| Admin.MonthOfDayKey | server.js:254-255 | for a four-digit year, locking a day returns to the page of that day's own month |
| Admin.EditorSaveRoute | server.js:207-211 | the save as written changes only counts, never a unit outside the editor's scope, never a date in the lock list read with the month text, and without a posted month only days of the current month; without a posted month or with a canonical one it is the corrected save and leaves every locked day alone |
| Admin.EditorSaveRouteIgnoresLock | server.js:207-247 | an editor posting month "2024-3" overwrites the locked row of 2024-03-05 |
| Export.SheetName | server.js:181 | a sheet name is the area name cut to its first 31 characters |
| Export.HeaderCells | server.js:163-167 | the header has a "MANUALES" and an "ELECTRÓNICAS" column per day, in day order, captioned with the day |
| Export.UnitCells | server.js:170-177 | a unit row has the manual and electronic count per day, in day order, 0 where the month map has none |
| Export.Sheets | server.js:161-181 | the export fails exactly when some area has no unit list; otherwise there is one sheet per area, in order |
| Export.ExportAsWritten | server.js:157-182 | as written: one sheet per area, named by the cut area name, with a header row and one row per unit whose cells show the month map read with the requested text, 0 where it has no entry |
| Export.ExportAsWrittenOnCanonical | server.js:158-160 | for a canonical month text the export as written is the corrected export |
| Export.Export | server.js:157-182 | corrected, see Findings: one sheet per area named by the cut area name, with a header row and one row per unit; under one row per key, each unit cell shows that unit's stored count of that day, 0 without a row |
| Export.ExportAsWrittenShowsZero | server.js:158-160 | exporting month "2024-3" shows 0 for a stored count of 7, while the corrected export shows 7 |

## Left out

- Express routing, sessions, cookies, the redirect responses and the rendered views. A guard is a predicate on the session user, and the handlers are functions of the database. Of the redirects only the month the lock routes return to is modelled (`Admin.MonthOfDate`).
- The read-only pages (`GET /admin`, `GET /admin/locks`, `GET /editor`, `GET /admin/users`), `getAllUsers` and `getUnitById`. They only feed views.
- bcrypt: hashing and comparison are function parameters.
- SQLite: table creation and the seeding of the `admin` user in `init`, SQL text, and the auto-increment counter beyond "the next id". `LIKE` wildcards and case folding are left out: the model reads the month text literally, so a posted text holding '%' or '_' gets a shorter lock list than the program's (for "2024-03%" the pattern `'2024-03%-%'` also lists 2024-03-05, the model lists nothing). Month texts made of digits and '-' are unaffected.
- The `xlsx` workbook encoding, its sheet-name rules and the download headers. Only the grid is modelled. In particular `book_append_sheet` throws on a repeated sheet name, so two areas whose names agree in their first 31 characters make the program fail the export; the model returns both sheets.
- `scripts/migrate_sqlite_to_postgres.js`: one-off network I/O against another database.
- Form bodies are texts or nested groups of texts. Arrays and JSON numbers or booleans in a body are left out.
- Numbers are unbounded integers. JavaScript's 2^53 precision limit and `Date`'s valid range (about ±275,000 years) are not modelled.
- Admin.EditorSaveRoute: requires the editor to have a unit. An editor created with a unit text that is not a number has a NULL unit. For such an editor, every save inserts fresh rows with a NULL unit, which the integer unit column of the model cannot hold.
- Admin.Login: takes the posted name and password as texts. A request that omits them is not modelled.
- Export.SheetName: counts characters as Unicode scalar values. JavaScript's `substring(0, 31)` counts UTF-16 code units, so an area name with characters outside the Basic Multilingual Plane is cut at a different place.
- Admin.MonthOfDate: counts characters as Unicode scalar values, where `substring(0, 7)` counts UTF-16 code units. The two differ only for a date text with characters outside the Basic Multilingual Plane.
- Admin.LockMonthFreezesSave: holds only for a canonical month text. For a text such as "2024-3" the save as written overwrites the locked days (see Findings and `Admin.EditorSaveRouteIgnoresLock`).
- `src/units` (the catalog of areas and units) is not part of this model; it is a parameter.

## Findings

| source | as written | input that shows it | evidently intended | confidence | as-written member | corrected member |
|---|---|---|---|---|---|---|
| server.js:209-211 | the save reads the lock list and the previous counts with the posted month text, but the day keys are re-rendered from the numbers in it | month "2024-3", 2024-03-05 locked with counts (1, 1), manual "9" posted for 2024-03-05: the row becomes (9, 0) | read locks and previous counts with the canonical month text "2024-03", so the locked row stays (1, 1) | not executed; medium (the page links post canonical months, a typed URL or form does not) | EditorSave.SaveAsWritten, EditorSave.SaveAsWrittenIgnoresLock, Admin.EditorSaveRouteIgnoresLock | EditorSave.Save |
| server.js:158-160 | the export reads the month map with the requested month text, but the cell keys use the re-rendered day keys | month "2024-3", unit 1001 with 7 manual tickets on 2024-03-05: the cell shows 0 | read the month map with the canonical month text, so the cell shows 7 | not executed; medium | Export.ExportAsWritten, Export.ExportAsWrittenShowsZero | Export.Export |
