# dienstplan-ics: the roster ingestion, modelled in Dafny

The service reads monthly duty rosters ("Dienstpläne") from Excel
workbooks and stores them as duty rows in a database. The rows later feed
per-person iCalendar feeds. This project models the ingestion engine: the
code that finds the roster tables in a sheet, reads persons and their daily
duty codes, turns the codes into shifts and reconciles them with the
database. It also models the URL-safe base64 helpers. Each part is proved
against a specification stated in Dafny.

Modules, following the program's files:

- `Wrappers`, `Strings`: `Option`, and the JavaScript string operations the
  code uses: `indexOf`/`includes`, `toLowerCase`, `trim`, `split(',')`,
  first-occurrence `replace` and `startsWith`.
- `CellAddress`: A1 cell addresses (`encode_cell`/`decode_cell`), with the
  round trip proved.
- `Grid`: the sheet, cell values and their JavaScript truthiness,
  `decodeString`, and the bounded and unbounded downward scans. It also holds
  the class `CellPointer`, a mutable `x`/`y` over an immutable sheet. This
  one class stands for src/CellPointer.ts and its two private copies. The one
  difference between the copies is that the copy in src/ingest.ts does not
  decode text; that copy's `getString` is `GetRawString`. The accessors
  `GetCell`, `GetString`, `GetRawString`, `GetNumber` and `ToString` are
  defined by the module's functions `CellAt`, `DecodedText`, `RawText`,
  `NumberAt` and `EncodeCell`, whose contracts state what they return.
- `RunLog`: the module-level `_log`/`_error` pair as the class `Run`. Log
  lines are structured entries rather than text.
- `IngestTable`: `findAndParseTable` of src/ingest.ts.
  - The specification functions (`ParseTable` and its phases) and their
    lemmas.
  - The imperative methods, each proved equal to that specification:
    - the header and first-name searches;
    - the name loop, which reads each "Lastname, Firstname" row into the
      person record;
    - the first-day search;
    - the day loop, which appends one `Day` to every person per integer
      header column.
- `IngestDuty`: the per-day step of `insertDatabase`. This covers the
  six-code skip list, the duty-code normaliser, the lookup, and the shift
  arithmetic in wall-clock minutes.
- `Calendar`: leap years, day numbers, month lengths, and JavaScript's
  `new Date(year, month - 1, …)` year and month roll-over.
- `FileDate`: the two file-name patterns of `ingest`.
- `Reconcile`: `insertDatabase` on values, over a database of a person table
  and a duty table. For each person, in key order:
  - look the last name up, or create the person;
  - count and delete their rows that start in the month;
  - insert one row per day with a known duty;
  - log the count.
- `IngestFlow`: what a whole `ingest` run does, as a function. It covers the
  gating of table 2 and of the database write on the error flag, and its
  lemma.
- `IngestRun`: the imperative `ingest` and `insertDatabase`. They run over a
  `Store` class that stands for the prisma client, and each method is proved
  against `Reconcile`/`IngestFlow`.
- `NgLayout`, `IngestNg`: the newer locator of src/ingestNg.ts.
  `findAndParseTable` looks for a German month name in column B within 20
  rows, and `parseTable` walks down to the next row containing "Dienst". The
  `ingest` loop repeats this one row below each section found. The
  specification is stated over a ghost `Layout`: the rows of column B that
  hold a month name or "Dienst". `Describes` ties the layout to the sheet,
  `ColumnOf` constructs it, and `DescribesUnique` shows it is determined.
- `UrlBase64`: `urlBase64Encode`/`urlBase64Decode`. They switch between the
  standard alphabet of section 4 of RFC 4648 and the URL- and filename-safe
  alphabet of section 5, dropping the padding as section 3.2 allows.

Some behaviour of the code that the model keeps as written:

- The skip list is compared case-sensitively and holds exactly
  `EZ, BV, Frei, FW, Url, FB` (src/ingest.ts:196); `IngestDuty.SkipIsExact`
  shows that other spellings are not skipped.
- A shift rolls over to the next day only when its start time lies strictly
  after its end time (src/ingest.ts:218).
- The name loop stops only at a row without a comma (src/ingest.ts:270).
- The delete before the inserts selects the person's rows by start time
  within the month, whatever their duty (src/ingest.ts:181-189).
- The day loop appends a day to every person in the record, including the
  persons of an earlier table (src/ingest.ts:300-307).

## Model

| member | source | states |
|---|---|---|
| Strings.ContainsFromSpec | src/ingest.ts:243 | the `indexOf(t) !== -1` test holds exactly when `t` occurs at some position |
| Strings.TrimSpec | src/ingest.ts:272 | `trim()` gives an infix whose removed ends are all whitespace and which neither starts nor ends with whitespace; it is empty exactly when the text is all whitespace |
| Strings.BeforeSpec | src/ingest.ts:271-272 | `split(',')[0]` is the longest prefix without a comma; it is the whole text exactly when there is no comma, and otherwise a comma follows it |
| Strings.AfterSpec | src/ingest.ts:271-272 | the text is the part before the first comma, the comma and the part after it; with no comma the part after is empty |
| Strings.ReplaceFirstSpec | src/CellPointer.ts:43-45 | `replace` with a one-character pattern rewrites only the first occurrence, keeps every other position, and changes nothing when the character is absent |
| Strings.IndexOfSpec | src/ingest.ts:271 | the search position is the first occurrence at or after the start, or the end when there is none |
| CellAddress.DecodeEncode | src/CellPointer.ts:51-54 | `decode_cell(encode_cell(c, r))` gives back `(c, r)`, so `fromString(sheet, p.toString())` lands on `p`'s cell |
| CellAddress.EncodeInjective | src/CellPointer.ts:35-37 | distinct cells have distinct addresses |
| CellAddress.ScanColumnName | src/CellPointer.ts:51-54 | decoding a column name accumulates exactly that column and no row |
| CellAddress.ColumnName | src/CellPointer.ts:35-37 | the column part of an address is a non-empty run of capital letters |
| Grid.CellAt | src/CellPointer.ts:15-18 | `getCell` yields a cell exactly when the sheet has one at (x, y), and then that cell |
| Grid.IsIntegerAtCases | src/CellPointer.ts:30-33 | a missing cell, a non-numeric value and the value 0 are never integers; a cell holding a whole number k is one exactly when k is not 0 |
| Grid.NumberAt | src/CellPointer.ts:26-28 | `getNumber` is only taken where `isInteger` holds, and gives the nonzero whole number stored there |
| Grid.DecodeString | src/CellPointer.ts:43-45 | decoding keeps the length |
| Grid.DecodeStringSpec | src/CellPointer.ts:43-45 | a text without the two marks is unchanged, the first cedilla becomes "ü", the first circumflex becomes "ö", and every other position, later cedillas and circumflexes included, is kept |
| Grid.DecodedText | src/CellPointer.ts:20-24 | `getString` is '' for a missing cell or a cell without text, and otherwise the decoded formatted text |
| Grid.RawText | src/ingest.ts:26-29 | the `getString` of src/ingest.ts is '' for a missing cell and otherwise the formatted text, undecoded |
| Grid.RowBound | src/ingest.ts:270 | every cell lies above the bound, so the name loop, which needs a cell on each row it passes, ends |
| Grid.ColBound | src/ingest.ts:297 | every cell lies left of the bound, so the day loop, which needs an integer cell in each column it visits, ends |
| Grid.ScanDown | src/ingest.ts:243-245 | the bounded search never moves more than its budget |
| Grid.ScanDownSpec | src/ingest.ts:243-247 | the bounded search passes only rows that miss, stops before the budget exactly on a hit, and stops at once on a hit at the start |
| Grid.ScanToSpec | src/ingest.ts:243-245 | the scan to a given end row passes only misses and stops early only on a hit |
| Grid.ScanToAgree | src/ingestNg.ts:92-94 | two probes that agree on the rows the scan can visit give the same result |
| Grid.NextHitBelow | src/ingestNg.ts:119-122 | the `do … while` walk stops strictly below its start, on a hit, no lower than any known hit |
| Grid.NextHitBelowSpec | src/ingestNg.ts:119-122 | no row strictly between the start and the stop is a hit, and the stop does not depend on which hit bounds it |
| Grid.NextHitBelowAgree | src/ingestNg.ts:119-122 | two probes that agree below the start give the same stop |
| Grid.CellPointer.constructor | src/CellPointer.ts:9-13 | a pointer over the sheet at (x, y) |
| Grid.CellPointer.Clone | src/CellPointer.ts:39-41 | a new pointer over the same sheet at the same place; being fresh, moving it leaves the original where it was |
| Grid.CellPointer.SeekDown | src/ingest.ts:241-245 | the bounded `while` loop ends on the row `ScanDown` gives, with the column unchanged |
| Grid.CellPointer.StepDownUntil | src/ingestNg.ts:117-122 | the `do … while` loop ends on the first hit strictly below the start, and its counter is the number of rows advanced |
| Grid.CellPointer.FromString | src/CellPointer.ts:51-54 | a new pointer at the decoded address |
| RunLog.Run.constructor | src/ingest.ts:83-84 | an empty log and no error |
| RunLog.Run.Log | src/ingest.ts:85-88 | `log` appends exactly one line and leaves the error flag |
| Calendar.DaysInMonth | src/ingest.ts:173-174 | a month has 28 to 31 days |
| Calendar.LeapsStep | src/ingest.ts:173-174 | the count of leap years before a year grows by one exactly past a leap year of the Gregorian rule |
| Calendar.MonthStartStep | src/ingest.ts:173-174 | the next month starts exactly one month length after this one, across the year end too |
| Calendar.JsYear | src/ingest.ts:101 | a year from 0 to 99 counts from 1900, so the year used is at least 100 |
| Calendar.JsMonth | src/ingest.ts:101 | `new Date(year, monthIndex, …)` lands `monthIndex` months after January of `year`, rolling into other years |
| Calendar.MonthWindow | src/ingest.ts:172-175 | the month's window is its number of days times 1440 minutes wide |
| FileDate.ParseMonthFileName | src/ingest.ts:98-101 | a path ending in "/YYYY-MM.xlsx", in any directory, with a year from 100 on, reads as that year and month |
| FileDate.ParseShortFileName | src/ingest.ts:103-105 | the bare path "/MM.xlsx" reads as that month of the current year |
| FileDate.ShortNameInDirectory | src/ingest.ts:103-107 | the short pattern must match the whole path: "/data/MM.xlsx" is rejected |
| FileDate.MonthRollsOver | src/ingest.ts:98-101 | month 13 becomes January of the next year and month 00 December of the previous one |
| FileDate.TwoDigitYear | src/ingest.ts:98-101 | the year 0099 is read as 1999 |
| FileDate.MalformedNames | src/ingest.ts:98-107 | a one-digit month or another extension is rejected, where `ingest` throws |
| FileDate.Numeral2Value | src/ingest.ts:101 | `parseInt` of a two-digit numeral gives back its number |
| FileDate.Numeral4Value | src/ingest.ts:101 | `parseInt` of a four-digit numeral gives back its number |
| IngestDuty.NormaliseSpec | src/ingest.ts:194-206 | a code starting with `1CT` or `TD1C` becomes `1CT`, one starting with `ZNAT` becomes `ZNATW`, and every other code is unchanged |
| IngestDuty.NormaliseIdempotent | src/ingest.ts:200-206 | normalising a normalised code changes nothing |
| IngestDuty.ClockMinute | src/ingest.ts:215-216 | a clock time is a minute of the day, below 1440 |
| IngestDuty.ShiftSpec | src/ingest.ts:215-220 | the start lies on the day, the end never before the start and less than a day after it; the end moves to the next day exactly when the end clock time is earlier; equal clock times give an empty shift |
| IngestDuty.NightShiftRollsOver | src/routes/seed.ts:42-45 | the night duty ZNAN, 20:00 to 08:30, ends at 08:30 on the next day |
| IngestDuty.DayShiftStays | src/routes/seed.ts:10-13 | the day duty TD, 08:00 to 16:30, stays on its day |
| IngestDuty.EqualTimesEmptyShift | src/routes/seed.ts:66-69 | NEF1 is stored as 08:00 to 08:00 of the next day; only the clock times count, so its shift is empty |
| IngestDuty.DayStepSpec | src/ingest.ts:196-220 | a day is skipped exactly for an absence code, before any lookup; it is reported with its original text exactly when the normalised code is missing; otherwise it books the shift of the normalised code's duty |
| IngestDuty.SkipIsExact | src/ingest.ts:196 | the skip test compares whole codes with case: "Frei" is skipped, "frei", "Frei " and "Feiertag" are not |
| IngestTable.LowerComma | src/ingest.ts:260 | lower-casing neither adds nor removes a comma |
| IngestTable.NameComma | src/ingest.ts:270 | a name row is exactly a row whose text has a comma |
| IngestTable.NameRunEnd | src/ingest.ts:270-282 | the name loop ends at or below its start, on a row without a comma |
| IngestTable.NameRunSpec | src/ingest.ts:270 | every row before that end is a name row |
| IngestTable.NameStep | src/ingest.ts:270-282 | one pass of the name loop consumes one row |
| IngestTable.AddPersonSpec | src/ingest.ts:271-279 | a row's last name then names a person bookmarked at that row; a new person has no days and the row's first name; a known person only moves its bookmark; no other person changes; the keys only grow at the end |
| IngestTable.AddPersonFiled | src/ingest.ts:273-278 | after a row every person is still filed under its own last name |
| IngestTable.AddPersonValid | src/ingest.ts:271-279 | a row keeps the record valid: distinct keys, every person listed, filed under its last name and bookmarked at a cell address |
| IngestTable.AddNamesValid | src/ingest.ts:270-282 | the name loop keeps the record valid |
| IngestTable.AddNamesKeys | src/ingest.ts:270-282 | the name loop only appends keys, so the earlier persons keep their place in the visiting order |
| IngestTable.AddNamesKeep | src/ingest.ts:273-276 | the name loop keeps every known person with its first name and days, changing at most its bookmark |
| IngestTable.AddNamesOrigin | src/ingest.ts:270-282 | every person afterwards is either untouched or bookmarked at a row of the run carrying its name, and a new person has no days |
| IngestTable.AddNamesBookmarks | src/ingest.ts:270-282 | every last name of the run names a person bookmarked at a row of the run, at or after that row, with that name |
| IngestTable.AddNamesFirstName | src/ingest.ts:272-278 | a new person takes its first name from the first row of the run with its last name |
| IngestTable.FirstIntegerColumn | src/ingest.ts:289-291 | the first-day loop stops on the first integer column of the header row at or right of the start |
| IngestTable.IntegerColumnAhead | src/ingest.ts:289-291 | while an integer column lies ahead the loop is inside the sheet and the column stays ahead |
| IngestTable.NextDayColumn | src/ingest.ts:309-312 | the skip loop stops on the next integer column or at column 100, passing only non-integer columns, and does not move at or past 100 |
| IngestTable.DayColumns | src/ingest.ts:297-314 | every column the day loop visits is an integer column of the header row |
| IngestTable.DayColumnsOrdered | src/ingest.ts:297-314 | the day loop visits columns left to right, starting at the first day column |
| IngestTable.DayColumnsComplete | src/ingest.ts:297-314 | from the first day column, every integer column up to column 100 is visited |
| IngestTable.DayColumnStep | src/ingest.ts:297-312 | one pass of the day loop visits the current column and continues at the next day column |
| IngestTable.VisitColumn | src/ingest.ts:297-312 | visiting a column moves it from the columns ahead to the columns done |
| IngestTable.AddDaysFrame | src/ingest.ts:300-307 | the inner loop keeps the keys, the persons, their names and their bookmarks |
| IngestTable.AddDaysPrefix | src/ingest.ts:300-307 | over distinct keys, the inner loop has appended the day exactly to the persons whose key it passed |
| IngestTable.AppendColumnSpec | src/ingest.ts:300-307 | one column appends exactly one day, the header's number and the text of the person's bookmarked row, to every person; nothing else changes |
| IngestTable.AppendDaysStep | src/ingest.ts:297-314 | the columns are processed in order, one after the other |
| IngestTable.DaysAt | src/ingest.ts:302-305 | one day per visited column, in column order: the header number and the text in the bookmarked row |
| IngestTable.PersonDaysStep | src/ingest.ts:305-306 | one more column extends a person's days by that column's day |
| IngestTable.AppendDaysSpec | src/ingest.ts:295-314 | after the day loop every person has, after the days it had, one day per visited column; keys, persons, names and bookmarks are unchanged and the record stays valid |
| IngestTable.HeaderRowSpec | src/ingest.ts:241-247 | the header search passes only rows without "name" in the lowered text and stops on the first with it, unless it gives up 10 rows down |
| IngestTable.FirstNameRowSpec | src/ingest.ts:258-264 | the first-name search starts one row below the header, passes only rows without a comma and stops on the first with one, unless it gives up 10 rows down |
| IngestTable.ParseTableFails | src/ingest.ts:240-268 | the call fails, and leaves the person record as it was, exactly when one of the two searches gives up; its first line is where it started looking |
| IngestTable.ParseTableValid | src/ingest.ts:239-320 | a call on a valid person record leaves a valid one |
| IngestTable.SeekHeader | src/ingest.ts:241-245 | the header loop ends on the row `HeaderRow` gives |
| IngestTable.SeekFirstName | src/ingest.ts:258-262 | the first-name loop ends on the row the bounded comma search gives |
| IngestTable.ReadNames | src/ingest.ts:270-282 | the name loop leaves the pointer on the first row without a comma and the record `AddNames` gives |
| IngestTable.NextName | src/ingest.ts:270-282 | one pass consumes one name row of the run |
| IngestTable.ReadName | src/ingest.ts:271-279 | one pass on a comma row is `AddPerson` |
| IngestTable.SeekFirstDay | src/ingest.ts:289-291 | the first-day loop ends on `FirstIntegerColumn`, given that one exists |
| IngestTable.ReadColumn | src/ingest.ts:300-307 | the `for … in` loop appends the column's day to every person, counting one schedule per key |
| IngestTable.ReadDays | src/ingest.ts:295-314 | the day loop leaves the record `AppendDays` gives over the visited columns, with `i` the number of columns and `j = i × persons` |
| IngestTable.NextColumn | src/ingest.ts:299-307 | one pass of the outer day loop appends one column |
| IngestTable.SkipToNextDay | src/ingest.ts:309-312 | the skip loop ends on `NextDayColumn` |
| IngestTable.FindAndParseTable | src/ingest.ts:239-320 | the call returns the record `ParseTable` gives and logs its lines; the caller's pointer ends on the first row after the names, or where a search gave up, with its column unchanged; the error flag is raised exactly on failure |
| IngestTable.ReadBelowHeader | src/ingest.ts:253-268 | from the header row on, the call is `ParseBelowHeader` |
| IngestTable.ReadTable | src/ingest.ts:270-316 | from the first name row on, the call is `ParseRows`: names, then days on the clone of the header cell |
| Reconcile.FindFrom | src/ingest.ts:151-155 | the search result is a position of the person table |
| Reconcile.FindByLastName | src/ingest.ts:151-155 | `findFirst` by last name gives a person of the table, if any |
| Reconcile.FindFromSpec | src/ingest.ts:151-157 | the search finds the first person with the last name, and fails exactly when there is none |
| Reconcile.FindAfterAppend | src/ingest.ts:157-163 | after a person is created the search finds the same person as before, or else the new one if the name fits |
| Reconcile.KeepSpec | src/ingest.ts:169-190 | the delete removes exactly the person's rows starting in the window; the count counts them; it is zero exactly when there are none |
| Reconcile.KeepAppend | src/ingest.ts:181-189 | deleting from two parts of the table is deleting from the whole |
| Reconcile.KeepNothing | src/ingest.ts:179-190 | a delete that matches nothing changes nothing |
| Reconcile.KeepEverything | src/ingest.ts:181-189 | a delete that matches every row leaves none |
| Reconcile.WindowOfMonth | src/ingest.ts:172-175 | the window runs from the first minute of the month to the first minute of the next |
| Reconcile.BookedRowsSpec | src/ingest.ts:193-232 | every inserted row belongs to the person, and each day is skipped, reported missing or inserts one row, so the insert count is the number of remaining days |
| Reconcile.BookedRowsInMonth | src/ingest.ts:215-220 | when the day numbers lie within the month, every inserted row starts within the month's window |
| Reconcile.ResolveSpec | src/ingest.ts:151-167 | the lookup returns a person with the last name; it creates one only when there is none, with the next id and the row's first name, and logs it; afterwards the search finds the person returned |
| Reconcile.ResolveAgain | src/ingest.ts:151-167 | a second lookup finds the person the first one returned and creates nobody |
| Reconcile.PersonStepRows | src/ingest.ts:169-234 | a person's turn replaces their rows in the month by the rows of their days, keeps every row of another person, and last logs the number inserted under the database person's names |
| Reconcile.PersonStepPeople | src/ingest.ts:151-167 | a turn keeps the ids numbered and appends at most one person |
| Reconcile.PersonStepKeepsOthers | src/ingest.ts:169-190 | the rows of a database person with another last name survive a turn |
| Reconcile.PersonStepIdempotent | src/ingest.ts:150-234 | ingesting a person twice in a row leaves the database as after once: the delete removes exactly the rows the first turn inserted |
| Reconcile.Listing | src/ingest.ts:149-150 | `for (const k in persons)` visits `persons[k]` for each key in insertion order |
| Reconcile.InsertAllNext | src/ingest.ts:149-235 | the loop over the first i + 1 persons is the loop over i persons followed by person i's turn |
| Reconcile.InsertAllPeople | src/ingest.ts:149-235 | the loop keeps the ids numbered and only appends persons |
| Reconcile.InsertAllKeepsOthers | src/ingest.ts:149-235 | a row of a database person whose last name no person of the record has survives the loop |
| Reconcile.InsertAllFinds | src/ingest.ts:149-235 | after the loop every person of the record has a database person with their last name |
| Reconcile.InsertAllRows | src/ingest.ts:149-235 | after the loop the old rows have lost the month rows of every id booked under, in their order, and the rows the turns leave follow them |
| Reconcile.TailMatched | src/ingest.ts:181-232 | when the day numbers lie within the month, every row the turns append is one the month deletes for the booked ids remove |
| Reconcile.FoundAfter | src/ingest.ts:151-167 | after the loop the search for a person's last name finds the id that person's turn booked under |
| Reconcile.RerunPeople | src/ingest.ts:151-167 | a second run over the same persons creates nobody |
| Reconcile.RerunIds | src/ingest.ts:151-167 | a second run books every person under the same id as the first |
| Reconcile.InsertAllIdempotent | src/ingest.ts:149-235 | when the day numbers lie within the month, ingesting the same persons again leaves the database exactly as after the first run |
| Reconcile.RerunPastMonthEnd | src/ingest.ts:181-232 | a booked day past the month's end survives the month delete, so a second run leaves one row more than the first |
| IngestFlow.EmptyRosterValid | src/ingest.ts:122 | the empty person record is valid |
| IngestFlow.ReadTables | src/ingest.ts:124-130 | the two table reads leave a valid person record |
| IngestFlow.IngestOutcomeSpec | src/ingest.ts:90-137 | a run has an outcome exactly when the file name parses; a failed table leaves the database as it was; otherwise table 2 was read from where table 1 ended, and every person of the record has a database person of that last name |
| IngestRun.Store.FindFirst | src/ingest.ts:151-155 | finds a person exactly when one has the last name, and then the first in id order |
| IngestRun.Store.Create | src/ingest.ts:158-163 | appends a person with the next id and the given names; duty rows unchanged |
| IngestRun.Store.Count | src/ingest.ts:169-177 | the number of the person's rows starting in the window |
| IngestRun.Store.DeleteMany | src/ingest.ts:181-189 | removes exactly the person's rows starting in the window, keeping the order of the rest |
| IngestRun.Store.CreateRow | src/ingest.ts:224-231 | appends one duty row; people unchanged |
| IngestRun.FindOrCreate | src/ingest.ts:151-167 | the lookup or creation `Resolve` describes, with its log line |
| IngestRun.ClearMonth | src/ingest.ts:169-190 | the person's rows in the window are deleted, with the warning logged exactly when there were some |
| IngestRun.BookDay | src/ingest.ts:193-232 | one day inserts the row `BookedRow` gives and logs the line `LineOf` gives; it reports exactly whether a row was inserted |
| IngestRun.BookDays | src/ingest.ts:192-232 | the day loop inserts `BookedRows` in day order, logs `MissingLines`, and its counter is the number of rows inserted |
| IngestRun.InsertPerson | src/ingest.ts:150-234 | one turn of the person loop is `PersonStep`, on the store and on the log |
| IngestRun.InsertDatabase | src/ingest.ts:143-237 | the store and the log end as `InsertAll` over the persons in key order, after the opening line |
| IngestRun.InsertEach | src/ingest.ts:149-235 | the person loop is `InsertAll` over the persons in key order |
| IngestRun.InsertNext | src/ingest.ts:150-234 | one pass of the person loop extends `InsertAll` by one person |
| IngestRun.ReadBothTables | src/ingest.ts:120-130 | table 1, then table 2 only when table 1 raised no error, on one pointer from the top left cell, as `ReadTables` |
| IngestRun.Ingest | src/ingest.ts:90-137 | the log is reset; an unparsable name ends the run (the thrown error) after one line with the database untouched; otherwise the log and the database are those of `IngestOutcome`, and the error flag is raised exactly when a table failed |
| NgLayout.TextInSheet | src/ingestNg.ts:92 | only an existing cell can hold a month name or "Dienst" |
| NgLayout.ColumnOf | src/ingestNg.ts:92-122 | every sheet has a layout of column B |
| NgLayout.DescribesUnique | src/ingestNg.ts:92-122 | the layout of a column is determined by the sheet |
| NgLayout.MonthRow | src/ingestNg.ts:92-94 | the month search moves at most 20 rows |
| NgLayout.MonthRowSpec | src/ingestNg.ts:92-100 | the month search passes only rows without an exact month name, succeeds exactly when it stops on one before 20 rows, and that row is in the sheet |
| NgLayout.DienstRow | src/ingestNg.ts:119-122 | `parseTable` stops strictly below its start, on a row containing "Dienst" |
| NgLayout.DienstRowSpec | src/ingestNg.ts:119-122 | no row between the start and the stop contains "Dienst" |
| NgLayout.DienstRowWalk | src/ingestNg.ts:119-122 | that row is where the `do … while` walk stops |
| NgLayout.DriverStep | src/ingestNg.ts:79-81 | the driver's lines are one call's lines, then, after a found section, the lines from the row below it |
| NgLayout.SectionsStep | src/ingestNg.ts:79-81 | each section is where the search from one row below the previous one stops, and the next search after the last section fails |
| NgLayout.SectionsSpec | src/ingestNg.ts:79-100 | the sections found lie in strictly increasing rows, each holding a month name fewer than 20 rows below the start of its search with none in between |
| IngestNg.ParseTable | src/ingestNg.ts:114-125 | `parseTable` moves to the first row below containing "Dienst" and logs the number of rows advanced |
| IngestNg.SeekMonth | src/ingestNg.ts:87-94 | the pointer moves to column B and to the row the month search gives, and reports whether it found one |
| IngestNg.FoundSection | src/ingestNg.ts:102-105 | the found branch logs the month cell and parses the section on the clone |
| IngestNg.FindAndParseTable | src/ingestNg.ts:84-111 | the call returns whether a month name was found, leaves the caller's pointer on the month row in column B, logs `TableLog`, and raises the error flag when nothing was found |
| IngestNg.Drive | src/ingestNg.ts:79-81 | the loop logs `DriverLog` and always ends with the error flag raised |
| IngestNg.NextSection | src/ingestNg.ts:79-80 | one call logs the first part of the pending lines, and what remains is the driver's log from one row below, or nothing after a failure |
| IngestNg.Ingest | src/ingestNg.ts:65-82 | the log is reset to one line, the driver runs from the top left cell, and the run ends with the error flag raised |
| UrlBase64.ReplaceAll | src/util.ts:10-12 | a global replacement rewrites every occurrence and keeps every other character and the length |
| UrlBase64.RemoveAllSpec | src/util.ts:11 | deleting `=` removes every `=`, keeps all other characters, and shortens the text by their number |
| UrlBase64.EncodeSpec | src/util.ts:10-12 | encoding works character by character: `=` is dropped, `+` becomes `-`, `/` becomes `_`, everything else is copied |
| UrlBase64.EncodeAlphabet | src/util.ts:10-12 | the output has no `+`, no `/` and no `=` |
| UrlBase64.EncodeLength | src/util.ts:10-12 | the output is shorter than the input by the number of `=` |
| UrlBase64.ReplaceCount | src/util.ts:10-11 | a replacement does not change the number of a third character |
| UrlBase64.Decode | src/util.ts:14-16 | decoding keeps the length |
| UrlBase64.DecodeAt | src/util.ts:14-16 | decoding works character by character: `-` becomes `+` and `_` becomes `/` |
| UrlBase64.DecodeAlphabet | src/util.ts:14-16 | the output has no `-` and no `_`, and has a `=` exactly when the input has one |
| UrlBase64.DecodeAppend | src/util.ts:14-16 | decoding distributes over concatenation |
| UrlBase64.DecodeEncode | src/util.ts:10-16 | decoding an encoded text without `-` or `_` gives the text without its `=` |
| UrlBase64.EncodeIdempotent | src/util.ts:10-12 | encoding twice is encoding once |
| UrlBase64.DecodeIdempotent | src/util.ts:14-16 | decoding twice is decoding once |
| UrlBase64.EncodeUrlSafe | src/util.ts:10-12 | a standard base64 text becomes a text over the URL- and filename-safe alphabet |

## Left out

- Reading the workbook (`XLSX.readFile`, the first sheet) is not modelled. The sheet is a parameter.
- `numFmt` rendering is not modelled: a cell's formatted text `w` is given.
- Cell values are exact reals. Floating point (NaN, infinities, rounding) is not modelled.
- `encode_cell`/`decode_cell` belong to the xlsx library. Instead of an axiom, they are realised as A1 notation, and the round trip is proved. Only the library's decoding pass over well-formed addresses is modelled.
- Grid.RawText: a cell without formatted text makes the `getString` of src/ingest.ts return `undefined`, which would throw later. Here it reads as ''.
- Strings.ToLower: only the ASCII capitals are lower-cased. The searched patterns ("name" and ",") are ASCII, but capitals outside ASCII that lower-case to them are not modelled.
- The loop at src/ingest.ts:289 never ends when the header row has no integer cell to its right. `IngestTable.DayPhaseTerminates` and `IngestFlow.IngestTerminates` require that one exists. The source does not test for this.
- The same applies to the `do … while` of src/ingestNg.ts:119-122, which needs a "Dienst" row below each section the driver reaches. `NgLayout.TableTerminates` and `NgLayout.NgTerminates` require that one exists.
- `for (const k in persons)` visits integer-like keys first in JavaScript. The model visits keys in insertion order, which is the same for every last name that is not a numeral.
- Dates are wall-clock minutes in the proleptic Gregorian calendar. The following are not modelled:
  - the Europe/Berlin time zone and its daylight-saving shifts (`.tz`);
  - the noon time of the parsed date;
  - the formatting of "MMMM YYYY".
- `AssumedDate` logs the year and month instead of the formatted text.
- Reconcile.DayNumber: `date.set('date', day)` is day arithmetic from the first of the month, so day numbers past the month's end roll into the next month. `Reconcile.BookedRowsInMonth`, `Reconcile.TailMatched`, `Reconcile.PersonStepIdempotent` and `Reconcile.InsertAllIdempotent` assume the day numbers lie within the month. Without that, a header day past the month's end books a row outside the delete window, and a rerun keeps that row and appends it again (`Reconcile.RerunPastMonthEnd`).
- `dayjs().year()` is the parameter `currentYear`.
- `persons` (src/ingest.ts:122, 272-278) and the duty map (src/dienste.ts:8) are plain `{}` objects, so a last name or a duty code such as "constructor", "toString" or "__proto__" reaches a property inherited from `Object.prototype`. The model's maps hold only the keys written into them.
- `getDiensteMap()` (src/dienste.ts) reads the duty table and is not modelled. Its result is the parameter `duties`, a map from short name to id and clock times.
- The database (prisma) is a pair of tables in a `Store` class:
  - a person's id is their position;
  - `findFirst` without an order is taken to return the first person in id order;
  - database errors and concurrency are not modelled;
  - the window `[startOf('month'), endOf('month')]` is the half-open window of minutes up to the next month.
- `deleteCache()` (removing the cache directory), `console.log`, the emoji and the wording of the log lines are not modelled. Log lines are structured entries.
- The thrown "Could not parse date from filename" is `None` in `IngestRun.Ingest`; no exceptions are modelled.
- `async`/`await` is not modelled: every call completes before the next.
- The `[util.inspect.custom]` debug printer of the cursor is not modelled.
- `hmac` and `dirname` of src/util.ts are library calls and are not part of this model.
- src/routes/ics.ts, src/routes/ingest.ts, src/routes/seed.ts, src/routes/idx.ts and src/index.ts are not part of this model. The seed file only supplies three test vectors for `IngestDuty`.
- IngestNg.FindAndParseTable: the `x` the caller passes in is overwritten with column B, as in the source. The specification of src/ingestNg.ts uses only column B, through the ghost `Layout`.
