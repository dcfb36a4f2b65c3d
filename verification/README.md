# HR attendance dashboard: analytics and dashboard logic in Dafny

This project models the data logic of an HR attendance dashboard. The
dashboard receives one month of attendance rows from a warehouse. It
classifies each row (normal, missing, absent, off duty), computes worked
hours, and aggregates the rows:

- counters;
- the missing, absent and weekend lists;
- per-date and per-department tables;
- per employee-week hour buckets;
- a list of employee-weeks above 50 hours.

Around that core, the dashboard page:

- builds a department menu;
- filters the rows by a search term and a department;
- moves between months;
- keeps typed-in explanations for missing or absent rows;
- exports those rows as CSV.

Modules, leaves first:

- `Options`, `Seqs`, `Text`: option type, sequence folds, and the
  JavaScript string helpers the code relies on. These are `trim`, `split`,
  `join`, `Number(...)` on integer numerals, `padStart(2, '0')` and
  `includes`.
- `WorkTimes`: the record type and the weekend test.
- `Attendance`: `classifyAttendance`.
- `WorkHours`: `calcWorkHours`, with hours as integer tenths.
- `IsoWeek`: `getWeekNumber` and the date parsing in front of it, proved
  against a reference definition of the ISO week number.
- `Analytics`: the two passes of `analyzeData`, written as left-to-right
  folds.
- `AnalyticsFacts`: a declarative description of every field the passes
  produce, each proved equal to the fold.
- `Report`: `analyzeData` itself and its contract.
- `Dashboard`: the department menu, the row filter, the statistics behind
  the screen and the download button.
- `MonthNav`: `changeMonth`.
- `Explanations`: the explanation store.
- `CsvExport`: the CSV file.

Conventions:

- A JavaScript `null` or `undefined` string field is the empty string. The
  code only reads such fields through `||` or `?.`, which treat both alike.
- Hours are integer tenths of an hour. The weekly threshold "more than 50
  hours" is more than 500 tenths.
- A `NaN` produced by `Number(...)` or by an invalid date is `None`.

## Model

| member | source | states |
|---|---|---|
| Text.Trim | src/utils/analytics.ts:20 | The trimmed remark is empty exactly when the remark is all JavaScript white space. Otherwise it is a contiguous slice that neither starts nor ends with white space. |
| Text.TrimIdempotent | src/utils/analytics.ts:20 | Trimming twice is trimming once. |
| Attendance.Classify | src/utils/analytics.ts:19-32 | Each kind holds exactly under its own condition on the trimmed remark and the clock readings. Absent means the remark is the unexcused-absence marker. Missing means no remark and a reading absent. Normal means no remark with both readings, or a remark on the worked list. Off duty means any other remark. The label is the remark, or "정상"/"미체크" when there is none. |
| Attendance.LabelNeverEmpty | src/utils/analytics.ts:24-31 | Every classification carries a non-empty label. |
| Attendance.ClassifyIgnoresTimesForAbsence | src/utils/analytics.ts:28 | With the unexcused-absence marker, the clock readings do not affect the classification. |
| Text.Split | src/utils/analytics.ts:9-10 | `split` gives at least one piece, no piece contains the separator, and joining the pieces gives back the string. |
| Text.SplitJoin | src/utils/analytics.ts:9-10 | Splitting separator-free pieces joined by the separator gives back the pieces. |
| Text.ToNumber | src/utils/analytics.ts:9-10 | `Number` of a blank string is 0. Otherwise it is the value of the trimmed signed numeral, or NaN. |
| Text.ToNumberIntToString | src/components/DashboardLayout.tsx:128-130 | `Number` reads back every printed integer. |
| Text.ToNumberPadded | src/components/DashboardLayout.tsx:130 | `Number` reads back a natural number zero-padded to two digits. |
| WorkHours.ShiftMinutes | src/utils/analytics.ts:13-14 | The raw difference is the signed difference of the clock minutes, plus one day exactly when the end is before the start. For in-range clocks it is the forward distance on the 24-hour dial. |
| WorkHours.NetMinutes | src/utils/analytics.ts:15 | The 60-minute break is deducted, in full, exactly when the shift is longer than 60 minutes. Otherwise the shift is kept. A non-negative shift never goes negative. |
| WorkHours.RoundTenths | src/utils/analytics.ts:15 | The tenths are within 3 minutes of the exact value, exact on whole tenths, and never negative for a non-negative input. |
| WorkHours.ClockHours | src/utils/analytics.ts:13-15 | For in-range clocks the result is the dial distance less the break, rounded to tenths, and lies between 0 and 23.0 hours. |
| WorkHours.ParseClock | src/utils/analytics.ts:9-10 | A reading without a colon does not parse. A parsed reading's hour is the number before the first colon. |
| WorkHours.ParseClockPieces | src/utils/analytics.ts:9-11 | A reading parses exactly when it has at least two colon-separated pieces and the first two both read as numbers. A parsed reading's minute is the second piece read as a number. |
| WorkHours.CalcWorkHours | src/utils/analytics.ts:6-17 | 0 when either time is empty or does not parse. Otherwise the hours between the parsed readings. |
| WorkHours.ParseFormatClock | src/utils/analytics.ts:9-10 | An `HH:MM` reading parses back to its hour and minute. |
| WorkHours.HoursOfFormatted | src/utils/analytics.ts:6-17 | Hours between two formatted readings are the hours between the clocks. |
| WorkHours.ExampleDayShift | src/utils/analytics.ts:6-17 | 09:00 to 18:00 is 8.0 hours. |
| WorkHours.ExampleOvernight | src/utils/analytics.ts:13-15 | 22:00 to 06:00 wraps past midnight to 7.0 hours. |
| WorkHours.ExampleHalfHour | src/utils/analytics.ts:15 | 30 minutes keep their full length: 0.5 hours. |
| WorkHours.ExampleJustOverBreak | src/utils/analytics.ts:15 | 61 minutes net one minute: 0.0 hours. |
| WorkHours.ExampleUnparsable | src/utils/analytics.ts:9-11 | An unparsable clock-in gives 0 hours. |
| IsoWeek.Thursday | src/utils/analytics.ts:141 | The shifted day is the Thursday of the day's Monday-to-Sunday week. |
| IsoWeek.Normalize | src/utils/analytics.ts:140 | A day past the end of its month rolls into the next month of the same year and denotes the same day. |
| IsoWeek.UtcDayNumber | src/utils/analytics.ts:140 | The rebuilt day lies in the year `Date.UTC` reads. |
| IsoWeek.IsoWeekOfDay | src/utils/analytics.ts:141-144 | Reference ISO 8601 week number, from the day of the year of the day's Thursday: between 1 and 53. |
| IsoWeek.WeekOfDay | src/utils/analytics.ts:141-144 | The week number as computed, with the year start rebuilt by `Date.UTC`: equal to the ISO week number whenever the year is below -1 or above 100. |
| IsoWeek.WeekNumber | src/utils/analytics.ts:139-145 | For every accepted date of a year other than 100 and -1, `getWeekNumber` is the ISO week number and lies between 1 and 53. |
| IsoWeek.WeekNumberYearHundred | src/utils/analytics.ts:142-143 | 0100-01-01 gets week -99085 instead of ISO week 53, because the year start of its Thursday (in year 99) is rebuilt as 1999-01-01. |
| IsoWeek.ParseIsoDate | src/utils/analytics.ts:70 | A string parses exactly when it has the shape `YYYY-MM-DD` with month 1..12 and day 1..31. The date's fields are then the values of the three digit groups. |
| IsoWeek.WeekNumberOf | src/utils/analytics.ts:70 | The week is NaN exactly when the date does not parse. Outside year 100 it is between 1 and 53. |
| IsoWeek.FirstThursday | src/utils/analytics.ts:142-143 | The year's first Thursday lies in its first seven days. |
| IsoWeek.WeekCountsFromFirstThursday | src/utils/analytics.ts:139-145 | The ISO week number computed from the Thursday's day of the year equals the counting definition: whole weeks from the first Thursday of the Thursday's year, plus one. |
| IsoWeek.SameWeekSameNumber | src/utils/analytics.ts:139-145 | Two dates in the same Monday-to-Sunday week get the same number, also across New Year. |
| IsoWeek.WeekNumberExamplesJanuary | src/utils/analytics.ts:139-145 | 2026-01-01 and 2026-01-04 are both in week 1. |
| IsoWeek.WeekNumberExampleLateDecember | src/utils/analytics.ts:139-145 | 2025-12-29 is in week 1 of the next year. |
| IsoWeek.WeekNumberExamplesNewYear | src/utils/analytics.ts:139-145 | 2026-12-31 and 2027-01-01 are both in week 53. |
| IsoWeek.ParseIsoDateExample | src/utils/analytics.ts:70 | `2026-01-04` parses. `2026-13-01` and the empty string do not. |
| Analytics.DeptKey | src/utils/analytics.ts:60 | The department key is the department name when there is one, and `미지정` otherwise, so it is never empty. |
| Analytics.StepEffect | src/utils/analytics.ts:57-112 | One row adds one to exactly one of the four counters, adds its employee number to the set, appends one detail entry and keeps the long-work list. |
| Analytics.Pass1 | src/utils/analytics.ts:57-113 | After the first `forEach`, the counters partition the rows, every row has one detail entry, each list is as long as its counter, and the long-work list is empty. |
| Analytics.FoldInvariants | src/utils/analytics.ts:57-113 | After pass 1 the four counters partition the rows and every row has one detail entry. Each list is as long as its counter. Each date's four counts add up to its total. No department counts more classified rows than it has. The long-work list is empty. |
| Analytics.Pass2With | src/utils/analytics.ts:115-133 | Every entry of pass 2 is over 50 hours and carries its bucket's total. No bucket is listed twice. The seen-set holds only over-threshold buckets. |
| Analytics.Pass2 | src/utils/analytics.ts:115-133 | Every entry of the second `forEach` names an over-threshold bucket, and no bucket is listed twice. |
| AnalyticsFacts.FoldMaps | src/utils/analytics.ts:68-112 | The date, department and week maps each evolve from their own earlier values only. |
| AnalyticsFacts.CountersFaithful | src/utils/analytics.ts:73-89 | Each counter is the number of rows of its kind. The weekend counter counts normal weekend rows. |
| AnalyticsFacts.ListsFaithful | src/utils/analytics.ts:66-89 | The missing and absent lists hold exactly the rows of their kind in input order. The weekend list holds the normal weekend rows with their hours. The detail list holds every row with its hours and label. |
| AnalyticsFacts.TotalsFaithful | src/utils/analytics.ts:58-76 | The hour total is the sum over normal rows, and the employee set is the set of employee numbers. |
| AnalyticsFacts.DailyKeys | src/utils/analytics.ts:92-94 | There is a date aggregate for exactly the dates of the input. |
| AnalyticsFacts.DailyFaithful | src/utils/analytics.ts:91-99 | Every date aggregate equals the aggregate computed from that date's rows alone, with weekday label and weekend flag from its first row. |
| AnalyticsFacts.DeptKeys | src/utils/analytics.ts:101-104 | There is a department aggregate for exactly the departments of the weekday rows. |
| AnalyticsFacts.DeptFaithful | src/utils/analytics.ts:101-112 | Every department aggregate equals the aggregate computed from that department's weekday rows alone. |
| AnalyticsFacts.WeeklyFaithful | src/utils/analytics.ts:68-76 | There is a bucket for every employee-week of the input, holding the hours of its normal rows. |
| AnalyticsFacts.DailyTotalsSum | src/utils/analytics.ts:92-99 | The date totals add up to the number of rows. |
| AnalyticsFacts.DeptTotalsSum | src/utils/analytics.ts:101-106 | The department totals add up to the number of weekday rows. |
| AnalyticsFacts.EmittedKeys | src/utils/analytics.ts:117-133 | The seen-set of pass 2 is exactly the set of over-threshold buckets of the input. |
| AnalyticsFacts.LongWorkOrder | src/utils/analytics.ts:117-133 | Pass 2 lists the over-threshold buckets in the order their first row appears, each once. |
| AnalyticsFacts.LongWorkFirstRows | src/utils/analytics.ts:119-131 | Every entry shows the name and department of the first row carrying its bucket. |
| AnalyticsFacts.EmptyInput | src/utils/analytics.ts:35-55 | No rows give the empty statistics and an empty long-work list. |
| Report.AnalyzeData | src/utils/analytics.ts:34-136 | The counters partition the input and count the rows of each kind. The lists are the rows of their kind in order. The detail list is every row. The hour total is the normal rows' sum, and the employee set is the set of employee numbers. |
| Report.AnalyzeDaily | src/utils/analytics.ts:91-99 | One aggregate per date of the input, each that date's rows' aggregate. |
| Report.AnalyzeDailyTotals | src/utils/analytics.ts:92-99 | The date totals add up to the number of rows. |
| Report.AnalyzeDepts | src/utils/analytics.ts:101-112 | One aggregate per weekday department, each that department's weekday rows' aggregate. |
| Report.AnalyzeDeptTotals | src/utils/analytics.ts:101-106 | The department totals add up to the number of weekday rows. |
| Report.AnalyzeWeekly | src/utils/analytics.ts:68-76 | One bucket per employee-week, holding its normal rows' hours. |
| Report.AnalyzeLongWork | src/utils/analytics.ts:115-133 | The over-50-hour employee-weeks in first-occurrence order, each once. Each shows its first row and the bucket's hours. |
| Report.AnalyzeEmpty | src/utils/analytics.ts:35-55 | No rows, nothing counted. |
| Dashboard.DeptList | src/components/DashboardLayout.tsx:96-98 | The menu has no repeats and no blank entry. |
| Dashboard.DeptListMembers | src/components/DashboardLayout.tsx:97 | A name is on the menu exactly when some row has it as department key. |
| Dashboard.FilterRows | src/components/DashboardLayout.tsx:104-114 | The shown rows are the input restricted to the rows passing the search and department conditions, in input order. With a blank term on the company screen, all rows are shown. |
| Dashboard.FilterRowsMembers | src/components/DashboardLayout.tsx:104-114 | A row is shown exactly when it matches the lower-cased term in name or department (if the trimmed term is non-empty) and, on the department screen, has the selected raw department. |
| Text.IncludesIffOccurs | src/components/DashboardLayout.tsx:108 | `includes` holds exactly when the needle occurs at some position. |
| Dashboard.UnassignedSelectsNothing | src/components/DashboardLayout.tsx:110-112 | As written, the `미지정` menu entry produced by a row without department shows nothing. The corrected filter shows that row. |
| Dashboard.FilterRowsByKey | src/components/DashboardLayout.tsx:104-114 | Corrected filter: a row is shown exactly when it passes the search and, on the department screen, its department key is the selected one. |
| Dashboard.MenuEntrySelectsItsRows | src/components/DashboardLayout.tsx:110-112 | With the corrected filter, every menu entry shows a non-empty set: exactly the rows with that department key. |
| Dashboard.ViewStats | src/components/DashboardLayout.tsx:104-116 | The statistics are those of the rows the filter shows: the counters add up to the number of shown rows (at most the input), the missing and absent lists are the shown rows of their kind, and there is one detail entry per shown row. On the department screen every detail row belongs to the selected department. |
| Dashboard.UnassignedScreenEmpty | src/components/DashboardLayout.tsx:110-116 | As written, the `미지정` screen of a row without department, missing a reading, has no detail rows and nothing to download. |
| Dashboard.DownloadView | src/components/DashboardLayout.tsx:143-147 | Nothing is downloaded exactly when no shown row is missing or absent. |
| Dashboard.NothingToExport | src/components/DashboardLayout.tsx:144-147 | Both lists are empty exactly when no shown row is missing or absent. |
| Dashboard.ExportedRowsMembers | src/components/DashboardLayout.tsx:153 | A row is exported exactly when it is shown and is missing or absent. |
| MonthNav.MonthStart | src/components/DashboardLayout.tsx:129 | `new Date(y, i, 1)` is the month whose count is that of year `y` (0..99 read as 19xx) plus `i`, with month index 0..11. |
| MonthNav.ParseMonth | src/components/DashboardLayout.tsx:128 | A month string without a dash does not read. A read year is the number before the first dash. |
| MonthNav.ParseMonthPieces | src/components/DashboardLayout.tsx:128 | A month string reads exactly when its first two dash-separated pieces both read as numbers. A read month is the second piece read as a number. |
| MonthNav.ShiftMonth | src/components/DashboardLayout.tsx:129-130 | The new month is 1..12, and its month count is the old one's plus the offset. |
| MonthNav.MonthCountInjective | src/components/DashboardLayout.tsx:129-130 | Year and month are determined by their month count. |
| MonthNav.ChangeMonth | src/components/DashboardLayout.tsx:127-130 | The result is `NaN-NaN` exactly when the current month does not read as two numbers. |
| MonthNav.ChangeMonthReadsBack | src/components/DashboardLayout.tsx:128-130 | A valid move reads back as the month `offset` months after the one the current string reads as (after the `Date` year remap), whenever that year prints without a sign. |
| MonthNav.ChangeMonthPadded | src/components/DashboardLayout.tsx:130 | A valid move ends in a dash and two digits: the month is padded to two digits. |
| MonthNav.FormattedIsValid | src/components/DashboardLayout.tsx:130 | A printed month is never `NaN-NaN`. |
| MonthNav.ParseFormat | src/components/DashboardLayout.tsx:128-130 | A printed month of a non-negative year reads back as its year and month. |
| MonthNav.DigitsSplitTwo | src/components/DashboardLayout.tsx:128 | Two digit strings joined by a dash split back into the two. |
| MonthNav.ShiftCompose | src/components/DashboardLayout.tsx:129 | Two shifts are one shift by the sum, once the first lands in year 100 or later. |
| MonthNav.ShiftZero | src/components/DashboardLayout.tsx:129 | A shift by zero keeps a year of 100 or later. |
| MonthNav.ChangeCompose | src/components/DashboardLayout.tsx:127-130 | Moving by a and then by b is moving by a + b. |
| MonthNav.ChangeUndo | src/components/DashboardLayout.tsx:127-130 | Moving by a and then by -a is moving by zero. |
| MonthNav.ChangeZero | src/components/DashboardLayout.tsx:127-130 | Moving by zero prints the month the string reads as. |
| MonthNav.NextAfterDecember | src/components/DashboardLayout.tsx:127-130 | `2025-12` moved by +1 is `2026-01`. |
| MonthNav.NoDashIsInvalid | src/components/DashboardLayout.tsx:128 | A month string without a dash becomes `NaN-NaN`. |
| MonthNav.TwoDigitYearMoves | src/components/DashboardLayout.tsx:129 | `0050-03` moved by zero prints `1950-03`. |
| Explanations.SaveExplanation | src/components/DashboardLayout.tsx:136-138 | The row's key now maps to the text, and every other entry is kept. |
| Explanations.SaveThenRead | src/components/DashboardLayout.tsx:136-138 | Reading after saving gives the saved text. |
| Explanations.SaveKeepsOthers | src/components/DashboardLayout.tsx:136-138 | Saving leaves what every row with another key reads. |
| Explanations.SaveTwice | src/components/DashboardLayout.tsx:136-138 | The last save for a row wins. |
| Explanations.ExplanationKey | src/components/DashboardLayout.tsx:137 | The key is the employee number, a dash, and the date, in that order. |
| Explanations.KeyInjective | src/components/DashboardLayout.tsx:137 | Without a dash in employee numbers, two rows share a key exactly when they have the same employee number and date. |
| Explanations.DashedNumbersCollide | src/components/DashboardLayout.tsx:137 | With dashes allowed, two different rows can share one explanation. |
| CsvExport.EscapeQuotes | src/components/DashboardLayout.tsx:162 | The escaped text is longer by exactly the number of quotes. Every quote in it is immediately followed by a second one, so no lone quote is left. |
| CsvExport.UnescapeEscape | src/components/DashboardLayout.tsx:162 | A CSV reader gets back exactly the explanation that was escaped. |
| CsvExport.EscapeUnescape | src/components/DashboardLayout.tsx:162 | Escaping what a reader took out of a field with paired quotes gives the field back. |
| CsvExport.SplitJoinThen | src/components/DashboardLayout.tsx:162 | Splitting comma-free columns joined by commas, followed by a comma and a tail, gives the columns and then the tail's pieces. |
| CsvExport.DecodeCsvLine | src/components/DashboardLayout.tsx:162 | A reader recovers the ten plain columns and the explanation from a row's line, provided the plain columns contain no comma. |
| CsvExport.CsvLines | src/components/DashboardLayout.tsx:155-163 | One line per exported row, in order. |
| CsvExport.DownloadCsv | src/components/DashboardLayout.tsx:143-163 | No file exactly when both lists are empty. Otherwise the file starts with the byte-order mark and the header line. |
| CsvExport.DownloadFileLines | src/components/DashboardLayout.tsx:149-162 | The file is the byte-order mark and header line followed by one line per exported row, in export order, each starting where the lines before it end, and nothing else. |
| CsvExport.ExportRecords | src/components/DashboardLayout.tsx:153-163 | Line i decodes to the i-th exported row, the missing rows first, with its saved explanation. |
| CsvExport.MissingType | src/components/DashboardLayout.tsx:159 | The type is "무단결근" exactly when both clock readings are empty, and "체크누락" otherwise. |
| CsvExport.ExplanationStatus | src/components/DashboardLayout.tsx:158 | The status is "작성완료" exactly when the explanation is non-empty, and "미작성" otherwise. |
| CsvExport.MissingRowType | src/components/DashboardLayout.tsx:159 | A missing row is typed "무단결근" exactly when it has no clock reading, and "체크누락" exactly when it has one of the two. |
| CsvExport.AbsentRowType | src/components/DashboardLayout.tsx:159 | An absent row is typed "체크누락" exactly when it has a clock reading. |
| CsvExport.StatusAfterSave | src/components/DashboardLayout.tsx:157-158 | The status column says "작성완료" after a save exactly when the saved text is non-empty. |

The CSV type column is decided by the clock readings alone, not by which
list the row came from (`CsvExport.MissingRowType`,
`CsvExport.AbsentRowType`). So a missing row with no reading is typed as
an unexcused absence. An absent row with a reading is typed as a missed
check.

The overtime entry's name and department come from the first row carrying
the bucket's key in the second pass (`AnalyticsFacts.LongWorkFirstRows`).
That row need not be the one that pushed the bucket over the threshold.
The model follows the code here.

## Left out

- Floating point: hours are exact tenths. The source adds rounded doubles, so a running weekly sum can differ from the exact one by a rounding error at the 50-hour threshold.
- WorkHours.RoundTenths: `toFixed(1)` rounds the binary value of `minutes / 60`. At an odd multiple of 3 minutes the source may round down where the model rounds up. Contracts therefore rely only on the result being within 3 minutes.
- Percentages and every other derived display value computed in the rendering code are not modelled.
- Text.ToNumber: only blank strings and optionally signed decimal integer numerals are read. Other forms `Number` accepts (`1e3`, `0x1F`, `1.5`, `Infinity`) are NaN in the model.
- IsoWeek.ParseIsoDate: only `YYYY-MM-DD` is accepted. Other date forms the `Date` constructor would parse are NaN in the model.
- Time zones: the date is taken as the local calendar date, which holds at UTC and east of it. West of UTC the source reads the previous day.
- The `Date` range limit (about ±275,000 years) is not modelled.
- MonthNav.ChangeMonthReadsBack, MonthNav.ParseFormat, MonthNav.ChangeCompose, MonthNav.ChangeZero, MonthNav.ChangeUndo: stated only for years of 100 or later, or non-negative years. Years 0..99 are remapped by the `Date` constructor (`MonthNav.TwoDigitYearMoves`), and negative years print with a sign that `split('-')` cuts.
- Dashboard.DeptList: the menu keeps first-occurrence order. The `localeCompare` sort is not modelled because it depends on the locale's collation.
- Dashboard.FilterRows: `toLowerCase` is a parameter `lower`, because Unicode case mapping is not modelled.
- The default department choice (`deptList[0]` when none is selected), the router, the alert, the modal, `Blob` and the download link are user interface and I/O, and are not modelled.
- The download file name holds the current time, which is not modelled.
- A `null` department or name is modelled as the empty string. The CSV line would print it as `null` where the model prints nothing.
- CsvExport.DecodeCsvLine: plain columns are written without quoting. The round trip therefore requires them to be comma-free.
- Object keys: plain objects are modelled as maps. Key order and keys that clash with `Object.prototype` (`__proto__`) are not modelled.
- Analytics.WeekKeyOf: the bucket is the pair (employee number, week) instead of the string `${EMPNUM}-${week}`. The two agree for the weeks `getWeekNumber` yields from a parsed date: 1..53, -99085 (year 100) and NaN. Two keys can only clash if one week's text is another's with a leading dash, and no two of these weeks are like that.
- IsoWeek.WeekNumber, IsoWeek.WeekNumberOf, IsoWeek.WeekOfDay: agreement with the ISO week and the range 1..53 are promised only outside years 100 and -1. For 0100-01-01..03 the source gives -99085 (`IsoWeek.WeekNumberYearHundred`), and the model computes the same value.
- `date-fns` is imported but not used by the modelled code.

## Findings

| source | as written | input that shows it | evidently intended | confidence | as-written member | corrected member |
|---|---|---|---|---|---|---|
| src/components/DashboardLayout.tsx:110-112 | The department screen keeps rows whose raw `ORGTXT` equals the selected menu entry. The menu (line 97) lists rows without a department under `미지정`. | One row with empty `ORGTXT`. Choosing `미지정` from the menu then shows no row at all. | Compare the row's department key (`ORGTXT \|\| '미지정'`), so every menu entry selects the rows that produced it. | medium, not executed | Dashboard.UnassignedSelectsNothing | Dashboard.MenuEntrySelectsItsRows |

`Dashboard.FilterRows` models the filter as written, and the screen
statistics and the download (`Dashboard.ViewStats`,
`Dashboard.DownloadView`) are built on it, as line 116 is.
`Dashboard.UnassignedScreenEmpty` shows the effect on the screen. The
corrected filter is `Dashboard.FilterRowsByKey`, and the menu property is
proved about it.
