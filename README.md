# Calendar annotation and holiday resolution

A Dafny model of the date engine behind a printable Indonesian wall calendar.
The model has three parts.

- **The holiday resolver** (`HolidayData`, modelling `js/modules/holiday-data.js`).
  It builds the day → name map of one Gregorian month. Each of its four steps overwrites the earlier ones on a shared day:
  1. the fixed Gregorian holidays;
  2. a replaceable table of precomputed floating holidays, keyed by year;
  3. a day-by-day scan for Islamic holidays;
  4. the user's custom holidays.

  It also models the parser of the custom-holiday text, which has one `day month: name` entry per line.
- **The calendar converter** (`CalendarConverter`, modelling `js/modules/calendar-converter.js`).
  It gives each day its Javanese market day (pasaran), one of Legi, Pahing, Pon, Wage and Kliwon. It also gives each day the first word of the browser's Hijri date text.
- **The page drawer** (`CanvasDrawer`, modelling the loops of `js/modules/canvas-drawer.js`).
  Each month gets a title, seven weekday headers and a 6 × 7 grid. Every day of the month is placed in that grid with a colour class and its annotation.

Three supporting modules:

- `Gregorian` is the proleptic Gregorian arithmetic that JavaScript's `Date` does on calendar fields. It covers day numbers since 1 Jan 1 CE, month lengths, weekdays, and the reading of years 0..99 as 1900..1999.
- `JsText` holds the JavaScript string operations the parser relies on. These are `trim`, `split` by a character, `split(/[\s/]+/)`, `join`, ASCII `toLowerCase` and `parseInt`.
- `Options` holds `Option`, which stands for `undefined`/`null` results.

State and loops are modelled in the form the source gives them.

- The module variable `PRECOMPUTED_HOLIDAYS` is the field of the class `HolidayStore`, and `setPrecomputedHolidays` replaces it.
- `getHolidaysForMonth` is a method of that class. Its two record overlays, its day loop and its custom-holiday overlay are loops.
- `parseCustomHolidays`, `drawMonth` (with the nested `row`/`col` loops and the `currentDay` counter) and `drawCalendarPage` are methods.
- Each of these methods is proved equal to a specification function (`ResolveMonth`, `ParsedHolidays`, `MonthView`). The lemmas state the properties of those functions.

The browser's Islamic calendar (`Intl.DateTimeFormat` with calendar `islamic`) is the parameter `hijri: HijriCalendar`. It is a function from a day number to the Hijri month, the Hijri day and the formatted text. Nothing is assumed about it.

Two behaviours of the code may surprise a reader, and the model follows the code.

- **The Islamic lookup never matches.** Step 3 (js/modules/holiday-data.js:108-115) is meant to set a day's name whenever the day's Hijri (month, day) is in the Islamic table. The comment above the table (js/modules/holiday-data.js:45) gives the record format `{ islamicMonth, islamicDay, name }`, and the `find` test reads `h.islamicMonth` and `h.islamicDay`. The records themselves carry `month`, `day` and `name`, so the test compares `undefined` with a number and always fails. The model keeps that test (`MatchesAsWritten`, through `Property`). `IslamicHolidayNeverFound` and `IslamicScanIsNoOp` prove that, as written, step 3 never changes the map.
- **`des` is not a month token.** A reader may expect the Indonesian abbreviation `des` to name December, so that `25 des: Natal` would be a December entry. `des` is not among the 45 keys of `MONTH_MAP` (js/modules/holiday-data.js:19-32; the December row is line 31), so that line is dropped (`DecemberTokens`). Only `dec`, `desember` and `12` name December, in any letter case (`DecemberAnyCase`).

## Model

| member | source | states |
|---|---|---|
| HolidayData.MonthMap | js/modules/holiday-data.js:19-32 | `MONTH_MAP[token]` is a month index 0..11 that lists the token, and it is undefined exactly for the tokens that no month lists |
| HolidayData.DecemberTokens | js/modules/holiday-data.js:31 | `dec` and `desember` map to December (11), and `des` is not a key |
| HolidayData.DecemberAnyCase | js/modules/holiday-data.js:149-150 | after `toLowerCase`, the tokens `DEC` and `Dec` both resolve to December (11) |
| HolidayData.Property | js/modules/holiday-data.js:46-53 | a holiday record owns the properties `month`, `day` and `name`; a key it neither owns nor inherits, among them `islamicMonth` and `islamicDay`, reads `undefined` |
| HolidayData.FindIslamic | js/modules/holiday-data.js:77 | `find(...) \|\| null` returns a table record that passes the test, or `null` when no record does |
| HolidayData.FindIslamicNeverMatches | js/modules/holiday-data.js:46-53 | the test reads `islamicMonth`/`islamicDay`, which the records lack, so no record of any table passes it |
| HolidayData.IslamicHolidayNeverFound | js/modules/holiday-data.js:64-78 | as written, `getIslamicHoliday` is `null` for every date and every offset |
| HolidayData.GetIslamicHoliday | js/modules/holiday-data.js:64-78 | the lookup uses the Hijri month and day of the date `hijriOffset` days earlier, and of the date itself at offset 0 |
| HolidayData.IslamicScanIsNoOp | js/modules/holiday-data.js:109-115 | the day-by-day Islamic scan leaves the map unchanged |
| HolidayData.SetIslamicDays | js/modules/holiday-data.js:109-115 | the `for (day = 1..daysInMonth)` loop sets exactly the days the scan specification sets |
| HolidayData.SetMonthEntries | js/modules/holiday-data.js:93-97 | a `forEach` overlay sets the records of the month, in list order |
| HolidayData.SetAll | js/modules/holiday-data.js:118-122 | the custom overlay gives the earlier map with every (day, name) of the custom map written over it |
| HolidayData.Overlay | js/modules/holiday-data.js:93-106 | no ensures of its own: steps 1 and 2, each record of the month setting its day in list order, whose meaning is given by `OverlayKeys`, `OverlayUntouched`, `OverlayLastWins` and `SetMonthEntries` |
| HolidayData.IslamicScan | js/modules/holiday-data.js:109-115 | no ensures of its own: step 3 over days 1..n, whose meaning is given by `ScanStep`, `IslamicScanIsNoOp` and `SetIslamicDays` |
| HolidayData.ScanStep | js/modules/holiday-data.js:109-115 | one more day of the scan sets that day to the record's name exactly when the lookup hits, and otherwise keeps the map |
| HolidayData.ScanDay | js/modules/holiday-data.js:110-114 | one pass of the day loop: on a hit of the lookup the date's day gets the record's name, otherwise the map is kept |
| HolidayData.MatchesAsWritten | js/modules/holiday-data.js:77 | no ensures of its own: the `find` test on `islamicMonth` and `islamicDay`, whose meaning is given by `FindIslamicNeverMatches` |
| HolidayData.OverlayKeys | js/modules/holiday-data.js:93-106 | an overlay adds exactly the days that the month's records name |
| HolidayData.OverlayUntouched | js/modules/holiday-data.js:93-106 | a day that no record of the month names keeps its earlier presence and value |
| HolidayData.OverlayLastWins | js/modules/holiday-data.js:100-106 | a record of the month is in the result under its day unless a later record names the same day; the last record for a day wins |
| HolidayData.HolidayStore.constructor | js/modules/holiday-data.js:34 | the precomputed table starts empty |
| HolidayData.HolidayStore.SetPrecomputedHolidays | js/modules/holiday-data.js:40-42 | the whole table is replaced by the new data, which later month lookups read |
| HolidayData.HolidayStore.GetHolidaysForMonth | js/modules/holiday-data.js:88-125 | the returned map is the four overlays of the current table, in order: fixed, precomputed for the year, Islamic scan, custom |
| HolidayData.ResolveMonth | js/modules/holiday-data.js:88-125 | no ensures of its own: the specification of the four overlays, whose meaning is given by `ResolveMonthKeys`, `CustomWins`, `FixedHolidayShown`, `FloatingHolidayShown` and `MissingYearAddsNothing` |
| HolidayData.IslamicHolidayOn | js/modules/holiday-data.js:64-78 | no ensures of its own: the lookup for one date and offset, whose meaning is given by `IslamicHolidayNeverFound` and `GetIslamicHoliday` |
| HolidayData.ResolveMonthKeys | js/modules/holiday-data.js:88-124 | the result's days are exactly the month's fixed days, the year's precomputed days of the month and the custom days |
| HolidayData.CustomWins | js/modules/holiday-data.js:118-122 | every custom (day, name) is in the result with that name, for any day number, range-checked or not |
| HolidayData.FixedHolidayShown | js/modules/holiday-data.js:93-97 | a fixed holiday of the month is shown under its day unless the precomputed table or the custom holidays name that day |
| HolidayData.FloatingHolidayShown | js/modules/holiday-data.js:100-106 | a precomputed holiday of the month overrides the fixed one, and only a later record for the day or a custom holiday overrides it |
| HolidayData.MissingYearAddsNothing | js/modules/holiday-data.js:100 | a year absent from the table resolves as with an empty table: the fixed holidays of the month under the custom ones |
| HolidayData.ParseLine | js/modules/holiday-data.js:139-157 | an accepted line has a month index 0..11 and a non-empty name |
| HolidayData.ParseFields | js/modules/holiday-data.js:145-152 | the entry built from the date text and name has a month 0..11 and keeps the given non-empty name |
| HolidayData.ColonCutFirst | js/modules/holiday-data.js:140-144 | `split(':')` with its early return, then `slice(1).join(':')`, cuts the line at its first colon; a line without a colon yields nothing |
| HolidayData.ColonCut | js/modules/holiday-data.js:140-144 | no ensures of its own: the cut of a line at its first colon into date text and name text, whose meaning is given by `ColonCutFirst` and `AfterFirst` |
| HolidayData.DateTokens | js/modules/holiday-data.js:145-146 | no ensures of its own: the trimmed date text split on runs of whitespace or `/`, whose meaning is given by `SplitRunsClean`, `SplitRunsInnerNonEmpty`, `SplitRunsSecond` and `ParseLineAccepts` |
| HolidayData.ParseLineAccepts | js/modules/holiday-data.js:140-152 | a line contributes exactly when it has a colon, the trimmed date text splits into at least two tokens, the first token reads as an integer, the lowercased second is a month token, and the trimmed text after the first colon is non-empty; the name keeps later colons |
| HolidayData.InsertInSteps | js/modules/holiday-data.js:153-156 | adding an entry is the source's two steps: create the month's map when missing, then set the day |
| HolidayData.Insert | js/modules/holiday-data.js:153-156 | no ensures of its own: the two-step insertion of a day and name into the nested map, whose meaning is given by `InsertInSteps`, `CollectStep` and `CollectLastWins` |
| HolidayData.ParsedHolidays | js/modules/holiday-data.js:132-161 | no ensures of its own: the specification of the parser's result, whose meaning is given by `CollectLastWins`, `CollectShape`, `ParseLineAccepts` and `ParseCustomHolidays` |
| HolidayData.CollectStep | js/modules/holiday-data.js:139-157 | each further line adds its entry, if it has one, to the map built so far |
| HolidayData.Collect | js/modules/holiday-data.js:139-157 | no ensures of its own: the nested map built from the lines' entries in order, whose meaning is given by `CollectStep`, `CollectShape` and `CollectLastWins` |
| HolidayData.CollectShape | js/modules/holiday-data.js:150-156 | every month key of the result is 0..11, and every inner map is non-empty |
| HolidayData.CollectLastWins | js/modules/holiday-data.js:152-156 | (month, day) is in the result exactly when some line gives it, and then its name is that of the last such line |
| HolidayData.ParseCustomHolidays | js/modules/holiday-data.js:132-161 | the line loop builds the specified nested map, which is empty for empty text, has month keys 0..11 and has non-empty inner maps |
| CalendarConverter.JsRem | js/modules/calendar-converter.js:22 | JavaScript's `%` is what is left after the quotient truncated toward zero: it keeps the dividend's sign and is smaller than the divisor in size |
| CalendarConverter.PasaranIndex | js/modules/calendar-converter.js:16-22 | no ensures of its own: the cycle index, whose meaning is given by `PasaranIndexIsDayCount` and `PasaranUndefined` |
| CalendarConverter.GetJavanesePasaran | js/modules/calendar-converter.js:14-25 | no ensures of its own: the name at the index, whose meaning is given by `PasaranDefined`, `PasaranUndefined`, `PasaranByDayNumber`, `PasaranNextDay`, `PasaranPeriod` and `PasaranExamples` |
| CalendarConverter.GetIslamicDate | js/modules/calendar-converter.js:33-40 | no ensures of its own: the text of the `hijri` parameter for the date; `GetExtraDateInfo` states what is made of it |
| CalendarConverter.UtcMillis | js/modules/calendar-converter.js:16 | no ensures of its own: `Date.UTC` of the date's fields, whose meaning is given by `PasaranIndexIsDayCount` and `WholeDays` |
| CalendarConverter.PasaranIndexIsDayCount | js/modules/calendar-converter.js:16-22 | `(floor(Date.UTC(y, m, d) / 86400000) + 719163) % 5` is the day count since 1 Jan 1 CE (day 1) under JavaScript's `%` |
| CalendarConverter.WholeDays | js/modules/calendar-converter.js:19 | dividing a whole number of days' milliseconds by 86400000 gives the day count back |
| CalendarConverter.PasaranDefined | js/modules/calendar-converter.js:6-24 | for every date of year 0 or later the index is the day number mod 5 and a name from `PASARAN_DAYS` is returned |
| CalendarConverter.PasaranUndefined | js/modules/calendar-converter.js:22-24 | the result is `undefined` exactly for day numbers that are negative and not multiples of 5 |
| CalendarConverter.NegativeRemainder | js/modules/calendar-converter.js:22 | the truncating remainder by 5 is negative exactly for negative, non-multiple dividends |
| CalendarConverter.PasaranByDayNumber | js/modules/calendar-converter.js:14-25 | from year 100 on, the name is `PASARAN_DAYS` at the date's day number mod 5 |
| CalendarConverter.PasaranNextDay | js/modules/calendar-converter.js:6-24 | on the next calendar day the name advances one step through Legi, Pahing, Pon, Wage, Kliwon, wrapping to Legi |
| CalendarConverter.CycleStep | js/modules/calendar-converter.js:6 | the successor of each `PASARAN_DAYS` name is the next entry, cyclically |
| CalendarConverter.SameNameSameResidue | js/modules/calendar-converter.js:6 | two day counts share a name exactly when they differ by a multiple of 5 |
| CalendarConverter.PasaranPeriod | js/modules/calendar-converter.js:19-24 | two dates share a market day exactly when their distance is a multiple of 5: period 5 and no shorter one |
| CalendarConverter.PasaranExamples | js/modules/calendar-converter.js:14-25 | 17 Aug 1945 is a Legi and 1 Jan 1970 is a Wage |
| CalendarConverter.GetExtraDateInfo | js/modules/calendar-converter.js:47-52 | `javanese` is the date's pasaran (no offset is taken); `islamic` is a space-free prefix of the Hijri text, the whole text when it has no space, and otherwise ends just before its first space |
| Gregorian.MakeFullYear | js/modules/canvas-drawer.js:44-45 | `new Date` reads years 0..99 as 1900..1999 and keeps every other year |
| Gregorian.DaysInMonth | js/modules/canvas-drawer.js:44 | `new Date(y, m + 1, 0).getDate()` is 28..31: 29 in February exactly in leap years, 30 exactly in April, June, September and November, and 31 in the other seven months |
| Gregorian.DayOfWeek | js/modules/canvas-drawer.js:45 | `getDay()` is a weekday index 0..6 |
| Gregorian.DayNumber | js/modules/calendar-converter.js:16-19 | no ensures of its own: the day count that stands for a `Date`, whose meaning is given by `NextDayNumber`, `YearStart`, `DayNumberPositive` and `UnixEpoch` |
| Gregorian.NextDay | js/modules/calendar-converter.js:19-24 | the next calendar day is a valid date |
| Gregorian.NextDayNumber | js/modules/calendar-converter.js:19-24 | day numbers are consecutive across month and year ends |
| Gregorian.YearLength | js/modules/calendar-converter.js:16-19 | the month lengths of a year add up to 365, or 366 in a leap year |
| Gregorian.YearStart | js/modules/calendar-converter.js:16-19 | consecutive years' closed-form start days are a year's length apart |
| Gregorian.DayNumberPositive | js/modules/calendar-converter.js:17-18 | every date of year 1 or later has a positive day count |
| Gregorian.UnixEpoch | js/modules/calendar-converter.js:17-18 | 1 Jan 1970 is day 719163 of the count, and a Thursday |
| JsText.Trim | js/modules/holiday-data.js:143-144 | no ensures of its own: `trim`, whose meaning is given by `TrimBlank` and `TrimEdges` |
| JsText.TrimBlank | js/modules/holiday-data.js:144 | a trimmed text is empty exactly when the text is all whitespace |
| JsText.TrimEdges | js/modules/holiday-data.js:143-144 | a trimmed text neither starts nor ends with whitespace, and is the slice of the text between a whitespace prefix and a whitespace suffix |
| JsText.SplitOn | js/modules/holiday-data.js:138-140 | `split` by a separator always gives at least one piece |
| JsText.SplitPiecesClean | js/modules/holiday-data.js:138-140 | no piece of a split contains the separator |
| JsText.SplitJoin | js/modules/holiday-data.js:144 | joining the pieces of a split by the same character gives the text back |
| JsText.Join | js/modules/holiday-data.js:144 | no ensures of its own: `join(c)`, whose meaning is given by `SplitJoin` and `AfterFirst` |
| JsText.AfterFirst | js/modules/holiday-data.js:140-144 | the first piece is the text before the first separator, and the rest joined is the text after it |
| JsText.SplitRuns | js/modules/holiday-data.js:145-146 | `split(/[\s/]+/)` starts with the text before the first separator and has two or more tokens exactly when a separator occurs |
| JsText.MergeRuns | js/modules/holiday-data.js:145-146 | merging the single-separator pieces into run tokens keeps the first piece and keeps a second token exactly when there was a second piece |
| JsText.SplitRunsClean | js/modules/holiday-data.js:145-146 | no token of `split(/[\s/]+/)` contains whitespace or `/` |
| JsText.SplitRunsInnerNonEmpty | js/modules/holiday-data.js:145-146 | every token between the first and the last is non-empty: a run of separators is one cut |
| JsText.SplitRunsSecond | js/modules/holiday-data.js:145-147 | for a separator-free `a`, a separator run, a non-empty separator-free `b` and a rest that is empty or starts with a separator, the tokens are `a`, then `b`; with no rest they are exactly `[a, b]` |
| JsText.SplitOnCut | js/modules/holiday-data.js:145-146 | splitting at every single separator cuts a separator-free prefix off, then one empty piece per extra separator of the run |
| JsText.SplitOnRun | js/modules/holiday-data.js:145-146 | a run of n separators in front yields n empty pieces |
| JsText.SplitOnAt | js/modules/holiday-data.js:145-146 | a separator-free prefix followed by a separator is the first piece |
| JsText.SplitOnClean | js/modules/holiday-data.js:145-146 | a separator-free text splits into itself alone |
| JsText.SplitOnAfterRun | js/modules/holiday-data.js:145-146 | a separator-free word followed by an empty rest or a separator is a piece of its own |
| JsText.DropBlanks | js/modules/holiday-data.js:145-146 | the empty pieces of a run are dropped when the pieces merge |
| JsText.MergeLast | js/modules/holiday-data.js:145-146 | a word, empty pieces and a final word merge into exactly those two words |
| JsText.MergeInner | js/modules/holiday-data.js:145-146 | a word, empty pieces, a word and more pieces merge into tokens whose second is that word |
| JsText.SplitRunsTrailing | js/modules/holiday-data.js:145-147 | a separator-free word followed only by a separator run gives exactly that word and an empty second token |
| JsText.SplitRunsExamples | js/modules/holiday-data.js:145-147 | `17 / aug` gives exactly `17` and `aug`, `25 aug/` has `aug` as its second token, and `17/` gives `17` and an empty token |
| JsText.ToLowerAscii | js/modules/holiday-data.js:149 | lowercasing keeps the length, leaves no capital letter, turns each capital into its small letter and keeps every other character |
| JsText.LowerWithoutCapitals | js/modules/holiday-data.js:149 | a text without capital letters is its own lowercase |
| JsText.LowerTwice | js/modules/holiday-data.js:149 | lowercasing twice is lowercasing once |
| JsText.LowerIgnoresCase | js/modules/holiday-data.js:149 | two texts that agree up to letter case lowercase to the same text |
| JsText.ParseInt | js/modules/holiday-data.js:148 | no ensures of its own: `parseInt`, whose meaning is given by `ParseIntDefined`, `ParseIntAtDigit`, `ParseIntAtMinus`, `ParseIntAtPlus`, `ParseIntUnsigned` and `ParseIntNegative` |
| JsText.ParseIntDefined | js/modules/holiday-data.js:148-152 | `parseInt` is a number exactly when the text after its leading whitespace starts with a digit, or with `-` or `+` followed by a digit; otherwise it is NaN and the line is dropped |
| JsText.ParseIntAtPlus | js/modules/holiday-data.js:148 | a leading `+` is read and dropped: `parseInt` of `+` and digits is the digit prefix |
| JsText.ParseIntNaN | js/modules/holiday-data.js:148 | `abc`, a bare `-` and ` +x` are NaN |
| JsText.ReadDigits | js/modules/holiday-data.js:148 | the digit prefix is missing exactly when the text does not start with a digit |
| JsText.DecimalValue | js/modules/holiday-data.js:148 | the decimal spelling of n reads back as n |
| JsText.DecimalNoLeadingZero | js/modules/canvas-drawer.js:34 | the decimal spelling of n starts with 0 exactly when n is 0, as a JavaScript number converted to text does |
| JsText.ParseIntUnsigned | js/modules/holiday-data.js:148 | `parseInt` of a decimal number followed by a non-digit gives that number |
| JsText.ParseIntNegative | js/modules/holiday-data.js:148 | `parseInt` of a minus, a decimal number and a non-digit gives the negative number |
| JsText.ParseIntAtDigit | js/modules/holiday-data.js:148 | `parseInt` of text starting with a digit is its digit prefix |
| JsText.ParseIntAtMinus | js/modules/holiday-data.js:148 | `parseInt` of a minus followed by digits is the negated digit prefix |
| CanvasDrawer.NumberText | js/modules/canvas-drawer.js:34 | a number's template-literal text is non-empty |
| CanvasDrawer.NumberTextSpellsYear | js/modules/canvas-drawer.js:34 | the year's text starts with a minus exactly for a negative year, its digits read back as the year's absolute value, and it has no leading zero except for the year 0 |
| CanvasDrawer.TitleStartsWithMonth | js/modules/canvas-drawer.js:34 | the month title starts with the month's name |
| CanvasDrawer.Title | js/modules/canvas-drawer.js:34 | no ensures of its own: the month name, a space and the year's text, whose meaning is given by `TitleStartsWithMonth` and `NumberTextSpellsYear` |
| CanvasDrawer.DayHeaders | js/modules/canvas-drawer.js:38-41 | seven headers in `DAY_NAMES` order, only the first (Sunday) in red |
| CanvasDrawer.DrawDayHeaders | js/modules/canvas-drawer.js:38-41 | the header loop draws exactly those headers |
| CanvasDrawer.PlacedBefore | js/modules/canvas-drawer.js:51-88 | the count of days placed before a grid position is between 0 and the month's length |
| CanvasDrawer.PlacedStep | js/modules/canvas-drawer.js:51-88 | `currentDay` grows by one exactly at the positions that hold a day |
| CanvasDrawer.EmptyCellTest | js/modules/canvas-drawer.js:54-57 | the empty-cell test holds exactly at the positions before the first day and after the last |
| CanvasDrawer.CellAtPosition | js/modules/canvas-drawer.js:59-88 | the cell drawn for `currentDay` at (row, col) is that day's placed cell, with its own date's annotation |
| CanvasDrawer.DayCell | js/modules/canvas-drawer.js:59-88 | no ensures of its own: the cell of day d at grid position first weekday + d - 1, with its Sunday flag and annotation, whose meaning is given by `CellAtPosition`, `CellColumnIsWeekday`, `SundayColour` and `CellAnnotation` |
| CanvasDrawer.MonthCells | js/modules/canvas-drawer.js:44 | a month has one placed cell per day |
| CanvasDrawer.MonthView | js/modules/canvas-drawer.js:24-91 | no ensures of its own: the title, the headers and the placed cells of a month, whose meaning is given by `DrawMonth`, `CellAtPosition`, `OccupiedCells`, `CellColumnIsWeekday`, `SundayColour`, `DaysPlacedInOrder` and `CellAnnotation` |
| CanvasDrawer.DrawMonth | js/modules/canvas-drawer.js:24-91 | the title, the header loop and the row/col loop with `continue` and `currentDay++` draw exactly the month's specified view |
| CanvasDrawer.DrawCalendarPage | js/modules/canvas-drawer.js:131-143 | the page draws three months, startMonth, startMonth + 1 and startMonth + 2, in that order |
| CanvasDrawer.DaysPlacedInOrder | js/modules/canvas-drawer.js:51-88 | every day 1..daysInMonth is placed once, in increasing order and at increasing grid positions |
| CanvasDrawer.CellColumnIsWeekday | js/modules/canvas-drawer.js:45-59 | day d is in the column of its weekday and in row (firstDayOfWeek + d − 1) div 7 |
| CanvasDrawer.SixRowsSuffice | js/modules/canvas-drawer.js:44-52 | every placed cell lies in rows 0..5 and columns 0..6, so no day is lost |
| CanvasDrawer.OccupiedCells | js/modules/canvas-drawer.js:54-57 | a grid cell holds a day exactly when its position lies between the first and the last day |
| CanvasDrawer.SundayColour | js/modules/canvas-drawer.js:39-73 | a day number is red exactly when it falls on a Sunday, the column under the red header |
| CanvasDrawer.CellAnnotation | js/modules/canvas-drawer.js:67-86 | each cell's annotation is `getExtraDateInfo` of its own date: that date's market day and a prefix of its Hijri text |
| CanvasDrawer.PageMonthsInOrder | js/modules/canvas-drawer.js:131-143 | the page's months are titled with the names of startMonth, startMonth + 1 and startMonth + 2, and have their own month lengths |

## Left out

- `js/modules/ui-handler.js`, `js/main.js`, `js/modules/data-loader.js`, `js/modules/pdf-generator.js` and `build.js` are not part of this model. They hold DOM handling, file and image loading, `fetch`, PDF export and the build script.
- The canvas is not modelled. The model leaves out pixel coordinates, fonts, colour strings, cell borders and the floating-point image fit of `drawCalendarPage` (js/modules/canvas-drawer.js:114-128). A drawing is the title text, the headers with their Sunday flag, and the cells with grid row, column, day, Sunday flag and annotation.
- The Hijri calendar is the parameter `hijri`. The model makes no claim about which tabular rule the browser uses or about the format of its text. `getIslamicDate` is that parameter's text for the date.
- Time of day and time zones are not modelled. A date is its year, month and day fields, so two dates with the same fields get the same pasaran by construction.
- JavaScript `Date` normalisation is not modelled. Out-of-range fields that roll over, and dates outside the ±8.64e15 ms range (`Invalid Date`), are outside the model. The operations require a month index 0..11.
- `getHolidaysForMonth`'s `year` is taken as given: years 0..99 are read as 1900..1999 for the month length and for the scan dates, as `new Date` does. The precomputed table is looked up with the raw year.
- DrawCalendarPage: requires `startMonth + 2 < 12`. The source, given a larger `startMonth`, passes a month index of 12 or more to `drawMonth`, and its `MONTH_NAMES` lookup then reads `undefined`.
- PasaranByDayNumber, PasaranNextDay, PasaranPeriod: these require year 100 or later. For years 0..99, `Date.UTC` moves the date to 1900..1999, so the name follows that date instead.
- The precomputed table is `map<int, seq<HolidayEntry>>`: a year is present exactly when its entry is an array. JSON values of other shapes are not modelled.
- Property: keys a holiday record inherits from `Object.prototype` (`constructor`, `toString`, `hasOwnProperty`, …) are not modelled; they read as `undefined` in the model. The Islamic lookup reads only `islamicMonth` and `islamicDay`, which no record owns or inherits, so no statement about it depends on this.
- `MONTH_MAP` is its listed keys only. Inherited object keys such as `constructor`, which a plain JavaScript object also answers, are not modelled.
- `toLowerCase` is modelled on ASCII letters only (`LowerAscii`). Other letters are kept as they are.
- `trim` and the `\s` class follow the JavaScript whitespace set (`JsText.WHITESPACE`). Characters outside the Basic Multilingual Plane, and UTF-16 surrogates, are not distinguished.
- `parseInt` results are unbounded integers. The loss of precision above 2^53 and the `-0` of `parseInt("-0")` are not modelled.
- The order in which a `Map` iterates is not modelled. Results are Dafny maps, which have no order, so the order of the custom map's `forEach` (js/modules/holiday-data.js:119) is not observable; only the final map is stated.
- SetMonthEntries, SetAll, SetIslamicDays and DrawDayHeaders are the source's inline `forEach`/`for` loops written as separate methods, so that each loop's invariant is proved on its own.
- JavaScript draws a pasaran of `undefined` as the text "undefined". The model keeps it as `None` in the cell's annotation.
