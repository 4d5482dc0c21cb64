/** The holiday resolver of one Gregorian month and the parser of the
    user's custom-holiday text.

    A month's holidays are a day -> name map built by four overlays, each
    later one overwriting the earlier on the same day: the fixed Gregorian
    holidays, the replaceable table of precomputed floating holidays for the
    year, a per-day scan for Islamic holidays, and the custom holidays. */
module HolidayData {
  import opened Options
  import opened Gregorian
  import opened JsText
  import opened CalendarConverter

  /** A `{ month, day, name }` record of the holiday tables. */
  datatype HolidayEntry = HolidayEntry(month: int, day: int, name: string)

  /** The JavaScript values a property read on such a record can give. */
  datatype JsValue = Undefined | Number(n: int) | Text(s: string)

  /** `h[key]` for the keys a record owns or may lack: a record owns the
      properties `month`, `day` and `name`, and a key it neither owns nor
      inherits, such as `islamicMonth` or `islamicDay`, reads `undefined`.
      Keys inherited from `Object.prototype` are not modelled. */
  function Property(h: HolidayEntry, key: string): (v: JsValue)
    ensures key != "month" && key != "day" && key != "name" ==> v == Undefined
  {
    if key == "month" then Number(h.month)
    else if key == "day" then Number(h.day)
    else if key == "name" then Text(h.name)
    else Undefined
  }

  const FIXED_HOLIDAYS: seq<HolidayEntry> := [
    HolidayEntry(0, 1, "Tahun Baru Masehi"),
    HolidayEntry(4, 1, "Hari Buruh Internasional"),
    HolidayEntry(5, 1, "Hari Lahir Pancasila"),
    HolidayEntry(7, 17, "Hari Kemerdekaan RI"),
    HolidayEntry(11, 25, "Hari Raya Natal")
  ]

  /** `MONTH_MAP`, grouped by value: `MONTH_TOKENS[m]` lists the tokens
      (English and Indonesian abbreviations and names, one- or two-digit
      numbers) that the object maps to month index `m`. */
  const MONTH_TOKENS: seq<seq<string>> := [
    ["jan", "januari", "1", "01"],
    ["feb", "februari", "2", "02"],
    ["mar", "maret", "3", "03"],
    ["apr", "april", "4", "04"],
    ["may", "mei", "5", "05"],
    ["jun", "juni", "6", "06"],
    ["jul", "juli", "7", "07"],
    ["aug", "agustus", "8", "08"],
    ["sep", "september", "9", "09"],
    ["oct", "oktober", "10"],
    ["nov", "november", "11"],
    ["dec", "desember", "12"]
  ]

  /** The first month from `from` on that lists `token`. */
  function FindMonth(token: string, from: nat): (m: Option<int>)
    requires from <= |MONTH_TOKENS|
    ensures m.Some? ==> from <= m.value < |MONTH_TOKENS| && token in MONTH_TOKENS[m.value]
    ensures m.Some? ==> forall k :: from <= k < m.value ==> token !in MONTH_TOKENS[k]
    ensures m.None? <==> forall k :: from <= k < |MONTH_TOKENS| ==> token !in MONTH_TOKENS[k]
    decreases |MONTH_TOKENS| - from
  {
    if from == |MONTH_TOKENS| then None
    else if token in MONTH_TOKENS[from] then Some(from)
    else FindMonth(token, from + 1)
  }

  /** `MONTH_MAP[token]`: the month index of a month token, or `None` for
      the `undefined` of any other token. */
  function MonthMap(token: string): (m: Option<int>)
    ensures m.Some? ==> 0 <= m.value < 12 && token in MONTH_TOKENS[m.value]
    ensures m.None? <==> forall k :: 0 <= k < 12 ==> token !in MONTH_TOKENS[k]
  {
    FindMonth(token, 0)
  }

  /** Islamic holidays by Hijri month and day. The records carry `month`
      and `day`, the same property names as the Gregorian tables. */
  const ISLAMIC_HOLIDAYS: seq<HolidayEntry> := [
    HolidayEntry(1, 1, "Tahun Baru Islam"),
    HolidayEntry(3, 12, "Maulid Nabi Muhammad SAW"),
    HolidayEntry(7, 27, "Isra Mi'raj"),
    HolidayEntry(10, 1, "Hari Raya Idul Fitri"),
    HolidayEntry(10, 2, "Hari Raya Idul Fitri"),
    HolidayEntry(12, 10, "Hari Raya Idul Adha")
  ]

  /** The precomputed floating holidays: year -> list of records. A year is
      present exactly when `PRECOMPUTED_HOLIDAYS[year]` is an array (an empty
      array is still truthy). */
  type PrecomputedTable = map<int, seq<HolidayEntry>>

  // ---------------------------------------------------------------------
  // Overlays of a record list onto the day -> name map (steps 1 and 2)
  // ---------------------------------------------------------------------

  /** Steps 1 and 2: each record of `month`, in list order, sets its day to
      its name; records of other months are skipped. */
  function Overlay(base: map<int, string>, entries: seq<HolidayEntry>, month: int): map<int, string>
  {
    if entries == [] then base
    else
      var earlier := Overlay(base, entries[..|entries| - 1], month);
      var h := entries[|entries| - 1];
      if h.month == month then earlier[h.day := h.name] else earlier
  }

  /** The days that the records of `month` name. */
  function DaysOfMonth(entries: seq<HolidayEntry>, month: int): set<int>
  {
    set i | 0 <= i < |entries| && entries[i].month == month :: entries[i].day
  }

  lemma DaysOfMonthSnoc(entries: seq<HolidayEntry>, month: int)
    requires entries != []
    ensures var h := entries[|entries| - 1];
      DaysOfMonth(entries, month) ==
        DaysOfMonth(entries[..|entries| - 1], month) + (if h.month == month then {h.day} else {})
  {
    var front := entries[..|entries| - 1];
    forall i | 0 <= i < |front| ensures front[i] == entries[i] { }
  }

  /** An overlay adds exactly the days of the month's records. */
  lemma {:induction false} OverlayKeys(base: map<int, string>, entries: seq<HolidayEntry>, month: int)
    ensures Overlay(base, entries, month).Keys == base.Keys + DaysOfMonth(entries, month)
  {
    if entries != [] {
      OverlayKeys(base, entries[..|entries| - 1], month);
      DaysOfMonthSnoc(entries, month);
    }
  }

  /** A day that no record of the month names keeps its earlier value. */
  lemma {:induction false} OverlayUntouched(base: map<int, string>, entries: seq<HolidayEntry>, month: int, day: int)
    requires day !in DaysOfMonth(entries, month)
    ensures day in Overlay(base, entries, month) <==> day in base
    ensures day in base ==> Overlay(base, entries, month)[day] == base[day]
  {
    if entries != [] {
      DaysOfMonthSnoc(entries, month);
      OverlayUntouched(base, entries[..|entries| - 1], month, day);
    }
  }

  /** A record of the month is in the result, unless a later record of the
      month names the same day: the last record for a day wins. */
  lemma {:induction false} OverlayLastWins(base: map<int, string>, entries: seq<HolidayEntry>, month: int, i: int)
    requires 0 <= i < |entries| && entries[i].month == month
    requires forall j :: i < j < |entries| && entries[j].month == month ==> entries[j].day != entries[i].day
    ensures entries[i].day in Overlay(base, entries, month)
    ensures Overlay(base, entries, month)[entries[i].day] == entries[i].name
  {
    var n := |entries|;
    if i < n - 1 {
      var front := entries[..n - 1];
      assert front[i] == entries[i];
      OverlayLastWins(base, front, month, i);
    }
  }

  // ---------------------------------------------------------------------
  // The Islamic-holiday lookup (step 3), as the source writes it
  // ---------------------------------------------------------------------

  /** The lookup's test: the record's `islamicMonth` and `islamicDay`
      properties are the given Hijri month and day. */
  predicate MatchesAsWritten(h: HolidayEntry, islamicMonth: int, islamicDay: int)
  {
    Property(h, "islamicMonth") == Number(islamicMonth) && Property(h, "islamicDay") == Number(islamicDay)
  }

  /** The first record of the table that passes the test, or `None` (the
      lookup's `null`) when none does. */
  function FindIslamic(table: seq<HolidayEntry>, islamicMonth: int, islamicDay: int): (r: Option<HolidayEntry>)
    ensures r.Some? ==> r.value in table && MatchesAsWritten(r.value, islamicMonth, islamicDay)
    ensures r.None? ==> forall i :: 0 <= i < |table| ==> !MatchesAsWritten(table[i], islamicMonth, islamicDay)
  {
    if table == [] then None
    else if MatchesAsWritten(table[0], islamicMonth, islamicDay) then Some(table[0])
    else FindIslamic(table[1..], islamicMonth, islamicDay)
  }

  /** The Islamic holiday the source reports for a Gregorian day number: the
      Hijri month and day of the day `hijriOffset` days earlier, looked up in
      `ISLAMIC_HOLIDAYS`. */
  function IslamicHolidayOn(dayNumber: int, hijriOffset: int, hijri: HijriCalendar): Option<HolidayEntry>
  {
    var h := hijri(dayNumber - hijriOffset);
    FindIslamic(ISLAMIC_HOLIDAYS, h.month, h.day)
  }

  /** The records have no `islamicMonth` or `islamicDay` property, so the
      test reads `undefined` and no record, of any table, ever passes it. */
  lemma {:induction false} FindIslamicNeverMatches(table: seq<HolidayEntry>, islamicMonth: int, islamicDay: int)
    ensures FindIslamic(table, islamicMonth, islamicDay) == None
  {
    if table != [] {
      assert Property(table[0], "islamicMonth") == Undefined;
      FindIslamicNeverMatches(table[1..], islamicMonth, islamicDay);
    }
  }

  /** As written, `getIslamicHoliday` returns `null` for every date and
      every offset. */
  lemma IslamicHolidayNeverFound(dayNumber: int, hijriOffset: int, hijri: HijriCalendar)
    ensures IslamicHolidayOn(dayNumber, hijriOffset, hijri) == None
  {
    var h := hijri(dayNumber - hijriOffset);
    FindIslamicNeverMatches(ISLAMIC_HOLIDAYS, h.month, h.day);
  }

  /** `getIslamicHoliday(date, hijriOffset)`: the lookup is done on the
      Hijri month and day of the date `hijriOffset` days earlier, and on
      the date itself at offset 0. */
  method GetIslamicHoliday(date: CalendarDate, hijriOffset: int, hijri: HijriCalendar)
    returns (holiday: Option<HolidayEntry>)
    requires ValidDate(date)
    ensures holiday == FindIslamic(ISLAMIC_HOLIDAYS, hijri(Ordinal(date) - hijriOffset).month,
                                   hijri(Ordinal(date) - hijriOffset).day)
    ensures hijriOffset == 0 ==>
      holiday == FindIslamic(ISLAMIC_HOLIDAYS, hijri(Ordinal(date)).month, hijri(Ordinal(date)).day)
  {
    var adjusted := Ordinal(date);
    if hijriOffset != 0 {
      adjusted := adjusted - hijriOffset;
    }
    var h := hijri(adjusted);
    holiday := FindIslamic(ISLAMIC_HOLIDAYS, h.month, h.day);
  }

  /** Step 3 over days 1..days of the month: each day with an Islamic
      holiday gets its name. */
  function IslamicScan(base: map<int, string>, year: int, month: int, days: int,
                       hijriOffset: int, hijri: HijriCalendar): map<int, string>
    requires 0 <= month < 12
    decreases days
  {
    if days <= 0 then base
    else
      var earlier := IslamicScan(base, year, month, days - 1, hijriOffset, hijri);
      match IslamicHolidayOn(DayNumber(year, month, days), hijriOffset, hijri)
      case Some(h) => earlier[days := h.name]
      case None => earlier
  }

  /** One more day of the scan, given that day's lookup result. */
  lemma ScanStep(base: map<int, string>, year: int, month: int, day: int,
                 hijriOffset: int, hijri: HijriCalendar, holiday: Option<HolidayEntry>)
    requires 0 <= month < 12 && day >= 1
    requires holiday == IslamicHolidayOn(DayNumber(year, month, day), hijriOffset, hijri)
    ensures IslamicScan(base, year, month, day, hijriOffset, hijri) ==
      match holiday
      case Some(h) => IslamicScan(base, year, month, day - 1, hijriOffset, hijri)[day := h.name]
      case None => IslamicScan(base, year, month, day - 1, hijriOffset, hijri)
  {
  }

  /** As written, the Islamic scan never changes the map. */
  lemma {:induction false} IslamicScanIsNoOp(base: map<int, string>, year: int, month: int, days: int,
                                             hijriOffset: int, hijri: HijriCalendar)
    requires 0 <= month < 12
    ensures IslamicScan(base, year, month, days, hijriOffset, hijri) == base
    decreases days
  {
    if days > 0 {
      IslamicScanIsNoOp(base, year, month, days - 1, hijriOffset, hijri);
      IslamicHolidayNeverFound(DayNumber(year, month, days), hijriOffset, hijri);
    }
  }

  // ---------------------------------------------------------------------
  // The whole month
  // ---------------------------------------------------------------------

  /** The holidays of (year, month) given the precomputed table: the four
      overlays in order. */
  function ResolveMonth(table: PrecomputedTable, year: int, month: int, custom: Option<map<int, string>>,
                        hijriOffset: int, hijri: HijriCalendar): map<int, string>
    requires 0 <= month < 12
  {
    var fixed := Overlay(map[], FIXED_HOLIDAYS, month);
    var floating := if year in table then Overlay(fixed, table[year], month) else fixed;
    var fullYear := MakeFullYear(year);
    var islamic := IslamicScan(floating, fullYear, month, DaysInMonth(fullYear, month), hijriOffset, hijri);
    match custom
    case None => islamic
    case Some(c) => islamic + c
  }

  /** The days the precomputed table lists for (year, month). */
  function FloatingDays(table: PrecomputedTable, year: int, month: int): set<int>
  {
    if year in table then DaysOfMonth(table[year], month) else {}
  }

  function CustomDays(custom: Option<map<int, string>>): set<int>
  {
    match custom
    case None => {}
    case Some(c) => c.Keys
  }

  /** The result has a day exactly when a fixed holiday of the month, a
      precomputed holiday of the month or a custom holiday names it. */
  lemma ResolveMonthKeys(table: PrecomputedTable, year: int, month: int, custom: Option<map<int, string>>,
                         hijriOffset: int, hijri: HijriCalendar)
    requires 0 <= month < 12
    ensures ResolveMonth(table, year, month, custom, hijriOffset, hijri).Keys ==
      DaysOfMonth(FIXED_HOLIDAYS, month) + FloatingDays(table, year, month) + CustomDays(custom)
  {
    var fixed := Overlay(map[], FIXED_HOLIDAYS, month);
    OverlayKeys(map[], FIXED_HOLIDAYS, month);
    if year in table {
      OverlayKeys(fixed, table[year], month);
    }
    var floating := if year in table then Overlay(fixed, table[year], month) else fixed;
    var fullYear := MakeFullYear(year);
    IslamicScanIsNoOp(floating, fullYear, month, DaysInMonth(fullYear, month), hijriOffset, hijri);
  }

  /** A custom holiday always wins, for any day number it names. */
  lemma CustomWins(table: PrecomputedTable, year: int, month: int, custom: map<int, string>,
                   hijriOffset: int, hijri: HijriCalendar, day: int)
    requires 0 <= month < 12 && day in custom
    ensures day in ResolveMonth(table, year, month, Some(custom), hijriOffset, hijri)
    ensures ResolveMonth(table, year, month, Some(custom), hijriOffset, hijri)[day] == custom[day]
  {
  }

  /** A fixed holiday of the month is shown under its day unless the
      precomputed table or the custom holidays name that day. */
  lemma FixedHolidayShown(table: PrecomputedTable, year: int, month: int, custom: Option<map<int, string>>,
                          hijriOffset: int, hijri: HijriCalendar, i: int)
    requires 0 <= month < 12
    requires 0 <= i < |FIXED_HOLIDAYS| && FIXED_HOLIDAYS[i].month == month
    requires FIXED_HOLIDAYS[i].day !in FloatingDays(table, year, month) + CustomDays(custom)
    ensures var r := ResolveMonth(table, year, month, custom, hijriOffset, hijri);
      FIXED_HOLIDAYS[i].day in r && r[FIXED_HOLIDAYS[i].day] == FIXED_HOLIDAYS[i].name
  {
    var h := FIXED_HOLIDAYS[i];
    var fixed := Overlay(map[], FIXED_HOLIDAYS, month);
    OverlayLastWins(map[], FIXED_HOLIDAYS, month, i);
    if year in table {
      OverlayUntouched(fixed, table[year], month, h.day);
    }
    var floating := if year in table then Overlay(fixed, table[year], month) else fixed;
    var fullYear := MakeFullYear(year);
    IslamicScanIsNoOp(floating, fullYear, month, DaysInMonth(fullYear, month), hijriOffset, hijri);
  }

  /** A precomputed holiday of the month overwrites the fixed one on its
      day and is itself overwritten only by a later record for the same day
      or by a custom holiday. */
  lemma FloatingHolidayShown(table: PrecomputedTable, year: int, month: int, custom: Option<map<int, string>>,
                             hijriOffset: int, hijri: HijriCalendar, i: int)
    requires 0 <= month < 12 && year in table
    requires 0 <= i < |table[year]| && table[year][i].month == month
    requires forall j :: i < j < |table[year]| && table[year][j].month == month ==>
      table[year][j].day != table[year][i].day
    requires table[year][i].day !in CustomDays(custom)
    ensures var r := ResolveMonth(table, year, month, custom, hijriOffset, hijri);
      table[year][i].day in r && r[table[year][i].day] == table[year][i].name
  {
    var fixed := Overlay(map[], FIXED_HOLIDAYS, month);
    OverlayLastWins(fixed, table[year], month, i);
    var floating := Overlay(fixed, table[year], month);
    var fullYear := MakeFullYear(year);
    IslamicScanIsNoOp(floating, fullYear, month, DaysInMonth(fullYear, month), hijriOffset, hijri);
  }

  /** A year the table does not list resolves as with an empty table: the
      fixed holidays of the month under the custom ones. */
  lemma MissingYearAddsNothing(table: PrecomputedTable, year: int, month: int, custom: Option<map<int, string>>,
                               hijriOffset: int, hijri: HijriCalendar)
    requires 0 <= month < 12 && year !in table
    ensures ResolveMonth(table, year, month, custom, hijriOffset, hijri) ==
      ResolveMonth(map[], year, month, custom, hijriOffset, hijri)
    ensures ResolveMonth(table, year, month, custom, hijriOffset, hijri) ==
      Overlay(map[], FIXED_HOLIDAYS, month) + (if custom.Some? then custom.value else map[])
  {
    var fixed := Overlay(map[], FIXED_HOLIDAYS, month);
    var fullYear := MakeFullYear(year);
    IslamicScanIsNoOp(fixed, fullYear, month, DaysInMonth(fullYear, month), hijriOffset, hijri);
  }

  /** The module state of the resolver: the precomputed table that
      `setPrecomputedHolidays` replaces. */
  class HolidayStore {
    var precomputed: PrecomputedTable

    /** The table starts empty. */
    constructor ()
      ensures precomputed == map[]
    {
      precomputed := map[];
    }

    /** `setPrecomputedHolidays(data)`: the whole table is replaced. */
    method SetPrecomputedHolidays(data: PrecomputedTable)
      modifies this
      ensures precomputed == data
    {
      precomputed := data;
    }

    /** `getHolidaysForMonth`: the month's day -> name map from the four
        overlays, on the table as it stands. */
    method GetHolidaysForMonth(year: int, month: int, custom: Option<map<int, string>>,
                               hijriOffset: int, hijri: HijriCalendar)
      returns (holidays: map<int, string>)
      requires 0 <= month < 12
      ensures holidays == ResolveMonth(precomputed, year, month, custom, hijriOffset, hijri)
    {
      var fullYear := MakeFullYear(year);
      var daysInMonth := DaysInMonth(fullYear, month);

      // 1. Fixed Gregorian holidays
      holidays := SetMonthEntries(map[], FIXED_HOLIDAYS, month);

      // 2. Precomputed floating holidays
      if year in precomputed {
        holidays := SetMonthEntries(holidays, precomputed[year], month);
      }

      // 3. Islamic holidays, day by day
      holidays := SetIslamicDays(holidays, fullYear, month, daysInMonth, hijriOffset, hijri);

      // 4. Custom holidays overwrite everything on their day
      if custom.Some? {
        holidays := SetAll(holidays, custom.value);
      }
    }
  }

  /** The loop of step 3 over the days `1..daysInMonth` of the month. */
  method SetIslamicDays(base: map<int, string>, fullYear: int, month: int, daysInMonth: int,
                        hijriOffset: int, hijri: HijriCalendar)
    returns (holidays: map<int, string>)
    requires 0 <= month < 12 && daysInMonth == DaysInMonth(fullYear, month)
    ensures holidays == IslamicScan(base, fullYear, month, daysInMonth, hijriOffset, hijri)
  {
    holidays := base;
    for day := 1 to daysInMonth + 1
      invariant holidays == IslamicScan(base, fullYear, month, day - 1, hijriOffset, hijri)
    {
      holidays := ScanDay(holidays, CalendarDate(fullYear, month, day), hijriOffset, hijri);
      ScanStep(base, fullYear, month, day, hijriOffset, hijri,
               IslamicHolidayOn(DayNumber(fullYear, month, day), hijriOffset, hijri));
    }
  }

  /** One pass of that loop: look the date up and, on a hit, set its day. */
  method ScanDay(holidays: map<int, string>, date: CalendarDate, hijriOffset: int, hijri: HijriCalendar)
    returns (next: map<int, string>)
    requires ValidDate(date)
    ensures next == match IslamicHolidayOn(Ordinal(date), hijriOffset, hijri)
                    case Some(h) => holidays[date.day := h.name]
                    case None => holidays
  {
    next := holidays;
    var islamicHoliday := GetIslamicHoliday(date, hijriOffset, hijri);
    match islamicHoliday {
      case Some(h) => next := holidays[date.day := h.name];
      case None =>
    }
  }

  /** The `forEach` of steps 1 and 2: set each record of `month` in list
      order. */
  method SetMonthEntries(base: map<int, string>, entries: seq<HolidayEntry>, month: int)
    returns (holidays: map<int, string>)
    ensures holidays == Overlay(base, entries, month)
  {
    holidays := base;
    for i := 0 to |entries|
      invariant holidays == Overlay(base, entries[..i], month)
    {
      var h := entries[i];
      if h.month == month {
        holidays := holidays[h.day := h.name];
      }
      assert entries[..i + 1][..i] == entries[..i];
    }
    assert entries[..|entries|] == entries;
  }

  /** A set is empty or has a member. */
  lemma EmptyOrMember(s: set<int>)
    ensures s == {} || exists x :: x in s
  {
    if forall x :: x !in s {
      assert s == {};
    }
  }

  /** The `forEach` of step 4: set every (day, name) of `custom`. */
  method SetAll(base: map<int, string>, custom: map<int, string>) returns (holidays: map<int, string>)
    ensures holidays == base + custom
  {
    holidays := base;
    var pending := custom.Keys;
    while pending != {}
      invariant pending <= custom.Keys
      invariant holidays == base + map d | d in custom.Keys - pending :: custom[d]
      decreases pending
    {
      EmptyOrMember(pending);
      var day :| day in pending;
      holidays := holidays[day := custom[day]];
      pending := pending - {day};
    }
    assert (map d | d in custom.Keys :: custom[d]) == custom;
  }

  // ---------------------------------------------------------------------
  // Custom-holiday text
  // ---------------------------------------------------------------------

  /** One accepted line: month index, day and name. */
  datatype CustomEntry = CustomEntry(month: int, day: int, name: string)

  /** The body of the `lines.forEach` callback: the entry a line adds, or
      `None` when the callback returns early or the final test fails. */
  function ParseLine(line: string): (r: Option<CustomEntry>)
    ensures r.Some? ==> 0 <= r.value.month < 12 && r.value.name != ""
  {
    match ColonCut(line)
    case None => None
    case Some(halves) => ParseFields(Trim(halves.0), Trim(halves.1))
  }

  /** The first step of the callback: `split(':')`, the early return on
      fewer than two parts, then the first part and
      `parts.slice(1).join(':')`, both still to be trimmed. */
  function ColonCut(line: string): Option<(string, string)>
  {
    var parts := SplitOn(line, Char(':'));
    if |parts| < 2 then None
    else Some((parts[0], Join(parts[1..], ':')))
  }

  /** The rest of the callback, on the trimmed date text and name. */
  function ParseFields(datePart: string, name: string): (r: Option<CustomEntry>)
    ensures r.Some? ==> 0 <= r.value.month < 12 && r.value.name == name != ""
  {
    var dateParts := SplitRuns(datePart, WhitespaceOrSlash);
    if |dateParts| < 2 then None
    else
      var day := ParseInt(dateParts[0]);
      var monthStr := ToLowerAscii(dateParts[1]);
      var month := MonthMap(monthStr);
      if day.Some? && month.Some? && name != "" then
        Some(CustomEntry(month.value, day.value, name))
      else None
  }

  /** The day and month tokens of the text before a line's first colon. */
  function DateTokens(datePart: string): seq<string>
  {
    SplitRuns(Trim(datePart), WhitespaceOrSlash)
  }

  /** A line contributes exactly when it has a colon, the text before the
      first colon has at least two tokens, the first token reads as an
      integer, the lowercased second token is a month token, and the text
      after the first colon is not blank; the name is that text trimmed,
      later colons included. */
  lemma ParseLineAccepts(line: string)
    ensures var c := FirstSeparator(line, Char(':'));
      var tokens := DateTokens(line[..c]);
      var name := if c < |line| then Trim(line[c + 1..]) else "";
      ParseLine(line) ==
        if c < |line| && |tokens| >= 2 && ParseInt(tokens[0]).Some?
           && MonthMap(ToLowerAscii(tokens[1])).Some? && name != ""
        then Some(CustomEntry(MonthMap(ToLowerAscii(tokens[1])).value, ParseInt(tokens[0]).value, name))
        else None
  {
    ColonCutFirst(line);
  }

  /** The line is cut at its first colon; without one there is nothing. */
  lemma ColonCutFirst(line: string)
    ensures var c := FirstSeparator(line, Char(':'));
      ColonCut(line) == if c < |line| then Some((line[..c], line[c + 1..])) else None
  {
    if FirstSeparator(line, Char(':')) < |line| {
      AfterFirst(line, ':');
    } else {
      assert SplitOn(line, Char(':')) == [line];
    }
  }

  /** `dec` and `desember` are month tokens of December; `des` is not. */
  lemma DecemberTokens()
    ensures MonthMap("dec") == Some(11) && MonthMap("desember") == Some(11)
    ensures MonthMap("des") == None
  {
    DecToken();
    DesemberToken();
    DesIsNoToken();
  }

  /** Month tokens are matched after lowercasing, so `DEC` and `Dec` name
      December as `dec` does. */
  lemma DecemberAnyCase()
    ensures MonthMap(ToLowerAscii("DEC")) == Some(11)
    ensures MonthMap(ToLowerAscii("Dec")) == Some(11)
  {
    assert ToLowerAscii("DEC") == "dec";
    assert ToLowerAscii("Dec") == "dec";
    DecToken();
  }

  /** `des` is not among the month tokens of July to December. */
  lemma DesIsNoTokenLate()
    ensures FindMonth("des", 6) == None
  {
    assert FindMonth("des", 9) == None;
  }

  /** `des` is not a key of `MONTH_MAP` at all. */
  lemma DesIsNoToken()
    ensures MonthMap("des") == None
  {
    DesIsNoTokenLate();
    assert FindMonth("des", 3) == None;
  }

  /** Among the tokens of July to December, `dec` names December. */
  lemma DecTokenLate()
    ensures FindMonth("dec", 6) == Some(11)
  {
    assert FindMonth("dec", 9) == Some(11);
  }

  /** `dec` is a key of `MONTH_MAP` for December (11). */
  lemma DecToken()
    ensures MonthMap("dec") == Some(11)
  {
    DecTokenLate();
    assert FindMonth("dec", 3) == Some(11);
  }

  /** Among the tokens of July to December, `desember` names December. */
  lemma DesemberTokenLate()
    ensures FindMonth("desember", 6) == Some(11)
  {
    assert FindMonth("desember", 9) == Some(11);
  }

  /** `desember` is a key of `MONTH_MAP` for December (11). */
  lemma DesemberToken()
    ensures MonthMap("desember") == Some(11)
  {
    DesemberTokenLate();
    assert FindMonth("desember", 3) == Some(11);
  }

  /** Record one entry: its day gets its name in its month's map, which is
      created when missing. */
  function Insert(acc: map<int, map<int, string>>, e: CustomEntry): map<int, map<int, string>>
  {
    var days := if e.month in acc then acc[e.month] else map[];
    acc[e.month := days[e.day := e.name]]
  }

  /** `Insert` is the source's two steps: create the month's map if it is
      missing, then set the day in it. */
  lemma InsertInSteps(acc: map<int, map<int, string>>, e: CustomEntry)
    ensures var created := if e.month !in acc then acc[e.month := map[]] else acc;
      Insert(acc, e) == created[e.month := created[e.month][e.day := e.name]]
  {
  }

  /** The entry of each line. */
  function ParseAllLines(lines: seq<string>): seq<Option<CustomEntry>>
  {
    seq(|lines|, i requires 0 <= i < |lines| => ParseLine(lines[i]))
  }

  /** The nested map built from the lines' entries, in order. */
  function Collect(entries: seq<Option<CustomEntry>>): map<int, map<int, string>>
  {
    if entries == [] then map[]
    else
      var acc := Collect(entries[..|entries| - 1]);
      match entries[|entries| - 1]
      case None => acc
      case Some(e) => Insert(acc, e)
  }

  /** One more line adds its entry, if it has one. */
  lemma CollectStep(entries: seq<Option<CustomEntry>>, i: int)
    requires 0 <= i < |entries|
    ensures Collect(entries[..i + 1]) ==
      if entries[i].Some? then Insert(Collect(entries[..i]), entries[i].value) else Collect(entries[..i])
  {
    assert entries[..i + 1][..i] == entries[..i];
  }

  /** `parseCustomHolidays(text)`. */
  function ParsedHolidays(text: string): map<int, map<int, string>>
  {
    if text == "" then map[] else Collect(ParseAllLines(SplitOn(text, Char('\n'))))
  }

  /** The entry is one for (month, day). */
  predicate Hits(entry: Option<CustomEntry>, month: int, day: int)
  {
    entry.Some? && entry.value.month == month && entry.value.day == day
  }

  /** Every month of the result is a month index and has at least one day. */
  lemma {:induction false} CollectShape(entries: seq<Option<CustomEntry>>)
    requires forall i :: 0 <= i < |entries| && entries[i].Some? ==> 0 <= entries[i].value.month < 12
    ensures forall m :: m in Collect(entries) ==> 0 <= m < 12 && Collect(entries)[m] != map[]
  {
    if entries != [] {
      var front := entries[..|entries| - 1];
      forall i | 0 <= i < |front| ensures front[i] == entries[i] { }
      CollectShape(front);
      var last := entries[|entries| - 1];
      if last.Some? {
        var e := last.value;
        assert Collect(entries) == Insert(Collect(front), e);
        assert e.day in Insert(Collect(front), e)[e.month];
      } else {
        assert Collect(entries) == Collect(front);
      }
    }
  }

  /** (month, day) is in the result exactly when some line gives it, and
      then its name is that of the last such line. */
  lemma {:induction false} CollectLastWins(entries: seq<Option<CustomEntry>>, month: int, day: int)
    ensures var r := Collect(entries);
      (month in r && day in r[month]) <==> exists i :: 0 <= i < |entries| && Hits(entries[i], month, day)
    ensures var r := Collect(entries);
      forall i :: (0 <= i < |entries| && Hits(entries[i], month, day)
                   && forall j :: i < j < |entries| ==> !Hits(entries[j], month, day)) ==>
        month in r && day in r[month] && r[month][day] == entries[i].value.name
  {
    if entries != [] {
      var n := |entries|;
      var front := entries[..n - 1];
      CollectLastWins(front, month, day);
      forall i | 0 <= i < n - 1 ensures front[i] == entries[i] { }
      if Hits(entries[n - 1], month, day) {
        assert exists i :: 0 <= i < n && Hits(entries[i], month, day);
      } else {
        if exists i :: 0 <= i < n && Hits(entries[i], month, day) {
          var i :| 0 <= i < n && Hits(entries[i], month, day);
          assert Hits(front[i], month, day);
        }
      }
    }
  }

  /** `parseCustomHolidays(text)`: split into lines and add the entry of
      each accepted line in order. */
  method ParseCustomHolidays(text: string) returns (custom: map<int, map<int, string>>)
    ensures custom == ParsedHolidays(text)
    ensures text == "" ==> custom == map[]
    ensures forall m :: m in custom ==> 0 <= m < 12 && custom[m] != map[]
  {
    custom := map[];
    if text == "" {
      return;
    }
    var lines := SplitOn(text, Char('\n'));
    ghost var entries := ParseAllLines(lines);
    for i := 0 to |lines|
      invariant custom == Collect(entries[..i])
    {
      var entry := ParseLine(lines[i]);
      assert entry == entries[i];
      CollectStep(entries, i);
      if entry.Some? {
        var e := entry.value;
        InsertInSteps(custom, e);
        if e.month !in custom {
          custom := custom[e.month := map[]];
        }
        custom := custom[e.month := custom[e.month][e.day := e.name]];
      }
    }
    assert entries[..|lines|] == entries;
    CollectShape(entries);
  }
}
