/** The date annotations of one calendar cell: the Javanese market day
    (pasaran) from the day count, and the Hijri date text from the browser's
    Islamic-calendar formatter, cut at its first space. */
module CalendarConverter {
  import opened Options
  import opened Gregorian
  import opened JsText

  /** What the `Intl.DateTimeFormat` formatters with calendar `islamic` give
      for one Gregorian calendar day: `parseInt` of the numeric month and of
      the numeric day, and the long "day month year" text. */
  datatype HijriDate = HijriDate(month: int, day: int, text: string)

  /** The browser's Islamic calendar, as a function of the Gregorian day
      number (`Gregorian.DayNumber`). It is supplied by the caller and
      nothing is assumed about it. */
  type HijriCalendar = int -> HijriDate

  /** The five-day market-week cycle, in order. */
  const PASARAN_DAYS: seq<string> := ["Legi", "Pahing", "Pon", "Wage", "Kliwon"]

  /** The constant the source adds to the days since 1 Jan 1970. */
  const EPOCH: int := 719163

  const MS_PER_DAY: int := 86400000

  /** The UTC timestamp of the date's fields: milliseconds from 1 Jan 1970
      to that day's UTC midnight. `Date.UTC` reads years 0..99 as
      1900..1999 again. */
  function UtcMillis(date: CalendarDate): int
    requires 0 <= date.month < 12
  {
    (DayNumber(MakeFullYear(date.year), date.month, date.day) - EPOCH) * MS_PER_DAY
  }

  /** JavaScript's `%`: the remainder of truncating division, with the sign
      of the dividend. */
  function JsRem(a: int, b: int): (r: int)
    requires b > 0
    ensures -b < r < b
    ensures a == b * (if a >= 0 then a / b else -((-a) / b)) + r
    ensures a >= 0 ==> r >= 0
    ensures a <= 0 ==> r <= 0
  {
    if a >= 0 then a % b else -((-a) % b)
  }

  /** The cycle index: whole days since 1 Jan 1970, plus `EPOCH`, under
      JavaScript's remainder by 5. */
  function PasaranIndex(date: CalendarDate): int
    requires ValidDate(date)
  {
    JsRem(UtcMillis(date) / MS_PER_DAY + EPOCH, 5)
  }

  /** The name at the cycle index in `PASARAN_DAYS`; `None` is the
      `undefined` that a negative index gives. */
  function GetJavanesePasaran(date: CalendarDate): Option<string>
    requires ValidDate(date)
  {
    var i := PasaranIndex(date);
    if 0 <= i < |PASARAN_DAYS| then Some(PASARAN_DAYS[i]) else None
  }

  /** The formatted Hijri date of the cell's date. */
  function GetIslamicDate(date: CalendarDate, hijri: HijriCalendar): string
    requires 0 <= date.month < 12
  {
    hijri(Ordinal(date)).text
  }

  /** The annotation of one cell: the market day and the Hijri text's
      first space-free word. */
  datatype ExtraDateInfo = ExtraDateInfo(javanese: Option<string>, islamic: string)

  /** `getExtraDateInfo`: the date's market day and the Hijri text up to
      its first space. It takes no Hijri offset. */
  function GetExtraDateInfo(date: CalendarDate, hijri: HijriCalendar): (info: ExtraDateInfo)
    requires ValidDate(date)
    ensures info.javanese == GetJavanesePasaran(date)
    ensures info.islamic <= GetIslamicDate(date, hijri)
    ensures forall i :: 0 <= i < |info.islamic| ==> info.islamic[i] != ' '
    ensures ' ' !in GetIslamicDate(date, hijri) ==> info.islamic == GetIslamicDate(date, hijri)
    ensures ' ' in GetIslamicDate(date, hijri) ==> GetIslamicDate(date, hijri)[|info.islamic|] == ' '
  {
    var text := GetIslamicDate(date, hijri);
    ExtraDateInfo(GetJavanesePasaran(date), SplitOn(text, Char(' '))[0])
  }

  /** The market day after `name` in the cycle. */
  function NextPasaran(name: string): string
  {
    if name == "Legi" then "Pahing"
    else if name == "Pahing" then "Pon"
    else if name == "Pon" then "Wage"
    else if name == "Wage" then "Kliwon"
    else "Legi"
  }

  /** The index is the day count since the start of 1 CE (1 Jan 1 CE being
      day 1) under the truncating remainder: `Date.UTC` and the division by a
      day's milliseconds cancel, and the constant 719163 restores the count. */
  lemma PasaranIndexIsDayCount(date: CalendarDate)
    requires ValidDate(date)
    ensures PasaranIndex(date) == JsRem(DayNumber(MakeFullYear(date.year), date.month, date.day), 5)
  {
    var n := DayNumber(MakeFullYear(date.year), date.month, date.day);
    WholeDays(n - EPOCH);
    assert UtcMillis(date) / MS_PER_DAY + EPOCH == n;
  }

  /** Whole days of milliseconds divide back to the day count. */
  lemma WholeDays(days: int)
    ensures (days * MS_PER_DAY) / MS_PER_DAY == days
  {
    var x := days * MS_PER_DAY;
    assert x == 86400000 * days;
    assert x / 86400000 == days;
  }

  /** Every date in year 0 or later gets one of the five names; it is the
      day number taken mod 5. */
  lemma PasaranDefined(date: CalendarDate)
    requires ValidDate(date) && date.year >= 0
    ensures PasaranIndex(date) == DayNumber(MakeFullYear(date.year), date.month, date.day) % 5
    ensures GetJavanesePasaran(date).Some?
    ensures GetJavanesePasaran(date).value in PASARAN_DAYS
  {
    PasaranIndexIsDayCount(date);
    DayNumberPositive(MakeFullYear(date.year), date.month, date.day);
  }

  /** The name is `undefined` exactly for the dates before 1 CE whose day
      count is not a multiple of 5. */
  lemma PasaranUndefined(date: CalendarDate)
    requires ValidDate(date)
    ensures GetJavanesePasaran(date).None? <==>
      var n := DayNumber(MakeFullYear(date.year), date.month, date.day); n < 0 && n % 5 != 0
  {
    PasaranIndexIsDayCount(date);
    var n := DayNumber(MakeFullYear(date.year), date.month, date.day);
    NegativeRemainder(n);
  }

  /** The truncating remainder by 5 is negative exactly when the dividend is
      negative and not a multiple of 5. */
  lemma NegativeRemainder(n: int)
    ensures JsRem(n, 5) < 0 <==> n < 0 && n % 5 != 0
  {
    if n < 0 {
      var q := (-n) / 5;
      var r := (-n) % 5;
      assert -n == 5 * q + r;
      assert n == 5 * (-q - 1) + (5 - r) || r == 0;
      if r == 0 {
        assert n == 5 * (-q);
      } else {
        assert n % 5 == 5 - r;
      }
    }
  }

  /** From year 100 on, the name is `PASARAN_DAYS` at the day number mod 5. */
  lemma PasaranByDayNumber(date: CalendarDate)
    requires ValidDate(date) && date.year >= 100
    ensures GetJavanesePasaran(date) == Some(PASARAN_DAYS[Ordinal(date) % 5])
  {
    PasaranDefined(date);
  }

  /** On the next calendar day the name is the next one of the cycle,
      Kliwon wrapping to Legi. */
  lemma PasaranNextDay(date: CalendarDate)
    requires ValidDate(date) && date.year >= 100
    ensures GetJavanesePasaran(date).Some? && GetJavanesePasaran(NextDay(date)).Some?
    ensures GetJavanesePasaran(NextDay(date)).value == NextPasaran(GetJavanesePasaran(date).value)
  {
    var next := NextDay(date);
    PasaranByDayNumber(date);
    PasaranByDayNumber(next);
    NextDayNumber(date);
    CycleStep(Ordinal(date));
  }

  /** `NextPasaran` steps through `PASARAN_DAYS`, wrapping around. */
  lemma CycleStep(n: int)
    ensures NextPasaran(PASARAN_DAYS[n % 5]) == PASARAN_DAYS[(n + 1) % 5]
  {
    var k := n % 5;
    assert (n + 1) % 5 == (k + 1) % 5;
  }

  /** The five names are distinct. */
  lemma NamesDistinct(i: int, j: int)
    requires 0 <= i < 5 && 0 <= j < 5
    ensures PASARAN_DAYS[i] == PASARAN_DAYS[j] <==> i == j
  {
  }

  /** Two dates of year 100 or later share a market day exactly when their
      distance in days is a multiple of 5: the cycle has period 5 and no
      shorter one. */
  lemma PasaranPeriod(a: CalendarDate, b: CalendarDate)
    requires ValidDate(a) && a.year >= 100
    requires ValidDate(b) && b.year >= 100
    ensures GetJavanesePasaran(a) == GetJavanesePasaran(b) <==> (Ordinal(a) - Ordinal(b)) % 5 == 0
  {
    PasaranByDayNumber(a);
    PasaranByDayNumber(b);
    SameNameSameResidue(Ordinal(a), Ordinal(b));
  }

  lemma SameNameSameResidue(x: int, y: int)
    ensures PASARAN_DAYS[x % 5] == PASARAN_DAYS[y % 5] <==> (x - y) % 5 == 0
  {
    NamesDistinct(x % 5, y % 5);
    assert (x - y) % 5 == 0 <==> x % 5 == y % 5;
  }

  /** 17 August 1945 was a Legi; 1 January 1970 was a Wage. */
  lemma PasaranExamples()
    ensures GetJavanesePasaran(CalendarDate(1945, 7, 17)) == Some("Legi")
    ensures GetJavanesePasaran(CalendarDate(1970, 0, 1)) == Some("Wage")
  {
    PasaranDefined(CalendarDate(1945, 7, 17));
    PasaranDefined(CalendarDate(1970, 0, 1));
  }
}
