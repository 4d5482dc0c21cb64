/** What the calendar page drawer puts on the canvas, without the pixels:
    for each month its title, the seven weekday headers and the placement
    of every day of the month in a grid of six rows by seven columns, with
    the day's colour class and its market-day and Hijri annotations. */
module CanvasDrawer {
  import opened Options
  import opened Gregorian
  import opened JsText
  import opened CalendarConverter

  const DAY_NAMES: seq<string> := ["Sun", "Mon", "Tue", "Wed", "Thu", "Fri", "Sat"]

  const MONTH_NAMES: seq<string> := [
    "January", "February", "March", "April", "May", "June",
    "July", "August", "September", "October", "November", "December"
  ]

  /** The rows of the date grid: six weeks hold any month. */
  const ROWS: int := 6

  /** A weekday header: its text, and whether it gets the Sunday colour. */
  datatype Header = Header(name: string, sunday: bool)

  /** A placed day: grid row and column, the day of the month, whether the
      number gets the Sunday colour, and the annotation drawn in the
      cell's corners. */
  datatype Cell = Cell(row: int, col: int, day: int, sunday: bool, info: ExtraDateInfo)

  /** What one call of `drawMonth` draws. */
  datatype MonthDrawing = MonthDrawing(title: string, headers: seq<Header>, cells: seq<Cell>)

  /** A JavaScript integer as template-literal text: its decimal spelling,
      with a minus sign when negative. */
  function NumberText(n: int): (s: string)
    ensures s != []
  {
    if n < 0 then "-" + DecimalString(-n) else DecimalString(n)
  }

  /** The number in a title spells the year: its digits after an optional
      minus sign have the year's absolute value, the sign is there
      exactly for a negative year, and there is no leading zero. */
  lemma NumberTextSpellsYear(n: int)
    ensures NumberText(n)[0] == '-' <==> n < 0
    ensures n < 0 ==> DigitsValue(NumberText(n)[1..]) == -n
    ensures n >= 0 ==> DigitsValue(NumberText(n)) == n
    ensures n < 0 ==> NumberText(n)[1] != '0'
    ensures n >= 0 ==> (NumberText(n)[0] == '0' <==> n == 0)
  {
    if n < 0 {
      DecimalValue(-n);
      DecimalNoLeadingZero(-n);
      assert NumberText(n)[1..] == DecimalString(-n);
    } else {
      DecimalValue(n);
      DecimalNoLeadingZero(n);
      assert IsDigit(NumberText(n)[0]);
    }
  }

  /** `${MONTH_NAMES[month]} ${year}`. */
  function Title(year: int, month: int): string
    requires 0 <= month < 12
  {
    MONTH_NAMES[month] + " " + NumberText(year)
  }

  /** A title starts with its month's name. */
  lemma TitleStartsWithMonth(year: int, month: int)
    requires 0 <= month < 12
    ensures MONTH_NAMES[month] <= Title(year, month)
  {
    var name := MONTH_NAMES[month];
    assert Title(year, month) == name + (" " + NumberText(year));
    assert Title(year, month)[..|name|] == name;
  }

  /** The seven weekday headers, Sunday first and alone in red. */
  function DayHeaders(): (headers: seq<Header>)
    ensures |headers| == 7
    ensures forall i :: 0 <= i < 7 ==> headers[i].name == DAY_NAMES[i]
    ensures forall i :: 0 <= i < 7 ==> (headers[i].sunday <==> i == 0)
  {
    seq(7, i requires 0 <= i < 7 => Header(DAY_NAMES[i], i == 0))
  }

  /** One more header: the next day name, red when it is index 0. */
  lemma HeaderStep(i: int)
    requires 0 <= i < 7
    ensures DayHeaders()[..i + 1] == DayHeaders()[..i] + [Header(DAY_NAMES[i], i == 0)]
  {
    var h := DayHeaders();
    assert h[..i + 1] == h[..i] + [h[i]];
  }

  /** How many days are placed in the first `p` grid positions (row-major,
      `7 * row + col`), when the first day goes at position `first`. */
  function PlacedBefore(p: int, first: int, days: int): (n: int)
    requires 0 <= days
    ensures 0 <= n <= days
  {
    if p <= first then 0 else if p - first >= days then days else p - first
  }

  /** Moving one grid position on: the count grows by one exactly at the
      positions that hold a day. */
  lemma PlacedStep(p: int, first: int, days: int)
    requires 0 <= days
    ensures first <= p < first + days ==>
      PlacedBefore(p, first, days) == p - first && PlacedBefore(p + 1, first, days) == p - first + 1
    ensures !(first <= p < first + days) ==> PlacedBefore(p + 1, first, days) == PlacedBefore(p, first, days)
  {
  }

  /** The loop skips a cell when it is in the first row left of the first
      weekday, or when the counter has passed the month's last day; that
      happens exactly at the positions before the first day and after the
      last. */
  lemma EmptyCellTest(row: int, col: int, first: int, days: int, currentDay: int)
    requires 0 <= row && 0 <= col < 7 && 0 <= first < 7 && 0 <= days
    requires currentDay - 1 == PlacedBefore(7 * row + col, first, days)
    ensures ((row == 0 && col < first) || currentDay > days) <==> !(first <= 7 * row + col < first + days)
  {
  }

  /** The cell at grid position `7 * row + col` holding day `d`, as the
      loop draws it, is the `d`-th placed cell. */
  lemma CellAtPosition(year: int, month: int, hijri: HijriCalendar, row: int, col: int, d: int)
    requires 0 <= month < 12 && 0 <= row && 0 <= col < 7
    requires 1 <= d <= DaysInMonth(MakeFullYear(year), month)
    requires 7 * row + col == DayOfWeek(MakeFullYear(year), month, 1) + d - 1
    ensures MonthCells(year, month, hijri)[d - 1] ==
      Cell(row, col, d, col == 0, GetExtraDateInfo(CalendarDate(MakeFullYear(year), month, d), hijri))
  {
    var y := MakeFullYear(year);
    GridPosition(row, col);
    assert MonthCells(year, month, hijri)[d - 1] == DayCell(y, month, DayOfWeek(y, month, 1), d, hijri);
  }

  /** Row and column of grid position `7 * row + col`. */
  lemma GridPosition(row: int, col: int)
    requires 0 <= row && 0 <= col < 7
    ensures (7 * row + col) / 7 == row && (7 * row + col) % 7 == col
  {
  }

  lemma PrefixSnoc(s: seq<Cell>, n: int)
    requires 0 < n <= |s|
    ensures s[..n] == s[..n - 1] + [s[n - 1]]
  {
  }

  /** The cell of day `d`, placed at grid position `first + d - 1`. */
  function DayCell(y: int, month: int, first: int, d: int, hijri: HijriCalendar): Cell
    requires ValidDate(CalendarDate(y, month, d))
  {
    var p := first + d - 1;
    Cell(p / 7, p % 7, d, p % 7 == 0, GetExtraDateInfo(CalendarDate(y, month, d), hijri))
  }

  /** The placement of the month's days in order: day `d` goes to grid
      position `firstDayOfWeek + d - 1`. `new Date(year, month, d)` reads a
      year 0..99 as 1900..1999, and so does the drawing. */
  function MonthCells(year: int, month: int, hijri: HijriCalendar): (cells: seq<Cell>)
    requires 0 <= month < 12
    ensures |cells| == DaysInMonth(MakeFullYear(year), month)
  {
    var y := MakeFullYear(year);
    var first := DayOfWeek(y, month, 1);
    var days := DaysInMonth(y, month);
    seq(days, k requires 0 <= k < days => DayCell(y, month, first, k + 1, hijri))
  }

  /** What `drawMonth` should draw for the month. */
  function MonthView(year: int, month: int, hijri: HijriCalendar): MonthDrawing
    requires 0 <= month < 12
  {
    MonthDrawing(Title(year, month), DayHeaders(), MonthCells(year, month, hijri))
  }

  /** Step 2 of `drawMonth`: the loop over `DAY_NAMES`. */
  method DrawDayHeaders() returns (headers: seq<Header>)
    ensures headers == DayHeaders()
  {
    headers := [];
    for i := 0 to |DAY_NAMES|
      invariant headers == DayHeaders()[..i]
    {
      HeaderStep(i);
      headers := headers + [Header(DAY_NAMES[i], i == 0)];
    }
  }

  /** `drawMonth`: the title, the header loop and the 6 x 7 grid loop with
      its `currentDay` counter. */
  method DrawMonth(year: int, month: int, hijri: HijriCalendar) returns (drawing: MonthDrawing)
    requires 0 <= month < 12
    ensures drawing == MonthView(year, month, hijri)
  {
    var title := Title(year, month);

    var headers := DrawDayHeaders();

    var fullYear := MakeFullYear(year);
    var daysInMonth := DaysInMonth(fullYear, month);
    var firstDayOfWeek := DayOfWeek(fullYear, month, 1);
    ghost var expected := MonthCells(year, month, hijri);

    var cells: seq<Cell> := [];
    var currentDay := 1;
    for row := 0 to ROWS
      invariant currentDay - 1 == PlacedBefore(7 * row, firstDayOfWeek, daysInMonth)
      invariant |expected| == daysInMonth && 0 <= firstDayOfWeek < 7
      invariant cells == expected[..currentDay - 1]
    {
      for col := 0 to 7
        invariant currentDay - 1 == PlacedBefore(7 * row + col, firstDayOfWeek, daysInMonth)
        invariant |expected| == daysInMonth && 0 <= firstDayOfWeek < 7
        invariant cells == expected[..currentDay - 1]
      {
        EmptyCellTest(row, col, firstDayOfWeek, daysInMonth, currentDay);
        PlacedStep(7 * row + col, firstDayOfWeek, daysInMonth);
        if (row == 0 && col < firstDayOfWeek) || currentDay > daysInMonth {
          continue;
        }
        var date := CalendarDate(fullYear, month, currentDay);
        var extraInfo := GetExtraDateInfo(date, hijri);
        CellAtPosition(year, month, hijri, row, col, currentDay);
        PrefixSnoc(expected, currentDay);
        cells := cells + [Cell(row, col, currentDay, col == 0, extraInfo)];
        currentDay := currentDay + 1;
      }
    }
    assert cells == expected;
    drawing := MonthDrawing(title, headers, cells);
  }

  /** `drawCalendarPage`: the months `startMonth`, `startMonth + 1` and
      `startMonth + 2`, left to right. */
  method DrawCalendarPage(year: int, startMonth: int, hijri: HijriCalendar) returns (months: seq<MonthDrawing>)
    requires 0 <= startMonth && startMonth + 2 < 12
    ensures |months| == 3
    ensures forall i :: 0 <= i < 3 ==> months[i] == MonthView(year, startMonth + i, hijri)
  {
    months := [];
    for i := 0 to 3
      invariant |months| == i
      invariant forall j :: 0 <= j < i ==> months[j] == MonthView(year, startMonth + j, hijri)
    {
      var currentMonth := startMonth + i;
      var drawing := DrawMonth(year, currentMonth, hijri);
      months := months + [drawing];
    }
  }

  /** Each day of the month is placed once, in increasing order: the k-th
      placed cell holds day k + 1, and grid positions strictly increase. */
  lemma DaysPlacedInOrder(year: int, month: int, hijri: HijriCalendar)
    requires 0 <= month < 12
    ensures var cells := MonthCells(year, month, hijri);
      (forall k :: 0 <= k < |cells| ==> cells[k].day == k + 1)
      && (forall i, j :: 0 <= i < j < |cells| ==>
            7 * cells[i].row + cells[i].col < 7 * cells[j].row + cells[j].col)
  {
    var cells := MonthCells(year, month, hijri);
    forall k | 0 <= k < |cells|
      ensures 7 * cells[k].row + cells[k].col == DayOfWeek(MakeFullYear(year), month, 1) + k
    {
    }
  }

  /** Day `d` is in the column of its weekday (0 = Sunday), and in the row
      `(firstDayOfWeek + d - 1) div 7`. */
  lemma CellColumnIsWeekday(year: int, month: int, hijri: HijriCalendar, k: int)
    requires 0 <= month < 12
    requires 0 <= k < |MonthCells(year, month, hijri)|
    ensures var c := MonthCells(year, month, hijri)[k];
      var y := MakeFullYear(year);
      c.col == DayOfWeek(y, month, k + 1)
      && c.row == (DayOfWeek(y, month, 1) + k) / 7
  {
    var y := MakeFullYear(year);
    var first := DayOfWeek(y, month, 1);
    var c := MonthCells(year, month, hijri)[k];
    assert c == DayCell(y, month, first, k + 1, hijri);
    assert c.col == (first + k) % 7 && c.row == (first + k) / 7;
    WeekdayInMonth(y, month, k + 1);
  }

  /** Six rows always suffice: the first day is at most in column 6 and a
      month has at most 31 days, so the last position is at most 36. */
  lemma SixRowsSuffice(year: int, month: int, hijri: HijriCalendar)
    requires 0 <= month < 12
    ensures forall c :: c in MonthCells(year, month, hijri) ==> 0 <= c.row < ROWS && 0 <= c.col < 7
  {
    var cells := MonthCells(year, month, hijri);
    forall k | 0 <= k < |cells|
      ensures 0 <= cells[k].row < ROWS
    {
      assert 0 <= DayOfWeek(MakeFullYear(year), month, 1) + k <= 36;
    }
  }

  /** A grid cell is drawn exactly when its position lies between the
      first and the last day: the cells of row 0 before `firstDayOfWeek`
      and those after the last day stay empty. */
  lemma OccupiedCells(year: int, month: int, hijri: HijriCalendar, row: int, col: int)
    requires 0 <= month < 12
    requires 0 <= row < ROWS && 0 <= col < 7
    ensures var y := MakeFullYear(year);
      var first := DayOfWeek(y, month, 1);
      var cells := MonthCells(year, month, hijri);
      (exists k :: 0 <= k < |cells| && cells[k].row == row && cells[k].col == col)
        <==> first <= 7 * row + col < first + DaysInMonth(y, month)
  {
    var y := MakeFullYear(year);
    var first := DayOfWeek(y, month, 1);
    var cells := MonthCells(year, month, hijri);
    var p := 7 * row + col;
    if first <= p < first + DaysInMonth(y, month) {
      var k := p - first;
      CellPlace(year, month, hijri, k);
      assert p / 7 == row && p % 7 == col;
    }
    forall k | 0 <= k < |cells| && cells[k].row == row && cells[k].col == col
      ensures first <= p < first + DaysInMonth(y, month)
    {
      CellPlace(year, month, hijri, k);
      assert first + k == 7 * ((first + k) / 7) + (first + k) % 7;
    }
  }

  /** The `k`-th cell sits at grid position `first + k`. */
  lemma CellPlace(year: int, month: int, hijri: HijriCalendar, k: int)
    requires 0 <= month < 12
    requires 0 <= k < DaysInMonth(MakeFullYear(year), month)
    ensures var p := DayOfWeek(MakeFullYear(year), month, 1) + k;
      var c := MonthCells(year, month, hijri)[k];
      c.row == p / 7 && c.col == p % 7
  {
  }

  /** A day number is red exactly when it falls on a Sunday, which is the
      column under the red "Sun" header. */
  lemma SundayColour(year: int, month: int, hijri: HijriCalendar, k: int)
    requires 0 <= month < 12
    requires 0 <= k < |MonthCells(year, month, hijri)|
    ensures var c := MonthCells(year, month, hijri)[k];
      (c.sunday <==> DayOfWeek(MakeFullYear(year), month, k + 1) == 0)
      && c.sunday == DayHeaders()[c.col].sunday
  {
    CellColumnIsWeekday(year, month, hijri, k);
  }

  /** Each cell's corners show the market day of its own date and a prefix
      of that date's Hijri text. */
  lemma CellAnnotation(year: int, month: int, hijri: HijriCalendar, k: int)
    requires 0 <= month < 12
    requires 0 <= k < |MonthCells(year, month, hijri)|
    ensures var c := MonthCells(year, month, hijri)[k];
      var date := CalendarDate(MakeFullYear(year), month, k + 1);
      c.info.javanese == GetJavanesePasaran(date)
      && c.info.islamic <= GetIslamicDate(date, hijri)
    ensures MonthCells(year, month, hijri)[k].info
         == GetExtraDateInfo(CalendarDate(MakeFullYear(year), month, k + 1), hijri)
  {
    CellInfo(year, month, hijri, k);
  }

  /** The `k`-th cell carries the annotation of day `k + 1`. */
  lemma CellInfo(year: int, month: int, hijri: HijriCalendar, k: int)
    requires 0 <= month < 12
    requires 0 <= k < |MonthCells(year, month, hijri)|
    ensures MonthCells(year, month, hijri)[k].info
         == GetExtraDateInfo(CalendarDate(MakeFullYear(year), month, k + 1), hijri)
  {
    var y := MakeFullYear(year);
    assert MonthCells(year, month, hijri)[k] == DayCell(y, month, DayOfWeek(y, month, 1), k + 1, hijri);
  }

  /** The page shows its three months in order, each titled with its own
      month name. */
  lemma PageMonthsInOrder(year: int, startMonth: int, hijri: HijriCalendar, months: seq<MonthDrawing>)
    requires 0 <= startMonth && startMonth + 2 < 12
    requires |months| == 3
    requires forall i :: 0 <= i < 3 ==> months[i] == MonthView(year, startMonth + i, hijri)
    ensures forall i :: 0 <= i < 3 ==> MONTH_NAMES[startMonth + i] <= months[i].title
    ensures forall i :: 0 <= i < 3 ==>
      |months[i].cells| == DaysInMonth(MakeFullYear(year), startMonth + i)
  {
    forall i | 0 <= i < 3
      ensures MONTH_NAMES[startMonth + i] <= months[i].title
    {
      TitleStartsWithMonth(year, startMonth + i);
    }
  }
}
