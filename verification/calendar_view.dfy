/**
 The visual calendar: for every year of the range and every month 1..12,
 one panel of the days of that month that lie in [start, end), each day
 coloured red (holiday), light gray (weekend) or green (business day).
 Months with no day in range get no panel. Plotting is not modelled: a
 panel keeps the day ordinals and colours it would plot.
 */
module CalendarView {
  import opened CivilCalendar
  import opened BusinessDays

  datatype Colour = Red | LightGray | Green

  /** One bar of a month's chart. */
  datatype Cell = Cell(date: Date, colour: Colour)

  /** One month's chart, titled `year - month`. */
  datatype Panel = Panel(year: int, month: int, cells: seq<Cell>)

  /**
   A holiday is red whatever its weekday; otherwise a weekend day is light
   gray and any other day green.
   */
  function Classify(d: Date, holidays: Holidays): (c: Colour)
    ensures c == Red <==> d in holidays
    ensures c == LightGray <==> d !in holidays && !IsWeekday(d)
    ensures c == Green <==> IsBusinessDay(d, holidays)
  {
    if d in holidays then Red
    else if Weekday(d) >= 5 then LightGray
    else Green
  }

  /**
   Reference: the cells of the days of [lo, hi) that lie in [start, end), in
   date order.
   */
  function RangeCells(lo: Date, hi: Date, start: Date, end: Date, holidays: Holidays): (r: seq<Cell>)
    decreases hi - lo
  {
    if hi <= lo then []
    else
      (if start <= lo < end then [Cell(lo, Classify(lo, holidays))] else [])
        + RangeCells(lo + 1, hi, start, end, holidays)
  }

  /** The loop `for dia in range(1, monthrange(y, m)[1] + 1)`, from day `day` on, skipping days out of range. */
  function DayCells(y: int, m: int, day: int, start: Date, end: Date, holidays: Holidays): (r: seq<Cell>)
    requires y >= 1 && 1 <= m <= 12 && day >= 1
    decreases DaysInMonth(y, m) + 1 - day
  {
    if day > DaysInMonth(y, m) then []
    else
      var d := ToOrdinal(Civil(y, m, day));
      (if d < start || d >= end then [] else [Cell(d, Classify(d, holidays))])
        + DayCells(y, m, day + 1, start, end, holidays)
  }

  /** The panels of months `month..12` of year `y`: one per month that has a day in range. */
  function YearPanels(y: int, month: int, start: Date, end: Date, holidays: Holidays): (r: seq<Panel>)
    requires y >= 1 && 1 <= month <= 13
    decreases 13 - month
  {
    if month > 12 then []
    else
      var cells := DayCells(y, month, 1, start, end, holidays);
      (if |cells| > 0 then [Panel(y, month, cells)] else [])
        + YearPanels(y, month + 1, start, end, holidays)
  }

  /** The panels of years `lo..hi-1`, year by year. */
  function CalendarPanels(lo: int, hi: int, start: Date, end: Date, holidays: Holidays): (r: seq<Panel>)
    requires lo >= 1
    decreases hi - lo
  {
    if hi <= lo then []
    else YearPanels(lo, 1, start, end, holidays) + CalendarPanels(lo + 1, hi, start, end, holidays)
  }

  /**
   The whole calendar for the range: the panels of the years from the year
   of `start` to the year of `end`, the years `Years.YearSpan` lists. It
   shows every day of [start, end) once, in date order, and nothing else.
   */
  function View(start: Date, end: Date, holidays: Holidays): (r: seq<Panel>)
    requires start >= 1 && end >= 1
    ensures Flatten(r) == RangeCells(start, end, start, end, holidays)
  {
    var ys, ye := YearOf(start), YearOf(end);
    YearSpanPanelsAreRange(start, end, ys, ye, holidays);
    CalendarPanels(ys, ye + 1, start, end, holidays)
  }

  /** All cells of a panel list, panel by panel. */
  function Flatten(panels: seq<Panel>): seq<Cell>
    decreases |panels|
  {
    if |panels| == 0 then [] else panels[0].cells + Flatten(panels[1..])
  }

  /** The number of green cells. */
  function GreenCount(cells: seq<Cell>): nat
    decreases |cells|
  {
    if |cells| == 0 then 0
    else (if cells[0].colour == Green then 1 else 0) + GreenCount(cells[1..])
  }

  lemma {:induction false} FlattenAppend(a: seq<Panel>, b: seq<Panel>)
    ensures Flatten(a + b) == Flatten(a) + Flatten(b)
    decreases |a|
  {
    if |a| > 0 {
      assert (a + b)[0] == a[0];
      assert (a + b)[1..] == a[1..] + b;
      FlattenAppend(a[1..], b);
    } else {
      assert a + b == b;
    }
  }

  lemma {:induction false} GreenCountAppend(a: seq<Cell>, b: seq<Cell>)
    ensures GreenCount(a + b) == GreenCount(a) + GreenCount(b)
    decreases |a|
  {
    if |a| > 0 {
      assert (a + b)[0] == a[0];
      assert (a + b)[1..] == a[1..] + b;
      GreenCountAppend(a[1..], b);
    } else {
      assert a + b == b;
    }
  }

  lemma {:induction false} RangeCellsSplit(a: Date, m: Date, b: Date, start: Date, end: Date, holidays: Holidays)
    requires a <= m <= b
    ensures RangeCells(a, b, start, end, holidays) == RangeCells(a, m, start, end, holidays) + RangeCells(m, b, start, end, holidays)
    decreases m - a
  {
    if a < m {
      RangeCellsSplit(a + 1, m, b, start, end, holidays);
    }
  }

  lemma {:induction false} RangeCellsOutside(a: Date, b: Date, start: Date, end: Date, holidays: Holidays)
    requires b <= start || end <= a || end <= start
    ensures RangeCells(a, b, start, end, holidays) == []
    decreases b - a
  {
    if a < b {
      RangeCellsOutside(a + 1, b, start, end, holidays);
    }
  }

  /** Days before `start` and from `end` on contribute nothing. */
  lemma RangeCellsClip(a: Date, b: Date, start: Date, end: Date, holidays: Holidays)
    requires a <= start && end <= b
    ensures RangeCells(a, b, start, end, holidays) == RangeCells(start, end, start, end, holidays)
  {
    if end <= start {
      RangeCellsOutside(a, b, start, end, holidays);
      RangeCellsOutside(start, end, start, end, holidays);
    } else {
      RangeCellsSplit(a, start, b, start, end, holidays);
      RangeCellsSplit(start, end, b, start, end, holidays);
      RangeCellsOutside(a, start, start, end, holidays);
      RangeCellsOutside(end, b, start, end, holidays);
    }
  }

  /** Over the range itself, there is one cell per day, in order. */
  lemma {:induction false} RangeCellsFull(lo: Date, start: Date, end: Date, holidays: Holidays)
    requires start <= lo
    ensures |RangeCells(lo, end, start, end, holidays)| == if end <= lo then 0 else end - lo
    ensures forall i :: 0 <= i < |RangeCells(lo, end, start, end, holidays)| ==>
              RangeCells(lo, end, start, end, holidays)[i] == Cell(lo + i, Classify(lo + i, holidays))
    decreases end - lo
  {
    if lo < end {
      RangeCellsFull(lo + 1, start, end, holidays);
    }
  }

  /** The green cells of the range are its business days. */
  lemma {:induction false} GreenCountIsBusinessDays(lo: Date, hi: Date, start: Date, end: Date, holidays: Holidays)
    requires start <= lo && hi <= end
    ensures GreenCount(RangeCells(lo, hi, start, end, holidays)) == CountBusinessDays(lo, hi, holidays)
    decreases hi - lo
  {
    if lo < hi {
      var c := Cell(lo, Classify(lo, holidays));
      GreenCountIsBusinessDays(lo + 1, hi, start, end, holidays);
      GreenCountAppend([c], RangeCells(lo + 1, hi, start, end, holidays));
      assert GreenCount([c]) == if c.colour == Green then 1 else 0;
    }
  }

  /** A month's day loop yields the cells of that month's ordinals from day `day` on. */
  lemma DayCellsAreRange(y: int, m: int, day: int, start: Date, end: Date, holidays: Holidays)
    requires y >= 1 && 1 <= m <= 12 && 1 <= day <= DaysInMonth(y, m) + 1
    ensures DayCells(y, m, day, start, end, holidays)
         == RangeCells(DaysBeforeYear(y) + DaysBeforeMonth(y, m) + day,
                       DaysBeforeYear(y) + DaysBeforeMonth(y, m) + DaysInMonth(y, m) + 1,
                       start, end, holidays)
  {
    DayCellsFrom(y, m, day, DaysBeforeYear(y) + DaysBeforeMonth(y, m), DaysInMonth(y, m), start, end, holidays);
  }

  /** The same, with the ordinal of the day before the month's first as `base` and the month's length as `len`. */
  lemma {:induction false} DayCellsFrom(y: int, m: int, day: int, base: int, len: int, start: Date, end: Date, holidays: Holidays)
    requires y >= 1 && 1 <= m <= 12
    requires base == DaysBeforeYear(y) + DaysBeforeMonth(y, m) && len == DaysInMonth(y, m)
    requires 1 <= day <= len + 1
    ensures DayCells(y, m, day, start, end, holidays) == RangeCells(base + day, base + len + 1, start, end, holidays)
    decreases len + 1 - day
  {
    if day <= len {
      DayCellsFrom(y, m, day + 1, base, len, start, end, holidays);
      DayCellsStep(y, m, day, base, len, start, end, holidays);
    }
  }

  /** Day `day` of the month contributes the cell of its own ordinal, and the loop carries on with the next day. */
  lemma DayCellsStep(y: int, m: int, day: int, base: int, len: int, start: Date, end: Date, holidays: Holidays)
    requires y >= 1 && 1 <= m <= 12
    requires base == DaysBeforeYear(y) + DaysBeforeMonth(y, m) && len == DaysInMonth(y, m)
    requires 1 <= day <= len
    requires DayCells(y, m, day + 1, start, end, holidays) == RangeCells(base + day + 1, base + len + 1, start, end, holidays)
    ensures DayCells(y, m, day, start, end, holidays) == RangeCells(base + day, base + len + 1, start, end, holidays)
  {
    assert ToOrdinal(Civil(y, m, day)) == base + day;
  }

  /** A month panel list flattens to the month's cells followed by the later months' cells. */
  lemma YearPanelsUnfold(y: int, month: int, start: Date, end: Date, holidays: Holidays)
    requires y >= 1 && 1 <= month <= 12
    ensures Flatten(YearPanels(y, month, start, end, holidays))
         == DayCells(y, month, 1, start, end, holidays) + Flatten(YearPanels(y, month + 1, start, end, holidays))
  {
    var cells := DayCells(y, month, 1, start, end, holidays);
    var head := if |cells| > 0 then [Panel(y, month, cells)] else [];
    var tail := YearPanels(y, month + 1, start, end, holidays);
    assert YearPanels(y, month, start, end, holidays) == head + tail;
    FlattenAppend(head, tail);
    if |cells| > 0 {
      assert Flatten(head) == cells + Flatten([]);
    } else {
      assert Flatten(head) == [];
    }
  }

  /** Two adjacent stretches of cells make up the stretch over their union. */
  lemma JoinRanges(x: seq<Cell>, y: seq<Cell>, first: Date, mid: Date, last: Date, start: Date, end: Date, holidays: Holidays)
    requires first <= mid <= last
    requires x == RangeCells(first, mid, start, end, holidays)
    requires y == RangeCells(mid, last, start, end, holidays)
    ensures x + y == RangeCells(first, last, start, end, holidays)
  {
    RangeCellsSplit(first, mid, last, start, end, holidays);
  }

  /**
   The panels of months `month..12` hold the cells of the rest of year `y`,
   the ordinals from `first` (the first of month `month`) up to `last` (the
   first of January of the next year).
   */
  lemma {:induction false} YearPanelsAreRange(y: int, month: int, first: Date, last: Date, start: Date, end: Date, holidays: Holidays)
    requires y >= 1 && 1 <= month <= 13
    requires first == DaysBeforeYear(y) + DaysBeforeMonth(y, month) + 1
    requires last == DaysBeforeYear(y) + DaysInYear(y) + 1
    ensures Flatten(YearPanels(y, month, start, end, holidays)) == RangeCells(first, last, start, end, holidays)
    decreases 13 - month
  {
    if month <= 12 {
      var mid := DaysBeforeYear(y) + DaysBeforeMonth(y, month + 1) + 1;
      YearPanelsAreRange(y, month + 1, mid, last, start, end, holidays);
      MonthPanelThenRest(y, month, first, mid, last, start, end, holidays);
    } else {
      MonthsTileYear(y, 12);
      assert first == last;
    }
  }

  /** The panel of month `month` followed by the later months' panels covers the month's days and then the rest of the year. */
  lemma MonthPanelThenRest(y: int, month: int, first: Date, mid: Date, last: Date, start: Date, end: Date, holidays: Holidays)
    requires y >= 1 && 1 <= month <= 12
    requires first == DaysBeforeYear(y) + DaysBeforeMonth(y, month) + 1
    requires mid == DaysBeforeYear(y) + DaysBeforeMonth(y, month + 1) + 1
    requires last == DaysBeforeYear(y) + DaysInYear(y) + 1
    requires Flatten(YearPanels(y, month + 1, start, end, holidays)) == RangeCells(mid, last, start, end, holidays)
    ensures Flatten(YearPanels(y, month, start, end, holidays)) == RangeCells(first, last, start, end, holidays)
  {
    MonthsTileYear(y, month);
    MonthsBeforeIncreasing(y, month + 1, 13);
    var x := DayCells(y, month, 1, start, end, holidays);
    var rest := Flatten(YearPanels(y, month + 1, start, end, holidays));
    YearPanelsUnfold(y, month, start, end, holidays);
    DayCellsAreRange(y, month, 1, start, end, holidays);
    JoinRanges(x, rest, first, mid, last, start, end, holidays);
  }

  /** The first of January of consecutive listed years, in order. */
  lemma YearStartsOrdered(lo: int, hi: int)
    requires 1 <= lo < hi
    ensures DaysBeforeYear(lo + 1) == DaysBeforeYear(lo) + DaysInYear(lo)
    ensures DaysBeforeYear(lo) + 1 <= DaysBeforeYear(lo + 1) + 1 <= DaysBeforeYear(hi) + 1
  {
    if lo + 1 < hi {
      DaysBeforeYearStrictlyIncreasing(lo + 1, hi);
    }
  }

  /** The panels of years `lo..hi-1` hold the cells of all their days, from `first` to `last`. */
  lemma {:induction false} CalendarPanelsAreRange(lo: int, hi: int, first: Date, last: Date, start: Date, end: Date, holidays: Holidays)
    requires 1 <= lo <= hi
    requires first == DaysBeforeYear(lo) + 1 && last == DaysBeforeYear(hi) + 1
    ensures Flatten(CalendarPanels(lo, hi, start, end, holidays)) == RangeCells(first, last, start, end, holidays)
    decreases hi - lo
  {
    if lo < hi {
      var mid := DaysBeforeYear(lo + 1) + 1;
      CalendarPanelsAreRange(lo + 1, hi, mid, last, start, end, holidays);
      YearThenLaterYears(lo, hi, first, mid, last, start, end, holidays);
    }
  }

  /** The panels of year `lo` followed by those of the later years cover the days of year `lo` and then the rest. */
  lemma YearThenLaterYears(lo: int, hi: int, first: Date, mid: Date, last: Date, start: Date, end: Date, holidays: Holidays)
    requires 1 <= lo < hi
    requires first == DaysBeforeYear(lo) + 1 && mid == DaysBeforeYear(lo + 1) + 1 && last == DaysBeforeYear(hi) + 1
    requires Flatten(CalendarPanels(lo + 1, hi, start, end, holidays)) == RangeCells(mid, last, start, end, holidays)
    ensures Flatten(CalendarPanels(lo, hi, start, end, holidays)) == RangeCells(first, last, start, end, holidays)
  {
    YearStartsOrdered(lo, hi);
    MonthsTileYear(lo, 1);
    var yearPanels := YearPanels(lo, 1, start, end, holidays);
    var later := CalendarPanels(lo + 1, hi, start, end, holidays);
    FlattenAppend(yearPanels, later);
    YearPanelsAreRange(lo, 1, first, mid, start, end, holidays);
    JoinRanges(Flatten(yearPanels), Flatten(later), first, mid, last, start, end, holidays);
  }

  /** The panels of years `ys..ye` show exactly the days of a range that starts in `ys` and ends in `ye`. */
  lemma ForwardPanelsAreRange(ys: int, ye: int, first: Date, last: Date, start: Date, end: Date, holidays: Holidays)
    requires 1 <= ys <= ye
    requires first == DaysBeforeYear(ys) + 1 && last == DaysBeforeYear(ye + 1) + 1
    requires first <= start && end <= last
    ensures Flatten(CalendarPanels(ys, ye + 1, start, end, holidays)) == RangeCells(start, end, start, end, holidays)
  {
    CalendarPanelsAreRange(ys, ye + 1, first, last, start, end, holidays);
    RangeCellsClip(first, last, start, end, holidays);
  }

  /** The panels of the years from the year of `start` to the year of `end` show exactly the days of [start, end). */
  lemma YearSpanPanelsAreRange(start: Date, end: Date, ys: int, ye: int, holidays: Holidays)
    requires start >= 1 && end >= 1
    requires ys == YearOf(start) && ye == YearOf(end)
    ensures Flatten(CalendarPanels(ys, ye + 1, start, end, holidays)) == RangeCells(start, end, start, end, holidays)
  {
    if ys <= ye {
      var first, last := DaysBeforeYear(ys) + 1, DaysBeforeYear(ye + 1) + 1;
      assert first <= start && end <= last;
      ForwardPanelsAreRange(ys, ye, first, last, start, end, holidays);
    } else {
      if start <= end {
        YearOfMonotonic(start, end);
      }
      assert CalendarPanels(ys, ye + 1, start, end, holidays) == [];
      RangeCellsOutside(start, end, start, end, holidays);
    }
  }

  /**
   The calendar shows every day of [start, end) once, in date order and
   with its colour, and nothing else; its green days are exactly the
   business days the counter counts.
   */
  lemma ViewShowsRange(start: Date, end: Date, holidays: Holidays)
    requires start >= 1 && end >= 1
    ensures |Flatten(View(start, end, holidays))| == if end <= start then 0 else end - start
    ensures forall i :: 0 <= i < |Flatten(View(start, end, holidays))| ==>
              Flatten(View(start, end, holidays))[i] == Cell(start + i, Classify(start + i, holidays))
    ensures GreenCount(Flatten(View(start, end, holidays))) == CountBusinessDays(start, end, holidays)
  {
    RangeCellsFull(start, start, end, holidays);
    GreenCountIsBusinessDays(start, end, start, end, holidays);
  }

  /** Ordinal `d` is a day of month `m` of year `y`. */
  predicate InMonth(d: Date, y: int, m: int)
    requires y >= 1 && 1 <= m <= 12
  {
    DaysBeforeYear(y) + DaysBeforeMonth(y, m) < d <= DaysBeforeYear(y) + DaysBeforeMonth(y, m) + DaysInMonth(y, m)
  }

  /**
   Every panel belongs to a year of [lo, hi), names a month, shows at least
   one day, and every day it shows is a day of the month it names.
   */
  predicate PanelsWithin(panels: seq<Panel>, lo: int, hi: int)
    requires lo >= 1
  {
    forall i :: 0 <= i < |panels| ==>
      lo <= panels[i].year < hi && 1 <= panels[i].month <= 12 && |panels[i].cells| > 0
      && forall j :: 0 <= j < |panels[i].cells| ==> InMonth(panels[i].cells[j].date, panels[i].year, panels[i].month)
  }

  lemma PanelsWithinAppend(a: seq<Panel>, b: seq<Panel>, lo: int, hi: int)
    requires lo >= 1
    requires PanelsWithin(a, lo, hi) && PanelsWithin(b, lo, hi)
    ensures PanelsWithin(a + b, lo, hi)
  {
    forall i | 0 <= i < |a + b|
      ensures (a + b)[i] == if i < |a| then a[i] else b[i - |a|]
    {
    }
  }

  /** Every cell of a stretch lies in the stretch. */
  lemma {:induction false} RangeCellsDates(lo: Date, hi: Date, start: Date, end: Date, holidays: Holidays)
    ensures forall j :: 0 <= j < |RangeCells(lo, hi, start, end, holidays)| ==>
              lo <= RangeCells(lo, hi, start, end, holidays)[j].date < hi
    decreases hi - lo
  {
    if lo < hi {
      RangeCellsDates(lo + 1, hi, start, end, holidays);
    }
  }

  /** A month's day loop shows only days of that month. */
  lemma MonthCellsInMonth(y: int, m: int, start: Date, end: Date, holidays: Holidays)
    requires y >= 1 && 1 <= m <= 12
    ensures forall j :: 0 <= j < |DayCells(y, m, 1, start, end, holidays)| ==>
              InMonth(DayCells(y, m, 1, start, end, holidays)[j].date, y, m)
  {
    DayCellsAreRange(y, m, 1, start, end, holidays);
    RangeCellsDates(DaysBeforeYear(y) + DaysBeforeMonth(y, m) + 1,
                    DaysBeforeYear(y) + DaysBeforeMonth(y, m) + DaysInMonth(y, m) + 1, start, end, holidays);
  }

  /**
   The panels of months `month..12` all belong to year `y`, each names a month
   and shows at least one day, and only days of that month: a month with no
   day in range gets no panel.
   */
  lemma {:induction false} YearPanelsShape(y: int, month: int, start: Date, end: Date, holidays: Holidays)
    requires y >= 1 && 1 <= month <= 13
    ensures PanelsWithin(YearPanels(y, month, start, end, holidays), y, y + 1)
    decreases 13 - month
  {
    if month <= 12 {
      var cells := DayCells(y, month, 1, start, end, holidays);
      var head := if |cells| > 0 then [Panel(y, month, cells)] else [];
      MonthCellsInMonth(y, month, start, end, holidays);
      YearPanelsShape(y, month + 1, start, end, holidays);
      PanelsWithinAppend(head, YearPanels(y, month + 1, start, end, holidays), y, y + 1);
    }
  }
}
