/**
 The fixed range of the second mode, from 2025-08-01 to 2025-12-31, worked
 through with three of the 2025 holidays in it: one on a Sunday and two on
 weekdays.
 */
module SecondTerm {
  import opened CivilCalendar
  import opened BusinessDays
  import opened AsWritten

  const TermStart: Date := 739464
  const TermEnd: Date := 739616

  /** Sunday 2025-10-12, Friday 2025-11-21 and Monday 2025-12-08; the names are only labels. */
  function TermHolidays(): Holidays
  {
    map[739536 := "Día del Respeto a la Diversidad Cultural"]
       [739576 := "Feriado con fines turísticos"]
       [739593 := "Inmaculada Concepción de María"]
  }

  /** The ordinals above are those of the calendar dates they stand for. */
  lemma {:induction false} TermDates()
    ensures ToOrdinal(Civil(2025, 8, 1)) == TermStart
    ensures ToOrdinal(Civil(2025, 12, 31)) == TermEnd
    ensures ToOrdinal(Civil(2025, 10, 12)) == 739536 && Weekday(739536) == 6
    ensures ToOrdinal(Civil(2025, 11, 21)) == 739576 && Weekday(739576) == 4
    ensures ToOrdinal(Civil(2025, 12, 8)) == 739593 && Weekday(739593) == 0
  {
    DaysBeforeYearClosedForm(2025);
  }

  /** The 152 days of the range hold 108 weekdays: 21 whole weeks and Friday to Tuesday. */
  lemma {:induction false} TermWeekdays()
    ensures ElapsedDays(TermStart, TermEnd) == 152
    ensures CountBusinessDays(TermStart, TermEnd, map[]) == 108
  {
    WholeWeeks(TermStart, 21);
    CountAdditive(TermStart, TermStart + 147, TermEnd, map[]);
    var h: Holidays := map[];
    assert CountBusinessDays(739615, TermEnd, h) == 1;
    assert CountBusinessDays(739614, TermEnd, h) == 2;
    assert CountBusinessDays(739613, TermEnd, h) == 2;
    assert CountBusinessDays(739612, TermEnd, h) == 2;
    assert CountBusinessDays(739611, TermEnd, h) == 3;
  }

  /**
   The two weekday holidays take two days off; the Sunday holiday takes
   none. The counter as written still reports 108.
   */
  lemma TermBusinessDays()
    ensures CountBusinessDays(TermStart, TermEnd, TermHolidays()) == 106
    ensures CountAsWritten(TermStart, TermEnd, Fetched(TermHolidays())) == 108
  {
    TermWeekdays();
    var h0: Holidays := map[];
    var h1 := h0[739536 := "Día del Respeto a la Diversidad Cultural"];
    var h2 := h1[739576 := "Feriado con fines turísticos"];
    AddHoliday(TermStart, TermEnd, h0, 739536, "Día del Respeto a la Diversidad Cultural");
    AddHoliday(TermStart, TermEnd, h1, 739576, "Feriado con fines turísticos");
    AddHoliday(TermStart, TermEnd, h2, 739593, "Inmaculada Concepción de María");
    AsWrittenIgnoresHolidays(TermStart, TermEnd, TermHolidays());
  }
}
