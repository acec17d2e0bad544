# Business-day calculator, modelled in Dafny

`Calculadora_streamlit.py` is a small Streamlit application. It takes a date range [start, end) and does four things:

- It reports the elapsed days.
- It reports the business days: Monday to Friday, less the public holidays of Argentina.
- It lists the holidays that fall in the range, in date order.
- It draws one bar-chart panel per month. Each day is coloured red for a holiday, light gray for a weekend and green for a business day.

This project models that logic as pure Dafny functions over day ordinals and proves what the application promises about it.

Modules:

- `CivilCalendar` covers the proleptic Gregorian calendar in the conventions of Python's `datetime` and `calendar`:
  - day ordinals, with 0001-01-01 = 1;
  - `weekday()`, with Monday = 0;
  - `monthrange`;
  - `date(y, m, d)` and `date.fromordinal`, with their round trip.
- `BusinessDays` covers `contar_dias_habiles` and the elapsed-day count:
  - the counter as a recursive function and as the source's loop;
  - its bounds and additivity;
  - the weekday count of whole weeks;
  - the effect of adding a holiday.
- `HolidayRange` covers the in-range holiday filter and its ascending listing.
- `Years` covers the list of years spanned by the range.
- `CalendarView` covers:
  - the colour of a day;
  - the month panels of the visual calendar;
  - the proof that those panels show exactly the days of [start, end), in order, with the green days being exactly the business days.
- `AsWritten` covers the key-type mismatch between the fetched holiday map and the counter's lookup (see Findings), and the corrected counter.
- `SecondTerm` works through the fixed range 2025-08-01 to 2025-12-31 of the second mode.

Holidays are an input. In the model they are a map from day ordinal to name, and the network fetch is not modelled.

On one point the code and the application's stated purpose disagree, and the model keeps both:

- The application promises business days net of holidays.
- As written, the counter never excludes a holiday. See Findings.
- `BusinessDays.CountBusinessDays` is the intended behaviour, and the rest of the model uses it.
- `AsWritten.CountAsWritten` is the behaviour of the code as written.

## Model

| member | source | states |
|---|---|---|
| CivilCalendar.DaysInMonth | Calculadora_streamlit.py:100 | `monthrange(y, m)[1]` is between 28 and 31; it is 29 exactly for a leap February, 28 exactly for a common February, and 30 exactly for April, June, September and November |
| CivilCalendar.MonthsTileYear | Calculadora_streamlit.py:99-100 | the twelve months of a year are laid end to end and together fill the year exactly |
| CivilCalendar.DaysBeforeYearClosedForm | Calculadora_streamlit.py:105 | the ordinal of 1 January agrees with the closed Gregorian leap-year formula that `datetime` uses |
| CivilCalendar.ToOrdinal | Calculadora_streamlit.py:105 | the ordinal of `datetime(anio, mes, dia)` lies inside the span of ordinals of its own year |
| CivilCalendar.FromOrdinal | Calculadora_streamlit.py:68 | every ordinal ≥ 1 is the ordinal of a valid calendar date |
| CivilCalendar.CivilRoundTrip | Calculadora_streamlit.py:105-106 | converting a valid date to its ordinal and back gives the same date |
| CivilCalendar.ToOrdinalInjective | Calculadora_streamlit.py:105-106 | two valid dates have the same ordinal if and only if they are the same date |
| CivilCalendar.YearOf | Calculadora_streamlit.py:68 | `.year` of an ordinal is the year whose span of ordinals contains it |
| CivilCalendar.YearOfCharacterization | Calculadora_streamlit.py:68 | an ordinal has year `y` if and only if it lies within the ordinals of year `y` |
| CivilCalendar.YearOfMonotonic | Calculadora_streamlit.py:68 | a later date is never in an earlier year |
| CivilCalendar.Weekday | Calculadora_streamlit.py:27 | `weekday()` is one of the seven values 0..6 |
| CivilCalendar.WeekdayPeriodic | Calculadora_streamlit.py:27 | the weekday repeats every seven days and advances by one each day |
| CivilCalendar.EpochIsMonday | Calculadora_streamlit.py:27 | 0001-01-01 has ordinal 1 and is a Monday |
| CivilCalendar.KnownFriday | Calculadora_streamlit.py:27 | 2025-11-21 has ordinal 739576 and is a Friday |
| BusinessDays.ElapsedDays | Calculadora_streamlit.py:72 | `(fecha_fin - fecha_inicio).days` added to the start gives the end; it is non-positive exactly when the range is empty or reversed |
| BusinessDays.CountBusinessDays | Calculadora_streamlit.py:23-28 | an empty or reversed range counts 0; otherwise the count never exceeds the number of elapsed days |
| BusinessDays.CountIsCardinality | Calculadora_streamlit.py:25-27 | the count is the number of dates `d` with start ≤ d < end that are weekdays and not holidays |
| BusinessDays.CountBusinessDaysLoop | Calculadora_streamlit.py:24-28 | the sum over `range(dias)` of the qualifying days equals the recursive count, also for a negative `dias` |
| BusinessDays.CountAdditive | Calculadora_streamlit.py:25-27 | counting [a, c) equals counting [a, b) plus counting [b, c) |
| BusinessDays.CountExtend | Calculadora_streamlit.py:25-27 | extending the range by one day adds one exactly when that day is a business day |
| BusinessDays.FullWeek | Calculadora_streamlit.py:27 | with no holidays, any seven consecutive days count exactly 5 |
| BusinessDays.WholeWeeks | Calculadora_streamlit.py:27 | with no holidays, `k` whole weeks count exactly `5 * k` |
| BusinessDays.AddHoliday | Calculadora_streamlit.py:27 | adding a new holiday lowers the count by exactly 1 if it is a weekday inside the range, and otherwise leaves it unchanged |
| BusinessDays.MoreHolidaysFewerDays | Calculadora_streamlit.py:27 | a superset of holidays never gives a higher count |
| BusinessDays.HolidayDeduction | Calculadora_streamlit.py:25-27 | the count plus the number of weekday holidays inside the range equals the plain weekday count |
| HolidayRange.InRange | Calculadora_streamlit.py:78-82 | a date is kept exactly when it is a holiday with start ≤ date < end, and it keeps its name |
| HolidayRange.InRangeKeepsCount | Calculadora_streamlit.py:78-82 | counting any part of the range with only the in-range holidays gives the same result as with all of them |
| HolidayRange.Least | Calculadora_streamlit.py:86 | the chosen date belongs to the set and is not after any other member |
| HolidayRange.Listing | Calculadora_streamlit.py:86 | `sorted(m.items())` has one entry per key, in strictly ascending date order, each paired with its own name |
| HolidayRange.ListingOfRange | Calculadora_streamlit.py:78-86 | the displayed list is strictly ascending, and an entry is in it if and only if it is a holiday of the range with its name |
| Years.IntRange | Calculadora_streamlit.py:68 | `list(range(lo, hi))` has `max(0, hi - lo)` elements and element `i` is `lo + i` |
| Years.YearSpanExact | Calculadora_streamlit.py:68 | for a forward range, a year is listed if and only if some date of [start, end] falls in it |
| Years.YearSpanEmpty | Calculadora_streamlit.py:68 | the list is empty if and only if the start year is after the end year; a forward range lists its start year first |
| CalendarView.Classify | Calculadora_streamlit.py:109-114 | a day is red if and only if it is a holiday, even on a weekend; light gray if and only if it is a weekend day that is not a holiday; green if and only if it is a business day |
| CalendarView.DayCellsAreRange | Calculadora_streamlit.py:104-107 | the loop over the days of a month yields the cells of that month's ordinals that fall in [start, end), in order |
| CalendarView.YearPanelsAreRange | Calculadora_streamlit.py:98-116 | the month panels of a year, concatenated, are the cells of that year's days that fall in [start, end) |
| CalendarView.YearPanelsShape | Calculadora_streamlit.py:98-125 | every panel of a year belongs to that year, names a month 1..12, shows at least one day, and shows only days of the month its title names: a month with no day in range gets no panel |
| CalendarView.CalendarPanelsAreRange | Calculadora_streamlit.py:97-116 | the panels of consecutive years, concatenated, are the cells of all the days of those years that fall in [start, end) |
| CalendarView.YearThenLaterYears | Calculadora_streamlit.py:97-116 | one year's month panels followed by the panels of the later years cover that year's days and then the later years' days, restricted to [start, end) |
| CalendarView.View | Calculadora_streamlit.py:97-116 | the panels of the spanned years, concatenated, show every day of [start, end) once and nothing else |
| CalendarView.RangeCellsFull | Calculadora_streamlit.py:104-114 | over the range there is one cell per day, and cell `i` is day `start + i` with its colour |
| CalendarView.GreenCountIsBusinessDays | Calculadora_streamlit.py:109-114 | the number of green cells equals the business-day count of the same range |
| CalendarView.ViewShowsRange | Calculadora_streamlit.py:97-116 | the calendar shows `max(0, end - start)` days; day `i` is `start + i` with its colour; its green days number exactly the business days |
| AsWritten.Fetched | Calculadora_streamlit.py:15-17 | the fetched map has exactly one midnight `datetime` key per holiday, carrying its name |
| AsWritten.DayKeys | Calculadora_streamlit.py:79-80 | `fecha.date()` re-keys the midnight keys by day and keeps their names |
| AsWritten.DayKeysOfFetched | Calculadora_streamlit.py:79-80 | re-keying the fetched map by day gives back the holidays unchanged |
| AsWritten.AsWrittenIgnoresHolidays | Calculadora_streamlit.py:27 | with the fetched map, the counter as written returns the plain weekday count whatever the holidays are |
| AsWritten.AsWrittenCountsAHoliday | Calculadora_streamlit.py:27 | for Friday 2025-11-21 as a holiday, the counter as written reports 1 for the range of that one day, where the intended count is 0 |
| AsWritten.CorrectedDeductsHolidays | Calculadora_streamlit.py:73-82 | the corrected counter on the fetched map equals the business-day count; it is the as-written count less the weekday holidays of the range |
| AsWritten.CorrectedMatchesCalendar | Calculadora_streamlit.py:23-28 | the corrected counter on the fetched map counts exactly the green days of the calendar, which compares each day with the holidays as line 109 does |
| SecondTerm.TermDates | Calculadora_streamlit.py:50-51 | 2025-08-01 and 2025-12-31 have ordinals 739464 and 739616; 2025-10-12 is a Sunday, 2025-11-21 a Friday and 2025-12-08 a Monday |
| SecondTerm.TermWeekdays | Calculadora_streamlit.py:50-51 | the second mode's range spans 152 days, of which 108 are weekdays |
| SecondTerm.TermBusinessDays | Calculadora_streamlit.py:72-73 | with those three holidays the business-day count is 106, while the counter as written reports 108 |

## Left out

- Holiday fetch: `obtener_feriados_api` (lines 7-20) is left out. This covers the HTTP request, JSON decoding, per-year error reporting and Streamlit's cache. The holidays are an input map. `AsWritten.Fetched` models only the key type the fetch produces.
- Date parsing: `strptime` of the ISO date string (line 16) is left out. A holiday is its day ordinal.
- User interface: the Streamlit UI is left out. This covers the mode radio, the date pickers, `datetime.today()`, the messages and the `fecha_fin <= fecha_inicio` guard with `st.stop()` (lines 31-66). Instead, every operation is total over any pair of dates, reversed ranges included, because modes 1 and 2 do not apply that guard.
- Chart rendering: the Plotly figure (lines 116-131) is left out. This covers the bar heights, layout, hover text and the `dd/mm` axis labels. A panel keeps its year, its month and, for each day, the ordinal and the colour.
- CivilCalendar: the `datetime` upper bound of year 9999 is not modelled. Dates are unbounded ordinals from 1.
- BusinessDays.CountBusinessDays: its own contract states only the bounds. The exact meaning is stated by `CountIsCardinality`, `CountAdditive` and `AddHoliday`.
- Years.YearSpan: it has no contract of its own. Its meaning is stated by `YearSpanExact` and `YearSpanEmpty`.
- CalendarView.View: it has no lemma placing each panel's year in the span of years. `YearPanelsShape` states the shape for each year separately.

## Findings

| source | as written | input that shows it | evidently intended | confidence | as-written member | corrected member |
|---|---|---|---|---|---|---|
| Calculadora_streamlit.py:27 | The holiday map is keyed by `datetime` values (line 16). The counter tests `date` values against it (line 27). A `date` never equals a `datetime`, so no holiday is ever deducted. | Holidays {2025-11-21 (a Friday)} and range [2025-11-21, 2025-11-22): the count is 1 where 0 is intended. For 2025-08-01 to 2025-12-31 with holidays 2025-10-12, 2025-11-21 and 2025-12-08, the count is 108 where 106 is intended. | A weekday holiday in range is not a business day. The calendar's colours (line 109) and the in-range listing (line 79) already compare like with like. | high, not executed | AsWritten.AsWrittenCountsAHoliday | AsWritten.CorrectedDeductsHolidays |
