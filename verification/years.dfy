/**
 The years a date range touches: `list(range(start.year, end.year + 1))`.
 Holidays are fetched, and calendar panels drawn, for each of them.
 */
module Years {
  import opened CivilCalendar

  /** `list(range(lo, hi))`. */
  function IntRange(lo: int, hi: int): (r: seq<int>)
    ensures |r| == if hi <= lo then 0 else hi - lo
    ensures forall i :: 0 <= i < |r| ==> r[i] == lo + i
    decreases hi - lo
  {
    if hi <= lo then [] else [lo] + IntRange(lo + 1, hi)
  }

  /** The years from the year of `start` to the year of `end`, both included. */
  function YearSpan(start: Date, end: Date): (r: seq<int>)
    requires start >= 1 && end >= 1
  {
    IntRange(YearOf(start), YearOf(end) + 1)
  }

  /**
   A year is listed exactly when some date of [start, end] falls in it, and
   the list is empty exactly when the range is reversed across a year
   boundary.
   */
  lemma YearSpanExact(start: Date, end: Date, y: int)
    requires 1 <= start <= end && y >= 1
    ensures y in YearSpan(start, end) <==> exists d :: start <= d <= end && YearOf(d) == y
  {
    var r := YearSpan(start, end);
    var ys, ye := YearOf(start), YearOf(end);
    if y in r {
      var i :| 0 <= i < |r| && r[i] == y;
      var d := if y == ys then start else DaysBeforeYear(y) + 1;
      if y != ys {
        assert ys < y <= ye;
        DaysBeforeYearStrictlyIncreasing(ys, y);
        if y < ye {
          DaysBeforeYearStrictlyIncreasing(y, ye);
        }
        YearOfCharacterization(d, y);
      }
      assert start <= d <= end && YearOf(d) == y;
    }
    if exists d :: start <= d <= end && YearOf(d) == y {
      var d :| start <= d <= end && YearOf(d) == y;
      YearOfMonotonic(start, d);
      YearOfMonotonic(d, end);
      assert r[y - ys] == y;
    }
  }

  /** The list is empty exactly when the start year is after the end year; a forward range lists its start year first. */
  lemma YearSpanEmpty(start: Date, end: Date)
    requires start >= 1 && end >= 1
    ensures |YearSpan(start, end)| == 0 <==> YearOf(start) > YearOf(end)
    ensures start <= end ==> |YearSpan(start, end)| > 0 && YearSpan(start, end)[0] == YearOf(start)
  {
    if start <= end {
      YearOfMonotonic(start, end);
    }
  }
}
