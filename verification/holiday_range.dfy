/**
 The holidays shown under "Feriados dentro del rango": the holiday map
 restricted to [start, end), listed in ascending date order.
 */
module HolidayRange {
  import opened CivilCalendar
  import opened BusinessDays

  /** The holidays keyed by day with start ≤ day < end, each with its name. */
  function InRange(holidays: Holidays, start: Date, end: Date): (r: Holidays)
    ensures forall d :: d in r <==> d in holidays && start <= d < end
    ensures forall d :: d in r ==> r[d] == holidays[d]
  {
    map d | d in holidays && start <= d < end :: holidays[d]
  }

  /**
   Only the holidays inside the counted range matter to the count: counting
   any part of [start, end) with the filtered map gives the same number.
   */
  lemma {:induction false} InRangeKeepsCount(holidays: Holidays, start: Date, end: Date, s: Date, e: Date)
    requires start <= s && e <= end
    ensures CountBusinessDays(s, e, InRange(holidays, start, end)) == CountBusinessDays(s, e, holidays)
    decreases e - s
  {
    if s < e {
      InRangeKeepsCount(holidays, start, end, s + 1, e);
    }
  }

  /** Every nonempty set of dates has a least element. */
  lemma {:induction false} LeastExists(s: set<Date>)
    requires s != {}
    ensures exists k :: k in s && forall x :: x in s ==> k <= x
    decreases |s|
  {
    if forall x :: x !in s {
      assert false;
    }
    var y :| y in s;
    var rest := s - {y};
    assert forall x :: x in s ==> x == y || x in rest;
    if rest == {} {
      assert forall x :: x in s ==> y <= x;
    } else {
      LeastExists(rest);
      var k :| k in rest && forall x :: x in rest ==> k <= x;
      var m := if y < k then y else k;
      forall x | x in s
        ensures m <= x
      {
        if x != y {
          assert x in rest;
        }
      }
      assert m in s;
    }
  }

  /** The earliest date of a nonempty set. */
  function Least(s: set<Date>): (k: Date)
    requires s != {}
    ensures k in s
    ensures forall x :: x in s ==> k <= x
  {
    LeastExists(s);
    var k :| k in s && forall x :: x in s ==> k <= x;
    k
  }

  predicate StrictlyAscending(entries: seq<(Date, string)>)
  {
    forall i, j :: 0 <= i < j < |entries| ==> entries[i].0 < entries[j].0
  }

  /** Putting an entry before a strictly ascending list of later dates keeps it strictly ascending. */
  lemma AscendingCons(head: (Date, string), tail: seq<(Date, string)>)
    requires StrictlyAscending(tail)
    requires forall i :: 0 <= i < |tail| ==> head.0 < tail[i].0
    ensures StrictlyAscending([head] + tail)
  {
    var r := [head] + tail;
    forall i, j | 0 <= i < j < |r|
      ensures r[i].0 < r[j].0
    {
      assert r[j] == tail[j - 1];
      if i > 0 {
        assert r[i] == tail[i - 1];
      }
    }
  }

  /** Removing the least date of a nonempty map leaves one entry fewer, all at later dates. */
  lemma RemoveLeast(m: Holidays, k: Date)
    requires m != map[] && k == Least(m.Keys)
    ensures (m - {k}).Keys == m.Keys - {k}
    ensures |m - {k}| == |m| - 1
    ensures forall d :: d in m - {k} ==> k < d && (m - {k})[d] == m[d]
  {
    var rest := m - {k};
    assert rest.Keys == m.Keys - {k};
    assert |rest.Keys| == |m.Keys| - 1;
  }

  /** The entries of `r` are exactly those of `m`, once each, in ascending date order. */
  predicate ListsInOrder(m: Holidays, r: seq<(Date, string)>)
  {
    && |r| == |m|
    && StrictlyAscending(r)
    && (forall i :: 0 <= i < |r| ==> r[i].0 in m && r[i].1 == m[r[i].0])
    && (forall d :: d in m ==> (d, m[d]) in r)
  }

  /** The least entry of `m` followed by a listing of the rest is a listing of `m`. */
  lemma ListsInOrderCons(m: Holidays, k: Date, tail: seq<(Date, string)>)
    requires m != map[] && k == Least(m.Keys)
    requires ListsInOrder(m - {k}, tail)
    ensures ListsInOrder(m, [(k, m[k])] + tail)
  {
    RemoveLeast(m, k);
    var rest := m - {k};
    forall i | 0 <= i < |tail|
      ensures k < tail[i].0
    {
      assert tail[i].0 in rest;
    }
    AscendingCons((k, m[k]), tail);
    var r := [(k, m[k])] + tail;
    forall i | 0 <= i < |r|
      ensures r[i].0 in m && r[i].1 == m[r[i].0]
    {
      if i > 0 {
        assert r[i] == tail[i - 1];
      }
    }
    forall d | d in m
      ensures (d, m[d]) in r
    {
      if d != k {
        assert d in rest && rest[d] == m[d];
        assert (d, rest[d]) in tail;
      }
    }
  }

  /**
   `sorted(m.items())`: the entries of the map, one per date, in ascending
   date order and with their names.
   */
  function Listing(m: Holidays): (r: seq<(Date, string)>)
    ensures |r| == |m|
    ensures StrictlyAscending(r)
    ensures forall i :: 0 <= i < |r| ==> r[i].0 in m && r[i].1 == m[r[i].0]
    ensures forall d :: d in m ==> (d, m[d]) in r
    decreases |m|
  {
    if m == map[] then []
    else
      var k := Least(m.Keys);
      RemoveLeast(m, k);
      var tail := Listing(m - {k});
      ListsInOrderCons(m, k, tail);
      [(k, m[k])] + tail
  }

  /** The displayed list holds exactly the holidays of the range, in order. */
  lemma ListingOfRange(holidays: Holidays, start: Date, end: Date)
    ensures StrictlyAscending(Listing(InRange(holidays, start, end)))
    ensures forall e :: e in Listing(InRange(holidays, start, end))
              <==> e.0 in holidays && start <= e.0 < end && e.1 == holidays[e.0]
  {
    var m := InRange(holidays, start, end);
    var r := Listing(m);
    forall e | e in r
      ensures e.0 in holidays && start <= e.0 < end && e.1 == holidays[e.0]
    {
      var i :| 0 <= i < |r| && r[i] == e;
    }
  }
}
