/** Calendar days as Python's proleptic Gregorian ordinals (`date.toordinal()`:
    1 January of year 1 is day 1, a Monday), the weekday rule, and the
    business-day range `pd.date_range(start, end, freq='B')` walks. */
module Calendar {

  /** A calendar date as `datetime(year, month, day)` takes it. */
  datatype Date = Date(year: int, month: int, day: int)

  predicate IsLeap(y: int) {
    y % 4 == 0 && (y % 100 != 0 || y % 400 == 0)
  }

  function DaysInMonth(y: int, m: int): (n: int)
    requires 1 <= m <= 12
    ensures 28 <= n <= 31
    ensures n == 29 <==> m == 2 && IsLeap(y)
  {
    if m == 2 then (if IsLeap(y) then 29 else 28)
    else if m == 4 || m == 6 || m == 9 || m == 11 then 30
    else 31
  }

  /** The dates `datetime(year, month, day)` accepts; every other triple
      makes it raise `ValueError`. */
  predicate IsValidDate(d: Date) {
    1 <= d.year <= 9999 && 1 <= d.month <= 12 && 1 <= d.day <= DaysInMonth(d.year, d.month)
  }

  function DaysBeforeYear(y: int): int
    requires y >= 1
  {
    var p := y - 1;
    365 * p + p / 4 - p / 100 + p / 400
  }

  /** Days of year `y` before the first of month `m`. */
  function DaysBeforeMonth(y: int, m: int): (n: int)
    requires 1 <= m <= 12
    ensures 0 <= n <= 31 * (m - 1)
    decreases m
  {
    if m == 1 then 0 else DaysBeforeMonth(y, m - 1) + DaysInMonth(y, m - 1)
  }

  /** `date(year, month, day).toordinal()`. */
  function Ordinal(d: Date): (n: int)
    requires IsValidDate(d)
    ensures n >= 1
  {
    DaysBeforeYear(d.year) + DaysBeforeMonth(d.year, d.month) + d.day
  }

  /** The first day of the calendar is day 1. */
  lemma OrdinalOfFirstDay()
    ensures Ordinal(Date(1, 1, 1)) == 1
  {
  }

  /** 1 January 2024 is day 738886. */
  lemma OrdinalOfNewYear2024()
    ensures Ordinal(Date(2024, 1, 1)) == 738886
  {
  }

  /** 1 June 2024 is day 739038, 152 days after New Year. */
  lemma OrdinalOfJune2024()
    ensures Ordinal(Date(2024, 6, 1)) == 739038
  {
  }

  /** The weekday rule agrees with the calendar: day 1 (1 January of year 1,
      `OrdinalOfFirstDay`) and 1 January 2024 are Mondays, 1 June 2024 is a
      Saturday. */
  lemma WeekdayAnchors()
    ensures Weekday(1) == 0
    ensures Weekday(Ordinal(Date(2024, 1, 1))) == 0
    ensures Weekday(Ordinal(Date(2024, 6, 1))) == 5
  {
    var newYear, june := Ordinal(Date(2024, 1, 1)), Ordinal(Date(2024, 6, 1));
    OrdinalOfNewYear2024();
    OrdinalOfJune2024();
    assert newYear == 738886 && june == 739038;
    assert Weekday(newYear) == Weekday(738886) && Weekday(june) == Weekday(739038);
  }

  /** `date.weekday()` of an ordinal: Monday is 0, Sunday is 6. */
  function Weekday(day: int): (w: int)
    ensures 0 <= w < 7
  {
    (day + 6) % 7
  }

  /** The days `freq='B'` keeps: Monday to Friday. */
  predicate IsBusinessDay(day: int) {
    Weekday(day) < 5
  }

  /** `pd.date_range(start, end, freq='B')` for dates at midnight: every
      business day from `start` to `end`, both included, in increasing
      order. */
  function BusinessDays(start: int, end: int): (days: seq<int>)
    ensures forall d :: d in days <==> start <= d <= end && IsBusinessDay(d)
    ensures forall i, j :: 0 <= i < j < |days| ==> days[i] < days[j]
    decreases end - start
  {
    if start > end then []
    else
      var rest := BusinessDays(start + 1, end);
      assert forall i :: 0 <= i < |rest| ==> start < rest[i] by {
        assert forall i :: 0 <= i < |rest| ==> rest[i] in rest;
      }
      if IsBusinessDay(start) then [start] + rest else rest
  }

  /** Splitting the range at any day splits the list of business days. */
  lemma {:induction false} BusinessDaysSplit(start: int, mid: int, end: int)
    requires start <= mid <= end + 1
    ensures BusinessDays(start, end) == BusinessDays(start, mid - 1) + BusinessDays(mid, end)
    decreases mid - start
  {
    if start < mid {
      BusinessDaysSplit(start + 1, mid, end);
    }
  }

  /** The number of business days from `start` to `end`, both included. */
  function BusinessDayCount(start: int, end: int): nat
    decreases end - start
  {
    if start > end then 0
    else (if IsBusinessDay(start) then 1 else 0) + BusinessDayCount(start + 1, end)
  }

  lemma {:induction false} BusinessDaysLength(start: int, end: int)
    ensures |BusinessDays(start, end)| == BusinessDayCount(start, end)
    decreases end - start
  {
    if start <= end {
      BusinessDaysLength(start + 1, end);
    }
  }

  /** Moving `k` days ahead moves the weekday `k` places, wrapping after
      Sunday. */
  lemma WeekdayShift(day: int, k: int)
    requires 0 <= k < 7
    ensures Weekday(day + k) == (Weekday(day) + k) % 7
  {
    var q, w := (day + 6) / 7, (day + 6) % 7;
    assert day + 6 == 7 * q + w;
    if w + k < 7 {
      assert day + k + 6 == 7 * q + (w + k);
    } else {
      assert day + k + 6 == 7 * (q + 1) + (w + k - 7);
    }
  }

  /** Any seven consecutive days hold five business days. */
  lemma WeekHasFiveBusinessDays(start: int)
    ensures BusinessDayCount(start, start + 6) == 5
  {
    var e := start + 6;
    var w := Weekday(start);
    WeekdayShift(start, 1);
    WeekdayShift(start, 2);
    WeekdayShift(start, 3);
    WeekdayShift(start, 4);
    WeekdayShift(start, 5);
    WeekdayShift(start, 6);
    var c6 := BusinessDayCount(start + 6, e);
    assert BusinessDayCount(start + 7, e) == 0;
    var c5 := BusinessDayCount(start + 5, e);
    var c4 := BusinessDayCount(start + 4, e);
    var c3 := BusinessDayCount(start + 3, e);
    var c2 := BusinessDayCount(start + 2, e);
    var c1 := BusinessDayCount(start + 1, e);
    var c0 := BusinessDayCount(start, e);
    assert c0 == (if w < 5 then 1 else 0) + c1;
    assert c1 == (if (w + 1) % 7 < 5 then 1 else 0) + c2;
    assert c2 == (if (w + 2) % 7 < 5 then 1 else 0) + c3;
    assert c3 == (if (w + 3) % 7 < 5 then 1 else 0) + c4;
    assert c4 == (if (w + 4) % 7 < 5 then 1 else 0) + c5;
    assert c5 == (if (w + 5) % 7 < 5 then 1 else 0) + c6;
    assert c6 == (if (w + 6) % 7 < 5 then 1 else 0);
    if w == 0 {
    } else if w == 1 {
    } else if w == 2 {
    } else if w == 3 {
    } else if w == 4 {
    } else if w == 5 {
    } else {
      assert w == 6;
    }
  }

  /** A span of `k` whole weeks, both ends included, holds `5 * k` business
      days plus one when the first day is a business day (the last day then
      is one too). */
  lemma {:induction false} BusinessDaysOverWeeks(start: int, k: nat)
    ensures |BusinessDays(start, start + 7 * k)| == 5 * k + (if IsBusinessDay(start) then 1 else 0)
    decreases k
  {
    if k == 0 {
      assert BusinessDays(start + 1, start) == [];
    } else {
      BusinessDaysSplit(start, start + 7, start + 7 * k);
      WeekHasFiveBusinessDays(start);
      BusinessDaysLength(start, start + 6);
      BusinessDaysOverWeeks(start + 7, k - 1);
      assert start + 7 + 7 * (k - 1) == start + 7 * k;
      assert Weekday(start + 7) == Weekday(start) by {
        assert start + 7 + 6 == (start + 6) + 7;
      }
    }
  }
}
