/** `MealPlan._get_meal_schedule` in main.py: the times of day a frequency
    serves meals at, and the slots of a plan — every business day from the
    starting date to the ending date, both included, at each of those
    times, day by day. */
module Schedule {
  import opened Base
  import opened Text
  import opened Config
  import opened Calendar

  /** Minutes in a day. */
  const DayMinutes: nat := 1440

  /** A meal slot: a day (ordinal) and a time of day (minutes after
      midnight), as `pd.to_datetime(f"{date} {time}")` builds it. */
  datatype Slot = Slot(day: int, minute: nat)

  /** The slot as one number, so that later slots have larger stamps. */
  function Stamp(s: Slot): int {
    s.day * DayMinutes + s.minute
  }

  /** The time strings of the if-chain on the frequency's name; `None`
      where no branch matches and `meal_times` would be left unbound. */
  function MealTimesOf(name: string): Option<seq<string>> {
    if name == "OMAD" then Some(["17:00"])
    else if name == "TMAD" then Some(["11:00", "18:00"])
    else if name == "THMAD" then Some(["08:00", "12:00", "19:00"])
    else None
  }

  /** The number of meals a day the same if-chain sets. */
  function MealsPerDayOf(name: string): Option<nat> {
    if name == "OMAD" then Some(1)
    else if name == "TMAD" then Some(2)
    else if name == "THMAD" then Some(3)
    else None
  }

  /** Every frequency takes one of the branches: `meal_times` and
      `meals_per_day` are always bound, and they agree. */
  lemma MealTimesCoverFrequencies(f: MealFrequency)
    ensures MealTimesOf(MealFrequencyName(f)).Some? && MealsPerDayOf(MealFrequencyName(f)).Some?
    ensures |MealTimesOf(MealFrequencyName(f)).value| == MealsPerDayOf(MealFrequencyName(f)).value
  {
  }

  /** The time strings of a frequency. */
  function MealTimeStrings(f: MealFrequency): seq<string> {
    MealTimesOf(MealFrequencyName(f)).value
  }

  function MealsPerDay(f: MealFrequency): nat {
    MealsPerDayOf(MealFrequencyName(f)).value
  }

  /** The minutes after midnight an "HH:MM" string denotes; `None` for
      anything else. */
  function ClockMinutes(t: string): (r: Option<nat>)
    ensures r.Some? ==> r.value < DayMinutes
  {
    if |t| == 5 && IsDigit(t[0]) && IsDigit(t[1]) && t[2] == ':' && IsDigit(t[3]) && IsDigit(t[4]) then
      var h, m := DigitValue(t[0]) * 10 + DigitValue(t[1]), DigitValue(t[3]) * 10 + DigitValue(t[4]);
      if h < 24 && m < 60 then Some(h * 60 + m) else None
    else None
  }

  /** The times of day of a frequency, in minutes; every string of the
      table is a well-formed time. */
  function MealTimes(f: MealFrequency): (times: seq<nat>)
    ensures |times| == |MealTimeStrings(f)|
    ensures forall j :: 0 <= j < |times| ==> ClockMinutes(MealTimeStrings(f)[j]) == Some(times[j])
  {
    match f
    case OneMealADay => [17 * 60]
    case TwoMealsADay => [11 * 60, 18 * 60]
    case ThreeMealsADay => [8 * 60, 12 * 60, 19 * 60]
  }

  /** The times of a day are strictly increasing, fall within the day, and
      there are as many as `meals_per_day` says. */
  predicate IsDayPlan(times: seq<nat>) {
    && (forall j :: 0 <= j < |times| ==> times[j] < DayMinutes)
    && (forall j, k :: 0 <= j < k < |times| ==> times[j] < times[k])
  }

  lemma MealTimesAreDayPlan(f: MealFrequency)
    ensures |MealTimes(f)| == MealsPerDay(f) >= 1
    ensures IsDayPlan(MealTimes(f))
  {
    MealTimesCoverFrequencies(f);
  }

  /** The slots of one day, one per time, in order. */
  function DaySlots(day: int, times: seq<nat>): (slots: seq<Slot>)
    ensures |slots| == |times|
    ensures forall j :: 0 <= j < |times| ==> slots[j] == Slot(day, times[j])
  {
    seq(|times|, j requires 0 <= j < |times| => Slot(day, times[j]))
  }

  /** The nested loop over the days and, within each, over the times. */
  function ScheduleOf(days: seq<int>, times: seq<nat>): seq<Slot>
    decreases |days|
  {
    if |days| == 0 then [] else DaySlots(days[0], times) + ScheduleOf(days[1..], times)
  }

  /** The schedule has one slot per day and time. */
  lemma {:induction false} ScheduleLength(days: seq<int>, times: seq<nat>)
    ensures |ScheduleOf(days, times)| == |days| * |times|
    decreases |days|
  {
    if |days| > 0 {
      ScheduleLength(days[1..], times);
      assert |days| * |times| == |times| + (|days| - 1) * |times|;
    }
  }

  /** Position `i * |times| + j` of the schedule is day `i` at time `j`. */
  lemma {:induction false} ScheduleAt(days: seq<int>, times: seq<nat>, i: nat, j: nat)
    requires i < |days| && j < |times|
    ensures i * |times| + j < |ScheduleOf(days, times)|
    ensures ScheduleOf(days, times)[i * |times| + j] == Slot(days[i], times[j])
    decreases i
  {
    var m := |times|;
    var rest := days[1..];
    ScheduleLength(days, times);
    ScheduleLength(rest, times);
    assert ScheduleOf(days, times) == DaySlots(days[0], times) + ScheduleOf(rest, times);
    if i > 0 {
      ScheduleAt(rest, times, i - 1, j);
      assert i * m + j == m + ((i - 1) * m + j);
      assert days[i] == rest[i - 1];
    }
  }

  /** Every slot is on one of the days at one of the times. */
  lemma {:induction false} ScheduleSlots(days: seq<int>, times: seq<nat>)
    ensures forall k :: 0 <= k < |ScheduleOf(days, times)| ==>
              ScheduleOf(days, times)[k].day in days && ScheduleOf(days, times)[k].minute in times
    decreases |days|
  {
    if |days| > 0 {
      ScheduleSlots(days[1..], times);
      assert forall d :: d in days[1..] ==> d in days;
    }
  }

  /** Later slots are strictly later in time: day-major, then by time. */
  predicate Chronological(slots: seq<Slot>) {
    forall p, q :: 0 <= p < q < |slots| ==> Stamp(slots[p]) < Stamp(slots[q])
  }

  /** With increasing days and a day plan of times, the schedule is
      chronological. */
  lemma {:induction false} ScheduleChronological(days: seq<int>, times: seq<nat>)
    requires forall a, b :: 0 <= a < b < |days| ==> days[a] < days[b]
    requires IsDayPlan(times)
    ensures Chronological(ScheduleOf(days, times))
    decreases |days|
  {
    if |days| > 0 {
      var first, rest := DaySlots(days[0], times), days[1..];
      var later := ScheduleOf(rest, times);
      ScheduleChronological(rest, times);
      ScheduleSlots(rest, times);
      var s := ScheduleOf(days, times);
      assert s == first + later;
      forall p, q | 0 <= p < q < |s| ensures Stamp(s[p]) < Stamp(s[q]) {
        if q < |first| {
          assert s[p] == Slot(days[0], times[p]) && s[q] == Slot(days[0], times[q]);
        } else if p < |first| {
          var d := s[q].day;
          assert s[q] == later[q - |first|];
          assert d in rest;
          var b :| 0 <= b < |rest| && rest[b] == d;
          assert days[b + 1] == d;
          assert days[0] + 1 <= d;
          assert Stamp(s[p]) < (days[0] + 1) * DayMinutes <= d * DayMinutes;
        } else {
          assert s[p] == later[p - |first|] && s[q] == later[q - |first|];
        }
      }
    }
  }

  /** What `_get_meal_schedule` hands back. */
  datatype MealSchedule = MealSchedule(slots: seq<Slot>, mealsPerDay: nat, numDays: nat)

  /** `_get_meal_schedule` for a customer's frequency and dates. */
  function GetMealSchedule(f: MealFrequency, start: int, end: int): (r: MealSchedule)
    ensures r.numDays == |BusinessDays(start, end)|
    ensures r.mealsPerDay == |MealTimes(f)|
  {
    MealTimesAreDayPlan(f);
    var days := BusinessDays(start, end);
    MealSchedule(ScheduleOf(days, MealTimes(f)), MealsPerDay(f), |days|)
  }

  /** The assertion after the loop never fails: there are `meals_per_day *
      num_days` slots. */
  lemma GetMealScheduleCount(f: MealFrequency, start: int, end: int)
    ensures var s := GetMealSchedule(f, start, end);
            |s.slots| == s.mealsPerDay * s.numDays && s.mealsPerDay >= 1
  {
    MealTimesAreDayPlan(f);
    ScheduleLength(BusinessDays(start, end), MealTimes(f));
  }

  /** Slot `i * meals_per_day + j` is the `i`-th business day at the `j`-th
      time of day. */
  lemma GetMealScheduleAt(f: MealFrequency, start: int, end: int, i: nat, j: nat)
    requires i < GetMealSchedule(f, start, end).numDays && j < GetMealSchedule(f, start, end).mealsPerDay
    ensures var s := GetMealSchedule(f, start, end);
            i * s.mealsPerDay + j < |s.slots|
            && s.slots[i * s.mealsPerDay + j] == Slot(BusinessDays(start, end)[i], MealTimes(f)[j])
  {
    ScheduleAt(BusinessDays(start, end), MealTimes(f), i, j);
  }

  /** Every slot is a business day within the dates, at one of the
      frequency's times. */
  lemma GetMealScheduleDays(f: MealFrequency, start: int, end: int)
    ensures var s := GetMealSchedule(f, start, end);
            forall k :: 0 <= k < |s.slots| ==>
              start <= s.slots[k].day <= end && IsBusinessDay(s.slots[k].day) && s.slots[k].minute in MealTimes(f)
  {
    ScheduleSlots(BusinessDays(start, end), MealTimes(f));
  }

  /** The slots are strictly increasing in time, day by day and within a
      day by time. */
  lemma GetMealScheduleOrder(f: MealFrequency, start: int, end: int)
    ensures Chronological(GetMealSchedule(f, start, end).slots)
  {
    MealTimesAreDayPlan(f);
    ScheduleChronological(BusinessDays(start, end), MealTimes(f));
  }
}
