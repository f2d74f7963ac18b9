/** Instants and calendar days. A `DateTime` is its tick count (100 ns since
    the epoch of the calendar); `.Date` keeps the day, `TimeSpan.Days` counts
    whole elapsed days. */
module Calendar {

  const TicksPerDay: nat := 864_000_000_000

  /** A `DateTime`, as its tick count. */
  type Moment = nat

  /** The first tick of day `day`: `.Date` of any moment of that day, and
      `DateTime.Today` when `day` is the current day. */
  function Midnight(day: nat): (r: Moment)
    ensures r / TicksPerDay == day && r % TicksPerDay == 0
  {
    day * TicksPerDay
  }

  /** `.Date`, as a day number: the day the moment falls in. */
  function DayOf(m: Moment): (r: nat)
    ensures Midnight(r) <= m < Midnight(r) + TicksPerDay
  {
    m / TicksPerDay
  }

  /** `(to - from).Days`: the elapsed time in whole days, truncated toward
      zero as `TimeSpan.Days` is. */
  function WholeDays(from: Moment, to: Moment): (r: int)
    ensures from <= to ==> r >= 0 && r * TicksPerDay <= to - from < (r + 1) * TicksPerDay
    ensures to < from ==> r <= 0 && -r * TicksPerDay <= from - to < (-r + 1) * TicksPerDay
  {
    if from <= to then (to - from) / TicksPerDay
    else -((from - to) / TicksPerDay)
  }

  /** A moment is before midnight of `day` exactly when it falls on an
      earlier day. */
  lemma BeforeMidnightIffEarlierDay(m: Moment, day: nat)
    ensures m < Midnight(day) <==> DayOf(m) < day
  {
    if DayOf(m) < day {
      assert Midnight(DayOf(m)) + TicksPerDay <= Midnight(day) by {
        MidnightMonotone(DayOf(m) + 1, day);
      }
    } else {
      MidnightMonotone(day, DayOf(m));
    }
  }

  lemma MidnightMonotone(a: nat, b: nat)
    requires a <= b
    ensures Midnight(a) <= Midnight(b)
    ensures Midnight(b) - Midnight(a) == (b - a) * TicksPerDay
  {
  }

  /** Whole elapsed days are the difference of the calendar days, less one
      when the later moment has an earlier time of day. */
  lemma WholeDaysVersusDates(from: Moment, to: Moment)
    requires from <= to
    ensures from % TicksPerDay <= to % TicksPerDay ==> WholeDays(from, to) == DayOf(to) - DayOf(from)
    ensures to % TicksPerDay < from % TicksPerDay ==> WholeDays(from, to) == DayOf(to) - DayOf(from) - 1
  {
    var a, b := DayOf(from), DayOf(to);
    var w := WholeDays(from, to);
    assert from == a * TicksPerDay + from % TicksPerDay;
    assert to == b * TicksPerDay + to % TicksPerDay;
    assert to - from == (b - a) * TicksPerDay + (to % TicksPerDay - from % TicksPerDay);
    assert w * TicksPerDay <= to - from < (w + 1) * TicksPerDay;
    if from % TicksPerDay <= to % TicksPerDay {
      assert (b - a) * TicksPerDay <= to - from < (b - a + 1) * TicksPerDay;
    } else {
      assert (b - a - 1) * TicksPerDay <= to - from < (b - a) * TicksPerDay;
    }
  }
}
