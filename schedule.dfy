/**
 * The scheduler's choice of the next run: the next `:00` or `:30` after now, and how long to
 * sleep until then.
 *
 * A naive `datetime` is modelled by its fields, with the date as an ordinal day number so that
 * `timedelta(hours=1)` carries into the next day without a calendar.
 */
module Schedule {

  datatype DateTime = DateTime(day: int, hour: int, minute: int, second: int, micro: int)

  predicate Valid(t: DateTime) {
    0 <= t.hour < 24 && 0 <= t.minute < 60 && 0 <= t.second < 60 && 0 <= t.micro < 1000000
  }

  const MicrosPerSecond: int := 1000000
  const HalfHour: int := 30 * 60 * MicrosPerSecond

  /** The instant as microseconds since the start of day 0. */
  function Micros(t: DateTime): int {
    (((t.day * 24 + t.hour) * 60 + t.minute) * 60 + t.second) * MicrosPerSecond + t.micro
  }

  /**
   * `next_run`: `:30` of this hour when the minute is below 30, otherwise `:00` of the following
   * hour, carrying into the next day after 23:30.
   */
  function NextRun(now: DateTime): (next: DateTime)
    requires Valid(now)
    ensures Valid(next)
    ensures (next.minute == 0 || next.minute == 30) && next.second == 0 && next.micro == 0
  {
    if now.minute < 30 then
      DateTime(now.day, now.hour, 30, 0, 0)
    else if now.hour < 23 then
      DateTime(now.day, now.hour + 1, 0, 0, 0)
    else
      DateTime(now.day + 1, 0, 0, 0, 0)
  }

  /** `(next_run - now).total_seconds()`, replaced by 1 when it is not positive. */
  function WaitSeconds(now: DateTime): (r: real)
    requires Valid(now)
    ensures r > 0.0
  {
    var raw := (Micros(NextRun(now)) - Micros(now)) as real / MicrosPerSecond as real;
    if raw <= 0.0 then 1.0 else raw
  }

  /** The start of the half hour `now` falls in, and how far into it `now` is. */
  lemma HalfHourSplit(now: DateTime)
    requires Valid(now)
    ensures var q := (now.day * 24 + now.hour) * 2 + (if now.minute < 30 then 0 else 1);
      var offset := Micros(now) - q * HalfHour;
      0 <= offset < HalfHour && Micros(NextRun(now)) == (q + 1) * HalfHour
  {
    var q := (now.day * 24 + now.hour) * 2 + (if now.minute < 30 then 0 else 1);
    var m := if now.minute < 30 then now.minute else now.minute - 30;
    assert Micros(now) == q * HalfHour + (m * 60 + now.second) * MicrosPerSecond + now.micro;
  }

  /** `next_run` is strictly after `now` and at most half an hour after it. */
  lemma NextRunWithinHalfHour(now: DateTime)
    requires Valid(now)
    ensures Micros(now) < Micros(NextRun(now)) <= Micros(now) + HalfHour
  {
    HalfHourSplit(now);
  }

  /** Integer division recovers the quotient of an exact split. */
  lemma DivOfSplit(x: int, q: int, d: int)
    requires d > 0 && q * d <= x < q * d + d
    ensures x / d == q
  {
    var k := x / d;
    assert k * d <= x < k * d + d;
    MulMonotone(k + 1, q, d);
    MulMonotone(q + 1, k, d);
  }

  lemma MulMonotone(a: int, b: int, d: int)
    requires d > 0
    ensures a <= b <==> a * d <= b * d
  {
    if a <= b {
      assert b * d - a * d == (b - a) * d;
    } else {
      assert a * d - b * d == (a - b) * d;
    }
  }

  /** `next_run` is the half-hour boundary after `now`: `(floor(now / 30 min) + 1) * 30 min`. */
  lemma NextRunIsNextBoundary(now: DateTime)
    requires Valid(now)
    ensures Micros(NextRun(now)) == (Micros(now) / HalfHour + 1) * HalfHour
  {
    var q := (now.day * 24 + now.hour) * 2 + (if now.minute < 30 then 0 else 1);
    HalfHourSplit(now);
    DivOfSplit(Micros(now), q, HalfHour);
  }

  /** No half-hour boundary lies strictly between `now` and `next_run`. */
  lemma NextRunIsEarliest(now: DateTime, k: int)
    requires Valid(now)
    requires Micros(now) < k * HalfHour
    ensures Micros(NextRun(now)) <= k * HalfHour
  {
    var q := (now.day * 24 + now.hour) * 2 + (if now.minute < 30 then 0 else 1);
    HalfHourSplit(now);
    MulMonotone(q + 1, k, HalfHour);
  }

  /**
   * The wait is the exact distance to `next_run`, in (0, 1800] seconds; the clamp to one second
   * never takes effect.
   */
  lemma WaitIsExactDistance(now: DateTime)
    requires Valid(now)
    ensures WaitSeconds(now) == (Micros(NextRun(now)) - Micros(now)) as real / MicrosPerSecond as real
    ensures 0.0 < WaitSeconds(now) <= 1800.0
  {
    NextRunWithinHalfHour(now);
  }

  /** At exactly `hh:30:00.000000` the next run is the top of the next hour, a full half hour away. */
  lemma AtHalfPastWaitsFullHalfHour(day: int, hour: int)
    requires 0 <= hour < 23
    ensures NextRun(DateTime(day, hour, 30, 0, 0)) == DateTime(day, hour + 1, 0, 0, 0)
    ensures WaitSeconds(DateTime(day, hour, 30, 0, 0)) == 1800.0
  {
    assert Micros(DateTime(day, hour + 1, 0, 0, 0)) - Micros(DateTime(day, hour, 30, 0, 0)) == HalfHour;
  }

  /** From 23:30 on, the next run is midnight of the following day. */
  lemma LateEveningRollsOver(now: DateTime)
    requires Valid(now) && now.hour == 23 && now.minute >= 30
    ensures NextRun(now) == DateTime(now.day + 1, 0, 0, 0, 0)
  {
  }

  /** Half a second before the half hour the wait is half a second, kept as it is. */
  lemma SubSecondWaitKept(day: int, hour: int)
    requires 0 <= hour < 24
    ensures WaitSeconds(DateTime(day, hour, 29, 59, 500000)) == 0.5
  {
    var now := DateTime(day, hour, 29, 59, 500000);
    assert Micros(NextRun(now)) - Micros(now) == 500000;
  }
}
