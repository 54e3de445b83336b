/**
 * The integer part of placing aircraft: the simulated clock derived from
 * the half-hour bucket, and the elapsed and total flight minutes that the
 * interpolation ratio is formed from.
 */
module Airplanes {
  import opened Clock
  import opened Records
  import FlightFilter

  /**
   * `parseInt(hourData/2)*100 + parseInt(hourData%2)*30`: for a bucket
   * `h >= 0`, hour `h/2` and minute 0 or 30.
   */
  function CurrentTime(hourData: int): (t: int)
    ensures hourData >= 0 ==> t == (hourData / 2) * 100 + (hourData % 2) * 30
  {
    TruncDiv(hourData, 2) * 100 + TruncMod(hourData, 2) * 30
  }

  /** Bucket `h` is the clock reading h/2 hours and 0 or 30 minutes, the h-th half hour of the day. */
  lemma CurrentTimeIsHalfHour(hourData: int)
    requires 0 <= hourData <= 47
    ensures ValidClock(CurrentTime(hourData))
    ensures HourOf(CurrentTime(hourData)) == hourData / 2
    ensures MinuteOf(CurrentTime(hourData)) == if hourData % 2 == 0 then 0 else 30
    ensures MinutesOfDay(CurrentTime(hourData)) == 30 * hourData
  {
    var t := CurrentTime(hourData);
    assert t == (hourData / 2) * 100 + (hourData % 2) * 30;
    assert t / 100 == hourData / 2 && t % 100 == (hourData % 2) * 30;
  }

  /**
   * The filter's even/odd window times are this same clock reading, so a
   * flight passes the window test exactly when it departs by the clock and
   * arrives no earlier.
   */
  lemma WindowTimeIsCurrentTime(hourData: int)
    requires hourData >= 0
    ensures FlightFilter.WindowTime(hourData) == CurrentTime(hourData)
  {
    if hourData % 2 == 1 {
      assert hourData == 2 * (hourData / 2) + 1;
    }
  }

  /**
   * (PAST_MIN, TOTAL_MIN): minutes flown by the clock and scheduled minutes
   * of the flight, each a difference of minutes since midnight.
   */
  function Progress(f: Flight, hourData: int): (p: (int, int))
    ensures p.0 == MinutesOfDay(CurrentTime(hourData)) - MinutesOfDay(f.depTime)
    ensures p.1 == MinutesOfDay(f.arrTime) - MinutesOfDay(f.depTime)
  {
    DistanceIsDifference(f.depTime, CurrentTime(hourData));
    DistanceIsDifference(f.depTime, f.arrTime);
    (TimeDistance(f.depTime, CurrentTime(hourData)), TimeDistance(f.depTime, f.arrTime))
  }

  /**
   * For a flight that passed the window test with readings for times
   * (2400 included), 0 <= PAST_MIN <= TOTAL_MIN; TOTAL_MIN is zero, and the
   * ratio `0/0`, exactly when departure and arrival coincide, so the ratio
   * lies in [0, 1] for every other such flight.
   */
  lemma ProgressInRange(f: Flight, hourData: int)
    requires 0 <= hourData <= 47
    requires Reading(f.depTime) && Reading(f.arrTime)
    requires FlightFilter.InWindow(f, hourData)
    ensures 0 <= Progress(f, hourData).0 <= Progress(f, hourData).1
    ensures Progress(f, hourData).1 == 0 <==> f.depTime == f.arrTime
    ensures f.arrTime == CurrentTime(hourData) ==> Progress(f, hourData).0 == Progress(f, hourData).1
    ensures f.depTime == CurrentTime(hourData) ==> Progress(f, hourData).0 == 0
  {
    var t := CurrentTime(hourData);
    CurrentTimeIsHalfHour(hourData);
    WindowTimeIsCurrentTime(hourData);
    DistanceMonotone(f.depTime, t);
    DistanceMonotone(t, f.arrTime);
    DistanceAdditive(f.depTime, t, f.arrTime);
    DistanceZeroIff(f.depTime, f.arrTime);
  }
}
