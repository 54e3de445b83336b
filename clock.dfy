/**
 * Packed HHMM clock readings (830 is 08:30) and `time_distance_min`.
 * `parseInt(t / 100)` and `t % 100` on JavaScript numbers both round
 * toward zero, unlike Dafny's Euclidean `/` and `%`, so they are written out.
 */
module Clock {

  /** `parseInt(a / b)` for an integer `a` and a positive divisor: the quotient rounded toward zero. */
  function TruncDiv(a: int, b: int): int
    requires b > 0
  {
    if a >= 0 then a / b else -((-a) / b)
  }

  /** JavaScript's `a % b`: the remainder takes the sign of the dividend. */
  function TruncMod(a: int, b: int): int
    requires b > 0
  {
    a - b * TruncDiv(a, b)
  }

  /** Hour part of an HHMM reading (`start_hour` in the source). */
  function HourOf(t: int): int { TruncDiv(t, 100) }

  /** Minute part of an HHMM reading (`start_min` in the source). */
  function MinuteOf(t: int): int { TruncMod(t, 100) }

  /**
   * `time_distance_min(start, end)`: minutes from `start` to `end`. On
   * non-negative readings the truncating operators are Euclidean `/` and `%`.
   */
  function TimeDistance(start: int, end: int): (d: int)
    ensures start >= 0 && end >= 0 ==>
      d == ((end / 100) * 60 + end % 100) - ((start / 100) * 60 + start % 100)
  {
    (HourOf(end) - HourOf(start)) * 60 + (MinuteOf(end) - MinuteOf(start))
  }

  /** Minutes since midnight that an HHMM reading stands for. */
  function MinutesOfDay(t: int): int { HourOf(t) * 60 + MinuteOf(t) }

  /**
   * A non-negative reading whose minute part is 0..59. The hour is not
   * bounded, so the end-of-day stamp 2400 is one.
   */
  predicate Reading(t: int)
  {
    0 <= t && MinuteOf(t) < 60
  }

  /** A well-formed clock reading: hour 0..23 and minute 0..59. */
  predicate ValidClock(t: int)
  {
    Reading(t) && HourOf(t) < 24
  }

  /** Euclidean division of a non-negative dividend. */
  lemma DivOfNonNegative(n: int, b: int)
    requires n >= 0 && b > 0
    ensures n == b * (n / b) + n % b && 0 <= n % b < b && n / b >= 0
  {
  }

  /** Truncated division is division with a remainder of the dividend's sign, smaller than the divisor. */
  lemma TruncDivMod(a: int, b: int)
    requires b > 0
    ensures a == b * TruncDiv(a, b) + TruncMod(a, b)
    ensures a >= 0 ==> 0 <= TruncMod(a, b) < b && TruncDiv(a, b) >= 0
    ensures a <= 0 ==> -b < TruncMod(a, b) <= 0 && TruncDiv(a, b) <= 0
  {
    if a >= 0 {
      DivOfNonNegative(a, b);
    } else {
      DivOfNonNegative(-a, b);
      var q, r := (-a) / b, (-a) % b;
      assert TruncDiv(a, b) == -q;
      assert TruncMod(a, b) == a + b * q == -r;
    }
  }

  /** The distance is the difference of the two readings' minutes since midnight. */
  lemma DistanceIsDifference(a: int, b: int)
    ensures TimeDistance(a, b) == MinutesOfDay(b) - MinutesOfDay(a)
  {
  }

  lemma DistanceToSelf(a: int)
    ensures TimeDistance(a, a) == 0
  {
  }

  lemma DistanceAdditive(a: int, b: int, c: int)
    ensures TimeDistance(a, b) + TimeDistance(b, c) == TimeDistance(a, c)
  {
  }

  lemma DistanceAntisymmetric(a: int, b: int)
    ensures TimeDistance(a, b) == -TimeDistance(b, a)
  {
  }

  /** A valid reading lies within one day. */
  lemma MinutesOfDayBounds(t: int)
    requires ValidClock(t)
    ensures 0 <= MinutesOfDay(t) < 24 * 60
  {
    TruncDivMod(t, 100);
  }

  /**
   * On readings the packed order is the order of the day:
   * a later reading is never a negative distance away.
   */
  lemma DistanceMonotone(a: int, b: int)
    requires Reading(a) && Reading(b) && a <= b
    ensures TimeDistance(a, b) >= 0
  {
    TruncDivMod(a, 100);
    TruncDivMod(b, 100);
  }

  /** Two readings are zero minutes apart exactly when they are equal. */
  lemma DistanceZeroIff(a: int, b: int)
    requires Reading(a) && Reading(b)
    ensures TimeDistance(a, b) == 0 <==> a == b
  {
    TruncDivMod(a, 100);
    TruncDivMod(b, 100);
  }

  /** On readings, comparing the packed numbers is comparing the elapsed minutes with zero. */
  lemma DistanceSignIsOrder(a: int, b: int)
    requires Reading(a) && Reading(b)
    ensures a <= b <==> TimeDistance(a, b) >= 0
  {
    if a <= b {
      DistanceMonotone(a, b);
    } else {
      DistanceMonotone(b, a);
      DistanceZeroIff(b, a);
      DistanceAntisymmetric(a, b);
    }
  }
}
