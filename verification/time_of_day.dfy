/**
 Wall-clock times of day as the scheduler sees them: an hour/minute/second
 triple, and the number of seconds since midnight it stands for.

 The scheduler builds the current time and both window edges the same way,
 `hour * 3600 + minute * 60 + second`, with no clamping of the components.
 */
module TimeOfDay {

  const SecondsPerMinute: int := 60
  const SecondsPerHour: int := 3600
  const SecondsPerDay: int := 86400

  /** An hour/minute/second triple. The components are plain integers: a
      window edge is read from three integer parameters that nothing clamps. */
  datatype Hms = Hms(hour: int, minute: int, second: int)

  /** The components of an ordinary time of day, 00:00:00 through 23:59:59. */
  predicate InRange(t: Hms) {
    0 <= t.hour < 24 && 0 <= t.minute < 60 && 0 <= t.second < 60
  }

  /** Chronological order of two times of day, compared field by field. */
  predicate NotAfter(a: Hms, b: Hms) {
    || a.hour < b.hour
    || (a.hour == b.hour && a.minute < b.minute)
    || (a.hour == b.hour && a.minute == b.minute && a.second <= b.second)
  }

  /** Seconds since midnight. For an in-range triple the result is a second
      of the day; nothing is clamped for out-of-range components. */
  function ToSeconds(t: Hms): (r: int)
    ensures InRange(t) ==> 0 <= r < SecondsPerDay
  {
    t.hour * SecondsPerHour + t.minute * SecondsPerMinute + t.second
  }

  /** The time of day a number of seconds since midnight stands for. */
  function FromSeconds(n: nat): (t: Hms)
    ensures n < SecondsPerDay ==> InRange(t)
  {
    Hms(n / SecondsPerHour, (n % SecondsPerHour) / SecondsPerMinute, n % SecondsPerMinute)
  }

  /** Converting an in-range triple to seconds loses nothing. */
  lemma FromToSeconds(t: Hms)
    requires InRange(t)
    ensures FromSeconds(ToSeconds(t)) == t
  {
  }

  /** Every second of the day is the image of exactly one in-range triple,
      the one FromSeconds gives. */
  lemma ToFromSeconds(n: nat)
    requires n < SecondsPerDay
    ensures ToSeconds(FromSeconds(n)) == n
    ensures forall t :: InRange(t) && ToSeconds(t) == n ==> t == FromSeconds(n)
  {
    var r := n % SecondsPerHour;
    assert n == (n / SecondsPerHour) * SecondsPerHour + r;
    assert r == (r / SecondsPerMinute) * SecondsPerMinute + r % SecondsPerMinute;
    assert n % SecondsPerMinute == r % SecondsPerMinute;
    forall t | InRange(t) && ToSeconds(t) == n
      ensures t == FromSeconds(n)
    {
      FromToSeconds(t);
    }
  }

  /** Comparing seconds since midnight is comparing times of day
      chronologically, so a window `start <= now <= end` on seconds is the
      same as one on clock readings. */
  lemma ToSecondsMonotone(a: Hms, b: Hms)
    requires InRange(a) && InRange(b)
    ensures ToSeconds(a) <= ToSeconds(b) <==> NotAfter(a, b)
  {
  }
}
