/**
 The per-tick trigger decision of the Scheduler operator.

 Each cook reads the clock, selects the window for the day, tests whether
 the current second lies in it and, if so, gates the trigger on the
 interval. The only state kept between cooks is the second of the day at
 which the trigger last fired on an interval boundary.
 */
module Trigger {
  import opened TimeOfDay
  import opened Schedule

  /** A local clock reading: the weekday (0 = Sunday) and the time of day. */
  datatype Reading = Reading(wday: int, time: Hms)

  /** What a local-time clock can report: weekday 0..6, hour 0..23, minute
      0..59 and second 0..60 (a leap second may read as 60). */
  predicate ValidReading(c: Reading) {
    0 <= c.wday < 7 && 0 <= c.time.hour < 24 && 0 <= c.time.minute < 60 && 0 <= c.time.second <= 60
  }

  /** The current time in seconds since midnight. */
  function Now(c: Reading): (r: int) {
    ToSeconds(c.time)
  }

  /** The value of the last-trigger time when the operator is created: a
      second no clock reading ever produces. */
  const NeverFired: int := -1

  /** The outcome of one tick: whether the trigger fires and the last-trigger
      time to keep for the next tick. */
  datatype Decision = Decision(fired: bool, lastTrigger: int)

  /** The day is active and its window holds the current second. */
  predicate InActiveWindow(config: Config, c: Reading)
    requires 0 <= c.wday < 7
  {
    var sel := SelectWindow(config, c.wday);
    sel.Some? && Contains(sel.value, Now(c))
  }

  /** The start of the window in force on the reading's day, 0 when the day
      is not active. */
  function WindowStart(config: Config, c: Reading): (s: int)
    requires 0 <= c.wday < 7
  {
    match SelectWindow(config, c.wday)
    case Some(w) => w.start
    case None => 0
  }

  /** One tick of the scheduler, given the configuration, the clock reading
      and the last-trigger time kept from the previous tick. Only an
      interval-gated firing records a new last-trigger time; with interval 0
      the trigger is high on every tick of the window and nothing is
      recorded. */
  function Evaluate(config: Config, c: Reading, last: int): (d: Decision)
    requires 0 <= c.wday < 7
    ensures d.fired ==> InActiveWindow(config, c)
    ensures d.lastTrigger == last || (d.fired && d.lastTrigger == Now(c))
    ensures d.lastTrigger != last ==> config.interval > 0
    ensures d.fired && config.interval > 0 ==>
      d.lastTrigger == Now(c) && Now(c) != last && (Now(c) - WindowStart(config, c)) % config.interval == 0
  {
    var now := Now(c);
    match SelectWindow(config, c.wday)
    case None => Decision(false, last)
    case Some(w) =>
      if !Contains(w, now) then
        Decision(false, last)
      else if config.interval == 0 then
        Decision(true, last)
      else if (now - w.start) % config.interval == 0 && now != last then
        Decision(true, now)
      else
        Decision(false, last)
  }

  /** The current second is the one the clock fields stand for. */
  lemma NowOfValidReading(c: Reading)
    requires ValidReading(c)
    ensures 0 <= Now(c) <= SecondsPerDay
    ensures c.time.second < 60 ==> FromSeconds(Now(c)) == c.time
  {
    if c.time.second < 60 {
      FromToSeconds(c.time);
    }
  }

  /** Outside the active window nothing fires and nothing is recorded. */
  lemma OutsideWindowIsQuiet(config: Config, c: Reading, last: int)
    requires 0 <= c.wday < 7
    requires !InActiveWindow(config, c)
    ensures Evaluate(config, c, last) == Decision(false, last)
  {
  }

  /** In per-day mode a disabled day never fires and keeps the state, whatever
      its window says. */
  lemma DisabledDayIsQuiet(config: Config, c: Reading, last: int)
    requires 0 <= c.wday < 7
    requires !config.globalMode && !config.days[DayIndex(c.wday)].enabled
    ensures Evaluate(config, c, last) == Decision(false, last)
  {
  }

  /** A window whose start lies after its end is never entered: the tick is
      quiet for every time of day. */
  lemma InvertedWindowIsQuiet(config: Config, c: Reading, last: int)
    requires 0 <= c.wday < 7
    requires SelectWindow(config, c.wday).Some?
    requires SelectWindow(config, c.wday).value.start > SelectWindow(config, c.wday).value.end
    ensures Evaluate(config, c, last) == Decision(false, last)
  {
  }

  /** In global mode the decision ignores the weekday and every per-day
      parameter. */
  lemma GlobalModeIgnoresWeekday(c1: Config, c2: Config, r1: Reading, r2: Reading, last: int)
    requires 0 <= r1.wday < 7 && 0 <= r2.wday < 7
    requires c1.globalMode && c2.globalMode
    requires c1.globalStart == c2.globalStart && c1.globalEnd == c2.globalEnd
    requires c1.interval == c2.interval
    requires r1.time == r2.time
    ensures Evaluate(c1, r1, last) == Evaluate(c2, r2, last)
  {
    GlobalModeIgnoresDays(c1, c2, r1.wday, r2.wday);
  }

  /** With interval 0 the trigger is high on every tick of the active window
      and the last-trigger time is left alone. */
  lemma ZeroIntervalIsContinuous(config: Config, c: Reading, last: int)
    requires 0 <= c.wday < 7
    requires config.interval == 0 && InActiveWindow(config, c)
    ensures Evaluate(config, c, last) == Decision(true, last)
  {
  }

  /** With a positive interval, inside the active window the elapsed time
      since the window start is non-negative, and the trigger fires exactly
      on a multiple of the interval that is not the last-trigger second; the
      last-trigger time moves to now exactly when it fires. */
  lemma IntervalGate(config: Config, c: Reading, last: int)
    requires 0 <= c.wday < 7
    requires config.interval > 0 && InActiveWindow(config, c)
    ensures Now(c) - WindowStart(config, c) >= 0
    ensures Evaluate(config, c, last).fired <==>
      (Now(c) - WindowStart(config, c)) % config.interval == 0 && Now(c) != last
    ensures Evaluate(config, c, last).lastTrigger ==
      if Evaluate(config, c, last).fired then Now(c) else last
  {
  }

  /** No double fire within one second: repeating a tick at the same second
      after an interval-gated firing is quiet. The guard reaches further than
      that; see SameSecondLaterQuiet. */
  lemma NoDoubleFire(config: Config, c: Reading, last: int)
    requires 0 <= c.wday < 7
    requires config.interval > 0 && Evaluate(config, c, last).fired
    ensures Evaluate(config, c, Evaluate(config, c, last).lastTrigger) ==
      Decision(false, Evaluate(config, c, last).lastTrigger)
  {
  }

  /** The last-trigger time is a second of the day and is never reset at
      midnight, so after an interval firing every later tick at the same
      second is quiet on ANY day and under any parameters with a positive
      interval, not only a repeat within the same second. */
  lemma SameSecondLaterQuiet(config: Config, c: Reading, later: Config, c': Reading, last: int)
    requires 0 <= c.wday < 7 && 0 <= c'.wday < 7
    requires config.interval > 0 && Evaluate(config, c, last).fired
    requires later.interval > 0 && Now(c') == Now(c)
    ensures Evaluate(later, c', Evaluate(config, c, last).lastTrigger) ==
      Decision(false, Evaluate(config, c, last).lastTrigger)
  {
  }

  /** A daily window 08:00:00 to 08:00:30 with interval 60 in global mode. */
  const DailyOneShot: Config :=
    Config(true, Hms(8, 0, 0), Hms(8, 0, 30), 60, seq(7, _ => DayParams(false, Hms(0, 0, 0), Hms(0, 0, 0))))

  /** The daily one-shot schedule fires on its first morning at 08:00:00 and
      then never again, on any day: 08:00:00 is the window's only interval
      boundary, and it is the recorded last-trigger second. */
  lemma DailyOneShotFiresOnce(c: Reading)
    requires 0 <= c.wday < 7
    ensures Evaluate(DailyOneShot, Reading(1, Hms(8, 0, 0)), NeverFired) == Decision(true, 28800)
    ensures !Evaluate(DailyOneShot, c, 28800).fired
  {
  }

  /** Starting from a fresh operator, the first tick that lies in the active
      window on an interval boundary fires. */
  lemma FirstAlignedTickFires(config: Config, c: Reading)
    requires ValidReading(c)
    requires InActiveWindow(config, c)
    requires config.interval == 0 || (Now(c) - WindowStart(config, c)) % config.interval == 0
    ensures Evaluate(config, c, NeverFired).fired
  {
  }
}
