/**
 The scheduler's configuration and the choice of the window that applies to
 a given weekday.

 The configuration is a typed snapshot of the operator's parameters: a
 global mode toggle, a global window, a global interval and seven per-day
 entries laid out Sunday first, as the parameter pages are. The interval is
 shared by every mode: there is no per-day interval.
 */
module Schedule {
  import opened TimeOfDay

  datatype Option<T> = None | Some(value: T)

  /** A window in seconds since midnight. Both edges are included; nothing
      relates `start` to `end`, and a window whose start is after its end
      contains no time at all (there is no wrap past midnight). */
  datatype Window = Window(start: int, end: int)

  /** The parameters of one weekday page: an enable toggle and the start and
      end of the day's window as hour/minute/second triples. */
  datatype DayParams = DayParams(enabled: bool, start: Hms, end: Hms)

  /** The seven per-day entries, in the order of the day-name table. */
  type Week = s: seq<DayParams> | |s| == 7
    witness seq(7, _ => DayParams(false, Hms(0, 0, 0), Hms(0, 0, 0)))

  /** A snapshot of every parameter the trigger decision reads. The interval
      is a whole number of seconds. */
  datatype Config = Config(
    globalMode: bool,
    globalStart: Hms,
    globalEnd: Hms,
    interval: nat,
    days: Week)

  /** The day-name table the per-day parameters are looked up by. */
  const DayNames: seq<string> :=
    ["Sunday", "Monday", "Tuesday", "Wednesday", "Thursday", "Friday", "Saturday"]

  /** The table position read on clock weekday `wday` (0 = Sunday):
      `(wday + 6) % 7`, which is the entry one position before `wday`,
      wrapping from Sunday round to Saturday. */
  function DayIndex(wday: int): (i: int)
    requires 0 <= wday < 7
    ensures 0 <= i < 7
    ensures wday == 0 ==> i == 6
    ensures wday > 0 ==> i + 1 == wday
  {
    (wday + 6) % 7
  }

  /** Each table entry is read on exactly one weekday, and it is the page of
      the weekday after it: Monday reads the "Sunday" page, Sunday reads the
      "Saturday" page. */
  lemma {:induction false} DayIndexReadsPreviousPage(i: int)
    requires 0 <= i < 7
    ensures exists wday :: 0 <= wday < 7 && DayIndex(wday) == i
    ensures forall wday :: 0 <= wday < 7 && DayIndex(wday) == i ==> wday == (i + 1) % 7
  {
    var w := (i + 1) % 7;
    assert DayIndex(w) == i;
  }

  /** Monday's tick reads the parameters on the "Sunday" page. */
  lemma MondayReadsSundayPage()
    ensures DayNames[DayIndex(1)] == "Sunday"
    ensures DayNames[DayIndex(0)] == "Saturday"
  {
  }

  /** The window whose edges are the given triples converted to seconds. */
  function WindowOf(start: Hms, end: Hms): (w: Window)
    ensures InRange(start) && InRange(end) ==> 0 <= w.start < SecondsPerDay && 0 <= w.end < SecondsPerDay
    ensures InRange(start) && InRange(end) ==> (w.start <= w.end <==> NotAfter(start, end))
  {
    Window(ToSeconds(start), ToSeconds(end))
  }

  /** The closed-interval containment test; there is no midnight wrap. */
  predicate Contains(w: Window, now: int) {
    w.start <= now <= w.end
  }

  /** For in-range triples, a window built from clock edges contains a time
      exactly when the time lies chronologically between the edges; in
      particular a window whose start is after its end contains nothing. */
  lemma ContainsChronological(start: Hms, end: Hms, now: Hms)
    requires InRange(start) && InRange(end) && InRange(now)
    ensures Contains(WindowOf(start, end), ToSeconds(now)) <==> NotAfter(start, now) && NotAfter(now, end)
    ensures !NotAfter(start, end) ==> !Contains(WindowOf(start, end), ToSeconds(now))
  {
  }

  /** The window that applies on clock weekday `wday`, or None when the day
      is not active. In global mode every day is active and the window is the
      global one; otherwise the day's entry must be enabled and supplies the
      window. */
  function SelectWindow(config: Config, wday: int): (r: Option<Window>)
    requires 0 <= wday < 7
    ensures config.globalMode ==> r.Some? && r.value == WindowOf(config.globalStart, config.globalEnd)
    ensures !config.globalMode ==> (r.Some? <==> config.days[DayIndex(wday)].enabled)
    ensures !config.globalMode && r.Some? ==>
      r.value == WindowOf(config.days[DayIndex(wday)].start, config.days[DayIndex(wday)].end)
  {
    if config.globalMode then
      Some(WindowOf(config.globalStart, config.globalEnd))
    else
      var day := config.days[DayIndex(wday)];
      if day.enabled then Some(WindowOf(day.start, day.end)) else None
  }

  /** In global mode the selected window depends neither on the weekday nor
      on any per-day parameter. */
  lemma GlobalModeIgnoresDays(c1: Config, c2: Config, w1: int, w2: int)
    requires 0 <= w1 < 7 && 0 <= w2 < 7
    requires c1.globalMode && c2.globalMode
    requires c1.globalStart == c2.globalStart && c1.globalEnd == c2.globalEnd
    ensures SelectWindow(c1, w1) == SelectWindow(c2, w2)
  {
  }
}
