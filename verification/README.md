# Scheduler operator: trigger decision

A model of the per-cook logic of the TouchDesigner "Scheduler" CHOP, an
operator with one output channel, `Trigger`. On each cook the operator does the following:

- It reads the local clock.
- It picks the time window that applies today. In global mode this is one global window. Otherwise it is the entry of a seven-day table, which must be enabled.
- It tests whether the current second lies in that window.
- If it does, it gates the trigger on a repeat interval.
- It writes the result, 1 or 0, into every sample of the channel.

The only state kept between cooks is the second of the day at which the trigger last fired on an interval boundary. It starts at -1.

The model is functional:

- `TimeOfDay` turns hour/minute/second triples into seconds since midnight and back, and shows that the order of seconds is chronological order.
- `Schedule` holds the typed configuration: the global mode toggle, the global window, the global interval and seven per-day pages laid out Sunday first. It also holds the weekday-to-table mapping, window selection and the closed-interval containment test.
- `Trigger` holds the one-tick decision `Evaluate(config, reading, last) -> Decision(fired, lastTrigger)` and the properties of a single tick.
- `Run` threads the last-trigger time through a sequence of cooks. Each cook carries its own parameter snapshot, because the operator re-reads its parameters on every cook. It proves that, with a positive interval on every cook and a clock that does not go back, firings land on strictly increasing seconds, so there is at most one firing per second. This holds whatever last-trigger time the run starts from, including a later second left over from the previous day. With interval 0 every in-window cook fires, many times a second.
- `Output` holds the channel fill, a loop with invariants, and one whole cook.

Notes on what the code does, as modelled:

- Containment is the plain closed interval `start <= now <= end`. A window whose start is after its end is never entered: there is no wrap past midnight.
- Window edges are `hour * 3600 + minute * 60 + second` of integer parameters with no clamping.
- There is one interval, the global one, and it is used in per-day mode too.
- The day table starts at Sunday, and the clock's weekday also counts from Sunday = 0. The index is `(wday + 6) % 7`, so every weekday reads the page one position before its own: Monday reads the "Sunday" page and Sunday reads the "Saturday" page. The model keeps this mapping as written (`Schedule.DayIndex`, `Schedule.MondayReadsSundayPage`).
- The last-trigger time is a second of the day and is never reset, at midnight or at any other time. So the `now != lastTriggerTime` guard does more than stop a second firing within one second. After a firing at second X, the trigger is quiet at second X on every later day, as long as the interval is positive (`Trigger.SameSecondLaterQuiet`). It stays quiet until some other second fires. For example, a global window from 08:00:00 to 08:00:30 with interval 60 fires once, on its first morning at 08:00:00, and never again on any day (`Trigger.DailyOneShotFiresOnce`).
- The interval is a whole number of seconds. Inside the window the elapsed time `now - start` is a non-negative integer. For such values, `fmod(elapsed, interval) < 1.0` is exactly `elapsed % interval == 0`, and that is how the model states it.

## Model

| member | source | states |
|---|---|---|
| TimeOfDay.ToSeconds | SchedulerCHOP.cpp:70 | seconds since midnight are `hour*3600 + minute*60 + second` with no clamping of the components; an in-range triple gives a second 0..86399 |
| TimeOfDay.FromToSeconds | SchedulerCHOP.cpp:70 | converting an in-range hour/minute/second triple to seconds since midnight loses nothing: decomposing the seconds gives the triple back |
| TimeOfDay.ToFromSeconds | SchedulerCHOP.cpp:70 | every second of the day 0..86399 is `hour*3600 + minute*60 + second` of the triple FromSeconds gives, and of no other in-range triple |
| TimeOfDay.ToSecondsMonotone | SchedulerCHOP.cpp:78-84 | for in-range triples, comparing seconds since midnight is comparing the times chronologically (hour, then minute, then second) |
| Schedule.DayIndex | SchedulerCHOP.cpp:91 | the table index `(wday + 6) % 7` lies in 0..6 and is the position one before the clock weekday, Sunday (0) wrapping to 6 |
| Schedule.DayIndexReadsPreviousPage | SchedulerCHOP.cpp:62-91 | every entry of the Sunday-first table is read on exactly one weekday, the one after it |
| Schedule.MondayReadsSundayPage | SchedulerCHOP.cpp:62-91 | on Monday the parameters of the "Sunday" page are read, and on Sunday those of the "Saturday" page |
| Schedule.WindowOf | SchedulerCHOP.cpp:96-102 | window edges built from in-range triples are seconds of the day, and the start is not after the end exactly when the start triple is chronologically not after the end triple |
| Schedule.ContainsChronological | SchedulerCHOP.cpp:109 | the closed-interval test holds exactly when the current time lies chronologically between the window's edges; a window whose start is after its end contains no time at all |
| Schedule.SelectWindow | SchedulerCHOP.cpp:75-106 | global mode always yields the global window; per-day mode yields a window exactly when the indexed day is enabled, and then it is that day's window |
| Schedule.GlobalModeIgnoresDays | SchedulerCHOP.cpp:75-87 | in global mode the selected window is the same for every weekday and every per-day configuration |
| Trigger.Evaluate | SchedulerCHOP.cpp:57-131 | a firing tick lies in the active window; the last-trigger time either stays or becomes the current second on a firing, only when the interval is positive; an interval firing is on a multiple of the interval from the window start and not on the last-trigger second |
| Trigger.NowOfValidReading | SchedulerCHOP.cpp:69-70 | a clock reading gives a second 0..86400 (a leap second reads as 60), and an ordinary reading decomposes back to its fields |
| Trigger.OutsideWindowIsQuiet | SchedulerCHOP.cpp:109-114 | outside the active window the trigger does not fire and the last-trigger time is unchanged |
| Trigger.DisabledDayIsQuiet | SchedulerCHOP.cpp:94-114 | in per-day mode with the indexed day disabled, the tick is quiet and keeps the state, whatever the window values |
| Trigger.InvertedWindowIsQuiet | SchedulerCHOP.cpp:109-114 | if the selected window's start is after its end, the tick is quiet and keeps the state for every time of day |
| Trigger.GlobalModeIgnoresWeekday | SchedulerCHOP.cpp:75-87 | in global mode the decision does not depend on the weekday or on any per-day parameter |
| Trigger.ZeroIntervalIsContinuous | SchedulerCHOP.cpp:116-120 | with interval 0, every tick in the active window fires and the last-trigger time is not modified |
| Trigger.IntervalGate | SchedulerCHOP.cpp:122-130 | with a positive interval in the active window, `now - start >= 0`, the tick fires exactly when `(now - start)` is a multiple of the interval and `now` differs from the last-trigger time, and the last-trigger time becomes `now` exactly when it fires |
| Trigger.NoDoubleFire | SchedulerCHOP.cpp:125-129 | repeating a tick at the same second after an interval firing is quiet and keeps the state |
| Trigger.SameSecondLaterQuiet | SchedulerCHOP.cpp:125-128 | after an interval firing, a tick at the same second is quiet and keeps the state on any weekday and under any parameters with a positive interval: the guard is not limited to one second |
| Trigger.DailyOneShotFiresOnce | SchedulerCHOP.cpp:124-129 | a global 08:00:00–08:00:30 window with interval 60 fires at 08:00:00 from the initial state, and from then on no tick of any day fires |
| Trigger.FirstAlignedTickFires | SchedulerCHOP.cpp:124-129 | from the initial last-trigger time -1 (constructor, line 32), the first in-window tick on an interval boundary fires, since no clock reading is -1 |
| Run.Ticks | SchedulerCHOP.cpp:57-138 | a run of cooks, each with its own parameters, yields one value per cook; every firing cook lies in its active window, and the final last-trigger time is the initial one or the second of some firing cook |
| Run.FiringsStrictlyIncrease | SchedulerCHOP.cpp:125-128 | with a positive interval on every cook, whatever else the parameters do between cooks, and a clock that does not go back, firings fall on strictly increasing seconds from any starting last-trigger time; when the run starts no earlier than that time, every firing is after it |
| Run.FreshRunFiresOncePerSecond | SchedulerCHOP.cpp:32 | starting from the constructor's last-trigger time -1, firings within a day's run with positive intervals fall on strictly increasing seconds |
| Output.SampleValue | SchedulerCHOP.cpp:112-127 | the sample value is 1 exactly when the tick fired and 0 otherwise |
| Output.FillChannel | SchedulerCHOP.cpp:134-137 | the channel holds `numSamples` samples, none for a negative count, and each equals the decision's value |
| Output.Execute | SchedulerCHOP.cpp:57-138 | every sample of one cook is 1 exactly when the tick fired, a 1 only appears in the active window, and the last-trigger time to keep is the old one or the current second |

## Left out

- Plugin registration and metadata are not modelled: `FillCHOPPluginInfo`, `CreateCHOPInstance`, `DestroyCHOPInstance`, `getGeneralInfo`, `getOutputInfo` (one channel at 60 Hz) and `getChannelName` ("Trigger"). They are host wiring with no decision logic.
- `setupParameters` is not modelled. It only declares the parameter pages.
- The clock read (`std::time`, `localtime_s`) is I/O. The weekday and the hour/minute/second come in as a `Reading`.
- The string-keyed parameter lookups are replaced by the typed `Config`. The operator's `globalMode` and `interval` fields are rewritten from the parameters at the top of each cook, so they are not state. Neither is the initial interval of 60. The header's `globalStartHour`…`globalEndSecond` and `activeDays` fields are never read by the logic.
- Floating point is not modelled. The interval is a non-negative whole number of seconds. Fractional and negative intervals are not represented. The float trigger value is a boolean, with 1.0/0.0 as sample values.
- TimeOfDay.ToSeconds: does not model C++ `int` overflow. The source overflows, which is undefined behaviour, whenever `h*3600 + m*60 + s` or one of its products leaves the `int` range.
- The code does not have the following behaviours, so the model does not either:
  - windows that wrap past midnight;
  - an interval per day;
  - firing whenever `now - last >= interval`, counted from the last firing instead of from the window start;
  - clamping of hour, minute and second values.
