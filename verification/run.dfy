/**
 A sequence of cooks, threading the last-trigger time from each cook to the
 next as the operator instance does. Every cook carries its own parameter
 snapshot: the operator re-reads its parameters on each cook, so they may
 change between cooks.
 */
module Run {
  import opened TimeOfDay
  import opened Schedule
  import opened Trigger

  /** One cook's inputs: the parameters as read on that cook and the clock. */
  datatype Cook = Cook(config: Config, reading: Reading)

  /** The trigger values of a run and the last-trigger time after it. */
  datatype Trace = Trace(fires: seq<bool>, last: int)

  predicate ValidWeekdays(cooks: seq<Cook>) {
    forall i :: 0 <= i < |cooks| ==> 0 <= cooks[i].reading.wday < 7
  }

  /** Every cook of the run gates on a positive interval. */
  predicate PositiveIntervals(cooks: seq<Cook>) {
    forall i :: 0 <= i < |cooks| ==> cooks[i].config.interval > 0
  }

  /** The clock readings of the run do not go back. */
  predicate NonDecreasing(cooks: seq<Cook>) {
    forall i, j :: 0 <= i < j < |cooks| ==> Now(cooks[i].reading) <= Now(cooks[j].reading)
  }

  /** Evaluate every cook in order, starting from last-trigger time `last`. */
  function Ticks(cooks: seq<Cook>, last: int): (t: Trace)
    requires ValidWeekdays(cooks)
    ensures |t.fires| == |cooks|
    ensures forall i :: 0 <= i < |cooks| && t.fires[i] ==> InActiveWindow(cooks[i].config, cooks[i].reading)
    ensures t.last == last || exists i :: 0 <= i < |cooks| && t.fires[i] && t.last == Now(cooks[i].reading)
    decreases |cooks|
  {
    if |cooks| == 0 then
      Trace([], last)
    else
      var d := Evaluate(cooks[0].config, cooks[0].reading, last);
      var rest := Ticks(cooks[1..], d.lastTrigger);
      assert forall i :: 1 <= i < |cooks| ==> cooks[1..][i - 1] == cooks[i];
      Trace([d.fired] + rest.fires, rest.last)
  }

  /** With positive intervals and a clock that does not go back, successive
      firings land on strictly increasing seconds: the trigger fires at most
      once per second, however the parameters change between cooks and
      whatever last-trigger time the run starts from (a later second left
      over from the previous day included). When the run starts no earlier
      than that last-trigger time, every firing is also after it. */
  lemma {:induction false} FiringsStrictlyIncrease(cooks: seq<Cook>, last: int)
    requires ValidWeekdays(cooks) && PositiveIntervals(cooks) && NonDecreasing(cooks)
    ensures |cooks| > 0 && last <= Now(cooks[0].reading) ==>
      forall j :: 0 <= j < |cooks| && Ticks(cooks, last).fires[j] ==> last < Now(cooks[j].reading)
    ensures forall i, j ::
      (0 <= i < j < |cooks| && Ticks(cooks, last).fires[i] && Ticks(cooks, last).fires[j])
      ==> Now(cooks[i].reading) < Now(cooks[j].reading)
    decreases |cooks|
  {
    if |cooks| > 0 {
      var c := cooks[0];
      var d := Evaluate(c.config, c.reading, last);
      var tail := cooks[1..];
      var fires := Ticks(cooks, last).fires;
      var rest := Ticks(tail, d.lastTrigger).fires;
      TailOfRun(cooks, last);
      FiringsStrictlyIncrease(tail, d.lastTrigger);
      if last <= Now(c.reading) {
        forall j | 0 <= j < |cooks| && fires[j]
          ensures last < Now(cooks[j].reading)
        {
          if j > 0 {
            assert Now(c.reading) <= Now(tail[0].reading);
            assert rest[j - 1] && tail[j - 1] == cooks[j];
          }
        }
      }
      forall i, j | 0 <= i < j < |cooks| && fires[i] && fires[j]
        ensures Now(cooks[i].reading) < Now(cooks[j].reading)
      {
        assert rest[j - 1] && tail[j - 1] == cooks[j];
        if i > 0 {
          assert rest[i - 1] && tail[i - 1] == cooks[i];
        } else {
          assert d.lastTrigger == Now(c.reading) <= Now(tail[0].reading);
        }
      }
    }
  }

  /** The run after the first cook is the run of the remaining cooks from
      the first cook's last-trigger time, and it meets the same hypotheses. */
  lemma TailOfRun(cooks: seq<Cook>, last: int)
    requires ValidWeekdays(cooks) && PositiveIntervals(cooks) && NonDecreasing(cooks) && |cooks| > 0
    ensures ValidWeekdays(cooks[1..]) && PositiveIntervals(cooks[1..]) && NonDecreasing(cooks[1..])
    ensures Ticks(cooks, last).fires ==
      [Evaluate(cooks[0].config, cooks[0].reading, last).fired]
      + Ticks(cooks[1..], Evaluate(cooks[0].config, cooks[0].reading, last).lastTrigger).fires
  {
  }

  /** From a freshly created operator, firings within a day's run with
      positive intervals fall on strictly increasing seconds. */
  lemma FreshRunFiresOncePerSecond(cooks: seq<Cook>)
    requires ValidWeekdays(cooks) && PositiveIntervals(cooks) && NonDecreasing(cooks)
    requires forall i :: 0 <= i < |cooks| ==> ValidReading(cooks[i].reading)
    ensures forall i, j ::
      (0 <= i < j < |cooks| && Ticks(cooks, NeverFired).fires[i] && Ticks(cooks, NeverFired).fires[j])
      ==> Now(cooks[i].reading) < Now(cooks[j].reading)
  {
    FiringsStrictlyIncrease(cooks, NeverFired);
  }
}
