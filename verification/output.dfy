/**
 One cook of the operator: the trigger decision broadcast over the samples
 of the single output channel, "Trigger".
 */
module Output {
  import opened Schedule
  import opened Trigger

  /** The sample value a decision stands for: 1 when fired, 0 otherwise. */
  function SampleValue(fired: bool): (v: real)
    ensures v == 1.0 || v == 0.0
    ensures v == 1.0 <==> fired
  {
    if fired then 1.0 else 0.0
  }

  /** Channel 0 after the fill: `numSamples` copies of the decision's value
      (no samples when the host asks for none or a negative count). */
  method FillChannel(numSamples: int, fired: bool) returns (channel: seq<real>)
    ensures |channel| == if numSamples < 0 then 0 else numSamples
    ensures forall i :: 0 <= i < |channel| ==> channel[i] == SampleValue(fired)
  {
    var value := SampleValue(fired);
    channel := [];
    var i: nat := 0;
    while i < numSamples
      invariant numSamples >= 0 ==> i <= numSamples
      invariant numSamples < 0 ==> i == 0
      invariant |channel| == i
      invariant forall k :: 0 <= k < i ==> channel[k] == value
    {
      channel := channel + [value];
      i := i + 1;
    }
  }

  /** One cook: evaluate the tick, then fill the channel. Every sample is 1
      exactly when the clock reading is inside the active window and the
      interval gate lets it through; the last-trigger time to keep changes
      only on such a firing and then becomes the current second. */
  method Execute(config: Config, c: Reading, last: int, numSamples: int)
    returns (channel: seq<real>, nextLast: int)
    requires 0 <= c.wday < 7
    ensures |channel| == if numSamples < 0 then 0 else numSamples
    ensures forall i :: 0 <= i < |channel| ==>
      (channel[i] == 1.0 <==> Evaluate(config, c, last).fired)
    ensures forall i :: 0 <= i < |channel| && channel[i] == 1.0 ==> InActiveWindow(config, c)
    ensures nextLast == last || nextLast == Now(c)
    ensures nextLast == Evaluate(config, c, last).lastTrigger
  {
    var d := Evaluate(config, c, last);
    channel := FillChannel(numSamples, d.fired);
    nextLast := d.lastTrigger;
  }
}
