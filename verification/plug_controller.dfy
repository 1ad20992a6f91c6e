/**
  The battery-charge controller of the TP-Link plug experiment: one decision
  on the first battery reading, then, on the low branch, polling until the
  battery reaches the upper threshold.

  Battery readings are the sequence of `psutil.sensors_battery().percent`
  values the controller would observe, first one first; a run that consumes
  every reading without reaching its end is reported as still charging.
  The plug is reduced to whether its relay is on (`is_off` is `not is_on`),
  and switching it is recorded as a command.
 */
module PlugController {
  import opened Outcomes

  datatype Command = SwitchOn | SwitchOff

  /** `battery_thresh`: below `low` the plug charges, charging stops at `high`. */
  datatype Thresholds = Thresholds(low: real, high: real)

  /** A run either finishes, `polls` being the index of the reading that
      ended the charge loop (0 on the branch without a loop), or is still
      waiting for the battery when the readings run out. */
  datatype Run = Finished(commands: seq<Command>, polls: nat) | Charging(commands: seq<Command>)

  /** Whether the relay is on after the plug executed `commands`. */
  function RelayAfter(on: bool, commands: seq<Command>): (r: bool)
    ensures |commands| > 0 ==> r == (commands[|commands| - 1] == SwitchOn)
    ensures |commands| == 0 ==> r == on
    decreases |commands|
  {
    if |commands| == 0 then on
    else RelayAfter(commands[0] == SwitchOn, commands[1..])
  }

  /** The index of the first reading at or after `from` that reaches `bound`,
      or `|readings|` if none does. */
  function FirstAtLeast(readings: seq<real>, bound: real, from: nat): (k: nat)
    requires from <= |readings|
    ensures from <= k <= |readings|
    ensures forall j :: from <= j < k ==> readings[j] < bound
    ensures k < |readings| ==> readings[k] >= bound
    decreases |readings| - from
  {
    if from == |readings| then from
    else if readings[from] >= bound then from
    else FirstAtLeast(readings, bound, from + 1)
  }

  /** `ExperimentTp100.run`. The first reading chooses the branch; on the low
      branch the plug is switched on if it was off, the loop condition is
      evaluated on the first reading and on each later one, and the plug is
      switched off once a reading reaches `high`; on the other branch the plug
      is switched off only if it was on. */
  function Controller(readings: seq<real>, th: Thresholds, on: bool): (r: Run)
    ensures |readings| == 0 ==> r == Charging([])
    ensures r.Finished? ==> r.polls < |readings| && !RelayAfter(on, r.commands)
    ensures SwitchOn in r.commands <==> |readings| > 0 && readings[0] < th.low && !on
    ensures SwitchOn in r.commands ==> r.commands[0] == SwitchOn
    ensures |readings| > 0 && readings[0] >= th.low ==>
      r == Finished(if on then [SwitchOff] else [], 0)
  {
    if |readings| == 0 then Charging([])
    else if readings[0] < th.low then
      var start := if on then [] else [SwitchOn];
      var k := FirstAtLeast(readings, th.high, 0);
      if k == |readings| then Charging(start) else Finished(start + [SwitchOff], k)
    else Finished(if on then [SwitchOff] else [], 0)
  }

  /** The controller as the source writes it, with its polling loop. */
  method RunController(readings: seq<real>, th: Thresholds, on: bool) returns (r: Run)
    ensures r == Controller(readings, th, on)
    ensures r.Finished? ==> !RelayAfter(on, r.commands)
  {
    if |readings| == 0 {
      return Charging([]);
    }
    if readings[0] < th.low {
      var commands := [];
      if !on {
        commands := [SwitchOn];
      }
      var i := 0;
      while i < |readings| && readings[i] < th.high
        invariant 0 <= i <= |readings|
        invariant forall j :: 0 <= j < i ==> readings[j] < th.high
      {
        i := i + 1;
      }
      if i == |readings| {
        return Charging(commands);
      }
      return Finished(commands + [SwitchOff], i);
    } else if on {
      return Finished([SwitchOff], 0);
    } else {
      return Finished([], 0);
    }
  }

  /** On the low branch the run finishes exactly when some reading reaches
      the high threshold, after polling up to the first such reading. */
  lemma ChargeUntilHigh(readings: seq<real>, th: Thresholds, on: bool)
    requires |readings| > 0 && readings[0] < th.low
    ensures var r := Controller(readings, th, on);
      && (r.Finished? <==> exists k :: 0 <= k < |readings| && readings[k] >= th.high)
      && (r.Finished? ==> readings[r.polls] >= th.high
                           && (forall j :: 0 <= j < r.polls ==> readings[j] < th.high)
                           && r.commands[|r.commands| - 1] == SwitchOff)
  {
    var r := Controller(readings, th, on);
    if exists k :: 0 <= k < |readings| && readings[k] >= th.high {
      var k :| 0 <= k < |readings| && readings[k] >= th.high;
      assert FirstAtLeast(readings, th.high, 0) <= k;
    }
  }

  /** `kwargs.get('battery_thresh', (0.1, 0.9))` as the source writes it:
      the default thresholds are fractions, while the readings are percents. */
  function ConfiguredThresholdsAsWritten(given: Option<Thresholds>): (th: Thresholds)
    ensures given.Some? ==> th == given.value
    ensures given.None? ==> th.low < 1.0 && th.high < 1.0
  {
    match given
    case Some(t) => t
    case None => Thresholds(0.1, 0.9)
  }

  /** A battery at 5 percent is not charged under the default thresholds:
      the first reading is not below 0.1, so an off plug stays off. */
  lemma DefaultThresholdsIgnoreLowBattery()
    ensures Controller([5.0, 50.0, 95.0], ConfiguredThresholdsAsWritten(None), false) == Finished([], 0)
  {
  }

  /** The default thresholds expressed as percents, the unit of the readings. */
  function ConfiguredThresholds(given: Option<Thresholds>): (th: Thresholds)
    ensures given.Some? ==> th == given.value
    ensures given.None? ==> 0.0 < th.low < th.high <= 100.0
  {
    match given
    case Some(t) => t
    case None => Thresholds(10.0, 90.0)
  }

  /** With the default percent thresholds, any battery below 10 percent is
      charged: an off plug is switched on, and a finished run stopped at a
      reading of at least 90 percent. */
  lemma DefaultThresholdsChargeLowBattery(readings: seq<real>, on: bool)
    requires |readings| > 0 && readings[0] < 10.0
    ensures var r := Controller(readings, ConfiguredThresholds(None), on);
      && (!on ==> r.commands[0] == SwitchOn)
      && (r.Finished? ==> readings[r.polls] >= 90.0 && !RelayAfter(on, r.commands))
  {
    ChargeUntilHigh(readings, ConfiguredThresholds(None), on);
  }
}
