/**
 * The CPU path over a sequence of readings: the hysteresis that
 * check_cpu_temp keeps with its two thresholds (fancontrol.py:130-136).
 */
module Hysteresis {
  import opened Wrappers
  import opened Policy

  /** The state after evaluating the CPU readings in order. Only the mode changes. */
  function CpuRun(s: ControllerState, readings: seq<Option<Celsius>>): (r: ControllerState)
    ensures r.(cpuOverride := s.cpuOverride) == s
  {
    if readings == [] then s
    else CpuStep(CpuRun(s, readings[..|readings| - 1]), readings[|readings| - 1]).next
  }

  /** Once a reading above 69 has been seen, override stays on until a reading below 60. */
  lemma {:induction false} StaysOnUntilCool(s: ControllerState, readings: seq<Option<Celsius>>, i: int)
    requires 0 <= i < |readings| && Hot(readings[i])
    requires forall j :: i < j < |readings| ==> !Cool(readings[j])
    ensures CpuRun(s, readings).cpuOverride
  {
    var n := |readings| - 1;
    if i < n {
      StaysOnUntilCool(s, readings[..n], i);
    }
  }

  /** Once a reading below 60 has been seen, override stays off until a reading above 69. */
  lemma {:induction false} StaysOffUntilHot(s: ControllerState, readings: seq<Option<Celsius>>, i: int)
    requires 0 <= i < |readings| && Cool(readings[i])
    requires forall j :: i < j < |readings| ==> !Hot(readings[j])
    ensures !CpuRun(s, readings).cpuOverride
  {
    var n := |readings| - 1;
    if i < n {
      StaysOffUntilHot(s, readings[..n], i);
    }
  }

  /**
   * Readings in 60..69 and failed readings never change the mode, so the
   * mode is decided by the last reading outside that band.
   */
  lemma {:induction false} KeepsModeInBand(s: ControllerState, readings: seq<Option<Celsius>>)
    requires forall j :: 0 <= j < |readings| ==> !Hot(readings[j]) && !Cool(readings[j])
    ensures CpuRun(s, readings).cpuOverride == s.cpuOverride
  {
    if readings != [] {
      KeepsModeInBand(s, readings[..|readings| - 1]);
    }
  }
}
