/**
 * The main loop of fancontrol.py (lines 233-237): every tick evaluates the
 * CPU path, then the disk path when at least 60 seconds have passed since
 * hdd_last_checked. The clock and the sensors are the tick's inputs.
 */
module Scheduler {
  import opened Wrappers
  import opened Ipmi
  import opened Policy
  import opened Hysteresis

  /** What one tick observes: the clock, the CPU reading, and each disk's reading in device order. */
  datatype TickInput = TickInput(now: int, cpu: Option<Celsius>, disks: seq<Option<Celsius>>)

  /** The scheduling condition of fancontrol.py:235. */
  predicate DiskCheckDue(s: ControllerState, now: int)
  {
    now - s.hddLastChecked >= HddPollingInterval
  }

  /** One pass of the loop body. */
  function TickStep(s: ControllerState, t: TickInput): (r: Step)
    ensures |r.sent| <= 2
    ensures r.next.cpuCurrent == s.cpuCurrent
    ensures r.next.cpuOverride == CpuStep(s, t.cpu).next.cpuOverride
  {
    var c := CpuStep(s, t.cpu);
    if DiskCheckDue(c.next, t.now) then
      var h := HddStep(c.next, t.disks, t.now);
      Step(h.next, c.sent + h.sent, h.completed)
    else c
  }

  /**
   * Ticks in order, from state `s`. The program exits when a disk read fails
   * (the exception from `int(None)` is never caught); the ticks that follow an
   * aborted one are the model's continuation, not the program's.
   */
  function Run(s: ControllerState, ticks: seq<TickInput>): (r: Step)
    ensures |r.sent| <= 2 * |ticks|
    ensures r.next.cpuCurrent == s.cpuCurrent
  {
    if ticks == [] then Step(s, [], true)
    else
      var before := Run(s, ticks[..|ticks| - 1]);
      var last := TickStep(before.next, ticks[|ticks| - 1]);
      Step(last.next, before.sent + last.sent, before.completed && last.completed)
  }

  /** The CPU readings of a sequence of ticks. */
  function CpuReadings(ticks: seq<TickInput>): (r: seq<Option<Celsius>>)
    ensures |r| == |ticks| && forall i :: 0 <= i < |ticks| ==> r[i] == ticks[i].cpu
  {
    if ticks == [] then [] else CpuReadings(ticks[..|ticks| - 1]) + [ticks[|ticks| - 1].cpu]
  }

  /**
   * The timing of one tick: the CPU path runs first and its commands come
   * first; the disk path runs only when due; hdd_last_checked moves to `now`
   * exactly when the disk path ran to its end; only a failed disk read aborts.
   */
  lemma TickTiming(s: ControllerState, t: TickInput)
    ensures var c := CpuStep(s, t.cpu);
            TickStep(s, t).sent[..|c.sent|] == c.sent
    ensures !DiskCheckDue(s, t.now) ==> TickStep(s, t) == CpuStep(s, t.cpu)
    ensures TickStep(s, t).next.hddLastChecked
            == if DiskCheckDue(s, t.now) && TickStep(s, t).completed then t.now else s.hddLastChecked
    ensures !TickStep(s, t).completed
            <==> DiskCheckDue(s, t.now) && !CpuStep(s, t.cpu).next.cpuOverride && Collected(t.disks).None?
  {
  }

  /**
   * When the CPU path leaves override on, the tick sends nothing on behalf of
   * the disks and keeps the stored disk level, whatever the disks read.
   */
  lemma TickOverrideSuppressesDisks(s: ControllerState, t: TickInput)
    requires CpuStep(s, t.cpu).next.cpuOverride
    ensures TickStep(s, t).sent == CpuStep(s, t.cpu).sent
    ensures TickStep(s, t).next.hddCurrent == s.hddCurrent
    ensures TickStep(s, t).next.cpuOverride
  {
  }

  /** One tick keeps the invariant, and every command it sends drives the CPU fan at 100. */
  lemma TickPreservesInvariant(s: ControllerState, t: TickInput)
    requires Invariant(s)
    ensures Invariant(TickStep(s, t).next)
    ensures forall c :: c in TickStep(s, t).sent ==> IsIssuable(c)
  {
    var c := CpuStep(s, t.cpu);
    if DiskCheckDue(c.next, t.now) {
      var h := HddStep(c.next, t.disks, t.now);
      match Collected(t.disks)
      case None =>
      case Some(temps) => SelectTierByHottest(temps);
      assert forall x :: x in c.sent + h.sent ==> x in c.sent || x in h.sent;
    }
  }

  /**
   * Over any run from the start-up state, the CPU fan level stays at its
   * default of 100, and every command sent is 100 for the CPU fan and a
   * disk tier for the disk fans.
   */
  lemma {:induction false} RunPreservesInvariant(s: ControllerState, ticks: seq<TickInput>)
    requires Invariant(s)
    ensures Invariant(Run(s, ticks).next)
    ensures forall c :: c in Run(s, ticks).sent ==> IsIssuable(c)
  {
    if ticks != [] {
      var before := Run(s, ticks[..|ticks| - 1]);
      RunPreservesInvariant(s, ticks[..|ticks| - 1]);
      TickPreservesInvariant(before.next, ticks[|ticks| - 1]);
      var last := TickStep(before.next, ticks[|ticks| - 1]);
      assert forall x :: x in before.sent + last.sent ==> x in before.sent || x in last.sent;
    }
  }

  /**
   * The disk path never touches the mode, so over a run the mode is the CPU
   * hysteresis applied to the CPU readings alone (see Hysteresis.StaysOnUntilCool).
   */
  lemma {:induction false} RunOverrideFollowsCpu(s: ControllerState, ticks: seq<TickInput>)
    ensures Run(s, ticks).next.cpuOverride == CpuRun(s, CpuReadings(ticks)).cpuOverride
  {
    if ticks != [] {
      var n := |ticks| - 1;
      RunOverrideFollowsCpu(s, ticks[..n]);
      assert CpuReadings(ticks)[..n] == CpuReadings(ticks[..n]);
    }
  }

  /** Over a run, override holds from a tick reading above 69 until a tick reading below 60. */
  lemma RunStaysOnUntilCool(s: ControllerState, ticks: seq<TickInput>, i: int)
    requires 0 <= i < |ticks| && Hot(ticks[i].cpu)
    requires forall j :: i < j < |ticks| ==> !Cool(ticks[j].cpu)
    ensures Run(s, ticks).next.cpuOverride
  {
    RunOverrideFollowsCpu(s, ticks);
    StaysOnUntilCool(s, CpuReadings(ticks), i);
  }
}
