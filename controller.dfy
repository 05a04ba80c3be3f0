/**
 * The controller as the program runs it: the module globals of
 * fancontrol.py as the fields of one object, updated in place by
 * check_cpu_temp, check_hdd_temps and the loop body. Each `set_fan_speeds`
 * call appends its command to a ghost log.
 */
module FanControl {
  import opened Wrappers
  import opened Ipmi
  import opened Policy
  import opened Scheduler

  /**
   * The reads of fancontrol.py:196-197, one disk after the other, stopping at
   * the first failure. `failed` is true exactly when some disk could not be
   * read; otherwise `temps` holds every reading in disk order.
   */
  method CollectTemps(readings: seq<Option<Celsius>>) returns (temps: seq<Celsius>, failed: bool)
    ensures failed <==> exists i :: 0 <= i < |readings| && readings[i].None?
    ensures !failed ==> |temps| == |readings| && forall i :: 0 <= i < |readings| ==> temps[i] == readings[i].value
    ensures !failed ==> Collected(readings) == Some(temps)
  {
    temps, failed := [], false;
    var i := 0;
    while i < |readings|
      invariant 0 <= i <= |readings|
      invariant |temps| == i
      invariant forall j :: 0 <= j < i ==> readings[j].Some? && temps[j] == readings[j].value
    {
      match readings[i]
      case None =>
        failed := true;
        return;
      case Some(t) =>
        temps := temps + [t];
      i := i + 1;
    }
    assert Collected(readings).Some?;
    assert Collected(readings).value == temps;
  }

  class Controller {
    var cpuOverride: bool
    var cpuCurrent: Percent
    var hddCurrent: Percent
    var hddLastChecked: int
    /** Every `set_fan_speeds` call so far, oldest first. */
    ghost var log: seq<Command>

    function State(): ControllerState
      reads this
    {
      ControllerState(cpuOverride, cpuCurrent, hddCurrent, hddLastChecked)
    }

    ghost predicate Valid()
      reads this
    {
      Invariant(State()) && forall c :: c in log ==> IsIssuable(c)
    }

    /** Start-up: both fan levels at their defaults, override off, the clock read once. */
    constructor (startTime: int)
      ensures State() == Initial(startTime) && log == []
      ensures Valid()
    {
      cpuOverride := false;
      cpuCurrent := CpuFans.default;
      hddCurrent := HddFans.default;
      hddLastChecked := startTime;
      log := [];
    }

    /** set_fan_speeds: builds the raw request for the eight channels and sends it. */
    method SetFanSpeeds(cpu: Percent, hdd: Percent) returns (request: seq<int>)
      modifies this`log
      ensures log == old(log) + [Command(cpu, hdd)]
      ensures ParseRawRequest(request) == Some(Command(cpu, hdd))
    {
      request := RawRequest(Command(cpu, hdd));
      RawRequestRoundTrip(Command(cpu, hdd));
      log := log + [Command(cpu, hdd)];
    }

    /** check_cpu_temp with the reading get_cpu_temp produced (None: it failed). */
    method CheckCpu(reading: Option<Celsius>)
      modifies this
      ensures State() == CpuStep(old(State()), reading).next
      ensures log == old(log) + CpuStep(old(State()), reading).sent
    {
      match reading
      case None =>
        // get_cpu_temp has already sent the fail-safe; comparing None raises and is swallowed
        var _ := SetFanSpeeds(CpuFans.high, HddFans.high);
      case Some(t) =>
        if t > CpuOverride && !cpuOverride {
          var _ := SetFanSpeeds(CpuFans.high, HddFans.high);
          cpuOverride := true;
        } else if t < CpuNormal && cpuOverride {
          var _ := SetFanSpeeds(cpuCurrent, hddCurrent);
          cpuOverride := false;
        }
    }

    /**
     * check_hdd_temps at clock time `now`, with each disk's reading.
     * `completed` is false when a failed read aborted the procedure.
     */
    method CheckHdds(readings: seq<Option<Celsius>>, now: int) returns (completed: bool)
      modifies this
      ensures State() == HddStep(old(State()), readings, now).next
      ensures log == old(log) + HddStep(old(State()), readings, now).sent
      ensures completed == HddStep(old(State()), readings, now).completed
    {
      if !cpuOverride {
        var temps, failed := CollectTemps(readings);
        if failed {
          // hdtemp sends the fail-safe, then int(None) raises out of this procedure
          var _ := SetFanSpeeds(CpuFans.high, HddFans.high);
          return false;
        }
        var tier := SelectTier(temps);
        if tier.Some? {
          hddCurrent := tier.value;
          var _ := SetFanSpeeds(cpuCurrent, hddCurrent);
        }
      }
      hddLastChecked := now;
      completed := true;
    }

    /** One pass of the main loop at clock time `t.now`. */
    method Tick(t: TickInput) returns (completed: bool)
      requires Valid()
      modifies this
      ensures Valid()
      ensures State() == TickStep(old(State()), t).next
      ensures log == old(log) + TickStep(old(State()), t).sent
      ensures completed == TickStep(old(State()), t).completed
    {
      TickPreservesInvariant(State(), t);
      CheckCpu(t.cpu);
      completed := true;
      if t.now - hddLastChecked >= HddPollingInterval {
        completed := CheckHdds(t.disks, t.now);
      }
      assert forall c :: c in log ==> c in old(log) || c in TickStep(old(State()), t).sent;
    }
  }
}
