/**
 * The thermal policy of fancontrol.py: the threshold and fan tables, the
 * controller's state, and one evaluation of the CPU path (check_cpu_temp)
 * and of the disk path (check_hdd_temps) as functions from the old state and
 * the sensor readings to the new state and the fan commands sent.
 */
module Policy {
  import opened Wrappers
  import opened Ipmi

  /**
   * A temperature as the sensor parsers yield it: both match exactly two
   * decimal digits (fancontrol.py:113, 181), so a reading lies in 0..99.
   */
  type Celsius = t: int | 0 <= t <= 99

  // temps["cpu"]: override is entered above CpuOverride and left below CpuNormal.
  const CpuNormal := 60
  const CpuOverride := 69

  // temps["hdds"]
  const HddHigh := 41
  const HddMediumHigh := 40
  const HddMediumLow := 39
  const HddLow := 38

  /** One row of the `fans` table: the duty cycle of each level for a fan group. */
  datatype FanLevels = FanLevels(default: Percent, high: Percent, mediumHigh: Percent,
                                 mediumLow: Percent, low: Percent)

  const CpuFans := FanLevels(100, 100, 75, 50, 25)
  const HddFans := FanLevels(100, 100, 75, 50, 25)

  /** Seconds between two disk evaluations (hdd_polling_interval). */
  const HddPollingInterval := 60

  /** The command that sets every fan to its high level. */
  const AllHigh := Command(CpuFans.high, HddFans.high)

  /**
   * The module globals the policy reads and writes: cpu_override,
   * fans["cpu"]["current"], fans["hdds"]["current"] and hdd_last_checked.
   */
  datatype ControllerState = ControllerState(cpuOverride: bool, cpuCurrent: Percent,
                                             hddCurrent: Percent, hddLastChecked: int)

  /** The state at start-up (fancontrol.py:57-64). */
  function Initial(startTime: int): (s: ControllerState)
    ensures Invariant(s) && !s.cpuOverride && s.hddLastChecked == startTime
  {
    ControllerState(false, CpuFans.default, HddFans.default, startTime)
  }

  /** The duty cycles a disk tier can select. */
  predicate IsHddTier(p: int)
  {
    p == HddFans.high || p == HddFans.mediumHigh || p == HddFans.mediumLow || p == HddFans.low
  }

  /**
   * What stays true of the state for the life of the process: the CPU fan
   * level is never written after start-up, and the disk level is the default
   * or a tier.
   */
  predicate Invariant(s: ControllerState)
  {
    s.cpuCurrent == CpuFans.default && (s.hddCurrent == HddFans.default || IsHddTier(s.hddCurrent))
  }

  /** Every command the controller can send. */
  predicate IsIssuable(c: Command)
  {
    c.cpu == CpuFans.high && IsHddTier(c.hdd)
  }

  /**
   * One evaluation: the new state, the `set_fan_speeds` calls made, in order,
   * and whether it ran to its end (false when an exception escaped it).
   */
  datatype Step = Step(next: ControllerState, sent: seq<Command>, completed: bool)

  // ---------------------------------------------------------------------
  // CPU path: check_cpu_temp
  // ---------------------------------------------------------------------

  /**
   * check_cpu_temp (fancontrol.py:125-141). A failed reading has already sent
   * the fail-safe command inside get_cpu_temp (fancontrol.py:119-122); the
   * comparison with the missing value then raises and the handler swallows it.
   */
  function CpuStep(s: ControllerState, reading: Option<Celsius>): (r: Step)
    ensures r.completed && |r.sent| <= 1
    ensures r.next.(cpuOverride := s.cpuOverride) == s
    ensures reading.None? ==> r.next == s && r.sent == [AllHigh]
  {
    match reading
    case None => Step(s, [AllHigh], true)
    case Some(t) =>
      if t > CpuOverride && !s.cpuOverride then
        Step(s.(cpuOverride := true), [AllHigh], true)
      else if t < CpuNormal && s.cpuOverride then
        Step(s.(cpuOverride := false), [Command(s.cpuCurrent, s.hddCurrent)], true)
      else
        Step(s, [], true)
  }

  /** A reading that, with override off, enters override. */
  predicate Hot(reading: Option<Celsius>)
  {
    reading.Some? && reading.value > CpuOverride
  }

  /** A reading that, with override on, leaves override. */
  predicate Cool(reading: Option<Celsius>)
  {
    reading.Some? && reading.value < CpuNormal
  }

  lemma CpuEntersOverride(s: ControllerState, t: Celsius)
    requires t > CpuOverride && !s.cpuOverride
    ensures CpuStep(s, Some(t)) == Step(s.(cpuOverride := true), [Command(100, 100)], true)
  {
  }

  lemma CpuLeavesOverride(s: ControllerState, t: Celsius)
    requires t < CpuNormal && s.cpuOverride
    ensures CpuStep(s, Some(t)) == Step(s.(cpuOverride := false), [Command(s.cpuCurrent, s.hddCurrent)], true)
  {
  }

  /** A reading between the thresholds, or one that agrees with the mode, does nothing. */
  lemma CpuSteadyState(s: ControllerState, t: Celsius)
    requires (CpuNormal <= t <= CpuOverride) || (t > CpuOverride && s.cpuOverride)
             || (t < CpuNormal && !s.cpuOverride)
    ensures CpuStep(s, Some(t)) == Step(s, [], true)
  {
  }

  /**
   * The CPU path is edge-triggered: a reading causes a command exactly when
   * it flips the mode, and only the mode can change.
   */
  lemma CpuActsOnlyOnEdges(s: ControllerState, t: Celsius)
    ensures CpuStep(s, Some(t)).next.(cpuOverride := s.cpuOverride) == s
    ensures CpuStep(s, Some(t)).sent != [] <==> CpuStep(s, Some(t)).next.cpuOverride != s.cpuOverride
    ensures |CpuStep(s, Some(t)).sent| <= 1
  {
  }

  lemma CpuSensorFailure(s: ControllerState)
    ensures CpuStep(s, None) == Step(s, [Command(100, 100)], true)
  {
  }

  // ---------------------------------------------------------------------
  // Disk path: check_hdd_temps
  // ---------------------------------------------------------------------

  /**
   * The rule table of check_hdd_temps (fancontrol.py:198-221), tried in
   * order. The last `else` is never reached: a reading that is neither
   * >= 41, 40 nor 39 is <= 38, so some rule always matches.
   */
  function SelectTier(temps: seq<Celsius>): (r: Option<Percent>)
    ensures r.Some?
  {
    if exists x :: x in temps && x >= HddHigh then Some(HddFans.high)
    else if exists x :: x in temps && x == HddMediumHigh then Some(HddFans.mediumHigh)
    else if exists x :: x in temps && x == HddMediumLow then Some(HddFans.mediumLow)
    else if forall x :: x in temps ==> x <= HddLow then Some(HddFans.low)
    else None
  }

  /** The hottest reading; 0 for no disks. */
  function Hottest(temps: seq<Celsius>): (m: Celsius)
    ensures forall x :: x in temps ==> x <= m
    ensures temps != [] ==> m in temps
  {
    if temps == [] then 0
    else
      var rest := Hottest(temps[1..]);
      assert forall x :: x in temps ==> x == temps[0] || x in temps[1..];
      if temps[0] >= rest then temps[0] else rest
  }

  /** A threshold table on a single temperature: at or above each limit. */
  function TierFor(t: int): Percent
  {
    if t >= HddHigh then HddFans.high
    else if t >= HddMediumHigh then HddFans.mediumHigh
    else if t >= HddMediumLow then HddFans.mediumLow
    else HddFans.low
  }

  /**
   * On whole-degree readings the exact-match rules for 40 and 39 agree with
   * threshold rules applied to the hottest disk: the tier is a function of
   * the hottest reading alone.
   */
  lemma SelectTierByHottest(temps: seq<Celsius>)
    ensures SelectTier(temps) == Some(TierFor(Hottest(temps)))
    ensures IsHddTier(SelectTier(temps).value)
  {
    var m := Hottest(temps);
    if temps == [] {
      assert m == 0;
    }
  }

  lemma TierForMonotone(a: int, b: int)
    requires a <= b
    ensures TierFor(a) <= TierFor(b)
  {
  }

  /**
   * A hotter set of disks never gets a slower tier: if every reading of `a`
   * is matched or exceeded by some reading of `b`, then `b`'s tier is at
   * least `a`'s. This covers adding a disk and warming any disk.
   */
  lemma SelectTierDominated(a: seq<Celsius>, b: seq<Celsius>)
    requires forall x :: x in a ==> exists y :: y in b && x <= y
    ensures SelectTier(a).value <= SelectTier(b).value
  {
    SelectTierByHottest(a);
    SelectTierByHottest(b);
    if a != [] {
      var ya :| ya in b && Hottest(a) <= ya;
    }
    TierForMonotone(Hottest(a), Hottest(b));
  }

  /** The order in which the disks are enumerated does not matter. */
  lemma SelectTierOrderIndependent(a: seq<Celsius>, b: seq<Celsius>)
    requires multiset(a) == multiset(b)
    ensures SelectTier(a) == SelectTier(b)
  {
    forall x | x in a ensures exists y :: y in b && x <= y {
      assert x in multiset(a);
      assert x in b && x <= x;
    }
    forall y | y in b ensures exists x :: x in a && y <= x {
      assert y in multiset(b);
      assert y in a && y <= y;
    }
    SelectTierDominated(a, b);
    SelectTierDominated(b, a);
  }

  /** Sample disk sets, including the boundary set [36, 37] and the empty list, as the rules decide them. */
  lemma SelectTierExamples()
    ensures SelectTier([41, 35, 35]) == Some(100)
    ensures SelectTier([40, 35]) == Some(75)
    ensures SelectTier([39, 12]) == Some(50)
    ensures SelectTier([36, 37]) == Some(25)
    ensures SelectTier([]) == Some(25)
  {
    assert 41 in [41, 35, 35];
    assert 40 in [40, 35];
    assert 39 in [39, 12];
  }

  /**
   * The loop at fancontrol.py:196-197: every disk's reading, in order, or
   * `None` as soon as one read fails (`int(None)` raises).
   */
  function Collected(readings: seq<Option<Celsius>>): (r: Option<seq<Celsius>>)
    ensures r.Some? <==> forall i :: 0 <= i < |readings| ==> readings[i].Some?
    ensures r.Some? ==> |r.value| == |readings|
    ensures r.Some? ==> forall i :: 0 <= i < |readings| ==> r.value[i] == readings[i].value
  {
    if readings == [] then Some([])
    else match readings[0]
      case None => None
      case Some(t) =>
        match Collected(readings[1..])
        case None => None
        case Some(rest) => Some([t] + rest)
  }

  /**
   * check_hdd_temps (fancontrol.py:190-225). With override on nothing is read.
   * A failed read sends the fail-safe command inside hdtemp
   * (fancontrol.py:186-187) and the exception from `int(None)` leaves the
   * procedure before hdd_last_checked is reset.
   */
  function HddStep(s: ControllerState, readings: seq<Option<Celsius>>, now: int): (r: Step)
    ensures |r.sent| <= 1
    ensures r.next.cpuOverride == s.cpuOverride && r.next.cpuCurrent == s.cpuCurrent
    ensures !r.completed ==> r.next == s && r.sent == [AllHigh]
    ensures r.completed ==> r.next.hddLastChecked == now
  {
    if s.cpuOverride then Step(s.(hddLastChecked := now), [], true)
    else match Collected(readings)
      case None => Step(s, [AllHigh], false)
      case Some(temps) =>
        match SelectTier(temps)
        case None => Step(s.(hddLastChecked := now), [], true)
        case Some(p) =>
          Step(s.(hddCurrent := p, hddLastChecked := now), [Command(s.cpuCurrent, p)], true)
  }

  /** While CPU override is on, the disk path reads nothing and sends nothing. */
  lemma HddSuppressedByOverride(s: ControllerState, readings: seq<Option<Celsius>>, now: int)
    requires s.cpuOverride
    ensures HddStep(s, readings, now) == Step(s.(hddLastChecked := now), [], true)
  {
  }

  /** A failed read anywhere aborts the cycle after one fail-safe command. */
  lemma HddReadFailure(s: ControllerState, readings: seq<Option<Celsius>>, now: int, i: int)
    requires !s.cpuOverride
    requires 0 <= i < |readings| && readings[i] == None
    ensures HddStep(s, readings, now) == Step(s, [Command(100, 100)], false)
  {
  }

  /**
   * When every disk is read, the tier of the hottest disk is stored and sent,
   * together with the stored CPU level.
   */
  lemma HddSelectsTier(s: ControllerState, readings: seq<Option<Celsius>>, now: int)
    requires !s.cpuOverride
    requires forall i :: 0 <= i < |readings| ==> readings[i].Some?
    ensures var p := TierFor(Hottest(Collected(readings).value));
            HddStep(s, readings, now)
            == Step(s.(hddCurrent := p, hddLastChecked := now), [Command(s.cpuCurrent, p)], true)
  {
    SelectTierByHottest(Collected(readings).value);
  }

  /** No disks at all selects the low tier (`all` of nothing is true). */
  lemma HddEmptyDiskList(s: ControllerState, now: int)
    requires !s.cpuOverride
    ensures HddStep(s, [], now)
            == Step(s.(hddCurrent := 25, hddLastChecked := now), [Command(s.cpuCurrent, 25)], true)
  {
  }

  /**
   * The disk path is level-triggered: repeating a cycle with the same readings
   * sends the same command again although the tier is already set.
   */
  lemma HddLevelTriggered(s: ControllerState, readings: seq<Option<Celsius>>, now: int, later: int)
    requires !s.cpuOverride
    requires forall i :: 0 <= i < |readings| ==> readings[i].Some?
    ensures var first := HddStep(s, readings, now);
            var second := HddStep(first.next, readings, later);
            |second.sent| == 1 && second.sent == first.sent
            && second.next.hddCurrent == first.next.hddCurrent
  {
  }
}
