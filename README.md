# Fan control policy of an AST2500 server, in Dafny

This project models the control policy of `fancontrol.py`, a Python daemon.
The daemon polls the CPU temperature every tick and the disk temperatures
about once a minute. It drives one CPU fan channel and seven disk fan
channels through a raw management-controller command.

The modelled state is the daemon's module globals: `cpu_override`,
`fans["cpu"]["current"]`, `fans["hdds"]["current"]` and `hdd_last_checked`.
It is kept in one place as the `Controller` class and as the value
`ControllerState`.

- `wrappers.dfy` (`Wrappers`) defines `Option`. A sensor read that failed is `None`.
- `ipmi.dfy` (`Ipmi`) defines the `set_fan_speeds(cpu, hdd)` command. It also gives the raw request's layout and its inverse: header `0x3a 0x01`, then the CPU channel, then seven identical disk channels.
- `policy.dfy` (`Policy`) holds the threshold and fan tables as constants. It defines `CpuStep` (`check_cpu_temp`) and `HddStep` (`check_hdd_temps`) as functions from the old state and the readings to a `Step`. A `Step` is the new state, the commands sent and whether the procedure ran to its end. The module also holds the rule-table function `SelectTier` and the lemmas about one step.
- `hysteresis.dfy` (`Hysteresis`) runs the CPU path over a sequence of readings and proves the two-threshold hysteresis.
- `scheduler.dfy` (`Scheduler`) models one pass of the main loop (`TickStep`) and a sequence of passes (`Run`). It proves the timing, override-suppression and invariant lemmas.
- `controller.dfy` (`FanControl`) holds the imperative model. `Controller` has the globals as fields and a ghost `log` of every `set_fan_speeds` call. Its methods `CheckCpu`, `CheckHdds` and `Tick` update the fields in place, and each is proved to match the corresponding step function. `CollectTemps` is the loop that reads each disk in turn.

Sensor results, the clock and the disk list are inputs. Each fan command is an append to the log.

## Behaviour worth knowing

- The disk rule table always selects a tier when every disk reads. A whole-degree reading that is not ≥ 41, 40 or 39 is ≤ 38, so the final "no rule matches" branch is dead (`Policy.SelectTier` ensures `r.Some?`). Readings `[36, 37]` therefore select the low tier (25). An empty disk list selects the low tier as well, because `all()` over nothing is true.
- The exact-equality rules for 40 and 39 select the same tier as threshold rules applied to the hottest disk (`Policy.SelectTierByHottest`). On whole-degree readings, the exact-match form behaves like a range check.
- The disk path is level-triggered. Every cycle in which a rule matches sends a command, even if the tier has not changed. The CPU path is edge-triggered: it sends a command only when the override mode flips, or on a failed read.
- The comment at fancontrol.py:17 says the CPU fan returns to 50% when override ends. The code sends `fans["cpu"]["current"]` instead (line 135). That value is set to 100 at start-up (line 57) and never written again. So leaving override restores the CPU fan to 100. The model follows the code (`Policy.Invariant`, `Policy.CpuLeavesOverride`).
- A failed disk read sends the fail-safe command (100, 100). Then `int(None)` raises an exception that `check_hdd_temps` does not catch. In the model the cycle is aborted (`completed == false`): no tier is stored and `hdd_last_checked` is not reset.

## Model

| member | source | states |
|---|---|---|
| `Ipmi.RawRequest` | fancontrol.py:69-85 | defined by its body; its contract gives the layout (header 0x3a 0x01, CPU value, seven copies of the disk value), and it is described by ParseRawRequest, RawRequestRoundTrip and RawRequestInjective |
| `Ipmi.ParseRawRequest` | fancontrol.py:69-85 | any request it accepts is exactly the request that `set_fan_speeds` builds for the decoded command |
| `Ipmi.RawRequestRoundTrip` | fancontrol.py:69-85 | a request has 10 values: the CPU percentage on channel 1, the disk percentage on all seven disk channels, and it decodes back to the command |
| `Ipmi.RawRequestInjective` | fancontrol.py:69-85 | different commands produce different requests |
| `Policy.Initial` | fancontrol.py:57-64 | defined by its body; the start-up state satisfies the invariant, has override off and takes the start time as hdd_last_checked |
| `Policy.CpuStep` | fancontrol.py:125-141 | defined by its body; its contract says it always completes, sends at most one command, changes only the mode, and on a failed read sends (100, 100) and changes nothing; described by CpuEntersOverride, CpuLeavesOverride, CpuSteadyState, CpuActsOnlyOnEdges, CpuSensorFailure and the Hysteresis lemmas |
| `Policy.CpuEntersOverride` | fancontrol.py:130-133 | a reading above 69 with override off sends exactly (100, 100) and turns override on; stored fan levels unchanged |
| `Policy.CpuLeavesOverride` | fancontrol.py:134-136 | a reading below 60 with override on sends exactly the stored (CPU, disk) levels, i.e. the last disk tier chosen, and turns override off |
| `Policy.CpuSteadyState` | fancontrol.py:130-134 | readings in 60..69, above 69 while overriding, or below 60 while not, send nothing and change nothing |
| `Policy.CpuActsOnlyOnEdges` | fancontrol.py:130-136 | for any reading only the mode can change, at most one command is sent, and one is sent iff the mode flips |
| `Policy.CpuSensorFailure` | fancontrol.py:119-141 | a failed CPU read sends exactly (100, 100) and leaves the whole state, override included, unchanged |
| `Policy.SelectTier` | fancontrol.py:198-221 | the rule table always selects a tier for whole-degree readings |
| `Policy.Hottest` | fancontrol.py:198-216 | the hottest reading bounds every reading and is one of them when there are disks |
| `Policy.SelectTierByHottest` | fancontrol.py:198-221 | the tier equals the threshold table (≥41→100, ≥40→75, ≥39→50, else 25) applied to the hottest disk, and is one of the four tiers |
| `Policy.SelectTierDominated` | fancontrol.py:198-221 | if every reading of one disk set is matched or exceeded in another, the other's tier is at least as high |
| `Policy.SelectTierOrderIndependent` | fancontrol.py:196-221 | the tier depends only on the multiset of readings, not on disk order |
| `Policy.SelectTierExamples` | fancontrol.py:198-221 | [41,35,35]→100, [40,35]→75, [39,12]→50, [36,37]→25, []→25 |
| `Policy.Collected` | fancontrol.py:196-197 | reading all disks succeeds iff every disk read succeeds, and then gives every reading in disk order |
| `Policy.HddStep` | fancontrol.py:190-225 | defined by its body; its contract says it sends at most one command, never changes the mode or the CPU level, on an abort sends (100, 100) and changes nothing, and on completion sets hdd_last_checked to now; described by HddSuppressedByOverride, HddReadFailure, HddSelectsTier, HddEmptyDiskList and HddLevelTriggered |
| `Policy.HddSuppressedByOverride` | fancontrol.py:195-225 | with override on, the disk path sends nothing, keeps the disk level, and only sets hdd_last_checked to now |
| `Policy.HddReadFailure` | fancontrol.py:184-197 | any failed disk read sends exactly (100, 100), aborts, and leaves the state (tier and hdd_last_checked) unchanged |
| `Policy.HddSelectsTier` | fancontrol.py:196-225 | with every disk read, the hottest disk's tier is stored and sent once with the stored CPU level, and hdd_last_checked becomes now |
| `Policy.HddEmptyDiskList` | fancontrol.py:196-218 | no disks: the low tier 25 is stored and (CPU level, 25) is sent |
| `Policy.HddLevelTriggered` | fancontrol.py:198-221 | repeating an identical readable cycle sends the same single command again and keeps the tier |
| `Hysteresis.CpuRun` | fancontrol.py:125-141 | evaluating any sequence of CPU readings changes only the override mode |
| `Hysteresis.StaysOnUntilCool` | fancontrol.py:130-136 | after a reading above 69, override is on until some later reading below 60 |
| `Hysteresis.StaysOffUntilHot` | fancontrol.py:130-136 | after a reading below 60, override is off until some later reading above 69 |
| `Hysteresis.KeepsModeInBand` | fancontrol.py:130-136 | readings in 60..69 and failed reads never change the mode |
| `Scheduler.DiskCheckDue` | fancontrol.py:235 | defined by its body (now - hdd_last_checked ≥ 60); used by TickTiming |
| `Scheduler.TickStep` | fancontrol.py:233-237 | defined by its body; its contract says a pass sends at most two commands, keeps the CPU level, and leaves the mode the CPU path chose; described by TickTiming, TickOverrideSuppressesDisks and TickPreservesInvariant |
| `Scheduler.Run` | fancontrol.py:233-237 | defined by its body; its contract bounds the commands by two per tick and keeps the CPU level; ticks after an aborted one are the model's continuation, not the program's, which exits there; described by the Run lemmas |
| `Scheduler.TickTiming` | fancontrol.py:233-237 | CPU commands come first; the disk path runs only when now - hdd_last_checked ≥ 60; hdd_last_checked moves to now iff the disk path ran to its end; a tick aborts iff the disk path ran with override off and a disk read failed |
| `Scheduler.TickOverrideSuppressesDisks` | fancontrol.py:234-236 | when the CPU path leaves override on, the tick sends only the CPU path's commands and keeps the disk level |
| `Scheduler.TickPreservesInvariant` | fancontrol.py:57-58 | the CPU level stays 100 and the disk level stays a tier; every command sent has CPU 100 and a disk tier |
| `Scheduler.RunPreservesInvariant` | fancontrol.py:233-237 | the same holds over any sequence of ticks (ticks after an aborted one are the model's continuation; the program exits there) |
| `Scheduler.RunOverrideFollowsCpu` | fancontrol.py:233-236 | over any run the override mode is the CPU hysteresis of the CPU readings alone; the disk path never changes it (ticks after an aborted one are the model's continuation; the program exits there) |
| `Scheduler.RunStaysOnUntilCool` | fancontrol.py:233-236 | over a run, override holds from a tick reading above 69 until a tick reading below 60 (ticks after an aborted one are the model's continuation; the program exits there) |
| `FanControl.CollectTemps` | fancontrol.py:196-197 | the read loop fails iff some disk fails, and otherwise returns every reading in disk order |
| `FanControl.Controller.constructor` | fancontrol.py:57-64 | start-up state: override off, both levels 100, the start time, empty log |
| `FanControl.Controller.SetFanSpeeds` | fancontrol.py:69-85 | appends the command to the log and builds the request that decodes to it |
| `FanControl.Controller.CheckCpu` | fancontrol.py:125-141 | updates the fields in place to `CpuStep`'s new state and appends exactly its commands |
| `FanControl.Controller.CheckHdds` | fancontrol.py:190-225 | updates the fields in place to `HddStep`'s new state, appends exactly its commands, reports an abort |
| `FanControl.Controller.Tick` | fancontrol.py:233-237 | one loop pass matches `TickStep` and keeps the invariant, including that every logged command is issuable |

## Left out

- Running `ipmitool` and `hddtemp` as subprocesses (fancontrol.py:70-85, 100, 114-116, 180) is external I/O. Readings are `Option<Celsius>` inputs and each command is a ghost log entry.
- The regular expressions that parse the tools' output (fancontrol.py:94-104, 111-118, 181-183) are not modelled. The model keeps only their effect that a reading has two digits (0..99). With the greedy `.*` in the disk pattern, a three-digit disk temperature would be read as its last two digits. The model does not capture this.
- A failed actuation (`ipmitool` exiting with an error) is not modelled, and every command is taken as sent. In the code, such a failure inside `check_cpu_temp` skips the mode update. Inside `check_hdd_temps` it escapes after the disk level has been stored.
- The fan-speed readers `get_cpu_fan_speed`, `get_hdd_fan_speed` and `get_exhaust_fan_speed`, and the `*_max_speed` constants, are not modelled. The control logic never calls or uses them.
- Disk enumeration through `glob` (fancontrol.py:66-67) is filesystem I/O. Each tick's disk readings are given in device order.
- `time.time()`, `time.sleep(cpu_polling_interval)` and the endless `while True` are not modelled. Each tick takes the clock as a whole-second integer `now`. `check_hdd_temps` reads the clock a second time when it finishes; the model uses the tick's `now` for it.
- The process exit caused by the uncaught `int(None)` (fancontrol.py:197) is not modelled. The cycle is reported as aborted, and `Scheduler.Run` goes on with the next tick.
- `print` logging is output only and changes no state.
