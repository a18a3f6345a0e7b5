# Group control of a livestock-house HVAC plant

A Dafny model of the firmware that runs the fans, rooftop units and sensors of a livestock house as one
group, with proofs about what the controller decides and about whole runs of it.

- **Exhaust fans** (`RunTimeOrder`, `RunTimeSort`, `FanPlan`, `Demand`, `FanSchedule`, `VariableSchedule`,
  `FanControl`, `DemandRun`, `SliceCount`, `DutyCycle`, `VariableCycle`, `ExAirFan`). The demanded air volume
  becomes a number of fans that always run, a number requested, and a remainder that is served by a
  variable-speed fan or by one more fan for a slice of the control period. Fans are chosen by run hours. The
  number of fans is arbitrary. Commands and feedback are different things: results speak of the planned fans,
  that is the running ones, less those commanded off, plus those commanded on.
- **Running modes** (`UnitModes`, `ModeEvents`, `ModeControl`, `Units`). The automatic machine over HEAT, FAN,
  WET and COOL with its condition timers and interval timers, as steps over a clock. What holds of all runs is
  proved for steps that may happen at any moment; what the firmware can be led to do is shown by events in
  which only a due timer takes the automatic step and every change of the reading is watched.
- **Supervision** (`Supervision`, `Supervisor`, `FreshAir`, `Alarm`). System modes against faults, the derived
  run states, the fresh-air target and its division, the alarm output.
- **Devices and services** (`Sensor`, `Eeprom`, `Monitor`, `Timers`, `Common`). The sampling ring, the
  EEPROM shadow cache, the monitor list, and the timer model.

Each stateful part is a class whose methods follow the firmware routine by routine. Their contracts equate
the new state with a function of the old one; the lemmas about those functions, and about runs made of them,
are the results. Feedback, clocks, readings and operator commands are fields or parameters that the
environment may set at any moment between two handlers. Integer widths are explicit where they matter.

Where the firmware does something else than its comments and settings suggest, the model follows the code:

- The condition timers are meant to see a temperature condition hold for some minutes. A switch has waited if
  and only if an earlier watch noticed its condition (`WaitedExactly`). The automatic step itself only asks
  that the timer is not running, so that a switch can happen without any waiting (`ConditionSkipped`). A
  condition that lapses and comes back does not restart the waiting (`LapseIgnored`, `ConditionLapsed`).
- FAN to HEAT has an interval setting and an interval timer that nothing arms (`FanToHeatNeverArmed`,
  `EntryArmsExactly`), so that FAN can be left as soon as it is entered (`FanToHeatAtOnce`, `FanForNoTime`).
- The first-run guard is meant to hold until a compressor has run. In COOL nobody looks at the compressors
  while the guard is up, so it stays up for the whole stay (`CoolIdleExitExactly`); in HEAT it is put up
  again by every watch (`HeatIdleExitExactly`), so that the idle timer is never armed (`HeatIdleNeverArmed`).
- Only a pass during a slice and the CO2 override bring the number of fans last switched to up to date on a
  plant with a usable variable fan. While it differs from the request, as after power-up with a whole fan
  demanded, every pass between slices cuts the control period short and starts another slice, so that the
  variable fan runs longer than the demand asks (`CutsShortExactly`, `UndisturbedExactly`, `PowerUpOverruns`).
- The continuous branch of the variable fan has a dead zone, in which an idle fan is left off
  (`DeadZoneServesNothing`, `DeadZonePlant`), and a tick in the same pass can take back the full speed given
  for a missing fan (`CompensationUndone`, `CompensationUndoneExample`).
- The end of a slice closes the longest-run running fan even if that fan is faulty or local, and then the
  extra fan keeps running (`LongestMissesExactly`). A slice of 0 seconds, which a minimum run time of 0
  allows, never ends (`EmptySliceNeverEnds`, `RunWithEmptySlices`).
- A mismatch count survives local operation (`StaleCountLatches`).
- A fresh-air target cut down by a failed unit is not restored (`LostTargetStaysLost`).
- The two run-state handlers differ on a running unit without a mode and on the running-mode register
  (`HandlersAgreeExactly`, `RegisterAgreesExactly`).
- Any flag byte but 1 counts as "not the first run" (`BootChoosesExactly`).

In the table the main results come first; after them the rows follow the modules.

## Model

| member | source | states |
|---|---|---|
| `UnitModes.MinimumDwell` | system/unitctrl.c:265-428 | a mode entered automatically is not left along any edge but FAN to HEAT before the interval armed at its entry is over, in every interleaving of readings, settings, timers and operator commands that leaves the mode alone |
| `UnitModes.NoOscillation` | system/unitctrl.c:284-412 | under a fixed reading and fixed settings, without idle exits, every run is monotone and makes as many switches as it walks levels, three at most |
| `UnitModes.StepFromHeat` | system/unitctrl.c:399-427 | HEAT is left for FAN if and only if its interval is over and it is warm enough or no compressor has anything to do, each with its own timer |
| `UnitModes.StepFromCool` | system/unitctrl.c:357-397 | COOL is left for WET if and only if its interval is over and it is cold enough or no compressor has anything to do, each with its own timer |
| `UnitModes.StepFromWet` | system/unitctrl.c:321-355 | WET is left for COOL or FAN likewise, COOL by the energy-saving target |
| `UnitModes.StepFromFan` | system/unitctrl.c:284-319 | in AUTO the step leaves FAN for WET or HEAT exactly by reading, target, tolerances and the timers of the two edges, warm before cold |
| `UnitModes.WaitedExactly` | system/unitctrl.c:284-556 | along a run from stopped timers a switch for temperature has waited if and only if an earlier watch noticed its condition; every notice has been waited out, and without one the timer was never armed |
| `UnitModes.LapseIgnored` | system/unitctrl.c:441-556 | until the waiting time is over, nothing that happens to readings, settings or mode cancels or restarts an armed condition timer |
| `UnitModes.CoolIdleExitExactly` | system/unitctrl.c:331-335 | in COOL the flag bars the idle exit if and only if the compressors stood idle at entry, a compressor seen running since makes no difference |
| `UnitModes.HeatIdleExitExactly` | system/unitctrl.c:399-426 | the flag leaves the idle exit of HEAT open if and only if a compressor ran at entry and no watch has acted during the stay |
| `ModeEvents.PlayIsRun` | system/unitctrl.c:430-438 | so what is proved of every run holds of every sequence of such events, in which only due timers take the automatic step and every change of the reading is followed by a watch |
| `ModeEvents.ConditionSkipped` | system/unitctrl.c:284-438 | events that switch without waiting: the callback of WET to FAN takes FAN, set by the operator meanwhile, on to HEAT, whose timer was never armed |
| `ModeEvents.ConditionLapsed` | system/unitctrl.c:441-456 | events in which the heat that armed FAN to WET is gone after five seconds, watched all the while, and comes back five seconds before the switch it still causes |
| `ModeEvents.FanForNoTime` | system/unitctrl.c:305-355 | events in which two timers fall due in the same second and take WET to FAN and FAN to HEAT |
| `DutyCycle.DeliversDemand` | system/fanctrl.c:456-582 | over any whole periods the plant delivers the demanded volume, short of it by less than one fan-second a period |
| `VariableCycles.DeliversDemand` | system/fanctrl.c:492-669 | over any whole periods a plant whose variable fan serves the remainder in slices falls short of the demanded volume by less than the rounding of one slice a period, and does not exceed it if no period was cut short |
| `VariableCycles.WholePeriods` | system/fanctrl.c:492-523 | after a time of `k` periods exactly `k` times `open*period` fan-seconds of constant fans, and at least `k` times the slice time of the variable one: exactly that if and only if no period was cut short |
| `VariableCycles.UndisturbedExactly` | system/fanctrl.c:654-664 | no period is cut short if and only if the number was the request at the start, or no pass falls between slices before one has fallen into a slice |
| `VariableCycles.PowerUpOverruns` | system/fanctrl.c:5-6 | a run from power-up in which a pass at the end of the first slice starts another: the variable fan runs for all of the first 1800 seconds instead of 1500, and more is moved than demanded |
| `DemandRuns.InOrderFromPowerUp` | system/fanctrl.c:398-752 | from power-up on, over any sequence of them and whatever settings, type and fans the plant has each time, `open <= 3`, `open <= request <= 4`, the request is at most one above `open` or the override's three or four, and volume, slice time and the number last switched to stay within their bounds |
| `DutyCycle.CountStaysInBand` | system/fanctrl.c:192-221 | under any steady settings, over whole runs the number of running fans stays in `[open, open+1]` across passes, slice start and expiry: with slices that end in their period or outlast it, without slices and with empty ones |
| `DutyCycle.EmptySliceNeverEnds` | system/fanctrl.c:192-221 | a run that requests an extra fan and lasts as long as its slice closes that fan again if and only if the slice is not empty |
| `FanControl.FanSystem.ExAirFanCtrl` | system/fanctrl.c:672-752 | the whole control pass, in every system mode and CO2 band, keeps `open <= request <= 4` and reaches the outcome of the schedule |
| `FanPlan.AlwaysOpenBand` | system/fanctrl.c:280-303 | with `open <= request` the always-open routine lands in `[min(open, eligible), request]`, and no other choice of fans gets there with fewer commands |
| `FanPlan.SwitchExact` | system/fanctrl.c:312-395 | for any number of fans the planned count after the switch routine is `min(request, eligible)`, all of it eligible |
| `FanPlan.SwitchByHours` | system/fanctrl.c:367-390 | every fan closed has run at least as long as every running fan kept, every fan opened at most as long as every idle one left |
| `FanPlan.PassIsSwitch` | system/fanctrl.c:566-571 | running both routines on one feedback never commands a fan both on and off, and comes to what the switch routine does alone |
| `RunTimeSort.SortByRunTime` | system/fanctrl.c:338-352 | the sorted list of eligible fans is the unique stable arrangement |
| `VariableSchedule.ContinuousServes` | system/fanctrl.c:634-650 | in the continuous branch whole fans and variable fan together move the demanded volume, short of it by less than one frequency step, if and only if the frequency wanted lies within the limits of the settings, or lies below them and is that of a fan left on |
| `VariableSchedule.DeadZoneServesNothing` | system/fanctrl.c:634-650 | in the continuous branch a variable fan that was left off stays off if and only if the remainder lies in the dead zone |
| `VariableSchedule.CompensationUndone` | system/fanctrl.c:265-272 | the full speed given for a missing constant fan outlasts the pass if and only if no tick follows in the same pass, or that tick finds a remainder worth a slice |
| `ExAirFans.FiveInARowExactly` | Device/fan.c:186-205 | on a healthy remote run with no fault latched, the control fault latches at a tick if and only if that tick and the four before it all found the command unanswered |
| `ExAirFans.TickSafe` | Device/fan.c:207-215 | after every tick a faulty, local or control-faulted fan has command OFF, and a fan that runs with command OFF has its relay off |
| `Supervision.AlwaysSafe` | system/systemctrl.c:35-109 | over any interleaving of events AUTO implies that neither all units nor all fans have failed and a remote fan was seen, EMERGENCY that not all units have, and register and mode differ only while a written mode is pending |
| `Supervision.CarriedByReports` | system/systemctrl.c:44-105 | over any events, in AUTO the last reports found a healthy unit and a working fan, in EMERGENCY a healthy unit |
| `Supervision.HandlersAgreeExactly` | system/fanctrl.c:51-102 | the unit and the fan handler conclude the same about system state, running mode and system mode whenever the first running unit has a mode, and the exact exceptions when it has none |
| `FreshAir.TargetBounded` | system/systemctrl.c:149-183 | over any requests and faults the target never exceeds 130000, nor 65000 right after a fault that leaves one unit |
| `FreshAir.LostTargetStaysLost` | system/unitctrl.c:760-767 | over any sequence of failing and returning units the target is kept if and only if one unit can reach it or there never was only one; otherwise it ends at the limit of one unit |
| `Alarms.SoundsOnlyEnabled` | system/systemctrl.c:349-495 | over all runs the output is on only while the alarm is enabled |
| `Eeproms.PowerCycleRestores` | Module/md_eeprom.c:267-355 | a boot with the same registration order restores every variable of an every-change class as the last session left it |
| `Eeproms.PowerCycleLosesLittle` | Module/md_eeprom.c:460-471 | a slower class comes back as it was after a pass since when fewer than an interval of passes found a change |
| `Eeproms.PageIsRecent` | Module/md_eeprom.c:460-471 | the page always holds what the variables were after some earlier pass, since when fewer than an interval of passes has found a change |
| `Eeproms.FirstRunOnce` | Module/md_eeprom.c:756-765 | over any history of power cycles the defaults are written at the first boot or never |
| `Monitors.PostsExactlyChanged` | Module/md_monitor.c:134-145 | a pass posts once, in list order, for exactly the entries that differ from what they are compared with, which for a known type is the image of their own variable |
| `Monitors.Monitor.TraversalMeetsEntries` | Module/md_monitor.c:72-81 | following the links from the head visits every entry exactly once and in order, and the head's last link is the tail |
| `Sensors.SampleRing.Tick` | Device/sensor.c:93-133 | the error flag after a tick says exactly "off line"; readings are accepted strictly within the limits while the ring fills; a full ring publishes the truncated mean of the last five accepted readings |
| `RunTimeOrder.PickedCount` | system/fanctrl.c:367-390 | the pick of the `k` longest- or shortest-run fans of a set has exactly `min(k, size)` members |
| `RunTimeOrder.PickedUnique` | system/fanctrl.c:367-390 | taking fans in run-hour order until `k` are held can end in one set only, so the pick does not depend on how it is found |
| `RunTimeOrder.PickedInOrder` | system/fanctrl.c:367-390 | a pick never skips a fan that should have been taken before one of its own |
| `RunTimeOrder.PickedByHours` | system/fanctrl.c:367-390 | every fan picked has at least (closing) or at most (opening) the hours of every fan left |
| `RunTimeOrder.PickedMonotone` | system/fanctrl.c:279-303 | a longer pick extends a shorter one |
| `RunTimeSort.StepKeeps` | system/fanctrl.c:256-261 | one comparison of the sort keeps members, stability and the tail already in place |
| `RunTimeSort.StepInPlace` | system/fanctrl.c:256-261 | the in-place swap of one comparison, as a function of the list before |
| `RunTimeSort.BubblePass` | system/fanctrl.c:254-262 | one sweep carries the largest remaining fan to its place and keeps the sort stable |
| `RunTimeSort.SortInPlace` | system/fanctrl.c:250-264 | the in-place bubble sort ends sorted by hours, equal hours in list order, with the same fans |
| `RunTimeSort.ScanFromEnd` | system/fanctrl.c:369-377 | scanning a sorted list from its end until `k` are met, or all, meets exactly the `k` longest-run ones |
| `RunTimeSort.ScanFromFront` | system/fanctrl.c:381-389 | scanning from the front meets exactly the `k` shortest-run ones |
| `FanPlan.CollectedList` | system/fanctrl.c:237-249 | the collected list holds exactly the fault-free remote constant-speed fans, stably ordered, and the running count is theirs |
| `FanPlan.SwitchServes` | system/fanctrl.c:325-390 | only fault-free remote constant fans are closed if running and opened if not, and none of them is left standing while fewer than requested run |
| `FanPlan.CommandsReach` | Device/fan.c:132-170 | what the commands do to each fan: off drops command and relay, on raises them unless the fan is at fault or local |
| `FanPlan.AlwaysOpenOvershoots` | system/fanctrl.c:282 | were `open` above `request`, the 8-bit countdown would pass below its floor and close every running fan |
| `FanPlan.PlansOnInputs` | system/fanctrl.c:237-249 | both routines decide on inputs alone: commands given earlier in the pass do not feed back |
| `FanPlan.SwitchSizes` | system/fanctrl.c:367-390 | how many fans the switch routine closes and opens, never both kinds at once |
| `FanPlan.OpenTwice` | Device/fan.c:132-170 | repeating an open or close command changes nothing more |
| `ExAirFans.ExAirFan.SetFreq` | Device/fan.c:68-92 | a frequency within the limits is stored as it is, and put out to the drive of a fan that is on and measured at another one; one outside is clamped; a constant fan or one at fault is left alone |
| `ExAirFans.ExAirFan.SetFreqRange` | Device/fan.c:95-129 | new limits leave a healthy variable fan with its set frequency clamped into them |
| `ExAirFans.ExAirFan.SwitchOpen` | Device/fan.c:132-154 | opening acts only on a fault-free remote fan and re-sends its frequency while it stands still |
| `ExAirFans.ExAirFan.SwitchClose` | Device/fan.c:157-170 | closing drops relay and command whatever the state |
| `ExAirFans.ExAirFan.RepeatCommand` | Device/fan.c:176-185 | an unanswered command is repeated and its answer awaited |
| `ExAirFans.ExAirFan.CountWait` | Device/fan.c:186-205 | the count of an unanswered command, its reset on agreement and the latch at ten seconds |
| `ExAirFans.ExAirFan.Tick` | Device/fan.c:172-231 | one whole supervision tick as a function of the state before |
| `ExAirFans.FreqReaches` | Device/fan.c:68-92 | setting a frequency moves it into the limits and puts it out to the drive of a fan that is on and measured at another one; a constant fan or one at fault is left alone |
| `ExAirFans.TickCommands` | Device/fan.c:172-215 | the tick takes the command away exactly from a fan at fault, local or in control fault, and brings the relay in line until the fan obeys |
| `ExAirFans.TickTunes` | Device/fan.c:217-231 | a running fan more than a Hertz away from its set frequency has it put out again by the tick |
| `ExAirFans.TickCounts` | Device/fan.c:186-205 | one tick keeps the mismatch counter among 0, 2, 4, 6, 8 |
| `ExAirFans.CounterBounded` | Device/fan.c:172-215 | the counter stays among those values over any run, also when the operator clears control faults in between |
| `ExAirFans.FiveMismatchesLatch` | Device/fan.c:186-205 | five ticks in a row of an unanswered command on a healthy remote fan always latch the control fault and take the command away |
| `ExAirFans.LatchesExactly` | Device/fan.c:186-205 | exactly when one tick latches the control fault |
| `ExAirFans.StaleCountLatches` | Device/fan.c:186-213 | the converse fails: a count left over from before local operation survives agreement, and a single later mismatch latches |
| `ExAirFans.AgreementClearsExactly` | Device/fan.c:186-199 | agreement clears a count if and only if the tick still waits for an answer on a remote fan |
| `FanControl.OpenNumber` | system/fanctrl.c:418-437 | the four comparisons choose `min(3, demand div rated)` fans for every rated volume up to 100000, whatever the old number was |
| `FanControl.CascadeFits` | system/fanctrl.c:447-461 | subtracting the whole fans from the demand never wraps |
| `FanControl.ShareVariable` | system/fanctrl.c:440-450 | with a usable variable fan the request is the whole fans and the slice time that of the remainder at minimum frequency |
| `FanControl.ShareConstant` | system/fanctrl.c:452-468 | otherwise one more constant fan is requested exactly when its slice reaches the minimum run time |
| `FanControl.FanSystem.ExAirRequestVol` | system/fanctrl.c:398-476 | the demand calculation on the plant, in every combination of plant type and variable-fan health |
| `Demands.NextDemand` | system/fanctrl.c:398-468 | every calculated demand has `open <= 3` and `open <= request <= 4` |
| `Demands.VolumeExactly` | system/fanctrl.c:407-416 | the volume is the fresh-air target times the heating ratio in HEAT, and times the cooling ratio otherwise, in percent rounded down |
| `Demands.RequestExactly` | system/fanctrl.c:418-468 | whole fans run all the time, three at most; one more is requested exactly without a usable variable fan and with a slice worth starting; a rated volume of 0 leaves the slice time |
| `Demands.NextDemandSettles` | system/fanctrl.c:398-468 | calculating again under the same settings changes nothing |
| `DemandRuns.StepInOrder` | system/fanctrl.c:398-752 | every pass, tick, recalculation, CO2 override and closing keeps the demand in order |
| `Demands.OpenNum` | system/fanctrl.c:418-437 | the number of whole fans fits the demand and is the largest such number below three |
| `Demands.ConstantTimeExactly` | system/fanctrl.c:460-461 | the slice of a constant fan delivers its share of the period to within one second if and only if the product fits 32 bits |
| `Demands.ResidualFits` | system/fanctrl.c:447-461 | within the register limits the products do fit 32 bits |
| `Demands.SliceShorter` | system/fanctrl.c:460-461 | the slice of a remainder smaller than one fan ends before the period |
| `Demands.SliceWithinPeriod` | system/fanctrl.c:398-468 | below four rated fans: remainder less than a fan, slice `t < period`, and `rated*t <= remainder*period < rated*(t+1)` |
| `Demands.FastFreqExact` | system/fanctrl.c:637 | in the continuous branch `freq*rated <= 500*remainder < (freq+1)*rated` and `freq < 500` |
| `Demands.DeadZoneExactly` | system/fanctrl.c:634-642 | the continuous branch finds a frequency below the minimum exactly when its threshold was rounded down onto the remainder |
| `Demands.VariableSliceFits` | system/fanctrl.c:447-448 | in the slice branch the run time never overflows 32 bits and is shorter than the period |
| `Demands.VariableSlice` | system/fanctrl.c:447-448 | `minFreq*rated*t <= 500*remainder*period`, and short of it by less than one second and one step of the inner division |
| `FanControl.FanSystem.ChangeExAirFanType` | system/system.c:53-73 | switching the plant type keeps the wiring: the variable-fan pointer is set exactly on plants with a variable fan, and that fan is fan 0 |
| `FanControl.FanSystem.AdjustExAirFanFreq` | system/fanctrl.c:586-610 | the system frequency is clamped to the settings and passed on, and only on a plant with a variable fan |
| `FanControl.FanSystem.CollectEligible` | system/fanctrl.c:325-337 | the loop collects exactly the eligible fans in list order and counts the running ones |
| `FanControl.FanSystem.CloseLongest` | system/fanctrl.c:367-378 | the closing scan with its 8-bit countdown closes exactly the longest-run running fans, however the countdown ends |
| `FanControl.FanSystem.OpenShortest` | system/fanctrl.c:379-390 | the opening scan opens exactly the shortest-run idle fans |
| `FanControl.FanSystem.DriveVariate` | system/fanctrl.c:353-366 | the variable fan is brought to full speed to make up for a missing fan, or closed when neither needed nor asked for |
| `FanControl.FanSystem.ConstantSwitch` | system/fanctrl.c:312-395 | the switch routine carries out exactly the switch plan on all fans and drives the variable one; in the other modes it does nothing |
| `FanControl.FanSystem.ConstantAlwaysOpen` | system/fanctrl.c:224-308 | the always-open routine carries out exactly the band plan |
| `FanControl.FanSystem.LongestExAirFan` | system/fanctrl.c:107-145 | the fan found is the first of the longest-run running constant fans, faulty and local ones included, or none runs |
| `FanControl.FirstLongest` | system/fanctrl.c:123-133 | the loop finds the first of the longest-run fans of a list |
| `FanControl.FanSystem.RequestTimeTmrCallback` | system/fanctrl.c:192-221 | the end of a slice closes exactly the fan that ran it: the variable fan, or the longest-run constant one |
| `FanControl.FanSystem.CtrlTmrCallback` | system/fanctrl.c:479-549 | the tick of the control period in every kind of plant: new demand, slice timer and commands as one outcome |
| `FanControl.FanSystem.TickConstant` | system/fanctrl.c:525-545 | without a usable variable fan the tick switches and starts a slice, unless the same slice is under way |
| `FanControl.FanSystem.TickVariable` | system/fanctrl.c:492-523 | with one it runs that fan at minimum frequency for the slice, or closes it |
| `FanControl.FanSystem.RestartPeriod` | system/fanctrl.c:572-577 | restarting the control period runs its tick first; a period of 0 is refused and no tick is run |
| `FanControl.FanSystem.ConstantCtrl` | system/fanctrl.c:552-583 | the pass of a plant of constant fans, or with its variable fan out of use, reaches exactly the outcome of the schedule |
| `FanControl.FanSystem.DriveContinuously` | system/fanctrl.c:636-650 | the variable fan takes the continuous frequency if that is not below its minimum |
| `FanControl.FanSystem.BothCtrl` | system/fanctrl.c:613-669 | the pass of a plant with a usable variable fan: constant fans, variable fan, timers and demand all as the schedule says |
| `FanControl.FanSystem.ManualCtrl` | system/fanctrl.c:681-695 | in manual mode a pass repeats what each fan was last told |
| `FanControl.FanSystem.VentilateAll` | system/fanctrl.c:701-726 | a high CO2 reading requests three fans and full speed, or four fans, and stops both timers |
| `FanControl.FanSystem.FollowDemand` | system/fanctrl.c:729-746 | a low reading recalculates the demand and passes on it |
| `FanSchedule.SwitchAbsorbs` | system/fanctrl.c:566-576 | switching on top of commands made on the same inputs is switching alone |
| `VariableSchedule.SwitchBeside` | system/fanctrl.c:630-664 | the switch routine on top of the always-open one drives the variable fan once more and otherwise adds nothing to a single switch |
| `VariableSchedule.ConstantsInBand` | system/fanctrl.c:630-664 | whichever branch a pass takes, the planned constant fans stay in the band of the demand |
| `VariableSchedule.CommandedOnExactly` | system/fanctrl.c:613-669 | exactly when a healthy variable fan is commanded on after a pass |
| `VariableSchedule.CompensationUndoneExample` | system/fanctrl.c:265-272 | settings and a demand whose tick takes the full speed back |
| `VariableSchedule.DeadZoneDemand` | system/fanctrl.c:398-450 | settings whose demand comes to a remainder of 10872 |
| `VariableSchedule.DeadZoneMet` | system/fanctrl.c:634-642 | that remainder lies in the dead zone: the frequency found is 15.0 Hz under a minimum of 15.1 |
| `VariableSchedule.DeadZonePlant` | system/fanctrl.c:613-669 | and the pass leaves an idle variable fan off |
| `VariableSchedule.ContinuousSets` | system/fanctrl.c:634-652 | within the limits the fan is set to the frequency wanted, above them to the highest, and below them it is left as the routines leave it; both timers stop |
| `VariableSchedule.VentilatesFully` | system/fanctrl.c:701-726 | the CO2 override plans three or four constant fans, or all there are, runs a usable variable fan at its highest frequency and keeps the demand in range |
| `FanSchedule.ManualKeepsCommands` | system/fanctrl.c:681-695 | a manual pass changes no command and only brings relays in line with commands |
| `VariableSchedule.BothBranchesMet` | system/fanctrl.c:630-664 | concrete plants and demands for both branches |
| `VariableSchedule.SliceServes` | system/fanctrl.c:499-516 | a tick that starts a slice serves the remainder over the period up to the rounding of its two divisions |
| `VariableSchedule.TickTimers` | system/fanctrl.c:479-549 | a tick calculates the demand and starts a slice if it is worth starting and none of the same length is under way |
| `VariableSchedule.TickSwitches` | system/fanctrl.c:525-545 | without a usable variable fan a slice that starts switches the constant fans to the request |
| `VariableSchedule.TickDrives` | system/fanctrl.c:492-523 | with one the fan runs at its lowest frequency, put out to the drive, if the slice is worth starting, and is closed if not |
| `VariableSchedule.PassTimers` | system/fanctrl.c:552-669 | after a pass: when the control period restarts, when a slice starts, and which number counts as switched to, by timers and demand alone |
| `VariableSchedule.PassPlans` | system/fanctrl.c:552-669 | while a slice is under way, and when one starts, a pass plans the requested number of constant fans, or all there are; otherwise it keeps as many as run, from the always-open number to the requested one |
| `VariableSchedule.PassDrives` | system/fanctrl.c:613-669 | in the slice branch a pass runs the variable fan for the slice or closes it if it restarts the period, and if not has it make up for a missing constant fan, closes it when not needed, or leaves it alone |
| `VariableSchedule.OutOfUseFan` | system/fanctrl.c:265-272 | a variable fan that is out of use is only ever closed, when it runs without being needed or asked for |
| `VariableSchedule.DrivenExactly` | system/fanctrl.c:353-366 | the variable fan makes up for a missing constant fan at full speed, put out to the drive, and is closed when it runs without being needed or asked for |
| `VariableSchedule.ContinuousExactly` | system/fanctrl.c:634-635 | the remainder is served continuously exactly when it comes within one unit of volume of the lowest frequency |
| `DutyCycle.SwitchFollowed` | system/fanctrl.c:312-395 | fans that follow a switch number exactly the request |
| `DutyCycle.BandFollowed` | system/fanctrl.c:224-308 | fans that follow the always-open routine stay in the band, and at `open` they stay at `open` |
| `DutyCycle.LongestFollowed` | system/fanctrl.c:206-214 | the end of a slice takes exactly one fan off |
| `DutyCycle.LongestMissesExactly` | system/fanctrl.c:114-122 | it takes none of the eligible fans off if and only if the longest-run fan is itself faulty or local |
| `DutyCycle.RunInPeriods` | system/fanctrl.c:525-582 | every state of a run lies in some control period with its slice, its number of fans and its account of fan-seconds right |
| `DutyCycle.SlicesEnd` | system/fanctrl.c:456-467 | a demand below four fans whose remainder is worth a slice has one that ends within its period |
| `DutyCycle.WholePeriods` | system/fanctrl.c:525-582 | after `k` whole periods exactly `k` times `open*period + t` fan-seconds have been delivered |
| `DutyCycle.DecisionsAreSteps` | system/fanctrl.c:552-583 | under steady settings what the pass and the tick of a plant of constant fans decide is exactly a step of a run |
| `DutyCycle.RunGoesOn` | system/fanctrl.c:552-583 | every run under steady settings can be continued by another second |
| `DutyCycle.DemandSplits` | system/fanctrl.c:452-468 | below four fans, steady settings run slices that end in their period, or none, or empty ones |
| `DutyCycle.FactoryPlant` | system/system.c:463-480 | on a plant of constant fans the factory settings run one fan all the time, and a second one for 900 of every 1800 seconds |
| `DutyCycle.RunWithoutSlices` | system/fanctrl.c:525-582 | without a slice exactly the always-open fans run from the first pass on, and deliver exactly that |
| `DutyCycle.RunWithEmptySlices` | system/fanctrl.c:525-545 | with slices of 0 seconds the extra fan runs all the time, over any run, and the fan-seconds say so |
| `DutyCycle.RunBegins` | system/fanctrl.c:552-583 | from any start there is a run |
| `DutyCycle.FactoryStarts` | system/system.c:463-480 | the factory settings start one on two idle fans |
| `DutyCycle.SecondReached` | system/fanctrl.c:525-582 | a run passes through every second up to its last one |
| `SliceCounts.SecondKeepsPeriod` | system/fanctrl.c:479-549 | one second keeps the account of a control period, or closes it and opens the next |
| `SliceCounts.PeriodsDelivered` | system/fanctrl.c:479-549 | at the end of `k` whole periods the account holds `k` times the share of one |
| `SliceCounts.ShiftedDelivers` | system/fanctrl.c:479-664 | at a time of `k` periods at least `k` slices have been delivered, and exactly `k` if and only if no period was cut short |
| `SliceCounts.ClosedAfterSlice` | system/fanctrl.c:192-221 | as long after the start as the slice lasts, the extra fan is closed |
| `VariableCycles.RunAccounted` | system/fanctrl.c:492-669 | every state of such a run lies in some period with its slice right, exactly the open number of constant fans runs, and seconds are lost from a period if and only if a pass has cut one short |
| `VariableCycles.CutsShortExactly` | system/fanctrl.c:654-664 | a pass cuts the period under way short if and only if it falls between slices while the number last switched to is not the request |
| `VariableCycles.LastNumExactly` | system/fanctrl.c:654-657 | that number is the request if and only if it was at the start or some pass since has fallen into a slice |
| `VariableCycles.PeriodRestarts` | system/fanctrl.c:658-664 | a pass that finds the period stopped or the number out of date opens the fan at minimum frequency and arms slice and period anew, and leaves the number as it was |
| `VariableCycles.PeriodGoesOn` | system/fanctrl.c:654-664 | a pass in a slice or with the number up to date leaves period and fan alone |
| `VariableCycles.SlicesFit` | system/fanctrl.c:440-450 | a demand below four fans with a remainder worth a slice has one that ends in its period, with its rounding |
| `VariableCycles.DecisionsAreSteps` | system/fanctrl.c:613-669 | when the remainder is not served continuously, what the pass and the tick decide is exactly a step of such a run |
| `VariableCycles.RunBegins` | system/fanctrl.c:613-669 | from any start with both timers stopped there is such a run, the variable fan on or off |
| `VariableCycles.RunGoesOn` | system/fanctrl.c:613-669 | and it can be continued by another second |
| `VariableCycles.SlicesStart` | system/fanctrl.c:440-450 | concrete settings and a plant that start one, whatever number was last switched to |
| `UnitModes.SwitchTakesEdge` | system/unitctrl.c:284-427 | every automatic switch takes one edge of the path HEAT-FAN-WET-COOL, and never while that edge's interval timer runs |
| `UnitModes.StepsRest` | system/unitctrl.c:265-283 | outside AUTO, with the system closed or no mode set, neither step nor watch changes anything |
| `UnitModes.StepEnters` | system/unitctrl.c:202-423 | a step that changes the mode arms exactly the intervals of the new mode, notes a first run in COOL and HEAT, shows the mode if a unit runs, and changes nothing else |
| `UnitModes.WatchInFan` | system/unitctrl.c:458-482 | in FAN the watch arms the condition timer of the first edge whose condition holds and is not being waited for, and nothing else |
| `UnitModes.WatchInWet` | system/unitctrl.c:484-507 | in WET likewise |
| `UnitModes.WatchInCool` | system/unitctrl.c:509-530 | in COOL it arms the timer of the edge or else that of the idle exit, if the first run is over and no compressor runs |
| `UnitModes.WatchInHeat` | system/unitctrl.c:532-555 | in HEAT it declares a first run and arms the timer of the edge |
| `UnitModes.StayKeepsGap` | system/unitctrl.c:265-428 | while a mode stays, nothing re-arms or cancels the interval timers of the edges that leave it |
| `UnitModes.EntryArms` | system/unitctrl.c:292-423 | entering a mode arms the interval timer of each edge that leaves it and leaves that of FAN to HEAT as it was |
| `UnitModes.EntryArmsExactly` | system/unitctrl.c:292-423 | every entry at the start of an edge arms its interval timer if and only if the edge is not FAN to HEAT |
| `UnitModes.FanToHeatNeverArmed` | system/unitctrl.c:305-307 | the interval timer of FAN to HEAT is read but never armed on any run |
| `UnitModes.FanToHeatAtOnce` | system/unitctrl.c:305-318 | after a callback that takes WET to FAN, a second callback in the same second takes FAN on to HEAT if and only if it is cold enough for that edge and neither of its timers runs |
| `UnitModes.NoTugOfWar` | system/unitctrl.c:284-412 | the temperature never asks for both directions of one edge |
| `UnitModes.FixedStepMoves` | system/unitctrl.c:284-412 | under fixed conditions one step moves at most one level and only where the temperature asks |
| `UnitModes.FirstRunLatched` | system/unitctrl.c:134-154 | the first-run flag does not change during a stay in COOL and stays set in HEAT |
| `UnitModes.IdleExitNeedsWarmEntry` | system/unitctrl.c:380-426 | after an entry with every compressor stopped, the idle exit is closed for the whole stay |
| `UnitModes.HeatIdleNeverArmed` | system/unitctrl.c:532-554 | the condition timer of the HEAT idle exit is never armed on any run |
| `UnitModes.HeatFlagExactly` | system/unitctrl.c:532-554 | during a stay in HEAT the first-run flag is up if and only if it was up before or some watch has acted since |
| `UnitModes.ConditionWaits` | system/unitctrl.c:441-556 | once armed, a condition timer holds back its edge for its whole waiting time |
| `UnitModes.NeverNoticed` | system/unitctrl.c:441-556 | until a watch notices the condition of an edge, nothing touches its condition timer |
| `ModeEvents.EventIsSteps` | system/unitctrl.c:430-438 | each event, a callback, a changed reading or target, a poll or an operator command, is made of steps |
| `ModeControl.ModeSystem.UnitCompsClosed` | system/unitctrl.c:134-154 | true if and only if no healthy unit's compressor runs; seeing one ends the first run |
| `ModeControl.ModeSystem.ChangeEnergyTemp` | system/unitctrl.c:157-199 | in WET and COOL all units get the energy-saving target, and nothing changes otherwise |
| `ModeControl.ModeSystem.SetUnitRunningMode` | system/unitctrl.c:202-253 | mode, register and all units agree, running units get the target temperature and the state follows them; in AUTO the units are opened, and in COOL and WET all of them get the energy-saving target |
| `ModeControl.ModeSystem.EnterWet` | system/unitctrl.c:292-301 | entering WET arms the two intervals that lead on from it |
| `ModeControl.ModeSystem.EnterFan` | system/unitctrl.c:348-353 | entering FAN arms its one interval |
| `ModeControl.ModeSystem.EnterCool` | system/unitctrl.c:331-336 | entering COOL arms its interval and notes whether every compressor stands idle |
| `ModeControl.ModeSystem.EnterHeat` | system/unitctrl.c:309-315 | entering HEAT likewise |
| `ModeControl.ModeSystem.AdjustUnitRunningMode` | system/unitctrl.c:265-428 | the automatic step on the plant is the step function the run theorems are about, and tells every unit a new mode |
| `ModeControl.ModeSystem.LeaveFan` | system/unitctrl.c:284-319 | the two exits of FAN, in order |
| `ModeControl.ModeSystem.LeaveWet` | system/unitctrl.c:321-355 | the two exits of WET, in order |
| `ModeControl.ModeSystem.LeaveCool` | system/unitctrl.c:357-397 | the temperature exit and the idle exit of COOL |
| `ModeControl.ModeSystem.LeaveHeat` | system/unitctrl.c:399-427 | the temperature exit and the idle exit of HEAT |
| `ModeControl.ModeSystem.ChangeUnitRunningMode` | system/unitctrl.c:441-556 | the watch step on the plant arms exactly one condition timer, as the watch function says |
| `ModeControl.ModeSystem.WatchHeat` | system/unitctrl.c:532-555 | in HEAT every watch sets the first-run flag, so that the idle branch is never taken |
| `Units.ModularRoof.SwitchOpen` | Device/modularRoof.c:42-56 | a unit is opened only on line and without stop fault |
| `Units.ModularRoof.SwitchClose` | Device/modularRoof.c:59-71 | a unit is closed only if it runs |
| `Supervision.RegisterAgreesExactly` | system/unitctrl.c:105-111 | when the two handlers leave the same running-mode register, and when only the unit handler brings it up to date |
| `Supervision.ClosedExactly` | system/unitctrl.c:80-129 | neither handler leaves the system closed while a device runs, or opens it while none does |
| `Supervision.UnitHandlerExactly` | system/unitctrl.c:80-129 | what the unit handler makes of the first running unit and the fans, for each derived state and register |
| `Supervision.FanHandlerExactly` | system/fanctrl.c:51-102 | what the fan handler makes of them |
| `Supervision.FaultsExactly` | system/unitctrl.c:795-807 | without a healthy unit AUTO and EMERGENCY give way to MANUAL, without a working or a remote fan AUTO does; otherwise only the flag changes |
| `Supervision.StepSafe` | system/systemctrl.c:35-109 | every event keeps the mode invariant |
| `Supervision.UnitFlagFollows` | system/unitctrl.c:795-807 | after any events the units' flag is what the last report on the units found, and without one what it was |
| `Supervision.FanFlagFollows` | system/fanctrl.c:836-856 | the fans' flag likewise |
| `Supervision.AutoNeedsRemote` | system/fanctrl.c:904-919 | once the last remote fan has gone, AUTO comes back only by a request that found a remote fan |
| `Supervision.RequestSettles` | system/systemctrl.c:35-109 | handling a request always ends with the register equal to the system mode |
| `Supervision.RequestGrantedExactly` | system/systemctrl.c:44-105 | exactly when a requested mode is entered |
| `Supervision.ModeChangedExactly` | system/systemctrl.c:35-109 | a request enters its mode if the plant can carry it, and otherwise puts the old mode back into the register |
| `Supervision.WrittenIsHandled` | system/systemctrl.c:35-109 | a mode that is written and then handled is entered if the plant can carry it, and otherwise the old mode stays |
| `Supervisors.Supervisor.ChangeSystemMode` | system/systemctrl.c:35-109 | the handler on the device lists: grant or refusal, units opened or everything closed, and the running mode asked for |
| `Supervisors.Supervisor.CountRemote` | system/systemctrl.c:50-58 | the count is zero if and only if no fan is remote |
| `Supervisors.Supervisor.CloseAll` | system/systemctrl.c:22-32 | closing the system leaves no fan commanded or switched on, no running unit open, and both scheduler timers stopped |
| `Supervisors.Supervisor.CloseExAirFans` | system/fanctrl.c:9-23 | every fan is closed and both timers are stopped |
| `Supervisors.Supervisor.CountHealthy` | system/unitctrl.c:745-757 | the count is zero if and only if no unit is healthy; in AUTO and EMERGENCY the healthy ones on line are opened again |
| `Supervisors.Supervisor.UnitErr` | system/unitctrl.c:795-807 | the flag is up exactly if every unit has failed, and AUTO and EMERGENCY then go back to MANUAL |
| `Supervisors.Supervisor.ExAirFanErr` | system/fanctrl.c:836-856 | the flag is up exactly if every fan has failed, and AUTO then goes back to MANUAL |
| `Supervisors.Supervisor.ExAirFanRemoteChange` | system/fanctrl.c:904-919 | losing the last remote fan takes AUTO back to MANUAL |
| `Supervisors.Supervisor.UnitRunningState` | system/unitctrl.c:52-130 | the unit handler: the unit's commands follow its state, the derived states follow the devices |
| `Supervisors.Supervisor.FanRunningState` | system/fanctrl.c:25-103 | the fan handler: the fan's command follows its feedback, the derived states follow the devices |
| `Supervisors.Supervisor.LookAtUnits` | system/unitctrl.c:80-114 | the loop with its early return decides by the first running unit |
| `Supervisors.Supervisor.ReportsFirst` | system/unitctrl.c:80-114 | what the units report comes to the mode of the first one that runs |
| `Supervisors.Supervisor.ReportsNone` | system/unitctrl.c:80-114 | and to none if none runs |
| `Supervisors.Supervisor.LookAtFans` | system/fanctrl.c:51-65 | the loop decides whether any fan runs and wakes a closed system |
| `FreshAir.FreshAirControl.CountHealthy` | system/systemctrl.c:155-163 | the number of healthy units and, if one is left, which |
| `FreshAir.FreshAirControl.Divide` | system/systemctrl.c:169-192 | healthy units get at most 65000 each and together the target up to one unit of rounding each; a target beyond a single unit gives way and the registers show it |
| `FreshAir.FreshAirControl.SetFreAir` | system/systemctrl.c:137-196 | the register pair in base 65535 becomes the target, up to the limit of a single healthy unit, unless it is above 130000; the registers then show the target, and a changed one is divided rightly |
| `FreshAir.FreshAirControl.UnitErr` | system/unitctrl.c:745-781 | a failing or returning unit divides the target anew and keeps the register pair in step |
| `FreshAir.FreshAirControl.FreshFreAir` | system/systemctrl.c:200-239 | the periodic refresh divides rightly if and only if the target is within reach of the healthy units |
| `FreshAir.RequestMeets` | system/systemctrl.c:149-183 | after any requests and faults a new request becomes the target, up to the limit of a single healthy unit, unless it is above 130000 |
| `Alarms.Alarm.SetAlarm` | system/systemctrl.c:349-360 | sounding acts only while enabled |
| `Alarms.Alarm.DelAlarmRequest` | system/systemctrl.c:375-421 | a request silences exactly when the alarm is disabled or no condition holds |
| `Alarms.Alarm.CleanAlarm` | system/systemctrl.c:424-437 | the clean command silences and is taken back |
| `Alarms.Alarm.AlarmEnable` | system/systemctrl.c:440-495 | enabling sounds exactly on the condition that the silencing request asks about; disabling silences |
| `Alarms.OnlyCleanSilences` | system/systemctrl.c:375-437 | while it is enabled and a condition holds, only the clean command silences it |
| `Alarms.LastCallDecides` | system/systemctrl.c:349-495 | after any calls, what each further call does to output and enabling, by the condition at that moment |
| `Alarms.Alarm.ConditionMeans` | system/systemctrl.c:375-421 | the condition for the alarm, by the states of units, fans, CO2 reading and sensors |
| `Sensors.SampleRing.Accept` | Device/sensor.c:254-261 | the running total stays the sum of the five slots |
| `Sensors.SampleRing.Publish` | Device/sensor.c:262-266 | the published average is the truncated mean of the last five accepted readings and lies within the limits |
| `Sensors.SumUpdate` | Device/sensor.c:117-121 | subtracting the old slot and adding the new reading keeps a sum a sum |
| `Sensors.SumBetween` | system/sensorctrl.c:15-23 | a sum lies between its length times the extremes |
| `Sensors.MeanBetween` | system/sensorctrl.c:24-27 | a mean rounded toward zero lies between the extremes, for negative totals too |
| `Sensors.MeanOfUsable` | system/sensorctrl.c:24-27 | the mean of the usable sensors lies between two of them |
| `Sensors.UsableStep` | system/sensorctrl.c:15-23 | one more sensor adds to sum and count exactly if it is not in error |
| `Sensors.SensorSystem.SumCO2` | system/sensorctrl.c:15-23 | the unsigned 16-bit CO2 sum never wraps |
| `Sensors.SensorSystem.SumTemp` | system/sensorctrl.c:227-240 | the signed 16-bit temperature sum never wraps |
| `Sensors.SensorSystem.CO2PPM` | system/sensorctrl.c:5-30 | the system CO2 reading becomes the mean of the usable sensors, between two of them, unless CO2 sensing is in error |
| `Sensors.SensorSystem.TempIn` | system/sensorctrl.c:208-260 | the indoor temperature likewise |
| `Eeproms.DataBank.Regist` | Module/md_eeprom.c:561-741 | a variable is registered once, while there is room, its value copied to the shadow; a null pointer, a repetition and an overflow are refused without effect |
| `Eeproms.DataBank.Changed` | Module/md_eeprom.c:136-150 | true if and only if some registered variable differs from its shadow, and afterwards none does |
| `Eeproms.DataBank.WritePass` | Module/md_eeprom.c:387-397 | one write pass of one class is the pass function of the run theorems |
| `Eeproms.DataBank.Load` | Module/md_eeprom.c:272-320 | reading back sets shadow and registered variables from the page and no other variable |
| `Eeproms.DataBank.WriteFirstTime` | Module/md_eeprom.c:514-518 | the first-run write puts the shadow into the page |
| `Eeproms.DataTask.SyncDefaults` | Module/md_eeprom.c:756-765 | the flag is fetched from the page; on a first run it is lowered and all shadows are written |
| `Eeproms.DataTask.Boot` | Module/md_eeprom.c:746-767 | the boot of the flag's class and of any other class is the boot function of the theorems |
| `Eeproms.Passed` | Module/md_eeprom.c:382-471 | after a write pass the shadow agrees with the variables |
| `Eeproms.EveryPassPersists` | Module/md_eeprom.c:387-459 | in a class written on every change, page, shadow and variables agree after every pass of every run |
| `Eeproms.CountsChanges` | Module/md_eeprom.c:460-471 | the change counter is the number of changed passes modulo the interval, stays below it, and the page has been written once for each full interval |
| `Eeproms.RuntimeCounts` | Module/md_eeprom.c:460-471 | the running times are written on every 720th change |
| `Eeproms.RuntimeLosesLittle` | Module/md_eeprom.c:460-471 | a power cycle costs the running times less than two hours of passes that found a change |
| `Eeproms.AgreesAgainExactly` | Module/md_eeprom.c:387-397 | a page that disagrees with its shadow agrees again if and only if some pass has found a change |
| `Eeproms.LateRegistrationIsLost` | Module/md_eeprom.c:579-584 | were a variable registered after the boot and never changed, it would never reach the page; the firmware registers all of them before |
| `Eeproms.QuietRun` | Module/md_eeprom.c:382-471 | while nothing changes, passes change nothing |
| `Eeproms.RegisteredSynced` | Module/md_eeprom.c:579-584 | registration leaves shadow and variables in agreement |
| `Eeproms.BootChoosesExactly` | Module/md_eeprom.c:756-767 | a boot keeps the registered defaults if and only if the flag says first run or the page holds them; the page is written only then, and the flag in the page ends lowered |
| `Monitors.ImageOf` | Module/md_monitor.c:52-71 | the 16-bit image of a negative value is its sign extension, for 8-bit and 16-bit types |
| `Monitors.ImageTells` | Module/md_monitor.c:52-71 | two values of a type have the same image if and only if they are equal: no change escapes |
| `Monitors.HoldsFirstCalls` | Module/md_monitor.c:30-42 | after any calls the list holds the first call for each distinct variable, in order, up to 90 |
| `Monitors.WalkMeetsAll` | Module/md_monitor.c:72-81 | following the links from any slot meets the rest in order |
| `Monitors.Monitor.Regist` | Module/md_monitor.c:20-82 | registration notes a variable once, with the image of its value, and keeps the list linked |
| `Monitors.Monitor.Append` | Module/md_monitor.c:43-81 | linking one more slot: the old tail leads to it and the head knows it as the tail |
| `Monitors.Monitor.PollPass` | Module/md_monitor.c:110-148 | one pass along the links updates entries and posts as the polling functions say |
| `Monitors.Monitor.PollOne` | Module/md_monitor.c:113-147 | the body of the poll loop for one entry |
| `Monitors.PollSettles` | Module/md_monitor.c:113-138 | after a pass every entry holds what it was compared with: for a known type its live image |
| `Monitors.PollTwiceIsQuiet` | Module/md_monitor.c:110-148 | a second pass over unchanged variables posts nothing, unless the list begins with a type that the poll does not know and the passes began with different images |
| `Monitors.UnknownTypeMisfires` | Module/md_monitor.c:113-138 | an entry of a type that the poll does not know posts if and only if it differs from the image of the nearest known entry before it, or, with none, from the image that the pass began with |

## Left out

- The real-time kernel: tasks, queues, semaphores and the shared event buffer of the monitor task. Handlers are atomic steps, a timer is the moment it is due, and queue delivery is not modelled.
- The register and address tables of the fieldbus devices, and the drivers for digital, analog and display hardware. Relays and outputs are plain fields.
- The humidity half of the sensors, the outdoor sensors, and the forwarding of averages to the units.
- The unit CO2 average and the unit temperature average without a unit on line: they read variables that were never set.
- The refusal branch of the rated-volume setter, which writes its two registers the other way round.
- The energy class of the EEPROM module, whose write uses the size of another class, and the reset switches for running time and energy, which are off in the configuration.
- Entering AUTO or EMERGENCY, a fault and a changed target go on to run a control pass, recalculate the demand or touch the alarm. Each of those is modelled on its own and the handlers are not chained.
- `psSystem_ShortestExAirFan`, which nothing calls.
- FanControl.FanSystem.ExAirFanCtrl: requires the setters' limits (`InRange`) and, when the demand is calculated with a usable variable fan and a rated volume, a minimum frequency of at least 1, because the firmware divides by it.
- FanControl.FanSystem.LongestExAirFan: the fan list is non-empty and shorter than 256, the range of the firmware's loop counters.
- VariableSchedule.ContinuousServes: one decision, not a run; the frequency that a variable fan really reaches is feedback, and only its slices at minimum frequency are followed over runs.
- DutyCycle.DeliversDemand: an all-constant plant under a steady demand whose fans follow their commands and neither fail nor change hands; slices and ticks fall due on whole seconds, an expiring slice before a tick.
- FanControl.FanSystem.AdjustExAirFanFreq: leaves out the register that shows the frequency of the variable fan to the building management.
- VariableCycles.DeliversDemand: a plant whose remainder is worth a slice, under a steady demand; fans follow their commands and neither fail nor change hands, and slices and ticks fall due on whole seconds.
- DutyCycle.EmptySliceNeverEnds: demands of four fans and more, whose slice can outlast its period, are left out.
- Sensors.SensorSystem.TempIn: leaves out the humidity half, the forwarding of the averages to the units and the watch of the running mode that follows a change.
- ModeEvents.PlayIsRun: time is in whole seconds, and timers that fall due in the same second may call back in either order.
- UnitModes.MinimumDwell: says nothing about modes entered by the operator or on entering AUTO, for which the firmware arms no interval.
- ModeControl.ModeSystem.SetUnitRunningMode: leaves out the recalculation of the air demand at its end.
- Supervisors.Supervisor.ChangeSystemMode: the running mode that the units are to be given is its result, not applied to the units, and the control pass that follows entering AUTO or EMERGENCY is not part of it.
- Supervision.AlwaysSafe: "a remote fan was seen" refers to the last time a handler looked; the inputs may have changed since.
- FreshAir.FreshAirControl.FreshFreAir: the volume handed over is the target itself, as its only caller does it.
- ExAirFans.FiveMismatchesLatch: the operator does not clear the control fault within the five ticks.
- Sensors.SensorSystem.CO2PPM: the alarm that follows a high reading is not part of it.
- Eeproms.DataTask.Boot: the class of the first-run flag and one other class, which stands for each of the remaining ones; registrations are addresses of distinct variables.
- Eeproms.FirstRunOnce: nobody but the boot writes the first-run flag.
- Monitors.Monitor.PollPass: the 16-bit read that the poll makes of an 8-bit signed variable is taken to yield that variable in its low byte.
