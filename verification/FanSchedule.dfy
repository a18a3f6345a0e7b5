/**
 The decisions of one control pass and of one control-period tick on a plant of constant-speed fans:
 the new scheduling state and the plan commanded to the fans.
 */
module FanSchedule {
  import opened Common
  import opened Demands
  import opened ExAirFans
  import opened FanPlan
  import opened Timers

  /** `lastNum` and `lastTime` are what was in force when fans were last switched; `slice` runs while
      the extra fan is wanted, `ctrl` is the control period. */
  datatype Sched = Sched(demand: Demand, lastNum: nat, lastTime: nat, slice: Timer, ctrl: Timer)

  /** The tick starts a slice unless the remainder is too short or the same slice is under way. */
  predicate StartsSlice(c: Settings, now: nat, s: Sched, d: Demand) {
    d.time >= c.runTimeLeast && (!s.slice.Running(now) || s.lastTime != d.time)
  }

  const NOTHING := Plan({}, {})

  /** A tick whose demand has been calculated. */
  function SliceOutcome(c: Settings, now: nat, s: Sched, v: seq<FanState>): (r: (Sched, Plan)) {
    var d := s.demand;
    if StartsSlice(c, now, s, d) then
      (Sched(d, d.request, d.time, Regist(now, d.time), s.ctrl), SwitchPlan(v, d.request))
    else (s, NOTHING)
  }

  /** The pass restarts the control period, running its tick at once, when no period is under way or
      the requested number differs from the one last switched to. A period of 0 cannot be started. */
  predicate RestartsPeriod(c: Settings, now: nat, s: Sched) {
    c.ctrlPeriod > 0 && (!s.ctrl.Running(now) || s.lastNum != s.demand.request)
  }

  /** The scheduling state after the last step of the pass. The tick that it runs calculates the demand
      again, which settles on what the pass has just calculated. */
  function AfterRestart(c: Settings, now: nat, s: Sched): (r: Sched) {
    if RestartsPeriod(c, now, s) then SliceOutcome(c, now, s, []).0.(ctrl := Regist(now, c.ctrlPeriod))
    else if PeriodStopped(c, now, s) then s.(ctrl := STOPPED)
    else s
  }

  predicate RestartSwitches(c: Settings, now: nat, s: Sched) {
    RestartsPeriod(c, now, s) && StartsSlice(c, now, s, s.demand)
  }

  /** What the pass commands before it looks at the control period. */
  function PassPlan(s: Sched, now: nat, v: seq<FanState>): (p: Plan) {
    if s.slice.Running(now) then SwitchPlan(v, s.demand.request)
    else AlwaysOpenPlan(v, s.demand.open, s.demand.request)
  }

  function PassOutcome(c: Settings, now: nat, s: Sched, v: seq<FanState>): (r: (Sched, Plan)) {
    var s1 := if s.slice.Running(now) then s.(lastNum := s.demand.request) else s;
    (AfterRestart(c, now, s1),
     if RestartSwitches(c, now, s1) then SwitchPlan(v, s.demand.request) else PassPlan(s, now, v))
  }

  predicate PeriodStopped(c: Settings, now: nat, s: Sched) {
    c.ctrlPeriod == 0 && (!s.ctrl.Running(now) || s.lastNum != s.demand.request)
  }

  /** The demand that a pass starts from is the one it would compute again. */
  predicate Fresh(c: Settings, heating: bool, d: Demand) {
    NextDemand(c, heating, false, d) == d
  }

  /** All running constant fans, whether or not they are eligible, and the longest-run of them. */
  function AllRunning(v: seq<FanState>): set<nat> {
    set i | 0 <= i < |v| && v[i].Constant() && v[i].io.running
  }

  predicate IsLongest(v: seq<FanState>, f: nat) {
    && f in AllRunning(v)
    && forall j :: j in AllRunning(v) ==>
                     v[j].io.hours < v[f].io.hours || (v[j].io.hours == v[f].io.hours && f <= j)
  }

  lemma AppliedKeepsInputs(v: seq<FanState>, p: Plan, w: seq<FanState>)
    requires |w| == |v| && forall i :: 0 <= i < |v| ==> w[i] == Applied(p, i, v[i])
    ensures SameInputs(v, w)
  {
  }

  /** Switching on top of a band or switch plan made on the same inputs is switching alone. */
  lemma SwitchAbsorbs(v: seq<FanState>, w: seq<FanState>, p: Plan, open: nat, request: nat)
    requires |w| == |v| && forall i :: 0 <= i < |v| ==> w[i] == Applied(p, i, v[i])
    requires p == SwitchPlan(v, request) || (open <= request && p == AlwaysOpenPlan(v, open, request))
    ensures var b := SwitchPlan(w, request);
            && b == SwitchPlan(v, request)
            && forall i :: 0 <= i < |v| ==> Applied(b, i, w[i]) == Applied(b, i, v[i])
  {
    AppliedKeepsInputs(v, p, w);
    PlansOnInputs(v, w, open, request);
    var b := SwitchPlan(v, request);
    if p == b {
      SwitchSizes(v, request);
      EligibleSplit(v);
      forall i | 0 <= i < |v|
        ensures Applied(b, i, w[i]) == Applied(b, i, v[i])
      {
        OpenTwice(v[i]);
      }
    } else {
      PassIsSwitch(v, open, request);
    }
  }

  /** In manual mode a pass repeats what each fan was last told. */
  function ManualPlan(v: seq<FanState>): Plan {
    Plan(set i | 0 <= i < |v| && v[i].cmd.Off?, set i | 0 <= i < |v| && v[i].cmd.On? && v[i].Healthy())
  }

  /** Such a pass changes no command: it only brings the relays in line with them, and on an off
      command drops the relay whatever the fan's health. */
  lemma ManualKeepsCommands(v: seq<FanState>, i: nat)
    requires i < |v|
    ensures var s := Applied(ManualPlan(v), i, v[i]);
            && s.cmd == v[i].cmd && s.io == v[i].io
            && (s.relay == s.cmd || (v[i].cmd == On && !v[i].Healthy() && s == v[i]))
  {
  }
}
