/**
 The decisions of one control pass and of one control-period tick about the variable-speed fan, and
 what they mean for the air that is moved. `lo` and `hi` are the frequency limits of the settings.
 */
module VariableSchedule {
  import opened Common
  import opened Demands
  import opened ExAirFans
  import opened FanPlan
  import opened FanSchedule
  import opened Timers

  /** The variable fan and whether it has been asked to take the remainder. */
  datatype Variate = Variate(fan: FanState, asked: bool)

  function RunAt(s: FanState, freq: nat, lo: nat, hi: nat): FanState {
    FreqSet(Opened(s), FreqClamp(freq, lo, hi))
  }

  /** What the always-open and the switch routine do to the variable-speed fan when `goal` constant
      fans are wanted and `n` are eligible: full speed to make up for a missing fan, off when it is
      neither needed nor asked for. */
  function VariateDriven(s: FanState, goal: nat, n: nat, asked: bool, lo: nat, hi: nat): FanState {
    if goal > n && s.Healthy() then RunAt(s, hi, lo, hi)
    else if goal <= n && !asked && s.io.running then Closed(s)
    else s
  }

  /** The fan list once the variable fan, if the plant has one, has been driven for `goal`. */
  function Prepared(c: Settings, variable: bool, asked: bool, goal: nat, v: seq<FanState>): (w: seq<FanState>)
    requires |v| > 0
    ensures |w| == |v|
  {
    if variable then v[0 := VariateDriven(v[0], goal, |Eligible(v)|, asked, c.minFreq, c.maxFreq)] else v
  }

  /** Driving the variable fan leaves every input alone, and so both routines' decisions. */
  lemma PreparedKeepsPlans(c: Settings, variable: bool, asked: bool, goal: nat, v: seq<FanState>)
    requires |v| > 0 && (variable ==> !v[0].Constant())
    ensures SameInputs(v, Prepared(c, variable, asked, goal, v))
  {
  }

  /** A variable fan that is out of use is not driven again by the second routine of a pass. */
  lemma DrivenOnce(s: FanState, open: nat, request: nat, n: nat, asked: bool, lo: nat, hi: nat)
    requires !s.Healthy() && open <= request
    ensures var t := VariateDriven(s, open, n, asked, lo, hi);
            VariateDriven(t, request, n, asked, lo, hi) == t
  {
  }

  /** Switching on top of a band or switch plan drives the variable fan once more, and otherwise is
      switching alone. */
  lemma SwitchBeside(c: Settings, variable: bool, asked: bool, open: nat, request: nat,
                     v: seq<FanState>, w: seq<FanState>, p: Plan)
    requires |v| > 0 && open <= request && (variable ==> !v[0].Constant())
    requires p == SwitchPlan(v, request) || p == AlwaysOpenPlan(v, open, request)
    requires var u := Prepared(c, variable, asked, open, v);
             |w| == |u| && forall i :: 0 <= i < |u| ==> w[i] == Applied(p, i, u[i])
    ensures var u, x := Prepared(c, variable, asked, open, v), Prepared(c, variable, asked, request, w);
            var b := SwitchPlan(w, request);
            && b == SwitchPlan(v, request)
            && (forall i :: 0 <= i < |u| && (i > 0 || !variable) ==> Applied(b, i, x[i]) == Applied(b, i, u[i]))
            && (variable ==>
                  && x[0] == VariateDriven(u[0], request, |Eligible(v)|, asked, c.minFreq, c.maxFreq)
                  && w[0] == u[0] && 0 !in b.off + b.on)
  {
    var u := Prepared(c, variable, asked, open, v);
    PreparedKeepsPlans(c, variable, asked, open, v);
    PlansOnInputs(v, u, open, request);
    SwitchAbsorbs(u, w, p, open, request);
    AppliedKeepsInputs(u, p, w);
    PlansOnInputs(u, w, open, request);
    SwitchOnlyEligible(v, open, request);
  }

  /** With the variable fan out of use it is switching alone. */
  lemma SwitchOnPrepared(c: Settings, variable: bool, asked: bool, open: nat, request: nat,
                         v: seq<FanState>, w: seq<FanState>, p: Plan)
    requires |v| > 0 && open <= request && (variable ==> !v[0].Constant() && !v[0].Healthy())
    requires p == SwitchPlan(v, request) || p == AlwaysOpenPlan(v, open, request)
    requires var u := Prepared(c, variable, asked, open, v);
             |w| == |u| && forall i :: 0 <= i < |u| ==> w[i] == Applied(p, i, u[i])
    ensures var u, x := Prepared(c, variable, asked, open, v), Prepared(c, variable, asked, request, w);
            var b := SwitchPlan(w, request);
            && b == SwitchPlan(v, request)
            && forall i :: 0 <= i < |u| ==> Applied(b, i, x[i]) == Applied(b, i, u[i])
  {
    SwitchBeside(c, variable, asked, open, request, v, w, p);
    if variable {
      DrivenOnce(v[0], open, request, |Eligible(v)|, asked, c.minFreq, c.maxFreq);
    }
  }

  /** Neither routine's plan names a fan that is not eligible. */
  lemma SwitchOnlyEligible(v: seq<FanState>, open: nat, request: nat)
    ensures var a, b := AlwaysOpenPlan(v, open, request), SwitchPlan(v, request);
            a.off + a.on + b.off + b.on <= Eligible(v)
  {
    EligibleSplit(v);
  }

  // ------------------------------------------------------------------------------------------
  // The tick and the pass
  // ------------------------------------------------------------------------------------------

  /** A tick whose demand has been calculated runs the fan at minimum frequency for a slice, or closes
      it. */
  function VariableTick(c: Settings, now: nat, s: Sched, w: Variate): (r: (Sched, Variate)) {
    var d := s.demand;
    (if StartsSlice(c, now, s, d) then s.(lastTime := d.time, slice := Regist(now, d.time)) else s,
     if d.time >= c.runTimeLeast then Variate(RunAt(w.fan, c.minFreq, c.minFreq, c.maxFreq), true)
     else Variate(Closed(w.fan), false))
  }

  /** A remainder above the threshold drives the fan continuously, if the frequency it comes to is not
      below the minimum. */
  function ContinuousDriven(w: Variate, freq: nat, lo: nat, hi: nat): (r: Variate) {
    if freq >= lo then Variate(RunAt(w.fan, freq, lo, hi), true)
    else if freq > hi then w.(fan := FreqSet(w.fan, FreqClamp(hi, lo, hi)))
    else w
  }

  /** During its slice the pass keeps switching the constant fans, which drives the variable one. */
  function DuringSlice(c: Settings, now: nat, s: Sched, w: Variate, n: nat): (r: (Sched, Variate)) {
    if s.slice.Running(now) then
      (s.(lastNum := s.demand.request),
       w.(fan := VariateDriven(w.fan, s.demand.request, n, w.asked, c.minFreq, c.maxFreq)))
    else (s, w)
  }

  predicate RestartsTick(now: nat, s: Sched) {
    !s.ctrl.Running(now) || s.lastNum != s.demand.request
  }

  /** The pass restarts the control period, whose tick finds the demand `d`. */
  function VariableRestart(c: Settings, now: nat, s: Sched, w: Variate, d: Demand): (r: (Sched, Variate)) {
    if !RestartsTick(now, s) then (s, w)
    else if c.ctrlPeriod == 0 then (s.(ctrl := STOPPED), w)
    else
      var t := VariableTick(c, now, s.(demand := d), w);
      (t.0.(ctrl := Regist(now, c.ctrlPeriod)), t.1)
  }

  /** A pass that serves the remainder in slices; `n` constant fans are eligible. */
  function SlicePass(c: Settings, now: nat, s: Sched, w: Variate, n: nat, d: Demand): (r: (Sched, Variate)) {
    var w1 := w.(fan := VariateDriven(w.fan, s.demand.open, n, w.asked, c.minFreq, c.maxFreq));
    var t := DuringSlice(c, now, s, w1, n);
    VariableRestart(c, now, t.0, t.1, d)
  }

  /** The remainder that the pass works with. It narrows the rated volume to 16 bits, and only it. */
  function Narrow(c: Settings): nat {
    U16(c.ratedVol)
  }

  function NarrowResidual(c: Settings, d: Demand): nat {
    U32(d.volume - Narrow(c) * d.open)
  }

  predicate Continuous(c: Settings, d: Demand) {
    FastBranch(NarrowResidual(c, d), c.minFreq, Narrow(c))
  }

  /** What a pass does about the variable fan. */
  function VariablePass(c: Settings, heating: bool, now: nat, s: Sched, w: Variate, n: nat): (r: (Sched, Variate))
    requires Narrow(c) > 0 && c.minFreq > 0
  {
    var d := s.demand;
    if Continuous(c, d) then
      var w1 := w.(fan := VariateDriven(w.fan, d.open, n, w.asked, c.minFreq, c.maxFreq));
      (s.(slice := STOPPED, ctrl := STOPPED),
       ContinuousDriven(w1, FastFreq(NarrowResidual(c, d), Narrow(c)), c.minFreq, c.maxFreq))
    else SlicePass(c, now, s, w, n, NextDemand(c, heating, true, d))
  }

  /** And what it commands to the constant ones. */
  function ConstantsPlan(c: Settings, now: nat, s: Sched, v: seq<FanState>): Plan {
    if Continuous(c, s.demand) then AlwaysOpenPlan(v, s.demand.open, s.demand.request)
    else PassPlan(s, now, v)
  }

  // ------------------------------------------------------------------------------------------
  // Passes and ticks of any plant
  // ------------------------------------------------------------------------------------------

  /** What a decision depends on besides the scheduling state and the fans: whether the plant has a
      variable fan, whether that is usable, and whether it has been asked to take the remainder. */
  datatype Scene = Scene(c: Settings, heating: bool, now: nat, variable: bool, usable: bool, asked: bool) {
    /** The minimum frequency divides the variable fan's slice. */
    predicate Ok() {
      (usable ==> variable) && (usable && c.ratedVol != 0 ==> c.minFreq > 0)
    }
  }

  /** The scheduling state and the request that a decision leaves, and the plan it commands to fans
      that are otherwise as in `base`. */
  datatype Outcome = Outcome(sched: Sched, asked: bool, base: seq<FanState>, plan: Plan)

  /** A tick once the demand is calculated: what it commands without a usable variable fan, and with
      one. */
  function ConstantTick(e: Scene, s: Sched, v: seq<FanState>): (o: Outcome)
    requires |v| > 0
  {
    var (t, p) := SliceOutcome(e.c, e.now, s, v);
    var starts := StartsSlice(e.c, e.now, s, s.demand);
    Outcome(t, e.asked, if starts then Prepared(e.c, e.variable, e.asked, s.demand.request, v) else v, p)
  }

  function VariateTick(e: Scene, s: Sched, v: seq<FanState>): (o: Outcome)
    requires |v| > 0
  {
    var (t, w) := VariableTick(e.c, e.now, s, Variate(v[0], e.asked));
    Outcome(t, w.asked, v[0 := w.fan], NOTHING)
  }

  function TickResult(e: Scene, was: Sched, v: seq<FanState>): (o: Outcome)
    requires |v| > 0 && e.Ok()
  {
    var s := was.(demand := NextDemand(e.c, e.heating, e.usable, was.demand));
    if e.usable then VariateTick(e, s, v) else ConstantTick(e, s, v)
  }

  /** A control period of 0 is refused by the timer, which is then stopped and its tick is not run. */
  function RestartResult(e: Scene, s: Sched, v: seq<FanState>): (o: Outcome)
    requires |v| > 0 && e.Ok()
  {
    if e.c.ctrlPeriod == 0 then Outcome(s.(ctrl := STOPPED), e.asked, v, NOTHING)
    else
      var o := TickResult(e, s, v);
      o.(sched := o.sched.(ctrl := Regist(e.now, e.c.ctrlPeriod)))
  }

  function ConstantResult(e: Scene, s: Sched, v: seq<FanState>): (o: Outcome)
    requires |v| > 0
  {
    var (t, p) := PassOutcome(e.c, e.now, s, v);
    Outcome(t, e.asked, Prepared(e.c, e.variable, e.asked, s.demand.open, v), p)
  }

  function VariableResult(e: Scene, s: Sched, v: seq<FanState>): (o: Outcome)
    requires |v| > 0 && e.Ok() && e.usable && Narrow(e.c) > 0
  {
    var (t, w) := VariablePass(e.c, e.heating, e.now, s, Variate(v[0], e.asked), |Eligible(v)|);
    Outcome(t, w.asked, v[0 := w.fan], ConstantsPlan(e.c, e.now, s, v))
  }

  /** A pass on a freshly calculated demand. */
  function DemandResult(e: Scene, was: Sched, v: seq<FanState>): (o: Outcome)
    requires |v| > 0 && e.Ok()
  {
    var s := was.(demand := NextDemand(e.c, e.heating, e.usable, was.demand));
    if !e.usable then ConstantResult(e, s, v)
    else if Narrow(e.c) > 0 then VariableResult(e, s, v)
    else Outcome(s, e.asked, v, NOTHING)
  }

  /** The CO2 override: three constant fans and the variable one at full speed, or else four constant
      fans; both timers stop. */
  function VentilateResult(e: Scene, s: Sched, v: seq<FanState>): (o: Outcome)
    requires |v| > 0
  {
    var n := if e.usable then 3 else 4;
    var u := Prepared(e.c, e.variable, e.asked, n, v);
    Outcome(Sched(s.demand.(request := n), n, s.lastTime, STOPPED, STOPPED), e.usable || e.asked,
            if e.usable then u[0 := RunAt(u[0], e.c.maxFreq, e.c.minFreq, e.c.maxFreq)] else u,
            SwitchPlan(v, n))
  }

  // ------------------------------------------------------------------------------------------
  // What that means
  // ------------------------------------------------------------------------------------------

  /** Whatever branch the pass takes, the constant fans stay in the band of the demand. */
  lemma ConstantsInBand(c: Settings, now: nat, s: Sched, v: seq<FanState>)
    requires DemandOk(s.demand)
    ensures InBand(v, s.demand.open, s.demand.request, |Planned(v, ConstantsPlan(c, now, s, v))|)
  {
    AlwaysOpenBand(v, s.demand.open, s.demand.request, NOTHING);
    SwitchExact(v, s.demand.request);
  }

  /** The routines alone leave the fan commanded on: it makes up for a missing constant fan, or it was
      on and either is asked for or has not started yet. */
  predicate LeftOn(w: Variate, goal: nat, n: nat) {
    goal > n || (w.fan.cmd.On? && (w.asked || !w.fan.io.running))
  }

  /** Exactly when a healthy variable fan is commanded on after a pass. A tick in the same pass has
      the last word, so that a short remainder shuts down a fan that has just been brought to full
      speed in place of a missing one. */
  lemma CommandedOnExactly(c: Settings, heating: bool, now: nat, s: Sched, w: Variate, n: nat)
    requires Narrow(c) > 0 && c.minFreq > 0 && DemandOk(s.demand)
    requires w.fan.Healthy()
    ensures var d, r := s.demand, VariablePass(c, heating, now, s, w, n);
            var t := DuringSlice(c, now, s, w, n).0;
            r.1.fan.cmd == On <==>
              if Continuous(c, d) then
                FastFreq(NarrowResidual(c, d), Narrow(c)) >= c.minFreq || LeftOn(w, d.open, n)
              else if RestartsTick(now, t) && c.ctrlPeriod > 0 then
                NextDemand(c, heating, true, d).time >= c.runTimeLeast
              else
                LeftOn(w, d.open, n) || (s.slice.Running(now) && d.request > n)
  {
    var d := s.demand;
    var w1 := w.(fan := VariateDriven(w.fan, d.open, n, w.asked, c.minFreq, c.maxFreq));
    DrivenLeftOn(w, d.open, n, c);
    DrivenLeftOn(w1, d.request, n, c);
    var (t, w2) := DuringSlice(c, now, s, w1, n);
    assert w2.fan.io == w1.fan.io == w.fan.io;
    if Continuous(c, d) {
      RunAtOn(w1.fan, FastFreq(NarrowResidual(c, d), Narrow(c)), c.minFreq, c.maxFreq);
    } else {
      RestartOn(c, now, t, w2, NextDemand(c, heating, true, d));
    }
  }

  /** The full speed that the always-open routine gives in place of a missing constant fan outlasts the
      pass if and only if no tick follows in it, or that tick finds a remainder worth a slice. */
  lemma CompensationUndone(c: Settings, heating: bool, now: nat, s: Sched, w: Variate, n: nat)
    requires Narrow(c) > 0 && c.minFreq > 0 && w.fan.Healthy() && DemandOk(s.demand) && n < s.demand.open
    ensures VariateDriven(w.fan, s.demand.open, n, w.asked, c.minFreq, c.maxFreq).cmd == On
    ensures VariablePass(c, heating, now, s, w, n).1.fan.cmd == On <==>
              || Continuous(c, s.demand)
              || !RestartsTick(now, DuringSlice(c, now, s, w, n).0) || c.ctrlPeriod == 0
              || NextDemand(c, heating, true, s.demand).time >= c.runTimeLeast
  {
    CommandedOnExactly(c, heating, now, s, w, n);
    DrivenLeftOn(w, s.demand.open, n, c);
  }

  /** An input where it does not: a volume of one fan and a quarter, a slice of 1500 seconds that misses
      the minimum run time of 2000, no eligible constant fan and stopped timers. */
  lemma CompensationUndoneExample(now: nat, fan: FanState)
    requires fan.Healthy()
    ensures var c, d := Settings(50000, 90, 90, 36000, 1800, 2000, 150, 500, 2700, 270), Demand(45000, 1, 1, 1500);
            var s, w := Sched(d, 1, 0, STOPPED, STOPPED), Variate(fan, false);
            && NextDemand(c, false, true, d) == d
            && VariateDriven(fan, 1, 0, false, c.minFreq, c.maxFreq).cmd == On
            && VariablePass(c, false, now, s, w, 0).1.fan.cmd == Off
  {
    var c, d := Settings(50000, 90, 90, 36000, 1800, 2000, 150, 500, 2700, 270), Demand(45000, 1, 1, 1500);
    SmallRemainder(c);
    CompensationUndone(c, false, now, Sched(d, 1, 0, STOPPED, STOPPED), Variate(fan, false), 0);
  }

  lemma RunAtOn(s: FanState, freq: nat, lo: nat, hi: nat)
    requires s.Healthy()
    ensures RunAt(s, freq, lo, hi).cmd == On && RunAt(s, freq, lo, hi).relay == On
    ensures FreqSet(s, freq).cmd == s.cmd
    ensures RunAt(s, freq, lo, hi).io == s.io
  {
  }

  lemma DrivenLeftOn(w: Variate, goal: nat, n: nat, c: Settings)
    requires w.fan.Healthy()
    ensures var r := VariateDriven(w.fan, goal, n, w.asked, c.minFreq, c.maxFreq);
            r.io == w.fan.io && (r.cmd == On <==> LeftOn(w, goal, n))
  {
    RunAtOn(w.fan, c.maxFreq, c.minFreq, c.maxFreq);
  }

  lemma RestartOn(c: Settings, now: nat, s: Sched, w: Variate, d: Demand)
    requires w.fan.Healthy()
    ensures VariableRestart(c, now, s, w, d).1.fan.cmd == On <==>
              if RestartsTick(now, s) && c.ctrlPeriod > 0 then d.time >= c.runTimeLeast else w.fan.cmd == On
  {
    RunAtOn(w.fan, c.minFreq, c.minFreq, c.maxFreq);
  }

  lemma DrivenKeepsDrive(s: FanState, goal: nat, n: nat, asked: bool, lo: nat, hi: nat)
    ensures var r := VariateDriven(s, goal, n, asked, lo, hi);
            r.io == s.io && r.drive.(setFreq := 0, analogOut := 0) == s.drive.(setFreq := 0, analogOut := 0)
  {
  }

  /** The set frequency has been put out to the drive, unless the fan is measured at it already. */
  predicate PutOut(s: FanState) {
    s.io.runningFreq != s.drive.setFreq ==> s.drive.analogOut == s.drive.setFreq
  }

  lemma RunAtSets(s: FanState, f: nat, lo: nat, hi: nat)
    requires s.Healthy() && !s.Constant() && s.drive.minFreq <= lo <= f <= hi <= s.drive.maxFreq
    ensures var r := RunAt(s, f, lo, hi); r.cmd == On && r.relay == On && r.drive.setFreq == f && PutOut(r)
  {
  }

  /** The volume moved is right up to one frequency step at one frequency only. */
  lemma MovedVolume(volume: nat, open: nat, residual: nat, f: nat, x: nat, rated: nat)
    requires volume == rated * open + residual && f * rated <= 500 * residual < (f + 1) * rated
    ensures var moved := rated * open * 500 + rated * x; moved <= volume * 500 < moved + rated <==> x == f
  {
    assert f * rated == rated * f && (f + 1) * rated == rated * f + rated;
    if x < f {
      MulMono(x + 1, f, rated);
      assert (x + 1) * rated == rated * x + rated;
    } else if f < x {
      MulMono(f + 1, x, rated);
    }
  }

  /** Whole fans and the variable one together move the demanded volume, short of it by less than one
      frequency step. */
  predicate Serves(c: Settings, d: Demand, fan: FanState) {
    var moved := c.ratedVol * d.open * 500 + c.ratedVol * fan.drive.setFreq;
    fan.cmd == On && moved <= d.volume * 500 < moved + c.ratedVol
  }

  /** The continuous branch sets the fan to the frequency wanted if that lies within the limits. Above
      them it sets the highest, and below them it leaves the fan as the routines do. */
  lemma ContinuousSets(c: Settings, heating: bool, now: nat, s: Sched, w: Variate, n: nat)
    requires Narrow(c) > 0 && 0 < c.minFreq <= c.maxFreq && w.fan.Healthy() && !w.fan.Constant()
    requires w.fan.drive.minFreq <= c.minFreq && c.maxFreq <= w.fan.drive.maxFreq && Continuous(c, s.demand)
    ensures var r, f := VariablePass(c, heating, now, s, w, n), FastFreq(NarrowResidual(c, s.demand), Narrow(c));
            && r.0 == s.(slice := STOPPED, ctrl := STOPPED) && r.1.asked == (f >= c.minFreq || w.asked)
            && if f >= c.minFreq then
                 r.1.fan.cmd == r.1.fan.relay == On && r.1.fan.drive.setFreq == Min(f, c.maxFreq) && PutOut(r.1.fan)
               else if s.demand.open > n then r.1.fan.drive.setFreq == c.maxFreq && PutOut(r.1.fan)
               else (r.1.fan.cmd == On <==> LeftOn(w, s.demand.open, n))
                    && r.1.fan.drive.setFreq == w.fan.drive.setFreq
  {
    var f := FastFreq(NarrowResidual(c, s.demand), Narrow(c));
    var w1 := VariateDriven(w.fan, s.demand.open, n, w.asked, c.minFreq, c.maxFreq);
    DrivenLeftOn(w, s.demand.open, n, c);
    DrivenKeepsDrive(w.fan, s.demand.open, n, w.asked, c.minFreq, c.maxFreq);
    if f >= c.minFreq {
      RunAtSets(w1, Min(f, c.maxFreq), c.minFreq, c.maxFreq);
    } else if s.demand.open > n {
      RunAtSets(w.fan, c.maxFreq, c.minFreq, c.maxFreq);
    }
  }

  /** In the continuous branch the demanded volume is served if and only if the frequency it comes to lies
      within the limits of the settings, or lies below them and is that of a fan left on. */
  lemma ContinuousServes(c: Settings, heating: bool, now: nat, s: Sched, w: Variate, n: nat)
    requires 0 < c.ratedVol < TWO_16 && 0 < c.minFreq <= c.maxFreq && w.fan.Healthy() && !w.fan.Constant()
    requires s.demand.volume < TWO_32 && s.demand.open == OpenNum(s.demand.volume, c.ratedVol)
    requires s.demand.volume < 4 * c.ratedVol && Continuous(c, s.demand)
    requires w.fan.drive.minFreq <= c.minFreq && c.maxFreq <= w.fan.drive.maxFreq
    ensures var r, f := VariablePass(c, heating, now, s, w, n), FastFreq(NarrowResidual(c, s.demand), Narrow(c));
            && r.0.slice == r.0.ctrl == STOPPED && r.0.demand == s.demand
            && (Serves(c, s.demand, r.1.fan) <==>
                  || c.minFreq <= f <= c.maxFreq
                  || (f < c.minFreq && s.demand.open <= n && LeftOn(w, s.demand.open, n)
                      && w.fan.drive.setFreq == f))
  {
    var d, rated := s.demand, c.ratedVol;
    assert Narrow(c) == rated;
    var residual := d.volume - rated * d.open;
    assert NarrowResidual(c, d) == residual && residual < rated;
    FastFreqExact(residual, rated);
    ContinuousSets(c, heating, now, s, w, n);
    var fan := VariablePass(c, heating, now, s, w, n).1.fan;
    MovedVolume(d.volume, d.open, residual, FastFreq(residual, rated), fan.drive.setFreq, rated);
  }

  /** The CO2 override plans three or four constant fans, or all there are, and runs a usable variable
      fan at its highest frequency; the demand stays in range. */
  lemma VentilatesFully(e: Scene, s: Sched, v: seq<FanState>)
    requires |v| > 0 && DemandOk(s.demand) && e.c.minFreq <= e.c.maxFreq
    requires e.variable ==> !v[0].Constant()
    requires e.usable ==> e.variable && v[0].Healthy()
                          && v[0].drive.minFreq <= e.c.minFreq && e.c.maxFreq <= v[0].drive.maxFreq
    ensures var o := VentilateResult(e, s, v);
            && DemandOk(o.sched.demand) && o.sched.lastNum == o.sched.demand.request
            && o.sched.slice == o.sched.ctrl == STOPPED
            && |Planned(v, o.plan)| == Min(if e.usable then 3 else 4, |Eligible(v)|)
            && (e.usable ==> o.asked && o.base[0].cmd == On && o.base[0].relay == On
                             && o.base[0].drive.setFreq == e.c.maxFreq && PutOut(o.base[0]))
            && (!e.usable ==> o.asked == e.asked) && (!e.variable ==> o.base == v)
  {
    var n := if e.usable then 3 else 4;
    SwitchExact(v, n);
    if e.usable {
      var f := VariateDriven(v[0], n, |Eligible(v)|, e.asked, e.c.minFreq, e.c.maxFreq);
      DrivenKeepsDrive(v[0], n, |Eligible(v)|, e.asked, e.c.minFreq, e.c.maxFreq);
      RunAtSets(f, e.c.maxFreq, e.c.minFreq, e.c.maxFreq);
    }
  }

  /** In the slice branch a tick that starts a slice leaves whole fans and slice together with the
      demanded volume over the period, up to the rounding of its two divisions. */
  lemma SliceServes(c: Settings, heating: bool, now: nat, s: Sched, w: Variate)
    requires InRange(c) && 0 < c.ratedVol < TWO_16 && 1 <= c.minFreq <= c.maxFreq && 0 < c.ctrlPeriod <= MAX_PERIOD
    requires Volume(c, heating) < 4 * c.ratedVol && w.fan.Healthy() && !w.fan.Constant()
    requires w.fan.drive.minFreq <= c.minFreq && c.maxFreq <= w.fan.drive.maxFreq
    requires var d := NextDemand(c, heating, true, s.demand);
             !Continuous(c, d) && RestartsTick(now, s) && StartsSlice(c, now, s, d)
    ensures var r := VariableRestart(c, now, s, w, NextDemand(c, heating, true, s.demand));
            var d, f, t := r.0.demand, r.1.fan, r.0.slice.due - now;
            && f.cmd == On && f.drive.setFreq == c.minFreq && PutOut(f) && t < c.ctrlPeriod && r.1.asked
            && r.0.ctrl.due == now + c.ctrlPeriod
            && var residual := d.volume - c.ratedVol * d.open;
               c.minFreq * c.ratedVol * t <= residual * 500 * c.ctrlPeriod
                 < c.minFreq * (c.ratedVol * (t + 1) + c.ctrlPeriod)
  {
    var d := NextDemand(c, heating, true, s.demand);
    var residual := Residual(d.volume, c.ratedVol);
    assert Narrow(c) == c.ratedVol && NarrowResidual(c, d) == residual && residual < c.ratedVol;
    RunAtSets(w.fan, c.minFreq, c.minFreq, c.maxFreq);
    VariableSliceFits(residual, c.minFreq, c.ctrlPeriod, c.ratedVol);
    VariableSlice(residual, c.minFreq, c.ctrlPeriod, c.ratedVol);
  }

  /** A quarter of a fan at a minimum frequency of 15 Hz is not run continuously, but in slices of 1500
      of 1800 seconds. */
  lemma SmallRemainder(c: Settings)
    requires c.freAirSet == 50000 && c.coolRatio == 90 && c.ratedVol == 36000
    requires c.ctrlPeriod == 1800 && c.minFreq == 150
    ensures var d := Demand(45000, 1, 1, 1500);
            NextDemand(c, false, true, d) == d && NarrowResidual(c, d) == 9000 && !Continuous(c, d)
  {
    assert c.freAirSet * c.coolRatio == 4500000;
    assert Volume(c, false) == 45000;
    assert OpenNum(45000, 36000) == 1 && Residual(45000, 36000) == 9000;
    assert 9000 * 500 == 4500000 && 4500000 / 150 == 30000 && 30000 * 1800 == 54000000;
    assert VariableTime(9000, 150, 1800, 36000) == 1500;
  }

  /** Both branches are met: at the same minimum half a fan is run continuously, at 25 Hz. */
  lemma BothBranchesMet()
    ensures var c, d := Settings(60000, 90, 90, 36000, 1800, 300, 150, 500, 2700, 270), Demand(54000, 1, 1, 1800);
            NarrowResidual(c, d) == 18000 && Continuous(c, d) && FastFreq(18000, Narrow(c)) == 250
    ensures var c, d := Settings(50000, 90, 90, 36000, 1800, 300, 150, 500, 2700, 270), Demand(45000, 1, 1, 1500);
            InRange(c) && NextDemand(c, false, true, d) == d && !Continuous(c, d) && d.time >= c.runTimeLeast
  {
    SmallRemainder(Settings(50000, 90, 90, 36000, 1800, 300, 150, 500, 2700, 270));
  }

  /** A fan that the routines leave off stays off in the continuous branch, and the remainder is not
      served, if and only if the remainder lies in the dead zone. */
  lemma DeadZoneServesNothing(c: Settings, heating: bool, now: nat, s: Sched, w: Variate, n: nat)
    requires 0 < c.ratedVol < TWO_16 && c.minFreq > 0 && DemandOk(s.demand) && w.fan.Healthy()
    requires Continuous(c, s.demand) && NarrowResidual(c, s.demand) < c.ratedVol && !LeftOn(w, s.demand.open, n)
    ensures VariablePass(c, heating, now, s, w, n).1.fan.cmd == Off <==>
              NarrowResidual(c, s.demand) == c.minFreq * c.ratedVol / 500 && c.minFreq * c.ratedVol % 500 != 0
  {
    assert Narrow(c) == c.ratedVol;
    CommandedOnExactly(c, heating, now, s, w, n);
    DeadZoneExactly(NarrowResidual(c, s.demand), c.minFreq, c.ratedVol);
  }

  const DEAD_ZONE := Settings(12080, 90, 90, 36001, 1800, 300, 151, 500, 2700, 270)

  lemma DeadZoneDemand(was: Demand)
    ensures var d := NextDemand(DEAD_ZONE, false, true, was);
            InRange(DEAD_ZONE) && d.volume == 10872 && d.open == d.request == 0
  {
    assert DEAD_ZONE.freAirSet * DEAD_ZONE.coolRatio == 1087200;
    assert Volume(DEAD_ZONE, false) == 10872;
    assert OpenNum(10872, 36001) == 0;
  }

  lemma DeadZoneMet(d: Demand)
    requires d.volume == 10872 && d.open == 0
    ensures NarrowResidual(DEAD_ZONE, d) == 10872 && Continuous(DEAD_ZONE, d) && FastFreq(10872, 36001) == 150
  {
    assert DEAD_ZONE.minFreq * DEAD_ZONE.ratedVol == 5436151;
    assert 5436151 / 500 == 10872;
  }

  /** A plant in the dead zone: a rated volume of 36001, a minimum of 15.1 Hz and a target of 12080 at
      90 percent come to a remainder of 10872. The pass leaves an idle variable fan off. */
  lemma DeadZonePlant(now: nat, s: Sched, w: Variate, n: nat)
    requires s.demand.volume == 10872 && s.demand.open == s.demand.request == 0
    requires w.fan.Healthy() && w.fan.cmd == Off
    ensures Continuous(DEAD_ZONE, s.demand)
    ensures VariablePass(DEAD_ZONE, false, now, s, w, n).1.fan.cmd == Off
  {
    DeadZoneMet(s.demand);
    CommandedOnExactly(DEAD_ZONE, false, now, s, w, n);
  }

  // ------------------------------------------------------------------------------------------
  // Passes and ticks, from timers and demand alone
  // ------------------------------------------------------------------------------------------

  /** The remainder is served continuously if the frequency it would take is not below the minimum by more
      than the rounding of the threshold. */
  lemma ContinuousExactly(c: Settings, d: Demand)
    requires 0 < c.ratedVol < TWO_16 && d.volume < TWO_32 && c.ratedVol * d.open <= d.volume
    requires c.minFreq <= MAX_FREQ
    ensures Continuous(c, d) <==> c.minFreq * c.ratedVol < 500 * (d.volume - c.ratedVol * d.open + 1)
  {
    assert NarrowResidual(c, d) == d.volume - c.ratedVol * d.open;
    MulMono(c.minFreq, MAX_FREQ, c.ratedVol);
    DivBracket(c.minFreq * c.ratedVol, 500);
  }

  /** What the routines do to the variable fan: it makes up for a missing constant fan at full speed, and is
      closed when it runs without being needed or asked for. */
  lemma DrivenExactly(s: FanState, goal: nat, n: nat, asked: bool, lo: nat, hi: nat)
    requires s.drive.freqType == VariableFreq && s.drive.minFreq <= lo <= hi <= s.drive.maxFreq
    ensures var r := VariateDriven(s, goal, n, asked, lo, hi);
            if goal > n && !s.io.err && s.io.remote then
              r.cmd == r.relay == On && r.drive.setFreq == hi && PutOut(r)
            else if goal <= n && !asked && s.io.running then
              r == s.(cmd := Off, relay := Off)
            else r == s
  {
    if goal > n && s.Healthy() {
      RunAtSets(s, hi, lo, hi);
    }
  }

  /** A tick calculates the demand, and starts a slice if that is worth starting and no slice of the same
      length is under way. */
  lemma TickTimers(e: Scene, was: Sched, v: seq<FanState>)
    requires |v| > 0 && e.Ok()
    ensures var d := NextDemand(e.c, e.heating, e.usable, was.demand);
            var starts := d.time >= e.c.runTimeLeast && (e.now >= was.slice.due || was.lastTime != d.time);
            TickResult(e, was, v).sched ==
              Sched(d, if starts && !e.usable then d.request else was.lastNum, if starts then d.time else was.lastTime,
                    if starts then Timer(e.now + d.time) else was.slice, was.ctrl)
  {
  }

  /** Without a usable variable fan the slice that is started switches the constant fans to the request. */
  lemma TickSwitches(e: Scene, was: Sched, v: seq<FanState>)
    requires |v| > 0 && e.Ok() && !e.usable
    ensures var d, o := NextDemand(e.c, e.heating, false, was.demand), TickResult(e, was, v);
            if d.time >= e.c.runTimeLeast && (e.now >= was.slice.due || was.lastTime != d.time) then
              |Planned(v, o.plan)| == Min(d.request, |Eligible(v)|)
            else o.base == v && o.plan == Plan({}, {})
  {
    SwitchExact(v, NextDemand(e.c, e.heating, false, was.demand).request);
  }

  /** A usable variable fan runs at its lowest frequency if the slice is worth starting, and is closed if
      not; the constant fans are left alone. */
  lemma TickDrives(e: Scene, was: Sched, v: seq<FanState>)
    requires |v| > 0 && e.Ok() && e.usable && v[0].Healthy() && v[0].drive.freqType == VariableFreq
    requires v[0].drive.minFreq <= e.c.minFreq <= e.c.maxFreq <= v[0].drive.maxFreq
    ensures var worth := NextDemand(e.c, e.heating, true, was.demand).time >= e.c.runTimeLeast;
            var o := TickResult(e, was, v);
            && o.plan == Plan({}, {}) && o.base == v[0 := o.base[0]] && o.asked == worth
            && if worth then
                 o.base[0].cmd == o.base[0].relay == On && o.base[0].drive.setFreq == e.c.minFreq && PutOut(o.base[0])
               else o.base[0] == v[0].(cmd := Off, relay := Off)
  {
    RunAtSets(v[0], e.c.minFreq, e.c.minFreq, e.c.maxFreq);
  }

  /** A pass calculates the demand. It restarts the control period, with a tick, if none is under way or the
      number last switched to is not the request, which a pass during a slice brings up to date. A period of
      0 is stopped instead. */
  lemma PassTimers(e: Scene, was: Sched, v: seq<FanState>)
    requires |v| > 0 && e.Ok()
    requires !e.usable || (Narrow(e.c) > 0 && !Continuous(e.c, NextDemand(e.c, e.heating, true, was.demand)))
    ensures var d := NextDemand(e.c, e.heating, e.usable, was.demand);
            var num := if e.now < was.slice.due then d.request else was.lastNum;
            var due := e.now >= was.ctrl.due || num != d.request;
            var starts := due && e.c.ctrlPeriod > 0 && d.time >= e.c.runTimeLeast
                          && (e.now >= was.slice.due || was.lastTime != d.time);
            DemandResult(e, was, v).sched ==
              Sched(d, if starts && !e.usable then d.request else num, if starts then d.time else was.lastTime,
                    if starts then Timer(e.now + d.time) else was.slice,
                    if !due then was.ctrl
                    else if e.c.ctrlPeriod > 0 then Timer(e.now + e.c.ctrlPeriod) else Timer(0))
  {
    NextDemandSettles(e.c, e.heating, e.usable, was.demand);
  }

  lemma PassPlanChosen(e: Scene, was: Sched, v: seq<FanState>)
    requires |v| > 0 && e.Ok()
    requires !e.usable || (Narrow(e.c) > 0 && !Continuous(e.c, NextDemand(e.c, e.heating, true, was.demand)))
    ensures var d := NextDemand(e.c, e.heating, e.usable, was.demand);
            var starts := d.time >= e.c.runTimeLeast && e.c.ctrlPeriod > 0
                          && (e.now >= was.ctrl.due || was.lastNum != d.request);
            DemandResult(e, was, v).plan ==
              if e.now < was.slice.due || (starts && !e.usable) then SwitchPlan(v, d.request)
              else AlwaysOpenPlan(v, d.open, d.request)
  {
  }

  /** While a slice is under way, and when one starts, a pass plans the requested number of constant fans, or
      all there are. Otherwise it keeps as many as run, from the always-open number to the requested one. */
  lemma PassPlans(e: Scene, was: Sched, v: seq<FanState>)
    requires |v| > 0 && e.Ok()
    requires !e.usable || (Narrow(e.c) > 0 && !Continuous(e.c, NextDemand(e.c, e.heating, true, was.demand)))
    ensures var d, r := NextDemand(e.c, e.heating, e.usable, was.demand), |Running(v)|;
            var starts := d.time >= e.c.runTimeLeast && e.c.ctrlPeriod > 0
                          && (e.now >= was.ctrl.due || was.lastNum != d.request);
            |Planned(v, DemandResult(e, was, v).plan)| ==
              if e.now < was.slice.due || (starts && !e.usable) then Min(d.request, |Eligible(v)|)
              else if r < d.open then Min(d.open, |Eligible(v)|) else Min(r, d.request)
  {
    var d := NextDemand(e.c, e.heating, e.usable, was.demand);
    PassPlanChosen(e, was, v);
    SwitchExact(v, d.request);
    KeptInBand(v, d.open, d.request);
  }

  lemma KeptInBand(v: seq<FanState>, open: nat, request: nat)
    requires open <= request
    ensures var r := |Running(v)|;
            |Planned(v, AlwaysOpenPlan(v, open, request))|
              == if r < open then Min(open, |Eligible(v)|) else Min(r, request)
  {
    AlwaysOpenSizes(v, open, request);
    EligibleSplit(v);
    PlannedSize(v, AlwaysOpenPlan(v, open, request));
  }

  /** What a pass in the slice branch does to the variable fan. If it restarts the period, the fan runs for
      the slice or is closed. If not, the fan makes up for a missing constant fan at full speed, is closed
      when it runs without being needed or asked for, and is otherwise left alone. */
  lemma PassDrives(e: Scene, was: Sched, v: seq<FanState>)
    requires |v| > 0 && e.Ok() && e.usable && v[0].Healthy() && v[0].drive.freqType == VariableFreq
    requires v[0].drive.minFreq <= e.c.minFreq <= e.c.maxFreq <= v[0].drive.maxFreq
    requires Narrow(e.c) > 0 && !Continuous(e.c, NextDemand(e.c, e.heating, true, was.demand))
    ensures var d, o := NextDemand(e.c, e.heating, true, was.demand), DemandResult(e, was, v);
            var fan, n := o.base[0], |Eligible(v)|;
            var restarts := e.now >= was.ctrl.due || (e.now >= was.slice.due && was.lastNum != d.request);
            && o.base == v[0 := fan]
            && if restarts && e.c.ctrlPeriod > 0 then
                 && o.asked == (d.time >= e.c.runTimeLeast)
                 && if o.asked then fan.cmd == On && fan.drive.setFreq == e.c.minFreq && PutOut(fan) else fan.cmd == Off
               else
                 && o.asked == e.asked
                 && if d.open > n then fan.cmd == On && fan.drive.setFreq == e.c.maxFreq && PutOut(fan)
                    else if !e.asked && v[0].io.running then fan == v[0].(cmd := Off, relay := Off)
                    else fan == v[0]
  {
    var d, n := NextDemand(e.c, e.heating, true, was.demand), |Eligible(v)|;
    NextDemandSettles(e.c, e.heating, true, was.demand);
    var f := VariateDriven(v[0], d.open, n, e.asked, e.c.minFreq, e.c.maxFreq);
    DrivenKeepsDrive(v[0], d.open, n, e.asked, e.c.minFreq, e.c.maxFreq);
    var g := VariateDriven(f, d.request, n, e.asked, e.c.minFreq, e.c.maxFreq);
    DrivenKeepsDrive(f, d.request, n, e.asked, e.c.minFreq, e.c.maxFreq);
    DrivenExactly(v[0], d.open, n, e.asked, e.c.minFreq, e.c.maxFreq);
    DrivenExactly(f, d.request, n, e.asked, e.c.minFreq, e.c.maxFreq);
    RunAtSets(f, e.c.minFreq, e.c.minFreq, e.c.maxFreq);
    RunAtSets(g, e.c.minFreq, e.c.minFreq, e.c.maxFreq);
  }

  /** A variable fan that is out of use is closed when it runs without being needed or asked for: by a pass
      when the always-open fans can do without it, by a tick that starts a slice when the requested ones
      can. Nothing else happens to it, nor to any fan of a plant without one. */
  lemma OutOfUseFan(e: Scene, was: Sched, v: seq<FanState>)
    requires |v| > 0 && e.Ok() && !e.usable && (e.variable ==> v[0].io.err || !v[0].io.remote)
    ensures var d, n := NextDemand(e.c, e.heating, false, was.demand), |Eligible(v)|;
            var off, starts := v[0].(cmd := Off, relay := Off),
                               d.time >= e.c.runTimeLeast && (e.now >= was.slice.due || was.lastTime != d.time);
            var idle := e.variable && !e.asked && v[0].io.running;
            && DemandResult(e, was, v).base == (if idle && d.open <= n then v[0 := off] else v)
            && TickResult(e, was, v).base == (if idle && starts && d.request <= n then v[0 := off] else v)
            && DemandResult(e, was, v).asked == TickResult(e, was, v).asked == e.asked
  {
  }
}
