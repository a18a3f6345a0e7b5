/**
 Whole runs of a plant whose variable fan serves the remainder in slices at its minimum frequency. As on
 a plant of constant fans, passes happen at any moment, the clock advances second by second, timers fire
 when they are due and fans follow their commands. Constant and variable fans have accounts of their own.
 */
module VariableCycles {
  import opened Common
  import opened Demands
  import opened ExAirFans
  import opened FanPlan
  import opened FanSchedule
  import opened SliceCounts
  import opened Timers
  import opened VariableSchedule

  /** `whole` counts the fan-seconds of constant fans, `slices` the seconds of the variable one. */
  datatype Plant = Plant(now: nat, s: Sched, v: seq<FanState>, asked: bool, whole: nat, slices: nat)

  /** The remainder is served in slices that end before the period does. */
  predicate Sliced(c: Settings, d: Demand) {
    && d.request == d.open && d.time >= c.runTimeLeast && 0 < d.time < c.ctrlPeriod
    && 0 < c.minFreq <= c.maxFreq
  }

  /** The variable fan is healthy, and its own limits are no narrower than the settings'. */
  predicate Fit(c: Settings, f: FanState) {
    !f.Constant() && f.Healthy() && f.drive.minFreq <= c.minFreq && c.maxFreq <= f.drive.maxFreq
  }

  /** It also does as it was told; when on, at minimum frequency. */
  predicate VariateOk(c: Settings, f: FanState) {
    && Fit(c, f) && (f.io.running <==> f.cmd.On?) && (f.cmd.On? ==> f.drive.setFreq == c.minFreq)
  }

  ghost predicate ConstantsOk(open: nat, v: seq<FanState>) {
    && |v| > 0 && (forall i :: 0 < i < |v| ==> v[i].Constant())
    && AllRunning(v) == Running(v) && |Eligible(v)| >= open
  }

  ghost predicate PlantOk(c: Settings, open: nat, p: Plant) {
    ConstantsOk(open, p.v) && VariateOk(c, p.v[0]) && (p.asked <==> p.v[0].cmd.On?)
  }

  /** The variable fan does what `f` was told, the constant ones follow plan `p`; nobody fails or changes
      hands, hours grow. */
  ghost predicate Follows(v: seq<FanState>, f: FanState, p: Plan, w: seq<FanState>) {
    && |w| == |v| > 0 && (forall i :: 0 < i < |w| ==> w[i].Constant())
    && w[0].drive == f.drive && w[0].cmd == f.cmd && w[0].Healthy() && (w[0].io.running <==> f.cmd.On?)
    && Eligible(w) == Eligible(v) && AllRunning(w) == Running(w) && Running(w) == Planned(v, p)
  }

  ghost predicate PassStep(c: Settings, d: Demand, a: Plant, b: Plant)
    requires |a.v| > 0
  {
    var s := a.s.(demand := d);
    var (t, w) := SlicePass(c, a.now, s, Variate(a.v[0], a.asked), |Eligible(a.v)|, d);
    && b == Plant(a.now, t, b.v, w.asked, a.whole, a.slices)
    && Follows(a.v, w.fan, PassPlan(s, a.now, a.v), b.v)
  }

  ghost predicate Elapse(a: Plant, b: Plant)
    requires |a.v| > 0
  {
    && b == Plant(a.now + 1, a.s, b.v, a.asked, a.whole + |Running(a.v)|, a.slices + if a.v[0].io.running then 1 else 0)
    && Follows(a.v, a.v[0], NOTHING, b.v)
  }

  ghost predicate ExpireStep(a: Plant, b: Plant)
    requires |a.v| > 0
  {
    b == a.(v := b.v, asked := false) && Follows(a.v, Closed(a.v[0]), NOTHING, b.v)
  }

  ghost predicate TickStep(c: Settings, d: Demand, a: Plant, b: Plant)
    requires |a.v| > 0
  {
    var (t, w) := VariableTick(c, a.now, a.s.(demand := d), Variate(a.v[0], a.asked));
    && b == a.(s := t.(ctrl := Regist(a.now, c.ctrlPeriod)), v := b.v, asked := w.asked)
    && Follows(a.v, w.fan, NOTHING, b.v)
  }

  ghost predicate SecondStep(c: Settings, d: Demand, a: Plant, b: Plant)
    requires |a.v| > 0
  {
    exists m: Plant, n: Plant ::
      && Elapse(a, m)
      && (if m.s.slice.due == m.now then ExpireStep(m, n) else n == m)
      && (if n.s.ctrl.due == n.now then TickStep(c, d, n, b) else b == n)
  }

  ghost predicate Step(c: Settings, d: Demand, a: Plant, b: Plant) {
    |a.v| > 0 && (PassStep(c, d, a, b) || SecondStep(c, d, a, b))
  }

  /** A run begins with the first pass after both timers were stopped: after power-up, after the
      remainder was served continuously, or after a high CO2 reading. The variable fan may still be on. */
  ghost predicate Starts(c: Settings, d: Demand, a: Plant) {
    && ConstantsOk(d.open, a.v) && Fit(c, a.v[0])
    && !a.s.slice.Running(a.now) && !a.s.ctrl.Running(a.now) && a.whole == a.slices == 0
  }

  ghost predicate IsRun(c: Settings, d: Demand, run: seq<Plant>) {
    && |run| >= 2 && Starts(c, d, run[0]) && PassStep(c, d, run[0], run[1])
    && forall i, j :: 1 <= i && j == i + 1 < |run| ==> Step(c, d, run[i], run[j])
  }

  /** When the remainder is not served continuously, the decisions of the scheduler are these steps. */
  lemma DecisionsAreSteps(e: Scene, s: Sched, v: seq<FanState>)
    requires |v| > 0 && e.Ok() && e.usable && Narrow(e.c) > 0 && e.c.ratedVol != 0
    requires !Continuous(e.c, NextDemand(e.c, e.heating, true, s.demand))
    ensures var d := NextDemand(e.c, e.heating, true, s.demand);
            var s1 := s.(demand := d);
            && DemandResult(e, s, v) ==
                 (var (t, w) := SlicePass(e.c, e.now, s1, Variate(v[0], e.asked), |Eligible(v)|, d);
                  Outcome(t, w.asked, v[0 := w.fan], PassPlan(s1, e.now, v)))
            && TickResult(e, s, v) ==
                 (var (t, w) := VariableTick(e.c, e.now, s1, Variate(v[0], e.asked));
                  Outcome(t, w.asked, v[0 := w.fan], NOTHING))
  {
    NextDemandSettles(e.c, e.heating, true, s.demand);
  }

  // ------------------------------------------------------------------------------------------
  // The two accounts
  // ------------------------------------------------------------------------------------------

  /** The variable fan alone: no part of it runs all the time. The number last switched to is no part
      of the account. */
  function Sliver(d: Demand, p: Plant): Count
    requires |p.v| > 0
  {
    Count(p.now, p.s.(lastNum := d.request), Fan(p), p.slices)
  }

  /** One while the variable fan runs. */
  function Fan(p: Plant): nat
    requires |p.v| > 0
  {
    if p.v[0].io.running then 1 else 0
  }

  function Whole(p: Plant): Count {
    Count(p.now, p.s, |Running(p.v)|, p.whole)
  }

  /** Opening the fan at minimum frequency, and closing it. */
  lemma RunAtMinimum(c: Settings, f: FanState)
    requires Fit(c, f) && c.minFreq <= c.maxFreq
    ensures var r := RunAt(f, c.minFreq, c.minFreq, c.maxFreq);
            && r.cmd == On && r.drive.setFreq == c.minFreq && r.drive.freqType == f.drive.freqType
            && r.drive.minFreq == f.drive.minFreq && r.drive.maxFreq == f.drive.maxFreq
  {
    RunAtSets(f, c.minFreq, c.minFreq, c.maxFreq);
  }

  /** Fans that follow keep the plant in order. */
  lemma FollowKeeps(c: Settings, open: nat, v: seq<FanState>, f: FanState, p: Plan, w: seq<FanState>)
    requires ConstantsOk(open, v) && Follows(v, f, p, w)
    requires !f.Constant() && f.drive.minFreq <= c.minFreq && c.maxFreq <= f.drive.maxFreq
    requires f.cmd.On? ==> f.drive.setFreq == c.minFreq
    ensures ConstantsOk(open, w) && VariateOk(c, w[0]) && (w[0].cmd.On? <==> f.cmd.On?)
  {
  }

  /** The pass brings exactly the open number of constant fans about. */
  lemma PassPlanned(v: seq<FanState>, d: Demand, s: Sched, now: nat)
    requires s.demand == d && d.request == d.open <= |Eligible(v)|
    ensures |Planned(v, PassPlan(s, now, v))| == d.open
  {
    SwitchExact(v, d.request);
    AlwaysOpenBand(v, d.open, d.request, NOTHING);
  }

  lemma NothingPlanned(v: seq<FanState>)
    ensures Planned(v, NOTHING) == Running(v)
  {
  }

  /** In a slice, or with the number last switched to up to date, a period under way goes on. A pass
      during a slice brings that number up to date. */
  lemma PeriodGoesOn(c: Settings, d: Demand, now: nat, s: Sched, w: Variate, n: nat)
    requires s.demand == d && d.request == d.open <= n && (w.asked <==> w.fan.io.running)
    requires s.ctrl.Running(now) && (s.slice.Running(now) || s.lastNum == d.request)
    ensures SlicePass(c, now, s, w, n, d) == (s.(lastNum := d.request), w)
  {
  }

  /** Otherwise a pass between slices restarts the period at once, with another slice, and leaves the
      number as it was. */
  lemma PeriodRestarts(c: Settings, d: Demand, now: nat, s: Sched, w: Variate, n: nat)
    requires Sliced(c, d) && s.demand == d && !s.slice.Running(now)
    requires !s.ctrl.Running(now) || s.lastNum != d.request
    ensures var f := VariateDriven(w.fan, d.open, n, w.asked, c.minFreq, c.maxFreq);
            SlicePass(c, now, s, w, n, d) ==
              (Opening(d, c.ctrlPeriod, now).(lastNum := s.lastNum),
               Variate(RunAt(f, c.minFreq, c.minFreq, c.maxFreq), true))
  {
  }

  lemma DrivenFit(c: Settings, f: FanState, goal: nat, n: nat, asked: bool)
    requires Fit(c, f)
    ensures var r := VariateDriven(f, goal, n, asked, c.minFreq, c.maxFreq); Fit(c, r) && r.io == f.io
  {
    DrivenKeepsDrive(f, goal, n, asked, c.minFreq, c.maxFreq);
  }

  lemma PassCounted(c: Settings, d: Demand, a: Plant, b: Plant)
    requires Sliced(c, d) && PlantOk(c, d.open, a) && a.s.demand == d && a.s.ctrl.Running(a.now)
    requires a.s.slice.Running(a.now) || a.s.lastNum == d.request
    requires PassStep(c, d, a, b)
    ensures PlantOk(c, d.open, b) && Sliver(d, b) == Sliver(d, a) && b.s == a.s.(lastNum := d.request)
    ensures |Running(b.v)| == d.open && b.now == a.now && b.whole == a.whole
  {
    assert a.s.(demand := d) == a.s;
    PeriodGoesOn(c, d, a.now, a.s, Variate(a.v[0], a.asked), |Eligible(a.v)|);
    PassPlanned(a.v, d, a.s, a.now);
    FollowKeeps(c, d.open, a.v, a.v[0], PassPlan(a.s, a.now, a.v), b.v);
  }

  lemma RestartCounted(c: Settings, d: Demand, a: Plant, b: Plant)
    requires Sliced(c, d) && ConstantsOk(d.open, a.v) && Fit(c, a.v[0]) && PassStep(c, d, a, b)
    requires !a.s.slice.Running(a.now) && (!a.s.ctrl.Running(a.now) || a.s.lastNum != d.request)
    ensures PlantOk(c, d.open, b) && Sliver(d, b) == Count(a.now, Opening(d, c.ctrlPeriod, a.now), 1, a.slices)
    ensures |Running(b.v)| == d.open && b.now == a.now && b.whole == a.whole && b.s.lastNum == a.s.lastNum
  {
    var s := a.s.(demand := d);
    PeriodRestarts(c, d, a.now, s, Variate(a.v[0], a.asked), |Eligible(a.v)|);
    var f := VariateDriven(a.v[0], d.open, |Eligible(a.v)|, a.asked, c.minFreq, c.maxFreq);
    DrivenFit(c, a.v[0], d.open, |Eligible(a.v)|, a.asked);
    RunAtMinimum(c, f);
    PassPlanned(a.v, d, s, a.now);
    FollowKeeps(c, d.open, a.v, RunAt(f, c.minFreq, c.minFreq, c.maxFreq), PassPlan(s, a.now, a.v), b.v);
  }

  lemma ElapseCounted(c: Settings, open: nat, a: Plant, m: Plant)
    requires PlantOk(c, open, a) && Elapse(a, m)
    ensures PlantOk(c, open, m) && Running(m.v) == Running(a.v)
    ensures m.s == a.s && m.whole == a.whole + |Running(a.v)| && m.now == a.now + 1
    ensures Fan(m) == Fan(a) && m.slices == a.slices + Fan(a)
  {
    NothingPlanned(a.v);
    FollowKeeps(c, open, a.v, a.v[0], NOTHING, m.v);
  }

  lemma ExpireCounted(c: Settings, open: nat, m: Plant, n: Plant)
    requires PlantOk(c, open, m) && ExpireStep(m, n)
    ensures PlantOk(c, open, n) && Running(n.v) == Running(m.v) && Fan(n) == 0
    ensures n.now == m.now && n.s == m.s && n.whole == m.whole && n.slices == m.slices
  {
    NothingPlanned(m.v);
    FollowKeeps(c, open, m.v, Closed(m.v[0]), NOTHING, n.v);
  }

  lemma TickCounted(c: Settings, d: Demand, n: Plant, b: Plant)
    requires Sliced(c, d) && PlantOk(c, d.open, n) && TickStep(c, d, n, b)
    requires !n.s.slice.Running(n.now)
    ensures PlantOk(c, d.open, b) && Running(b.v) == Running(n.v) && b.whole == n.whole
    ensures Sliver(d, b) == Count(n.now, Opening(d, c.ctrlPeriod, n.now), 1, n.slices)
    ensures b.s.lastNum == n.s.lastNum
  {
    NothingPlanned(n.v);
    RunAtMinimum(c, n.v[0]);
    FollowKeeps(c, d.open, n.v, RunAt(n.v[0], c.minFreq, c.minFreq, c.maxFreq), NOTHING, b.v);
  }

  lemma ExpiryCounted(c: Settings, open: nat, a: Plant, m: Plant, n: Plant)
    requires PlantOk(c, open, a) && Elapse(a, m)
    requires if m.s.slice.due == m.now then ExpireStep(m, n) else n == m
    ensures PlantOk(c, open, n) && Running(n.v) == Running(a.v) && n.s == a.s && n.now == a.now + 1
    ensures n.whole == a.whole + |Running(a.v)| && n.slices == a.slices + Fan(a)
    ensures Fan(n) == if a.s.slice.due == n.now && Fan(a) > 0 then Fan(a) - 1 else Fan(a)
  {
    ElapseCounted(c, open, a, m);
    if m.s.slice.due == m.now {
      ExpireCounted(c, open, m, n);
    }
  }

  lemma SecondCounted(c: Settings, d: Demand, a: Plant, b: Plant)
    requires Sliced(c, d) && PlantOk(c, d.open, a) && SecondStep(c, d, a, b)
    requires a.s.ctrl.due == a.now + 1 ==> a.s.slice.due <= a.now + 1
    ensures PlantOk(c, d.open, b) && CountSecond(d, c.ctrlPeriod, 0, Sliver(d, a), Sliver(d, b))
    ensures |Running(b.v)| == |Running(a.v)| && b.now == a.now + 1 && b.whole == a.whole + |Running(a.v)|
    ensures b.s.lastNum == a.s.lastNum
  {
    var m: Plant, n: Plant :|
      && Elapse(a, m)
      && (if m.s.slice.due == m.now then ExpireStep(m, n) else n == m)
      && (if n.s.ctrl.due == n.now then TickStep(c, d, n, b) else b == n);
    ExpiryCounted(c, d.open, a, m, n);
    if n.s.ctrl.due == n.now {
      TickCounted(c, d, n, b);
    }
  }

  // ------------------------------------------------------------------------------------------
  // Runs
  // ------------------------------------------------------------------------------------------

  /** Both accounts of one state: `k` periods lie behind it, which together were cut short by `early`
      seconds. */
  ghost predicate Accounted(c: Settings, d: Demand, from: nat, k: nat, early: nat, p: Plant) {
    && PlantOk(c, d.open, p) && Shifted(d, c.ctrlPeriod, from, k, early, Sliver(d, p))
    && LevelSince(d.open, from, Whole(p))
  }

  /** Pass `j` of a run, other than the first. */
  ghost predicate PassAt(c: Settings, d: Demand, run: seq<Plant>, j: int) {
    1 <= j && j + 1 < |run| && |run[j].v| > 0 && PassStep(c, d, run[j], run[j + 1])
  }

  ghost predicate PassInSlice(c: Settings, d: Demand, run: seq<Plant>, j: int) {
    PassAt(c, d, run, j) && run[j].s.slice.Running(run[j].now)
  }

  ghost predicate PassBetweenSlices(c: Settings, d: Demand, run: seq<Plant>, j: int) {
    PassAt(c, d, run, j) && !run[j].s.slice.Running(run[j].now)
  }

  /** A pass that starts the period under way anew. */
  ghost predicate CutsShort(c: Settings, d: Demand, run: seq<Plant>, j: int) {
    PassAt(c, d, run, j) && run[j + 1].s.ctrl != run[j].s.ctrl
  }

  /** Up to state `i` no period was cut short. */
  ghost predicate Undisturbed(c: Settings, d: Demand, run: seq<Plant>, i: nat) {
    forall j :: 1 <= j < i ==> !CutsShort(c, d, run, j)
  }

  lemma PassAccounted(c: Settings, d: Demand, from: nat, k: nat, early: nat, a: Plant, b: Plant)
    requires Sliced(c, d) && Accounted(c, d, from, k, early, a) && PassStep(c, d, a, b)
    requires a.s.slice.Running(a.now) || a.s.lastNum == d.request
    ensures Accounted(c, d, from, k, early, b) && b.s.ctrl == a.s.ctrl && b.s.lastNum == d.request
  {
    PassCounted(c, d, a, b);
  }

  lemma RestartAccounted(c: Settings, d: Demand, from: nat, k: nat, early: nat, a: Plant, b: Plant)
    returns (early': nat)
    requires Sliced(c, d) && Accounted(c, d, from, k, early, a) && PassStep(c, d, a, b)
    requires !a.s.slice.Running(a.now) && a.s.lastNum != d.request
    ensures Accounted(c, d, from, k + 1, early', b) && from + Times(c.ctrlPeriod, k + 1) == a.now + early'
    ensures early' > early && b.s.ctrl != a.s.ctrl && b.s.lastNum == a.s.lastNum
  {
    RestartCounted(c, d, a, b);
    early' := ShiftedRestart(d, c.ctrlPeriod, from, k, early, Sliver(d, a), Sliver(d, b));
    LevelAdvances(d.open, from, Whole(a), Whole(b));
  }

  lemma SecondAccounted(c: Settings, d: Demand, from: nat, k: nat, early: nat, a: Plant, b: Plant) returns (k': nat)
    requires Sliced(c, d) && Accounted(c, d, from, k, early, a) && SecondStep(c, d, a, b)
    ensures Accounted(c, d, from, k', early, b) && b.now == a.now + 1 && b.s.lastNum == a.s.lastNum
    ensures b.now < from + Times(c.ctrlPeriod, k) + c.ctrlPeriod - early ==> k' == k
  {
    SecondCounted(c, d, a, b);
    k' := ShiftedSecond(d, c.ctrlPeriod, from, k, early, Sliver(d, a), Sliver(d, b));
    LevelAdvances(d.open, from, Whole(a), Whole(b));
  }

  lemma NextAccounted(c: Settings, d: Demand, from: nat, k: nat, early: nat, a: Plant, b: Plant)
    returns (k': nat, early': nat)
    requires Sliced(c, d) && Step(c, d, a, b) && Accounted(c, d, from, k, early, a)
    ensures Accounted(c, d, from, k', early', b)
    ensures early' >= early && (early' > early <==> PassStep(c, d, a, b) && b.s.ctrl != a.s.ctrl)
  {
    k', early' := k, early;
    if !PassStep(c, d, a, b) {
      k' := SecondAccounted(c, d, from, k, early, a, b);
    } else if a.s.slice.Running(a.now) || a.s.lastNum == d.request {
      PassAccounted(c, d, from, k, early, a, b);
    } else {
      k' := k + 1;
      early' := RestartAccounted(c, d, from, k, early, a, b);
    }
  }

  lemma FirstAccounted(c: Settings, d: Demand, a: Plant, b: Plant)
    requires Sliced(c, d) && Starts(c, d, a) && PassStep(c, d, a, b)
    ensures Accounted(c, d, a.now, 0, 0, b) && b.s.lastNum == a.s.lastNum
  {
    RestartCounted(c, d, a, b);
    ShiftedStart(d, c.ctrlPeriod, Sliver(d, b));
  }

  /** Every state of a run lies in some period: the variable fan runs for the first `time` seconds of it,
      and exactly the open number of constant fans runs throughout. Seconds are lost from a period exactly
      if a pass has cut one short. */
  lemma {:induction false} RunAccounted(c: Settings, d: Demand, run: seq<Plant>, i: nat)
    returns (k: nat, early: nat)
    requires Sliced(c, d) && IsRun(c, d, run) && 1 <= i < |run|
    ensures Accounted(c, d, run[0].now, k, early, run[i])
    ensures early == 0 <==> Undisturbed(c, d, run, i)
  {
    k, early := 0, 0;
    if i == 1 {
      FirstAccounted(c, d, run[0], run[1]);
    } else {
      k, early := RunAccounted(c, d, run, i - 1);
      assert Step(c, d, run[i - 1], run[i]);
      assert Undisturbed(c, d, run, i) <==> Undisturbed(c, d, run, i - 1) && !CutsShort(c, d, run, i - 1);
      k, early := NextAccounted(c, d, run[0].now, k, early, run[i - 1], run[i]);
    }
  }

  /** After a time of `k` periods the constant fans have run for exactly `open` fans all the time, and the
      variable fan for at least `k` slices: for exactly `k` if and only if no period was cut short. */
  lemma WholePeriods(c: Settings, d: Demand, run: seq<Plant>, i: nat, k: nat)
    requires Sliced(c, d) && IsRun(c, d, run) && 1 <= i < |run|
    requires run[i].now == run[0].now + k * c.ctrlPeriod
    ensures run[i].whole == d.open * (k * c.ctrlPeriod) && run[i].slices >= k * d.time
    ensures run[i].slices == k * d.time <==> Undisturbed(c, d, run, i)
  {
    var j, early := RunAccounted(c, d, run, i);
    LevelDelivers(d.open, run[0].now, Whole(run[i]));
    ShiftedDelivers(d, c.ctrlPeriod, run[0].now, k, j, early, Sliver(d, run[i]));
  }

  // ------------------------------------------------------------------------------------------
  // When periods are cut short
  // ------------------------------------------------------------------------------------------

  lemma StepLastNum(c: Settings, d: Demand, from: nat, k: nat, early: nat, a: Plant, b: Plant)
    requires Sliced(c, d) && Step(c, d, a, b) && Accounted(c, d, from, k, early, a)
    ensures b.s.lastNum == if PassStep(c, d, a, b) && a.s.slice.Running(a.now) then d.request else a.s.lastNum
  {
    if !PassStep(c, d, a, b) {
      var k' := SecondAccounted(c, d, from, k, early, a, b);
    } else if a.s.slice.Running(a.now) || a.s.lastNum == d.request {
      PassAccounted(c, d, from, k, early, a, b);
    } else {
      var e := RestartAccounted(c, d, from, k, early, a, b);
    }
  }

  lemma NextLastNum(c: Settings, d: Demand, run: seq<Plant>, j: nat)
    requires Sliced(c, d) && IsRun(c, d, run) && 1 <= j < |run| - 1
    ensures run[j + 1].s.lastNum == if PassInSlice(c, d, run, j) then d.request else run[j].s.lastNum
  {
    var k, early := RunAccounted(c, d, run, j);
    assert Step(c, d, run[j], run[j + 1]);
    StepLastNum(c, d, run[0].now, k, early, run[j], run[j + 1]);
  }

  /** The number last switched to is up to date exactly if it was at the start, or some pass since has
      fallen into a slice. */
  lemma {:induction false} LastNumExactly(c: Settings, d: Demand, run: seq<Plant>, i: nat)
    requires Sliced(c, d) && IsRun(c, d, run) && 1 <= i < |run|
    ensures run[i].s.lastNum == d.request <==>
              run[0].s.lastNum == d.request || exists j :: 1 <= j < i && PassInSlice(c, d, run, j)
  {
    if i == 1 {
      FirstAccounted(c, d, run[0], run[1]);
    } else {
      LastNumExactly(c, d, run, i - 1);
      NextLastNum(c, d, run, i - 1);
    }
  }

  /** A pass cuts the period short if and only if it falls between slices while the number last switched
      to is out of date. */
  lemma CutsShortExactly(c: Settings, d: Demand, run: seq<Plant>, j: nat)
    requires Sliced(c, d) && IsRun(c, d, run) && PassAt(c, d, run, j)
    ensures CutsShort(c, d, run, j) <==> PassBetweenSlices(c, d, run, j) && run[j].s.lastNum != d.request
  {
    var k, early := RunAccounted(c, d, run, j);
    if run[j].s.slice.Running(run[j].now) || run[j].s.lastNum == d.request {
      PassAccounted(c, d, run[0].now, k, early, run[j], run[j + 1]);
    } else {
      var e := RestartAccounted(c, d, run[0].now, k, early, run[j], run[j + 1]);
    }
  }

  /** No period is cut short if and only if the number last switched to was the request at the start, or
      no pass falls between slices before one has fallen into a slice. */
  lemma UndisturbedExactly(c: Settings, d: Demand, run: seq<Plant>, i: nat)
    requires Sliced(c, d) && IsRun(c, d, run) && 1 <= i < |run|
    ensures Undisturbed(c, d, run, i) <==>
              || run[0].s.lastNum == d.request
              || forall j :: 1 <= j < i && PassBetweenSlices(c, d, run, j) ==>
                   exists m :: 1 <= m < j && PassInSlice(c, d, run, m)
  {
    forall j: nat | 1 <= j < i && PassAt(c, d, run, j)
      ensures CutsShort(c, d, run, j) <==>
                && PassBetweenSlices(c, d, run, j) && run[0].s.lastNum != d.request
                && !exists m :: 1 <= m < j && PassInSlice(c, d, run, m)
    {
      CutsShortExactly(c, d, run, j);
      LastNumExactly(c, d, run, j);
    }
  }

  /** The volume moved, in five-hundredths of a fan: a constant fan counts for 500 and the variable one
      for its minimum frequency. */
  function Moved(c: Settings, whole: nat, slices: nat): nat {
    c.ratedVol * (500 * whole + c.minFreq * slices)
  }

  /** The settings under which a plant serves its remainder in slices, and the demand they come to. */
  lemma SlicesFit(c: Settings, heating: bool, was: Demand)
    requires InRange(c) && 0 < c.ratedVol < TWO_16 && 1 <= c.minFreq <= c.maxFreq && 0 < c.ctrlPeriod <= MAX_PERIOD
    requires Volume(c, heating) < 4 * c.ratedVol
    requires var d := NextDemand(c, heating, true, was);
             !Continuous(c, d) && d.time >= c.runTimeLeast && d.time > 0
    ensures var d := NextDemand(c, heating, true, was);
            var residual := d.volume - c.ratedVol * d.open;
            && Sliced(c, d) && residual >= 0
            && c.minFreq * c.ratedVol * d.time <= residual * 500 * c.ctrlPeriod
                 < c.minFreq * (c.ratedVol * (d.time + 1) + c.ctrlPeriod)
  {
    var d := NextDemand(c, heating, true, was);
    var residual := Residual(d.volume, c.ratedVol);
    assert Narrow(c) == c.ratedVol && NarrowResidual(c, d) == residual && residual < c.ratedVol;
    VariableSliceFits(residual, c.minFreq, c.ctrlPeriod, c.ratedVol);
    VariableSlice(residual, c.minFreq, c.ctrlPeriod, c.ratedVol);
  }

  lemma Regroup(a: nat, b: nat, x: nat)
    ensures a * (b * x) == a * b * x && a * (b * x) == b * (a * x)
  {
    MulOrder(a, b, x);
    MulOrder(b, a, x);
  }

  /** One period's share falls short of its goal by less than the rounding of the slice. */
  lemma OnePeriod(rated: nat, open: nat, residual: nat, period: nat, m: nat, t: nat)
    requires m * rated * t <= residual * 500 * period < m * (rated * (t + 1) + period)
    ensures var share, goal := rated * (500 * (open * period) + m * t), (rated * open + residual) * 500 * period;
            share <= goal < share + m * (rated + period)
  {
    var whole := rated * (open * period);
    var x := m * rated * t;
    assert rated * (500 * (open * period) + m * t) == 500 * whole + x by {
      Regroup(rated, m, t);
      Regroup(m, rated, t);
      Regroup(rated, 500, open * period);
    }
    assert (rated * open + residual) * 500 * period == 500 * whole + residual * 500 * period by {
      Regroup(rated, open, period);
      Regroup(rated * open, 500, period);
    }
    assert m * (rated * (t + 1) + period) == x + m * (rated + period) by {
      assert rated * (t + 1) == rated * t + rated;
      Regroup(m, rated, t);
    }
  }

  lemma ManyPeriods(k: nat, share: nat, goal: nat, slack: nat)
    requires share <= goal < share + slack
    ensures k * share <= k * goal && (k > 0 ==> k * goal < k * share + k * slack)
  {
    MulMono(share, goal, k);
    if k > 0 {
      MulMono(goal + 1, share + slack, k);
    }
  }

  lemma MovedScales(c: Settings, open: nat, period: nat, t: nat, k: nat)
    ensures Moved(c, open * (k * period), k * t) == k * Moved(c, open * period, t)
  {
    Regroup(open, k, period);
    Regroup(c.minFreq, k, t);
    Regroup(500, k, open * period);
    var part := 500 * (open * period) + c.minFreq * t;
    assert 500 * (k * (open * period)) + k * (c.minFreq * t) == k * part;
    Regroup(c.ratedVol, k, part);
  }

  /** Over any number of whole periods constant and variable fans together move the demanded volume,
      short of it by less than the rounding of one slice a period, whatever passes happen meanwhile; and no
      more than it if no period was cut short. */
  lemma DeliversDemand(c: Settings, heating: bool, was: Demand, run: seq<Plant>, i: nat, k: nat)
    requires InRange(c) && 0 < c.ratedVol < TWO_16 && 1 <= c.minFreq <= c.maxFreq && 0 < c.ctrlPeriod <= MAX_PERIOD
    requires Volume(c, heating) < 4 * c.ratedVol
    requires var d := NextDemand(c, heating, true, was);
             !Continuous(c, d) && d.time >= c.runTimeLeast && d.time > 0 && IsRun(c, d, run)
    requires 1 <= i < |run| && run[i].now == run[0].now + k * c.ctrlPeriod
    ensures var d := NextDemand(c, heating, true, was);
            var goal, moved := k * (d.volume * 500 * c.ctrlPeriod), Moved(c, run[i].whole, run[i].slices);
            && (k > 0 ==> goal < moved + k * (c.minFreq * (c.ratedVol + c.ctrlPeriod)))
            && (Undisturbed(c, d, run, i) ==> moved <= goal)
  {
    var d := NextDemand(c, heating, true, was);
    var residual := d.volume - c.ratedVol * d.open;
    SlicesFit(c, heating, was);
    WholePeriods(c, d, run, i, k);
    PeriodMoves(c, d, residual);
    AtLeastMoves(c, d, d.volume * 500 * c.ctrlPeriod, c.minFreq * (c.ratedVol + c.ctrlPeriod), k, run[i].slices);
  }

  lemma AtLeastMoves(c: Settings, d: Demand, goal: nat, slack: nat, k: nat, slices: nat)
    requires var share := Moved(c, d.open * c.ctrlPeriod, d.time); share <= goal < share + slack
    requires slices >= k * d.time
    ensures var moved := Moved(c, d.open * (k * c.ctrlPeriod), slices);
            (k > 0 ==> k * goal < moved + k * slack) && (slices == k * d.time ==> moved <= k * goal)
  {
    PeriodsMove(c, d, goal, slack, k);
    MovedMore(c, d.open * (k * c.ctrlPeriod), k * d.time, slices);
  }

  lemma MovedMore(c: Settings, whole: nat, slices: nat, more: nat)
    requires slices <= more
    ensures Moved(c, whole, slices) <= Moved(c, whole, more)
  {
    MulMono(slices, more, c.minFreq);
    MulMono(500 * whole + c.minFreq * slices, 500 * whole + c.minFreq * more, c.ratedVol);
  }

  lemma PeriodMoves(c: Settings, d: Demand, residual: nat)
    requires d.volume == c.ratedVol * d.open + residual
    requires c.minFreq * c.ratedVol * d.time <= residual * 500 * c.ctrlPeriod
               < c.minFreq * (c.ratedVol * (d.time + 1) + c.ctrlPeriod)
    ensures var share := Moved(c, d.open * c.ctrlPeriod, d.time);
            share <= d.volume * 500 * c.ctrlPeriod < share + c.minFreq * (c.ratedVol + c.ctrlPeriod)
  {
    OnePeriod(c.ratedVol, d.open, residual, c.ctrlPeriod, c.minFreq, d.time);
  }

  lemma PeriodsMove(c: Settings, d: Demand, goal: nat, slack: nat, k: nat)
    requires var share := Moved(c, d.open * c.ctrlPeriod, d.time); share <= goal < share + slack
    ensures var moved := Moved(c, d.open * (k * c.ctrlPeriod), k * d.time);
            moved <= k * goal && (k > 0 ==> k * goal < moved + k * slack)
  {
    MovedScales(c, d.open, c.ctrlPeriod, d.time, k);
    ManyPeriods(k, Moved(c, d.open * c.ctrlPeriod, d.time), goal, slack);
  }

  // ------------------------------------------------------------------------------------------
  // Runs begin and go on
  // ------------------------------------------------------------------------------------------

  /** The fans once they have done as told. */
  function Followed(v: seq<FanState>, f: FanState, p: Plan): (w: seq<FanState>)
    requires |v| > 0
    ensures |w| == |v| && w[0] == f.(io := f.io.(running := f.cmd.On?))
    ensures forall i :: 0 < i < |v| ==> w[i] == v[i].(io := v[i].io.(running := i in Planned(v, p)))
  {
    var w := seq(|v|, i requires 0 <= i < |v| => v[i].(io := v[i].io.(running := i in Planned(v, p))));
    w[0 := f.(io := f.io.(running := f.cmd.On?))]
  }

  lemma FollowedFollows(c: Settings, open: nat, a: Plant, f: FanState, p: Plan)
    requires ConstantsOk(open, a.v) && Fit(c, a.v[0]) && p.off <= Running(a.v) && p.on <= Idle(a.v)
    requires f.io == a.v[0].io && f.Healthy() && !f.Constant()
    ensures Follows(a.v, f, p, Followed(a.v, f, p))
  {
    var w := Followed(a.v, f, p);
    EligibleSplit(a.v);
    assert Eligible(w) == Eligible(a.v);
    assert AllRunning(w) == Planned(a.v, p) && Running(w) == Planned(a.v, p);
  }

  lemma ElapseHappens(c: Settings, open: nat, a: Plant) returns (m: Plant)
    requires PlantOk(c, open, a)
    ensures Elapse(a, m) && PlantOk(c, open, m)
  {
    FollowedFollows(c, open, a, a.v[0], NOTHING);
    m := Plant(a.now + 1, a.s, Followed(a.v, a.v[0], NOTHING), a.asked, a.whole + |Running(a.v)|,
               a.slices + if a.v[0].io.running then 1 else 0);
    ElapseCounted(c, open, a, m);
  }

  lemma ExpiryMayHappen(c: Settings, open: nat, m: Plant) returns (n: Plant)
    requires PlantOk(c, open, m)
    ensures if m.s.slice.due == m.now then ExpireStep(m, n) else n == m
    ensures PlantOk(c, open, n) && n.now == m.now && n.s == m.s
  {
    n := m;
    if m.s.slice.due == m.now {
      FollowedFollows(c, open, m, Closed(m.v[0]), NOTHING);
      n := m.(v := Followed(m.v, Closed(m.v[0]), NOTHING), asked := false);
      ExpireCounted(c, open, m, n);
    }
  }

  lemma TickHappens(c: Settings, d: Demand, n: Plant) returns (b: Plant)
    requires Sliced(c, d) && PlantOk(c, d.open, n)
    ensures TickStep(c, d, n, b)
  {
    var (t, w) := VariableTick(c, n.now, n.s.(demand := d), Variate(n.v[0], n.asked));
    RunAtMinimum(c, n.v[0]);
    RunAtOn(n.v[0], c.minFreq, c.minFreq, c.maxFreq);
    FollowedFollows(c, d.open, n, w.fan, NOTHING);
    b := n.(s := t.(ctrl := Regist(n.now, c.ctrlPeriod)), v := Followed(n.v, w.fan, NOTHING), asked := w.asked);
  }

  /** A second can always pass. */
  lemma SecondHappens(c: Settings, d: Demand, a: Plant) returns (b: Plant)
    requires Sliced(c, d) && PlantOk(c, d.open, a)
    ensures SecondStep(c, d, a, b) && b.now == a.now + 1
  {
    var m := ElapseHappens(c, d.open, a);
    var n := ExpiryMayHappen(c, d.open, m);
    b := n;
    if n.s.ctrl.due == n.now {
      b := TickHappens(c, d, n);
    }
  }

  /** A pass that starts a period can happen. */
  lemma RestartHappens(c: Settings, d: Demand, a: Plant) returns (b: Plant)
    requires Sliced(c, d) && ConstantsOk(d.open, a.v) && Fit(c, a.v[0])
    requires !a.s.slice.Running(a.now) && (!a.s.ctrl.Running(a.now) || a.s.lastNum != d.request)
    ensures PassStep(c, d, a, b)
  {
    var s, n := a.s.(demand := d), |Eligible(a.v)|;
    var (t, w) := SlicePass(c, a.now, s, Variate(a.v[0], a.asked), n, d);
    PeriodRestarts(c, d, a.now, s, Variate(a.v[0], a.asked), n);
    DrivenFit(c, a.v[0], d.open, n, a.asked);
    var f := VariateDriven(a.v[0], d.open, n, a.asked, c.minFreq, c.maxFreq);
    RunAtMinimum(c, f);
    RunAtOn(f, c.minFreq, c.minFreq, c.maxFreq);
    var p := PassPlan(s, a.now, a.v);
    AlwaysOpenBand(a.v, d.open, d.request, NOTHING);
    FollowedFollows(c, d.open, a, w.fan, p);
    b := Plant(a.now, t, Followed(a.v, w.fan, p), w.asked, a.whole, a.slices);
  }

  /** From any start there is a run. */
  lemma RunBegins(c: Settings, d: Demand, a: Plant) returns (run: seq<Plant>)
    requires Sliced(c, d) && Starts(c, d, a)
    ensures |run| == 2 && run[0] == a && IsRun(c, d, run)
  {
    var b := RestartHappens(c, d, a);
    run := [a, b];
  }

  lemma Extended(c: Settings, d: Demand, run: seq<Plant>, b: Plant)
    requires IsRun(c, d, run) && Step(c, d, run[|run| - 1], b)
    ensures IsRun(c, d, run + [b])
  {
    var longer := run + [b];
    forall i, j | 1 <= i && j == i + 1 < |longer|
      ensures Step(c, d, longer[i], longer[j])
    {
      if j < |run| {
        assert Step(c, d, run[i], run[j]);
      }
    }
  }

  /** Every run can be continued by another second, so that every number of periods is reached. */
  lemma RunGoesOn(c: Settings, d: Demand, run: seq<Plant>) returns (b: Plant)
    requires Sliced(c, d) && IsRun(c, d, run)
    ensures IsRun(c, d, run + [b]) && b.now == run[|run| - 1].now + 1
    ensures |run[|run| - 1].v| > 0 && SecondStep(c, d, run[|run| - 1], b)
  {
    var last := |run| - 1;
    var k, early := RunAccounted(c, d, run, last);
    b := SecondHappens(c, d, run[last]);
    Extended(c, d, run, b);
  }

  /** `n` seconds without a pass, up to the end of the period at most. */
  lemma {:induction false} SecondsPass(
      c: Settings, d: Demand, run: seq<Plant>, from: nat, k: nat, early: nat, n: nat)
    returns (longer: seq<Plant>)
    requires Sliced(c, d) && IsRun(c, d, run)
    requires var p := run[|run| - 1];
             Accounted(c, d, from, k, early, p) && p.now + n < from + Times(c.ctrlPeriod, k) + c.ctrlPeriod - early
    ensures |longer| == |run| + n && longer[..|run|] == run && IsRun(c, d, longer)
    ensures var p, q := run[|run| - 1], longer[|longer| - 1];
            Accounted(c, d, from, k, early, q) && q.now == p.now + n && q.s.lastNum == p.s.lastNum
  {
    if n == 0 {
      longer := run;
    } else {
      var part := SecondsPass(c, d, run, from, k, early, n - 1);
      var b := RunGoesOn(c, d, part);
      var k' := SecondAccounted(c, d, from, k, early, part[|part| - 1], b);
      longer := part + [b];
    }
  }

  /** Settings under which a plant serves a quarter of a fan in slices of 1500 of 1800 seconds. */
  const QUARTER := Settings(50000, 90, 90, 36000, 1800, 300, 150, 500, 2700, 270)

  /** A plant under these settings starts a run on an idle variable fan and an idle constant one, whatever
      number of fans was last switched to. */
  lemma SlicesStart(now: nat, lastNum: nat) returns (a: Plant)
    ensures var d := NextDemand(QUARTER, false, true, a.s.demand);
            && a.now == now && a.s.lastNum == lastNum && d == Demand(45000, 1, 1, 1500)
            && !Continuous(QUARTER, d) && Sliced(QUARTER, d) && Starts(QUARTER, d, a)
  {
    SmallRemainder(QUARTER);
    var variable := FanState(Inputs(false, false, true, 0, 0), Drive(VariableFreq, 0, 0, 500, 0),
                             Watch(false, 0, false), Off, Off);
    var constant := variable.(drive := variable.drive.(freqType := ConstantFreq));
    a := Plant(now, Sched(Demand(45000, 1, 1, 1500), lastNum, 0, STOPPED, STOPPED), [variable, constant], false, 0, 0);
    assert Eligible(a.v) == {1} && AllRunning(a.v) == Running(a.v) == {};
  }

  /** In the last second of the first slice no pass has brought the number last switched to up to date. */
  lemma FirstSlice(now: nat) returns (run: seq<Plant>)
    ensures var d := Demand(45000, 1, 1, 1500);
            && Sliced(QUARTER, d) && IsRun(QUARTER, d, run) && run[0].now == now && run[0].s.lastNum == 0
            && var p := run[|run| - 1];
               Accounted(QUARTER, d, now, 0, 0, p) && p.now == now + 1500 && p.s.lastNum == 0
  {
    var d := Demand(45000, 1, 1, 1500);
    var a := SlicesStart(now, 0);
    var first := RunBegins(QUARTER, d, a);
    FirstAccounted(QUARTER, d, first[0], first[1]);
    run := SecondsPass(QUARTER, d, first, now, 0, 0, 1500);
    assert run[0] == run[..|first|][0];
  }

  /** A pass that comes then starts another slice at once. */
  lemma SecondSlice(run: seq<Plant>, now: nat) returns (longer: seq<Plant>)
    requires var d := Demand(45000, 1, 1, 1500);
             && Sliced(QUARTER, d) && IsRun(QUARTER, d, run)
             && var p := run[|run| - 1];
                Accounted(QUARTER, d, now, 0, 0, p) && p.now == now + 1500 && p.s.lastNum == 0
    ensures var d := Demand(45000, 1, 1, 1500);
            && IsRun(QUARTER, d, longer) && longer[0] == run[0]
            && Accounted(QUARTER, d, now, 1, 300, longer[|longer| - 1]) && longer[|longer| - 1].now == now + 1500
  {
    var d, p := Demand(45000, 1, 1, 1500), run[|run| - 1];
    assert Times(1800, 0) == 0 && Times(1800, 1) == 1800;
    assert !p.s.slice.Running(p.now);
    var b := RestartHappens(QUARTER, d, p);
    var early := RestartAccounted(QUARTER, d, now, 0, 0, p, b);
    Extended(QUARTER, d, run, b);
    longer := run + [b];
  }

  /** At power-up the number last switched to is 0. A pass at the end of the first slice then starts
      another one: in the first 1800 seconds the variable fan runs all the time instead of for 1500, and
      more is moved than demanded. */
  lemma PowerUpOverruns(now: nat) returns (run: seq<Plant>)
    ensures var d := Demand(45000, 1, 1, 1500);
            && IsRun(QUARTER, d, run) && run[0].s.lastNum == 0
            && var p := run[|run| - 1];
               && p.now == run[0].now + 1800 && p.whole == 1800 && p.slices == 1800
               && Moved(QUARTER, p.whole, p.slices) > d.volume * 500 * 1800
  {
    var d := Demand(45000, 1, 1, 1500);
    var first := FirstSlice(now);
    var again := SecondSlice(first, now);
    assert Times(1800, 1) == 1800 && Times(1500, 1) == 1500;
    run := SecondsPass(QUARTER, d, again, now, 1, 300, 300);
    assert run[0] == run[..|again|][0];
    LevelDelivers(1, now, Whole(run[|run| - 1]));
  }
}
