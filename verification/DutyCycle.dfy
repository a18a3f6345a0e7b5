/**
 Whole runs of an all-constant plant under a steady demand. Control passes happen at any moment, the
 clock advances second by second, run hours evolve freely, timers fire when they are due and fans
 follow their commands. The fan-seconds delivered are counted.
 */
module DutyCycle {
  import opened Common
  import opened Demands
  import opened ExAirFans
  import opened FanPlan
  import opened FanSchedule
  import opened SliceCounts
  import opened Timers
  import opened VariableSchedule

  datatype Plant = Plant(now: nat, s: Sched, v: seq<FanState>, delivered: nat)

  /** Settings within their limits, with a control period and a rated volume. */
  predicate Steady(c: Settings) {
    InRange(c) && 0 < c.ctrlPeriod <= MAX_PERIOD && c.ratedVol > 0
  }

  /** The demand that these settings always come to. */
  function D(c: Settings, heating: bool): Demand
    requires Steady(c)
  {
    NextDemand(c, heating, false, Demand(0, 0, 0, 0))
  }

  /** All fans run at constant speed, a fan that is faulty or local does not run, and there are more
      eligible fans than the demand keeps open. */
  ghost predicate PlantOk(open: nat, v: seq<FanState>) {
    && (forall i :: 0 <= i < |v| ==> v[i].Constant())
    && AllRunning(v) == Running(v)
    && |Eligible(v)| > open
  }

  /** `w` is `v` after the fans have followed plan `p`: nobody fails or changes hands, hours grow. */
  ghost predicate Follows(v: seq<FanState>, p: Plan, w: seq<FanState>) {
    && |w| == |v| && (forall i :: 0 <= i < |w| ==> w[i].Constant())
    && Eligible(w) == Eligible(v) && AllRunning(w) == Running(w) && Running(w) == Planned(v, p)
  }

  /** A pass, whose demand calculation always comes to `d`. */
  ghost predicate PassStep(c: Settings, d: Demand, a: Plant, b: Plant) {
    && b.now == a.now && b.delivered == a.delivered
    && b.s == PassOutcome(c, a.now, a.s.(demand := d), a.v).0
    && Follows(a.v, PassOutcome(c, a.now, a.s.(demand := d), a.v).1, b.v)
  }

  /** One second passes; every running fan delivers its second. */
  ghost predicate Elapse(a: Plant, b: Plant) {
    && b.now == a.now + 1 && b.s == a.s && b.delivered == a.delivered + |Running(a.v)|
    && Follows(a.v, NOTHING, b.v)
  }

  ghost predicate ExpireStep(a: Plant, b: Plant) {
    && b.now == a.now && b.s == a.s && b.delivered == a.delivered
    && (if AllRunning(a.v) == {} then Follows(a.v, NOTHING, b.v)
        else exists f: nat :: IsLongest(a.v, f) && Follows(a.v, Plan({f}, {}), b.v))
  }

  /** The control period restarts itself when its tick is taken. */
  ghost predicate TickStep(c: Settings, d: Demand, a: Plant, b: Plant) {
    && b.now == a.now && b.delivered == a.delivered
    && b.s == SliceOutcome(c, a.now, a.s.(demand := d), a.v).0.(ctrl := Regist(a.now, c.ctrlPeriod))
    && Follows(a.v, SliceOutcome(c, a.now, a.s.(demand := d), a.v).1, b.v)
  }

  ghost predicate SecondStep(c: Settings, d: Demand, a: Plant, b: Plant) {
    exists m: Plant, n: Plant ::
      && Elapse(a, m)
      && (if m.s.slice.due == m.now then ExpireStep(m, n) else n == m)
      && (if n.s.ctrl.due == n.now then TickStep(c, d, n, b) else b == n)
  }

  ghost predicate Step(c: Settings, d: Demand, a: Plant, b: Plant) {
    PassStep(c, d, a, b) || SecondStep(c, d, a, b)
  }

  /** A run begins with the first pass after both timers were stopped. */
  ghost predicate Starts(d: Demand, a: Plant) {
    && !a.s.slice.Running(a.now) && !a.s.ctrl.Running(a.now)
    && a.delivered == 0 && PlantOk(d.open, a.v)
  }

  ghost predicate IsRun(c: Settings, d: Demand, run: seq<Plant>) {
    && |run| >= 2 && Starts(d, run[0]) && PassStep(c, d, run[0], run[1])
    && forall i, j :: 1 <= i && j == i + 1 < |run| ==> Step(c, d, run[i], run[j])
  }

  // ------------------------------------------------------------------------------------------
  // What passes and ticks decide once the demand is steady
  // ------------------------------------------------------------------------------------------

  lemma DemandFixed(c: Settings, heating: bool, was: Demand)
    requires Steady(c)
    ensures NextDemand(c, heating, false, was) == D(c, heating)
  {
  }

  /** On a plant of constant fans under steady settings the decisions of the scheduler are the steps of
      a run. */
  lemma DecisionsAreSteps(e: Scene, s: Sched, v: seq<FanState>)
    requires Steady(e.c) && !e.variable && !e.usable && |v| > 0
    ensures var d := D(e.c, e.heating);
            && DemandResult(e, s, v) ==
                 (var (t, p) := PassOutcome(e.c, e.now, s.(demand := d), v); Outcome(t, e.asked, v, p))
            && TickResult(e, s, v) ==
                 (var (t, p) := SliceOutcome(e.c, e.now, s.(demand := d), v); Outcome(t, e.asked, v, p))
  {
    DemandFixed(e.c, e.heating, s.demand);
  }

  lemma TickMeans(c: Settings, d: Demand, now: nat, s: Sched, v: seq<FanState>)
    requires d.time >= c.runTimeLeast && !s.slice.Running(now)
    ensures SliceOutcome(c, now, s.(demand := d), v) ==
              (Sched(d, d.request, d.time, Regist(now, d.time), s.ctrl), SwitchPlan(v, d.request))
  {
  }

  lemma PassMeans(c: Settings, d: Demand, now: nat, s: Sched, v: seq<FanState>)
    requires c.ctrlPeriod > 0 && d.time >= c.runTimeLeast && s.demand == d
    ensures s.ctrl.Running(now) && s.lastNum == d.request ==>
              PassOutcome(c, now, s, v) == (s, PassPlan(s, now, v))
    ensures !s.ctrl.Running(now) && !s.slice.Running(now) ==>
              PassOutcome(c, now, s, v) ==
                (Sched(d, d.request, d.time, Regist(now, d.time), Regist(now, c.ctrlPeriod)),
                 SwitchPlan(v, d.request))
  {
  }

  // ------------------------------------------------------------------------------------------
  // What one plan does to the number of running fans
  // ------------------------------------------------------------------------------------------

  lemma SwitchFollowed(open: nat, v: seq<FanState>, n: nat, w: seq<FanState>)
    requires PlantOk(open, v) && n <= open + 1 && Follows(v, SwitchPlan(v, n), w)
    ensures |Running(w)| == n && PlantOk(open, w)
  {
    SwitchExact(v, n);
  }

  lemma BandFollowed(v: seq<FanState>, open: nat, request: nat, w: seq<FanState>)
    requires PlantOk(open, v) && open <= request && Follows(v, AlwaysOpenPlan(v, open, request), w)
    ensures open <= |Running(w)| <= request && PlantOk(open, w)
    ensures |Running(v)| == open ==> |Running(w)| == open
    ensures |Running(v)| == request ==> |Running(w)| == request
  {
    AlwaysOpenBand(v, open, request, NOTHING);
    PlannedSize(v, NOTHING);
    PlannedSize(v, AlwaysOpenPlan(v, open, request));
  }

  lemma NothingFollowed(open: nat, v: seq<FanState>, w: seq<FanState>)
    requires PlantOk(open, v) && Follows(v, NOTHING, w)
    ensures |Running(w)| == |Running(v)| && PlantOk(open, w)
  {
    assert Planned(v, NOTHING) == Running(v);
  }

  /** Closing the longest-run fan takes one fan off, because nobody but eligible fans runs. */
  lemma LongestFollowed(open: nat, v: seq<FanState>, f: nat, w: seq<FanState>)
    requires PlantOk(open, v) && IsLongest(v, f) && Follows(v, Plan({f}, {}), w)
    ensures |Running(w)| == |Running(v)| - 1 && PlantOk(open, w)
  {
    assert Planned(v, Plan({f}, {})) == Running(v) - {f};
  }

  /** Otherwise it may take none: exactly when the longest-run fan is itself faulty or local. */
  lemma LongestMissesExactly(v: seq<FanState>, f: nat)
    requires IsLongest(v, f)
    ensures Planned(v, Plan({f}, {})) == Running(v) <==> !v[f].Healthy()
  {
    if v[f].Healthy() {
      assert f in Running(v) && f !in Planned(v, Plan({f}, {}));
    } else {
      assert Planned(v, Plan({f}, {})) == Running(v);
    }
  }

  // ------------------------------------------------------------------------------------------
  // The same run, seen as clock, scheduling state and number of running fans
  // ------------------------------------------------------------------------------------------

  function Counted(p: Plant): Count {
    Count(p.now, p.s, |Running(p.v)|, p.delivered)
  }

  /** Slices happen, and end before the period does. */
  predicate SlicesWell(c: Settings, d: Demand) {
    d.time >= c.runTimeLeast && 0 < d.time < c.ctrlPeriod && d.request == d.open + 1
  }

  /** The remainder is too small for a slice. */
  predicate SlicesNever(c: Settings, d: Demand) {
    d.time < c.runTimeLeast && d.request == d.open && c.ctrlPeriod > 0
  }

  /** There is no remainder, and no minimum run time: slices of 0 seconds. */
  predicate SlicesEmpty(c: Settings, d: Demand) {
    d.time == 0 == c.runTimeLeast && d.request == d.open + 1 && c.ctrlPeriod > 0
  }

  lemma PassCounted(c: Settings, d: Demand, a: Plant, b: Plant)
    requires SlicesWell(c, d) && PlantOk(d.open, a.v) && a.s.demand == d
    requires PassStep(c, d, a, b)
    ensures PlantOk(d.open, b.v) && CountPass(d, c.ctrlPeriod, d.open, Counted(a), Counted(b))
  {
    PassMeans(c, d, a.now, a.s, a.v);
    var p := PassOutcome(c, a.now, a.s.(demand := d), a.v).1;
    if p == SwitchPlan(a.v, d.request) {
      SwitchFollowed(d.open, a.v, d.request, b.v);
    }
    if p == AlwaysOpenPlan(a.v, d.open, d.request) {
      BandFollowed(a.v, d.open, d.request, b.v);
    }
  }

  lemma ElapseCounted(open: nat, a: Plant, m: Plant)
    requires PlantOk(open, a.v) && Elapse(a, m)
    ensures PlantOk(open, m.v)
    ensures Counted(m) == Counted(a).(now := a.now + 1, delivered := a.delivered + |Running(a.v)|)
  {
    NothingFollowed(open, a.v, m.v);
  }

  lemma ExpireCounted(open: nat, m: Plant, n: Plant)
    requires PlantOk(open, m.v) && ExpireStep(m, n)
    ensures PlantOk(open, n.v)
    ensures Counted(n) == Counted(m).(n := if |Running(m.v)| > 0 then |Running(m.v)| - 1 else 0)
  {
    if AllRunning(m.v) == {} {
      NothingFollowed(open, m.v, n.v);
    } else {
      var f: nat :| IsLongest(m.v, f) && Follows(m.v, Plan({f}, {}), n.v);
      LongestFollowed(open, m.v, f, n.v);
    }
  }

  lemma TickCounted(c: Settings, d: Demand, n: Plant, b: Plant)
    requires SlicesWell(c, d) && PlantOk(d.open, n.v) && TickStep(c, d, n, b)
    requires !n.s.slice.Running(n.now)
    ensures PlantOk(d.open, b.v)
    ensures Counted(b) == Count(n.now, Opening(d, c.ctrlPeriod, n.now), d.open + 1, n.delivered)
  {
    TickMeans(c, d, n.now, n.s, n.v);
    SwitchFollowed(d.open, n.v, d.request, b.v);
  }

  /** The second up to the tick. */
  lemma ExpiryCounted(open: nat, a: Plant, m: Plant, n: Plant)
    requires PlantOk(open, a.v) && Elapse(a, m)
    requires if m.s.slice.due == m.now then ExpireStep(m, n) else n == m
    ensures PlantOk(open, n.v)
    ensures var x, y := Counted(a), Counted(n);
            && y.now == x.now + 1 && y.s == x.s && y.delivered == x.delivered + x.n
            && y.n == if x.s.slice.due == y.now && x.n > 0 then x.n - 1 else x.n
  {
    ElapseCounted(open, a, m);
    if m.s.slice.due == m.now {
      ExpireCounted(open, m, n);
    }
  }

  /** Ticks and slices never fall due in the same second, so the order of the two does not matter. */
  lemma SecondCounted(c: Settings, d: Demand, a: Plant, b: Plant)
    requires SlicesWell(c, d) && PlantOk(d.open, a.v) && SecondStep(c, d, a, b)
    requires a.s.ctrl.due == a.now + 1 ==> a.s.slice.due <= a.now + 1
    ensures PlantOk(d.open, b.v) && CountSecond(d, c.ctrlPeriod, d.open, Counted(a), Counted(b))
  {
    var m: Plant, n: Plant :|
      && Elapse(a, m)
      && (if m.s.slice.due == m.now then ExpireStep(m, n) else n == m)
      && (if n.s.ctrl.due == n.now then TickStep(c, d, n, b) else b == n);
    ExpiryCounted(d.open, a, m, n);
    if Counted(n).s.ctrl.due == Counted(n).now {
      TickCounted(c, d, n, b);
    }
  }

  // ------------------------------------------------------------------------------------------
  // Runs with slices
  // ------------------------------------------------------------------------------------------

  lemma StepCounted(c: Settings, d: Demand, from: nat, k: nat, a: Plant, b: Plant)
    requires SlicesWell(c, d) && PlantOk(d.open, a.v) && Step(c, d, a, b)
    requires AtPeriod(d, c.ctrlPeriod, d.open, from, k, Counted(a))
    ensures PlantOk(d.open, b.v)
    ensures || CountPass(d, c.ctrlPeriod, d.open, Counted(a), Counted(b))
            || CountSecond(d, c.ctrlPeriod, d.open, Counted(a), Counted(b))
  {
    if PassStep(c, d, a, b) {
      PassCounted(c, d, a, b);
    } else {
      SecondCounted(c, d, a, b);
    }
  }

  /** The first pass starts a control period with a slice. */
  lemma FirstPass(c: Settings, d: Demand, a: Plant, b: Plant)
    requires SlicesWell(c, d) && Starts(d, a) && PassStep(c, d, a, b)
    ensures PlantOk(d.open, b.v) && |Running(b.v)| == d.open + 1
    ensures b.now == a.now && b.delivered == 0 && b.s == Opening(d, c.ctrlPeriod, a.now)
  {
    PassMeans(c, d, a.now, a.s.(demand := d), a.v);
    SwitchFollowed(d.open, a.v, d.request, b.v);
  }

  lemma FirstPeriod(c: Settings, d: Demand, a: Plant, b: Plant)
    requires SlicesWell(c, d) && Starts(d, a) && PassStep(c, d, a, b)
    ensures PlantOk(d.open, b.v) && AtPeriod(d, c.ctrlPeriod, d.open, a.now, 0, Counted(b))
  {
    FirstPass(c, d, a, b);
    AtStart(d, c.ctrlPeriod, d.open, Counted(b));
  }

  lemma NextInPeriods(c: Settings, d: Demand, from: nat, k: nat, a: Plant, b: Plant)
    returns (k': nat)
    requires SlicesWell(c, d) && PlantOk(d.open, a.v) && Step(c, d, a, b)
    requires AtPeriod(d, c.ctrlPeriod, d.open, from, k, Counted(a))
    ensures PlantOk(d.open, b.v) && AtPeriod(d, c.ctrlPeriod, d.open, from, k', Counted(b))
  {
    StepCounted(c, d, from, k, a, b);
    k' := CountAdvances(d, c.ctrlPeriod, d.open, from, k, Counted(a), Counted(b));
  }

  /** Every state of a run with slices lies in some period, with its slice and its account right. */
  lemma {:induction false} RunInPeriods(c: Settings, d: Demand, run: seq<Plant>, i: nat)
    returns (k: nat)
    requires SlicesWell(c, d) && IsRun(c, d, run) && 1 <= i < |run|
    ensures PlantOk(d.open, run[i].v)
    ensures AtPeriod(d, c.ctrlPeriod, d.open, run[0].now, k, Counted(run[i]))
  {
    if i == 1 {
      FirstPeriod(c, d, run[0], run[1]);
      k := 0;
    } else {
      k := RunInPeriods(c, d, run, i - 1);
      assert Step(c, d, run[i - 1], run[i]);
      k := NextInPeriods(c, d, run[0].now, k, run[i - 1], run[i]);
    }
  }

  // ------------------------------------------------------------------------------------------
  // Runs go on
  // ------------------------------------------------------------------------------------------

  /** The fans once they have done as told. */
  function Followed(v: seq<FanState>, p: Plan): (w: seq<FanState>)
    ensures |w| == |v|
    ensures forall i :: 0 <= i < |v| ==> w[i] == v[i].(io := v[i].io.(running := i in Planned(v, p)))
  {
    seq(|v|, i requires 0 <= i < |v| => v[i].(io := v[i].io.(running := i in Planned(v, p))))
  }

  lemma FollowedFollows(open: nat, v: seq<FanState>, p: Plan)
    requires PlantOk(open, v) && p.off <= Running(v) && p.on <= Idle(v)
    ensures Follows(v, p, Followed(v, p))
  {
    var w := Followed(v, p);
    EligibleSplit(v);
    assert Eligible(w) == Eligible(v);
    assert AllRunning(w) == Planned(v, p) && Running(w) == Planned(v, p);
  }

  /** One of the running fans among the first `n` has run longest. */
  lemma {:induction false} LongestAmong(v: seq<FanState>, n: nat) returns (f: int)
    requires n <= |v|
    ensures -1 <= f < n
    ensures if f >= 0 then
              f in AllRunning(v) && forall j: nat :: j in AllRunning(v) && j < n ==>
                v[j].io.hours < v[f].io.hours || (v[j].io.hours == v[f].io.hours && f <= j)
            else forall j: nat :: j in AllRunning(v) ==> j >= n
  {
    if n == 0 {
      f := -1;
    } else {
      f := LongestAmong(v, n - 1);
      if n - 1 in AllRunning(v) && (f < 0 || v[f].io.hours < v[n - 1].io.hours) {
        f := n - 1;
      }
    }
  }

  lemma ExpiryHappens(open: nat, m: Plant) returns (n: Plant)
    requires PlantOk(open, m.v)
    ensures ExpireStep(m, n)
  {
    var f := LongestAmong(m.v, |m.v|);
    var p := if f < 0 then NOTHING else Plan({f}, {});
    FollowedFollows(open, m.v, p);
    n := m.(v := Followed(m.v, p));
    if f >= 0 {
      assert IsLongest(m.v, f) && Follows(m.v, Plan({f}, {}), n.v);
    }
  }

  lemma TickHappens(c: Settings, d: Demand, n: Plant) returns (b: Plant)
    requires PlantOk(d.open, n.v)
    ensures TickStep(c, d, n, b)
  {
    var (t, p) := SliceOutcome(c, n.now, n.s.(demand := d), n.v);
    SwitchSizes(n.v, d.request);
    FollowedFollows(d.open, n.v, p);
    b := Plant(n.now, t.(ctrl := Regist(n.now, c.ctrlPeriod)), Followed(n.v, p), n.delivered);
  }

  lemma ElapseHappens(open: nat, a: Plant) returns (m: Plant)
    requires PlantOk(open, a.v)
    ensures Elapse(a, m) && PlantOk(open, m.v)
  {
    FollowedFollows(open, a.v, NOTHING);
    m := Plant(a.now + 1, a.s, Followed(a.v, NOTHING), a.delivered + |Running(a.v)|);
    ElapseCounted(open, a, m);
  }

  lemma ExpiryMayHappen(open: nat, m: Plant) returns (n: Plant)
    requires PlantOk(open, m.v)
    ensures if m.s.slice.due == m.now then ExpireStep(m, n) else n == m
    ensures PlantOk(open, n.v) && n.now == m.now && n.s == m.s
  {
    n := m;
    if m.s.slice.due == m.now {
      n := ExpiryHappens(open, m);
      ExpireCounted(open, m, n);
    }
  }

  /** A second can always pass: no state of the plant blocks its timers or its fans. */
  lemma SecondHappens(c: Settings, d: Demand, a: Plant) returns (b: Plant)
    requires PlantOk(d.open, a.v)
    ensures SecondStep(c, d, a, b) && b.now == a.now + 1
  {
    var m := ElapseHappens(d.open, a);
    var n := ExpiryMayHappen(d.open, m);
    b := n;
    if n.s.ctrl.due == n.now {
      b := TickHappens(c, d, n);
    }
  }

  /** A demand below four fans whose remainder is worth a slice has one that ends in its period. */
  lemma SlicesEnd(c: Settings, heating: bool)
    requires Steady(c) && Volume(c, heating) < 4 * c.ratedVol
    requires D(c, heating).time >= c.runTimeLeast && D(c, heating).time > 0
    ensures SlicesWell(c, D(c, heating))
    ensures var d := D(c, heating);
            c.ratedVol * PerPeriod(d.open, d.time, c.ctrlPeriod) <= d.volume * c.ctrlPeriod
              < c.ratedVol * (PerPeriod(d.open, d.time, c.ctrlPeriod) + 1)
  {
    var d := D(c, heating);
    SliceWithinPeriod(c, heating, Demand(0, 0, 0, 0));
    ShareOfPeriod(c.ratedVol, d.open, Residual(d.volume, c.ratedVol), c.ctrlPeriod, d.time);
  }

  /** Whole fans deliver their share of the volume exactly; only the slice is rounded. */
  lemma ShareOfPeriod(rated: nat, open: nat, residual: nat, period: nat, t: nat)
    requires rated * t <= residual * period < rated * (t + 1)
    ensures rated * (open * period + t) <= (rated * open + residual) * period < rated * (open * period + t + 1)
  {
    MulOrder(rated, open, period);
    assert (rated * open + residual) * period == rated * open * period + residual * period;
    assert rated * (open * period + t) == rated * (open * period) + rated * t;
  }

  lemma WholePeriods(c: Settings, d: Demand, run: seq<Plant>, i: nat, k: nat)
    requires SlicesWell(c, d) && IsRun(c, d, run) && 1 <= i < |run|
    requires run[i].now == run[0].now + k * c.ctrlPeriod
    ensures run[i].delivered == k * PerPeriod(d.open, d.time, c.ctrlPeriod)
  {
    var j := RunInPeriods(c, d, run, i);
    PeriodsDelivered(d, c.ctrlPeriod, d.open, run[0].now, k, j, Counted(run[i]));
  }

  /** Over any number of whole periods the plant delivers the demanded volume, short of it by less
      than one fan-second a period: whatever passes happen meanwhile and whichever fans take turns. */
  lemma DeliversDemand(c: Settings, heating: bool, d: Demand, run: seq<Plant>, i: nat, k: nat)
    requires Steady(c) && d == D(c, heating) && Volume(c, heating) < 4 * c.ratedVol
    requires d.time >= c.runTimeLeast && d.time > 0
    requires IsRun(c, d, run) && 1 <= i < |run|
    requires run[i].now == run[0].now + k * c.ctrlPeriod
    ensures c.ratedVol * run[i].delivered <= k * (d.volume * c.ctrlPeriod)
    ensures k > 0 ==> k * (d.volume * c.ctrlPeriod) < c.ratedVol * (run[i].delivered + k)
  {
    SlicesEnd(c, heating);
    var share, goal, got := PerPeriod(d.open, d.time, c.ctrlPeriod), d.volume * c.ctrlPeriod, run[i].delivered;
    assert got == k * share by {
      WholePeriods(c, d, run, i, k);
    }
    Scaled(k, c.ratedVol, share, goal);
  }

  lemma Scaled(k: nat, rated: nat, share: nat, goal: nat)
    requires rated * share <= goal < rated * (share + 1)
    ensures rated * (k * share) <= k * goal
    ensures k > 0 ==> k * goal < rated * (k * share + k)
  {
    MulMono(rated * share, goal, k);
    assert rated * (k * share) == rated * share * k;
    assert rated * (k * share + k) == rated * (share + 1) * k;
    if k > 0 {
      MulMono(goal + 1, rated * (share + 1), k);
    }
  }

  /** The factory settings. */
  const FACTORY := Settings(60000, 90, 90, 36000, 1800, 300, 0, 500, 2700, 270)

  /** With them a plant of constant fans runs one fan all the time and a second one for half of every
      period. */
  lemma FactoryPlant(heating: bool)
    ensures Steady(FACTORY) && D(FACTORY, heating) == Demand(54000, 1, 2, 900)
    ensures Volume(FACTORY, heating) < 4 * FACTORY.ratedVol && SlicesWell(FACTORY, D(FACTORY, heating))
  {
    var c := FACTORY;
    assert c.freAirSet * c.coolRatio == 5400000 && c.freAirSet * c.heatRatio == 5400000;
    assert Volume(c, heating) == 54000;
    assert OpenNum(54000, 36000) == 1 && Residual(54000, 36000) == 18000;
    assert 18000 * c.ctrlPeriod == 32400000;
    assert ConstantTime(18000, c.ctrlPeriod, 36000) == 900;
  }

  /** Steady settings and a demand below four fans either run slices that end, or none, or, with a
      minimum run time of 0 and no remainder, empty ones. */
  lemma DemandSplits(c: Settings, heating: bool)
    requires Steady(c) && Volume(c, heating) < 4 * c.ratedVol
    ensures var d := D(c, heating); SlicesWell(c, d) || SlicesNever(c, d) || SlicesEmpty(c, d)
  {
    if D(c, heating).time >= c.runTimeLeast && D(c, heating).time > 0 {
      SlicesEnd(c, heating);
    }
  }

  // ------------------------------------------------------------------------------------------
  // Runs without slices, and with empty ones: the number of fans never changes
  // ------------------------------------------------------------------------------------------

  predicate SlicesIdle(c: Settings, d: Demand) {
    SlicesNever(c, d) || SlicesEmpty(c, d)
  }

  /** No slice is under way and the requested number of fans runs. */
  ghost predicate Level(d: Demand, p: Plant) {
    PlantOk(d.open, p.v) && |Running(p.v)| == d.request && p.s.demand == d && !p.s.slice.Running(p.now)
  }

  /** A pass that finds the requested number keeps it; the first one, which starts the control period,
      brings it about. */
  lemma LevelPass(c: Settings, d: Demand, a: Plant, b: Plant)
    requires SlicesIdle(c, d) && !a.s.slice.Running(a.now) && PassStep(c, d, a, b)
    requires PlantOk(d.open, a.v) && (|Running(a.v)| == d.request || !a.s.ctrl.Running(a.now))
    ensures Level(d, b)
  {
    var p := PassOutcome(c, a.now, a.s.(demand := d), a.v).1;
    if p == SwitchPlan(a.v, d.request) {
      SwitchFollowed(d.open, a.v, d.request, b.v);
    } else {
      BandFollowed(a.v, d.open, d.request, b.v);
    }
  }

  lemma LevelTick(c: Settings, d: Demand, n: Plant, b: Plant)
    requires SlicesIdle(c, d) && Level(d, n) && TickStep(c, d, n, b)
    ensures Level(d, b)
  {
    if SlicesNever(c, d) {
      NothingFollowed(d.open, n.v, b.v);
    } else {
      SwitchFollowed(d.open, n.v, d.request, b.v);
    }
  }

  lemma LevelSecond(c: Settings, d: Demand, a: Plant, b: Plant)
    requires SlicesIdle(c, d) && Level(d, a) && SecondStep(c, d, a, b)
    ensures Level(d, b) && b.now == a.now + 1 && b.delivered == a.delivered + d.request
  {
    var m: Plant, n: Plant :|
      && Elapse(a, m)
      && (if m.s.slice.due == m.now then ExpireStep(m, n) else n == m)
      && (if n.s.ctrl.due == n.now then TickStep(c, d, n, b) else b == n);
    ElapseCounted(d.open, a, m);
    assert n == m;
    if n.s.ctrl.due == n.now {
      LevelTick(c, d, n, b);
    }
  }

  lemma LevelStep(c: Settings, d: Demand, a: Plant, b: Plant)
    requires SlicesIdle(c, d) && Step(c, d, a, b) && Level(d, a)
    ensures Level(d, b) && CountLevel(d.request, Counted(a), Counted(b))
  {
    if PassStep(c, d, a, b) {
      LevelPass(c, d, a, b);
    } else {
      LevelSecond(c, d, a, b);
    }
  }

  lemma LevelNext(c: Settings, d: Demand, from: nat, a: Plant, b: Plant)
    requires SlicesIdle(c, d) && Step(c, d, a, b) && Level(d, a) && LevelSince(d.request, from, Counted(a))
    ensures Level(d, b) && LevelSince(d.request, from, Counted(b))
  {
    LevelStep(c, d, a, b);
    LevelAdvances(d.request, from, Counted(a), Counted(b));
  }

  lemma LevelFirst(c: Settings, d: Demand, a: Plant, b: Plant)
    requires SlicesIdle(c, d) && Starts(d, a) && PassStep(c, d, a, b)
    ensures Level(d, b) && LevelSince(d.request, a.now, Counted(b))
  {
    LevelPass(c, d, a, b);
  }

  lemma {:induction false} RunKeepsLevel(c: Settings, d: Demand, run: seq<Plant>, i: nat)
    requires SlicesIdle(c, d) && IsRun(c, d, run) && 1 <= i < |run|
    ensures Level(d, run[i]) && LevelSince(d.request, run[0].now, Counted(run[i]))
  {
    if i == 1 {
      LevelFirst(c, d, run[0], run[1]);
    } else {
      RunKeepsLevel(c, d, run, i - 1);
      assert Step(c, d, run[i - 1], run[i]);
      LevelNext(c, d, run[0].now, run[i - 1], run[i]);
    }
  }

  lemma LevelDelivered(n: nat, from: nat, p: Plant)
    requires LevelSince(n, from, Counted(p))
    ensures p.now >= from && p.delivered == n * (p.now - from)
  {
    LevelDelivers(n, from, Counted(p));
  }

  lemma RunStaysLevel(c: Settings, d: Demand, run: seq<Plant>, i: nat)
    requires SlicesIdle(c, d) && IsRun(c, d, run) && 1 <= i < |run|
    ensures |Running(run[i].v)| == d.request && run[i].now >= run[0].now
    ensures run[i].delivered == d.request * (run[i].now - run[0].now)
  {
    RunKeepsLevel(c, d, run, i);
    LevelDelivered(d.request, run[0].now, run[i]);
  }

  /** Without a slice exactly the always-open fans run, from the first pass on, however often the
      passes restart the control period. */
  lemma RunWithoutSlices(c: Settings, d: Demand, run: seq<Plant>, i: nat)
    requires SlicesNever(c, d) && IsRun(c, d, run) && 1 <= i < |run|
    ensures |Running(run[i].v)| == d.request == d.open && run[i].now >= run[0].now
    ensures run[i].delivered == d.request * (run[i].now - run[0].now)
  {
    RunStaysLevel(c, d, run, i);
  }

  /** With empty slices the extra fan runs all the time: every tick opens it and nothing closes it. */
  lemma RunWithEmptySlices(c: Settings, d: Demand, run: seq<Plant>, i: nat)
    requires SlicesEmpty(c, d) && IsRun(c, d, run) && 1 <= i < |run|
    ensures |Running(run[i].v)| == d.request == d.open + 1 && run[i].now >= run[0].now
    ensures run[i].delivered == d.request * (run[i].now - run[0].now)
  {
    RunStaysLevel(c, d, run, i);
  }

  // ------------------------------------------------------------------------------------------
  // All runs
  // ------------------------------------------------------------------------------------------

  /** Slices happen, however long they are. A demand of four fans or more can have slices that outlast
      their period. */
  predicate SlicesHappen(c: Settings, d: Demand) {
    d.request == d.open + 1 && d.time >= c.runTimeLeast && d.time > 0 && c.ctrlPeriod > 0
  }

  /** A period is under way, and the extra fan runs exactly as long as the slice does. */
  ghost predicate Banded(d: Demand, p: Plant) {
    && PlantOk(d.open, p.v) && p.s.demand == d && p.s.lastNum == d.request && p.s.ctrl.Running(p.now)
    && |Running(p.v)| == d.open + if p.s.slice.Running(p.now) then 1 else 0
  }

  lemma BandPass(c: Settings, d: Demand, a: Plant, b: Plant)
    requires SlicesHappen(c, d) && PassStep(c, d, a, b) && (Banded(d, a) || Starts(d, a))
    ensures Banded(d, b)
  {
    PassMeans(c, d, a.now, a.s.(demand := d), a.v);
    if a.s.ctrl.Running(a.now) && !a.s.slice.Running(a.now) {
      BandFollowed(a.v, d.open, d.request, b.v);
    } else {
      SwitchFollowed(d.open, a.v, d.request, b.v);
    }
  }

  lemma BandTick(c: Settings, d: Demand, n: Plant, b: Plant)
    requires SlicesHappen(c, d) && TickStep(c, d, n, b)
    requires PlantOk(d.open, n.v) && n.s.demand == d && n.s.lastNum == d.request
    requires |Running(n.v)| == d.open + if n.s.slice.Running(n.now) then 1 else 0
    ensures Banded(d, b)
  {
    if StartsSlice(c, n.now, n.s, d) {
      SwitchFollowed(d.open, n.v, d.request, b.v);
    } else {
      NothingFollowed(d.open, n.v, b.v);
    }
  }

  lemma BandSecond(c: Settings, d: Demand, a: Plant, b: Plant)
    requires SlicesHappen(c, d) && Banded(d, a) && SecondStep(c, d, a, b)
    ensures Banded(d, b)
  {
    var m: Plant, n: Plant :|
      && Elapse(a, m)
      && (if m.s.slice.due == m.now then ExpireStep(m, n) else n == m)
      && (if n.s.ctrl.due == n.now then TickStep(c, d, n, b) else b == n);
    ElapseCounted(d.open, a, m);
    NothingFollowed(d.open, a.v, m.v);
    if m.s.slice.due == m.now {
      ExpireCounted(d.open, m, n);
    }
    if n.s.ctrl.due == n.now {
      BandTick(c, d, n, b);
    }
  }

  lemma {:induction false} RunKeepsBand(c: Settings, d: Demand, run: seq<Plant>, i: nat)
    requires SlicesHappen(c, d) && IsRun(c, d, run) && 1 <= i < |run|
    ensures Banded(d, run[i])
  {
    if i == 1 {
      BandPass(c, d, run[0], run[1]);
    } else {
      RunKeepsBand(c, d, run, i - 1);
      assert Step(c, d, run[i - 1], run[i]);
      if PassStep(c, d, run[i - 1], run[i]) {
        BandPass(c, d, run[i - 1], run[i]);
      } else {
        BandSecond(c, d, run[i - 1], run[i]);
      }
    }
  }

  predicate AnySlices(c: Settings, d: Demand) {
    SlicesHappen(c, d) || SlicesIdle(c, d)
  }

  lemma SteadySplits(c: Settings, heating: bool)
    requires Steady(c)
    ensures AnySlices(c, D(c, heating))
  {
  }

  lemma RunKeepsPlant(c: Settings, d: Demand, run: seq<Plant>, i: nat)
    requires AnySlices(c, d) && IsRun(c, d, run) && 1 <= i < |run|
    ensures PlantOk(d.open, run[i].v) && d.open <= |Running(run[i].v)| <= d.open + 1
  {
    if SlicesHappen(c, d) {
      RunKeepsBand(c, d, run, i);
    } else {
      RunKeepsLevel(c, d, run, i);
    }
  }

  /** Under any steady settings the running number of fans never leaves the band of one fan: with slices
      that end in their period or outlast it, without slices and with empty ones. */
  lemma CountStaysInBand(c: Settings, heating: bool, d: Demand, run: seq<Plant>, i: nat)
    requires Steady(c) && d == D(c, heating) && IsRun(c, d, run) && 1 <= i < |run|
    ensures d.open <= |Running(run[i].v)| <= d.open + 1
  {
    SteadySplits(c, heating);
    RunKeepsPlant(c, d, run, i);
  }

  lemma StepTime(c: Settings, d: Demand, a: Plant, b: Plant)
    requires Step(c, d, a, b)
    ensures a.now <= b.now <= a.now + 1
  {
  }

  /** A run passes through every second up to its last one. */
  lemma {:induction false} SecondReached(c: Settings, d: Demand, run: seq<Plant>, n: nat, t: nat) returns (i: nat)
    requires IsRun(c, d, run) && 1 <= n < |run| && run[1].now <= t <= run[n].now
    ensures 1 <= i <= n && run[i].now == t
  {
    if run[n].now == t {
      i := n;
    } else {
      assert Step(c, d, run[n - 1], run[n]);
      StepTime(c, d, run[n - 1], run[n]);
      i := SecondReached(c, d, run, n - 1, t);
    }
  }

  /** When an extra fan is requested, a run that lasts as long as its slice closes it again if and only
      if the slice is not empty: an empty slice never ends. */
  lemma EmptySliceNeverEnds(c: Settings, d: Demand, run: seq<Plant>)
    requires (SlicesWell(c, d) || SlicesEmpty(c, d)) && IsRun(c, d, run)
    requires run[|run| - 1].now >= run[0].now + d.time
    ensures (exists i :: 1 <= i < |run| && |Running(run[i].v)| == d.open) <==> d.time > 0
  {
    if d.time > 0 {
      var i := SecondReached(c, d, run, |run| - 1, run[0].now + d.time);
      var k := RunInPeriods(c, d, run, i);
      ClosedAfterSlice(d, c.ctrlPeriod, d.open, run[0].now, k, Counted(run[i]));
      assert |Running(run[i].v)| == d.open;
    } else {
      forall i | 1 <= i < |run|
        ensures |Running(run[i].v)| == d.open + 1
      {
        RunWithEmptySlices(c, d, run, i);
      }
    }
  }

  // ------------------------------------------------------------------------------------------
  // Runs begin and go on
  // ------------------------------------------------------------------------------------------

  lemma PassHappens(c: Settings, d: Demand, a: Plant) returns (b: Plant)
    requires PlantOk(d.open, a.v)
    ensures PassStep(c, d, a, b)
  {
    var (t, p) := PassOutcome(c, a.now, a.s.(demand := d), a.v);
    SwitchSizes(a.v, d.request);
    EligibleSplit(a.v);
    PlanSizes(a.v, AlwaysOpenCloses(|Running(a.v)|, d.open, d.request), d.open - |Running(a.v)|);
    FollowedFollows(d.open, a.v, p);
    b := Plant(a.now, t, Followed(a.v, p), a.delivered);
  }

  /** From any start there is a run. */
  lemma RunBegins(c: Settings, d: Demand, a: Plant) returns (run: seq<Plant>)
    requires Starts(d, a)
    ensures |run| == 2 && run[0] == a && IsRun(c, d, run)
  {
    var b := PassHappens(c, d, a);
    run := [a, b];
  }

  /** Every run can be continued by another second, so that every number of periods is reached. */
  lemma RunGoesOn(c: Settings, d: Demand, run: seq<Plant>) returns (b: Plant)
    requires AnySlices(c, d) && IsRun(c, d, run)
    ensures IsRun(c, d, run + [b]) && b.now == run[|run| - 1].now + 1
  {
    var last := |run| - 1;
    RunKeepsPlant(c, d, run, last);
    b := SecondHappens(c, d, run[last]);
    var longer := run + [b];
    forall i, j | 1 <= i && j == i + 1 < |longer|
      ensures Step(c, d, longer[i], longer[j])
    {
      if i < last {
        assert Step(c, d, run[i], run[j]);
      }
    }
  }

  /** The factory settings start a run on two idle fans. */
  lemma FactoryStarts(now: nat) returns (a: Plant)
    ensures a.now == now && Starts(D(FACTORY, false), a)
  {
    FactoryPlant(false);
    var idle := FanState(Inputs(false, false, true, 0, 0), Drive(ConstantFreq, 0, 0, 0, 0),
                         Watch(false, 0, false), Off, Off);
    a := Plant(now, Sched(Demand(54000, 1, 2, 900), 0, 0, STOPPED, STOPPED), [idle, idle], 0);
    assert Eligible(a.v) == {0, 1} && AllRunning(a.v) == Running(a.v) == {};
  }
}
