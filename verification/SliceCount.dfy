/**
 The account of a run in which, in every control period, one more fan runs for a slice of time: the
 clock, the scheduling state, how many of the counted fans run and the fan-seconds they have delivered.
 `low` of them run all the time. On a plant of constant fans all fans are counted; on a plant with a
 variable fan only that one is, with `low` at 0.
 */
module SliceCounts {
  import opened Common
  import opened Demands
  import opened FanSchedule
  import opened Timers

  datatype Count = Count(now: nat, s: Sched, n: nat, delivered: nat)

  /** The scheduling state at the start of a period. */
  function Opening(d: Demand, period: nat, now: nat): Sched {
    Sched(d, d.request, d.time, Timer(now + d.time), Timer(now + period))
  }

  ghost predicate CountPass(d: Demand, period: nat, low: nat, x: Count, y: Count) {
    && y.now == x.now && y.delivered == x.delivered
    && (x.s.ctrl.Running(x.now) && x.s.lastNum == d.request ==>
          && y.s == x.s
          && (x.s.slice.Running(x.now) && x.n == low + 1 ==> y.n == low + 1)
          && (!x.s.slice.Running(x.now) && x.n == low ==> y.n == low))
    && (!x.s.ctrl.Running(x.now) && !x.s.slice.Running(x.now) && x.s.lastNum == d.request ==>
          y.s == Opening(d, period, x.now) && y.n == low + 1)
  }

  /** A second: everyone running delivers, an ending slice closes one fan, an ending period opens the
      next one. */
  ghost predicate CountSecond(d: Demand, period: nat, low: nat, x: Count, y: Count) {
    var now := x.now + 1;
    var ends := x.s.slice.due == now;
    && y.now == now && y.delivered == x.delivered + x.n
    && (x.s.ctrl.due == now && x.s.slice.due <= now && x.s.lastNum == d.request ==>
          y.s == Opening(d, period, now) && y.n == low + 1)
    && (x.s.ctrl.due != now ==> y.s == x.s && y.n == if ends && x.n > 0 then x.n - 1 else x.n)
  }

  /** The period under way began at `start`, when `before` fan-seconds had been delivered. The extra fan
      runs for the first `time` seconds of it. */
  ghost predicate InPeriod(d: Demand, period: nat, low: nat, start: nat, before: nat, x: Count) {
    && start <= x.now < start + period
    && x.s == Opening(d, period, start)
    && x.n == (if x.now - start < d.time then low + 1 else low)
    && x.delivered == before + low * (x.now - start) + Min(x.now - start, d.time)
  }

  lemma PassKeepsPeriod(d: Demand, period: nat, low: nat, start: nat, before: nat, x: Count, y: Count)
    requires InPeriod(d, period, low, start, before, x) && CountPass(d, period, low, x, y)
    ensures InPeriod(d, period, low, start, before, y)
  {
  }

  function PerPeriod(low: nat, time: nat, period: nat): nat {
    low * period + time
  }

  lemma SecondKeepsPeriod(d: Demand, period: nat, low: nat, start: nat, before: nat, x: Count, y: Count)
    requires 0 < d.time < period
    requires InPeriod(d, period, low, start, before, x) && CountSecond(d, period, low, x, y)
    ensures if y.now < start + period then InPeriod(d, period, low, start, before, y)
            else InPeriod(d, period, low, start + period, before + PerPeriod(low, d.time, period), y)
  {
    assert low * (x.now + 1 - start) == low * (x.now - start) + low;
    if x.now + 1 == start + period {
      assert x.now + 1 - start == period;
    }
  }

  /** `unit` taken `k` times. */
  function Times(unit: nat, k: nat): nat {
    if k == 0 then 0 else Times(unit, k - 1) + unit
  }

  lemma {:induction false} TimesIsProduct(unit: nat, k: nat)
    ensures Times(unit, k) == unit * k
  {
    if k == 0 {
    } else {
      TimesIsProduct(unit, k - 1);
    }
  }

  lemma TimesNext(unit: nat, k: nat, j: nat)
    requires k <= j <= k + 1
    ensures Times(unit, j) == Times(unit, k) + if j == k then 0 else unit
  {
  }

  lemma TimesAtLeast(unit: nat, k: nat)
    ensures k > 0 ==> Times(unit, k) >= unit
  {
  }

  /** The state at one moment of a run: `k` whole periods lie behind it. */
  ghost predicate AtPeriod(d: Demand, period: nat, low: nat, from: nat, k: nat, x: Count) {
    InPeriod(d, period, low, from + Times(period, k), Times(PerPeriod(low, d.time, period), k), x)
  }

  lemma CountAdvances(d: Demand, period: nat, low: nat, from: nat, k: nat, x: Count, y: Count)
    returns (k': nat)
    requires 0 < d.time < period && AtPeriod(d, period, low, from, k, x)
    requires CountPass(d, period, low, x, y) || CountSecond(d, period, low, x, y)
    ensures AtPeriod(d, period, low, from, k', y)
  {
    var start, before := from + Times(period, k), Times(PerPeriod(low, d.time, period), k);
    if CountPass(d, period, low, x, y) {
      PassKeepsPeriod(d, period, low, start, before, x, y);
      k' := k;
    } else {
      SecondKeepsPeriod(d, period, low, start, before, x, y);
      k' := if y.now < start + period then k else k + 1;
    }
  }

  lemma AtStart(d: Demand, period: nat, low: nat, x: Count)
    requires 0 < d.time < period && x.s == Opening(d, period, x.now) && x.n == low + 1 && x.delivered == 0
    ensures AtPeriod(d, period, low, x.now, 0, x)
  {
    assert Times(period, 0) == 0 && Times(PerPeriod(low, d.time, period), 0) == 0;
  }

  lemma Boundary(d: Demand, period: nat, low: nat, start: nat, before: nat, x: Count)
    requires InPeriod(d, period, low, start, before, x) && x.now == start
    ensures x.delivered == before
  {
  }

  /** Exactly `k` periods behind it, the run has delivered exactly `k` times its share. */
  lemma PeriodsDelivered(d: Demand, period: nat, low: nat, from: nat, k: nat, j: nat, x: Count)
    requires 0 < period && AtPeriod(d, period, low, from, j, x) && x.now == from + k * period
    ensures x.delivered == k * PerPeriod(low, d.time, period)
  {
    var share := PerPeriod(low, d.time, period);
    var start, before := from + Times(period, j), Times(share, j);
    assert start <= x.now < start + period;
    TimesIsProduct(period, j);
    SamePeriod(j, k, period);
    TimesIsProduct(share, j);
    Boundary(d, period, low, start, before, x);
  }

  lemma SamePeriod(j: nat, k: nat, period: nat)
    requires period > 0 && period * j <= k * period < period * j + period
    ensures j == k
  {
    if j < k {
      MulMono(j + 1, k, period);
    } else if k < j {
      MulMono(k + 1, j, period);
    }
  }

  /** In the first period, the extra fan has been closed as soon as the slice is over. */
  lemma ClosedAfterSlice(d: Demand, period: nat, low: nat, from: nat, j: nat, x: Count)
    requires 0 < d.time < period && AtPeriod(d, period, low, from, j, x) && x.now == from + d.time
    ensures x.n == low
  {
    TimesAtLeast(period, j);
  }

  // ------------------------------------------------------------------------------------------
  // Periods that may be cut short, when no fan runs all the time
  // ------------------------------------------------------------------------------------------

  /** `k` periods lie behind, which together were cut short by `early` seconds, each after its slice. */
  ghost predicate Shifted(d: Demand, period: nat, from: nat, k: nat, early: nat, x: Count) {
    && early <= Times(period, k)
    && InPeriod(d, period, 0, from + Times(period, k) - early, Times(d.time, k), x)
  }

  lemma ShiftedStart(d: Demand, period: nat, x: Count)
    requires 0 < d.time < period && x.s == Opening(d, period, x.now) && x.n == 1 && x.delivered == 0
    ensures Shifted(d, period, x.now, 0, 0, x)
  {
    assert Times(period, 0) == Times(d.time, 0) == 0;
  }

  lemma ShiftedSecond(d: Demand, period: nat, from: nat, k: nat, early: nat, x: Count, y: Count) returns (k': nat)
    requires 0 < d.time < period && Shifted(d, period, from, k, early, x) && CountSecond(d, period, 0, x, y)
    ensures Shifted(d, period, from, k', early, y)
    ensures y.now < from + Times(period, k) + period - early ==> k' == k
  {
    var start := from + Times(period, k) - early;
    SecondKeepsPeriod(d, period, 0, start, Times(d.time, k), x, y);
    k' := if y.now < start + period then k else k + 1;
  }

  /** The period begins anew, once its slice is over. */
  lemma ShiftedRestart(d: Demand, period: nat, from: nat, k: nat, early: nat, x: Count, y: Count)
    returns (early': nat)
    requires 0 < d.time < period && Shifted(d, period, from, k, early, x) && !x.s.slice.Running(x.now)
    requires y == Count(x.now, Opening(d, period, x.now), 1, x.delivered)
    ensures Shifted(d, period, from, k + 1, early', y) && from + Times(period, k + 1) == x.now + early'
    ensures early' > early && y.s.ctrl != x.s.ctrl
  {
    early' := from + Times(period, k) + period - x.now;
  }

  /** `k` periods and `early` seconds are `j` periods and `rest` seconds: more slices fit, or more of one. */
  lemma Overrun(period: nat, t: nat, k: nat, j: nat, early: nat, rest: nat)
    requires 0 < t < period && k * period + early == j * period + rest && rest < period
    ensures j * t + Min(rest, t) >= k * t
    ensures j * t + Min(rest, t) == k * t <==> early == 0
  {
    if j < k {
      MulMono(j + 1, k, period);
    } else if j > k {
      MulMono(k + 1, j, period);
      MulMono(k + 1, j, t);
    }
  }

  /** At a time of `k` periods, exactly `k` slices have been delivered if and only if none was cut short. */
  lemma ShiftedDelivers(d: Demand, period: nat, from: nat, k: nat, j: nat, early: nat, x: Count)
    requires 0 < d.time < period && Shifted(d, period, from, j, early, x) && x.now == from + k * period
    ensures x.delivered >= k * d.time && (x.delivered == k * d.time <==> early == 0)
  {
    TimesIsProduct(period, j);
    TimesIsProduct(d.time, j);
    Overrun(period, d.time, k, j, early, x.now - (from + Times(period, j) - early));
  }

  // ------------------------------------------------------------------------------------------
  // Runs in which the number of fans never changes
  // ------------------------------------------------------------------------------------------

  /** A step with `n` fans running before and after it. */
  ghost predicate CountLevel(n: nat, x: Count, y: Count) {
    && x.n == y.n == n
    && if y.now == x.now then y.delivered == x.delivered else y.now == x.now + 1 && y.delivered == x.delivered + n
  }

  ghost predicate LevelSince(n: nat, from: nat, x: Count) {
    x.n == n && from <= x.now && x.delivered == Times(n, x.now - from)
  }

  lemma LevelAdvances(n: nat, from: nat, x: Count, y: Count)
    requires LevelSince(n, from, x) && CountLevel(n, x, y)
    ensures LevelSince(n, from, y)
  {
    TimesNext(n, x.now - from, y.now - from);
  }

  lemma LevelDelivers(n: nat, from: nat, x: Count)
    requires LevelSince(n, from, x)
    ensures x.delivered == n * (x.now - from)
  {
    TimesIsProduct(n, x.now - from);
  }
}
