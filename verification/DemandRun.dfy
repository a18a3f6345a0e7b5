/**
 The demand and its scheduling state over any sequence of control passes, ticks, recalculations and CO2
 overrides, whatever the settings, the running mode, the fans and the type of the plant are each time.
 */
module DemandRuns {
  import opened Common
  import opened Demands
  import opened ExAirFans
  import opened FanSchedule
  import opened Timers
  import opened VariableSchedule

  datatype Event =
    | Recalculated(e: Scene)
    | Passed(e: Scene, v: seq<FanState>)
    | Ticked(e: Scene, v: seq<FanState>)
    | Ventilated(e: Scene, v: seq<FanState>)
    | Closed

  /** There is a fan, and where the demand is calculated the settings are within their limits. */
  predicate Possible(event: Event) {
    match event
    case Recalculated(e) => e.Ok() && InRange(e.c)
    case Passed(e, v) => e.Ok() && InRange(e.c) && |v| > 0
    case Ticked(e, v) => e.Ok() && InRange(e.c) && |v| > 0
    case Ventilated(e, v) => |v| > 0
    case Closed => true
  }

  function After(s: Sched, event: Event): Sched
    requires Possible(event)
  {
    match event
    case Recalculated(e) => s.(demand := NextDemand(e.c, e.heating, e.usable, s.demand))
    case Passed(e, v) => DemandResult(e, s, v).sched
    case Ticked(e, v) => TickResult(e, s, v).sched
    case Ventilated(e, v) => VentilateResult(e, s, v).sched
    case Closed => s.(slice := STOPPED, ctrl := STOPPED)
  }

  function Replay(s: Sched, events: seq<Event>): Sched
    requires forall event :: event in events ==> Possible(event)
  {
    if events == [] then s else After(Replay(s, events[..|events| - 1]), events[|events| - 1])
  }

  /** At most three fans run all the time and at most four are requested, no fewer than those and, but
      for the override's three or four, one more at most. Every value fits its field. */
  predicate InOrder(s: Sched) {
    && DemandOk(s.demand) && (s.demand.request <= s.demand.open + 1 || s.demand.request >= 3)
    && s.demand.volume <= MAX_VOLUME && s.demand.time < TWO_32 && s.lastNum <= 4
  }

  lemma CalculatedInOrder(e: Scene, s: Sched)
    requires e.Ok() && InRange(e.c) && InOrder(s)
    ensures InOrder(s.(demand := NextDemand(e.c, e.heating, e.usable, s.demand)))
  {
    VolumeBound(e.c, e.heating);
    TimeBound(e, s.demand);
  }

  lemma TimeBound(e: Scene, was: Demand)
    requires e.Ok() && was.time < TWO_32
    ensures NextDemand(e.c, e.heating, e.usable, was).time < TWO_32
  {
    if e.c.ratedVol > 0 {
      var residual := Residual(Volume(e.c, e.heating), e.c.ratedVol);
      QuotientFits(residual * e.c.ctrlPeriod, e.c.ratedVol);
      if e.usable {
        QuotientFits(U32(residual * 500) / e.c.minFreq * e.c.ctrlPeriod, e.c.ratedVol);
      }
    }
  }

  lemma QuotientFits(x: int, rated: nat)
    requires rated > 0
    ensures U32(x) / rated < TWO_32
  {
  }

  lemma TickInOrder(e: Scene, s: Sched, v: seq<FanState>)
    requires e.Ok() && InRange(e.c) && |v| > 0 && InOrder(s)
    ensures InOrder(TickResult(e, s, v).sched)
  {
    CalculatedInOrder(e, s);
  }

  lemma PassInOrder(e: Scene, s: Sched, v: seq<FanState>)
    requires e.Ok() && InRange(e.c) && |v| > 0 && InOrder(s)
    ensures InOrder(DemandResult(e, s, v).sched)
  {
    CalculatedInOrder(e, s);
    if e.usable && Narrow(e.c) > 0 {
      NextDemandSettles(e.c, e.heating, e.usable, s.demand);
    }
  }

  lemma StepInOrder(s: Sched, event: Event)
    requires Possible(event) && InOrder(s)
    ensures InOrder(After(s, event))
  {
    match event
    case Recalculated(e) => CalculatedInOrder(e, s);
    case Passed(e, v) => PassInOrder(e, s, v);
    case Ticked(e, v) => TickInOrder(e, s, v);
    case Ventilated(e, v) =>
    case Closed =>
  }

  /** Whatever happens in whatever order, the demand stays in order. */
  lemma {:induction false} AlwaysInOrder(s: Sched, events: seq<Event>)
    requires InOrder(s) && forall event :: event in events ==> Possible(event)
    ensures InOrder(Replay(s, events))
    decreases |events|
  {
    if events == [] {
    } else {
      AlwaysInOrder(s, events[..|events| - 1]);
      StepInOrder(Replay(s, events[..|events| - 1]), events[|events| - 1]);
    }
  }

  const POWER_UP := Sched(Demand(0, 0, 0, 0), 0, 0, STOPPED, STOPPED)

  /** So from power-up on it always is. */
  lemma InOrderFromPowerUp(events: seq<Event>)
    requires forall event :: event in events ==> Possible(event)
    ensures InOrder(Replay(POWER_UP, events))
  {
    AlwaysInOrder(POWER_UP, events);
  }
}
