/**
 The automatic choice of running mode. Modes form a path HEAT - FAN - WET - COOL; each directed edge
 of the path has a temperature condition, a condition timer that must have run out, and an interval
 timer that is armed when the mode at its start is entered.
 */
module UnitModes {
  import opened Common
  import opened Timers

  /** The six edges, in the order the firmware numbers their settings. */
  datatype Edge = FanToWet | FanToHeat | WetToCool | WetToFan | CoolToWet | HeatToFan

  datatype PerEdge<T> = PerEdge(fanWet: T, fanHeat: T, wetCool: T, wetFan: T, coolWet: T, heatFan: T) {
    function At(e: Edge): T {
      match e
      case FanToWet => fanWet
      case FanToHeat => fanHeat
      case WetToCool => wetCool
      case WetToFan => wetFan
      case CoolToWet => coolWet
      case HeatToFan => heatFan
    }

    function With(e: Edge, t: T): (r: PerEdge<T>)
      ensures forall f :: r.At(f) == if f == e then t else At(f)
    {
      match e
      case FanToWet => this.(fanWet := t)
      case FanToHeat => this.(fanHeat := t)
      case WetToCool => this.(wetCool := t)
      case WetToFan => this.(wetFan := t)
      case CoolToWet => this.(coolWet := t)
      case HeatToFan => this.(heatFan := t)
    }
  }

  function Source(e: Edge): RunMode {
    match e
    case FanToWet => RunFan
    case FanToHeat => RunFan
    case WetToCool => RunWet
    case WetToFan => RunWet
    case CoolToWet => RunCool
    case HeatToFan => RunHeat
  }

  function Target(e: Edge): RunMode {
    match e
    case FanToWet => RunWet
    case FanToHeat => RunHeat
    case WetToCool => RunCool
    case WetToFan => RunFan
    case CoolToWet => RunWet
    case HeatToFan => RunFan
  }

  /** Edges toward COOL wait for warmth, edges toward HEAT for cold. */
  predicate Upward(e: Edge) {
    e.FanToWet? || e.WetToCool? || e.HeatToFan?
  }

  /** Temperatures in tenths of a degree; waits in minutes. `idleWait` and `heatIdleWait` belong to
      the two exits taken when all compressors stand idle. */
  datatype Config = Config(
    tempSet: nat, energyTemp: nat, tempDeviat: nat, adjust: PerEdge<nat>,
    wait: PerEdge<nat>, idleWait: nat, heatIdleWait: nat, interval: PerEdge<nat>)

  datatype ModeState = ModeState(
    now: nat, sysMode: SystemMode, sysState: SystemState, mode: RunMode, ambient: int, config: Config,
    cond: PerEdge<Timer>, gap: PerEdge<Timer>, idle: Timer, heatIdle: Timer,
    firstRun: bool, compsIdle: bool, anyRunning: bool)
  {
    predicate Active() {
      sysMode.ModeAuto? && !sysState.StateClosed?
    }
  }

  /** The temperature that the WET-COOL edges compare with: no lower than the energy-saving one. The
      subtraction is kept in 16 bits. */
  function CoolTarget(c: Config): nat {
    if c.tempSet < c.energyTemp then U16(c.energyTemp - c.tempDeviat) else c.tempSet
  }

  function Reference(c: Config, e: Edge): nat {
    if e.WetToCool? || e.CoolToWet? then CoolTarget(c) else c.tempSet
  }

  /** The temperature condition of an edge. */
  predicate Wanted(ambient: int, c: Config, e: Edge) {
    if Upward(e) then ambient > Reference(c, e) + c.adjust.At(e)
    else ambient < Reference(c, e) - c.adjust.At(e)
  }

  predicate Fires(s: ModeState, e: Edge) {
    && s.Active() && s.mode == Source(e) && Wanted(s.ambient, s.config, e)
    && !s.cond.At(e).Running(s.now) && !s.gap.At(e).Running(s.now)
  }

  /** The exits for idle compressors, not counting a first run that has yet to start one. */
  predicate CoolIdleExit(s: ModeState) {
    && s.Active() && s.mode.RunCool? && !s.firstRun && s.compsIdle
    && !s.idle.Running(s.now) && !s.gap.coolWet.Running(s.now)
  }

  predicate HeatIdleExit(s: ModeState) {
    && s.Active() && s.mode.RunHeat? && !s.firstRun && s.compsIdle
    && !s.heatIdle.Running(s.now) && !s.gap.heatFan.Running(s.now)
  }

  function StateOf(m: RunMode): SystemState {
    match m
    case NoRunMode => StateClosed
    case RunCool => StateCool
    case RunHeat => StateHeat
    case RunFan => StateFan
    case RunWet => StateWet
  }

  /** Every running unit reports the mode it was set to. */
  function ModeSet(s: ModeState, m: RunMode): ModeState {
    s.(mode := m, sysState := if s.anyRunning && m != NoRunMode then StateOf(m) else s.sysState)
  }

  function Armed(s: ModeState, minutes: nat): Timer {
    Regist(s.now, minutes * 60)
  }

  /** Entering a mode automatically arms the interval timers of the edges that lead on from it; the
      edge FAN to HEAT has none. Entering COOL or HEAT notes whether a compressor has yet to start. */
  function Entered(s: ModeState, m: RunMode): ModeState {
    var t, p := ModeSet(s, m), s.config.interval;
    match m
    case RunWet => t.(gap := s.gap.(wetCool := Armed(s, p.wetCool), wetFan := Armed(s, p.wetFan)))
    case RunFan => t.(gap := s.gap.(fanWet := Armed(s, p.fanWet)))
    case RunCool => t.(gap := s.gap.(coolWet := Armed(s, p.coolWet)), firstRun := s.compsIdle)
    case RunHeat => t.(gap := s.gap.(heatFan := Armed(s, p.heatFan)), firstRun := s.compsIdle)
    case NoRunMode => t
  }

  /** The mode that the automatic step chooses; the current one if nothing fires. */
  function Choice(s: ModeState): RunMode {
    if Fires(s, FanToWet) || Fires(s, CoolToWet) || CoolIdleExit(s) then RunWet
    else if Fires(s, FanToHeat) then RunHeat
    else if Fires(s, WetToCool) then RunCool
    else if Fires(s, WetToFan) || Fires(s, HeatToFan) || HeatIdleExit(s) then RunFan
    else s.mode
  }

  /** The automatic step. */
  function Adjusted(s: ModeState): (r: ModeState)
    ensures r.mode == Choice(s) && r.now == s.now
    ensures Choice(s) == s.mode ==> r == s
  {
    if Choice(s) == s.mode then s else Entered(s, Choice(s))
  }

  predicate Waits(s: ModeState, e: Edge) {
    s.mode == Source(e) && Wanted(s.ambient, s.config, e) && !s.cond.At(e).Running(s.now)
  }

  /** The edge whose condition has just been seen, in the order the firmware looks. */
  function Noticed(s: ModeState): Option<Edge> {
    if Waits(s, FanToWet) then Some(FanToWet)
    else if Waits(s, FanToHeat) then Some(FanToHeat)
    else if Waits(s, WetToCool) then Some(WetToCool)
    else if Waits(s, WetToFan) then Some(WetToFan)
    else if Waits(s, CoolToWet) then Some(CoolToWet)
    else if Waits(s, HeatToFan) then Some(HeatToFan)
    else None
  }

  /** The watch step arms the condition timer of that edge, or the idle timer of COOL. In HEAT it
      always declares the compressors' first run, so the idle timer of HEAT is never armed. */
  function Watched(s: ModeState): (r: ModeState)
    ensures r.mode == s.mode && r.now == s.now && r.gap == s.gap && r.heatIdle == s.heatIdle
    ensures s.mode.RunCool? ==> r.firstRun == s.firstRun
    ensures s.firstRun ==> r.firstRun
  {
    if !s.Active() then s
    else
      var t := if s.mode.RunHeat? then s.(firstRun := true) else s;
      match Noticed(s)
      case Some(e) => t.(cond := s.cond.With(e, Armed(s, s.config.wait.At(e))))
      case None =>
        if s.mode.RunCool? && !s.firstRun && s.compsIdle && !s.idle.Running(s.now)
        then s.(idle := Armed(s, s.config.idleWait)) else t
  }

  // ------------------------------------------------------------------------------------------
  // What the steps do, from reading, target, tolerances and timers alone
  // ------------------------------------------------------------------------------------------

  /** HEAT is left for FAN when it is warm, or when no compressor has anything to do; both ways wait for
      the interval, and each for a timer of its own. */
  lemma StepFromHeat(s: ModeState)
    requires s.sysMode == ModeAuto && s.sysState != StateClosed && s.mode == RunHeat
    ensures var warm := s.ambient > s.config.tempSet + s.config.adjust.heatFan && s.now >= s.cond.heatFan.due;
            var idle := !s.firstRun && s.compsIdle && s.now >= s.heatIdle.due;
            Adjusted(s).mode == if s.now >= s.gap.heatFan.due && (warm || idle) then RunFan else RunHeat
  {
  }

  /** FAN is left for WET when it is warm, and for HEAT when it is cold. */
  lemma StepFromFan(s: ModeState)
    requires s.sysMode == ModeAuto && s.sysState != StateClosed && s.mode == RunFan
    ensures var warm := s.ambient > s.config.tempSet + s.config.adjust.fanWet
                        && s.now >= s.cond.fanWet.due && s.now >= s.gap.fanWet.due;
            var cold := s.ambient < s.config.tempSet - s.config.adjust.fanHeat
                        && s.now >= s.cond.fanHeat.due && s.now >= s.gap.fanHeat.due;
            Adjusted(s).mode == if warm then RunWet else if cold then RunHeat else RunFan
  {
  }

  /** WET is left for COOL when it is warmer than the energy-saving target too, and for FAN when it is
      cold. The energy-saving target is lowered in 16 bits. */
  lemma StepFromWet(s: ModeState)
    requires s.sysMode == ModeAuto && s.sysState != StateClosed && s.mode == RunWet
    ensures var c := s.config;
            var goal := if c.tempSet < c.energyTemp then (c.energyTemp - c.tempDeviat) % 65536 else c.tempSet;
            var warm := s.ambient > goal + c.adjust.wetCool
                        && s.now >= s.cond.wetCool.due && s.now >= s.gap.wetCool.due;
            var cold := s.ambient < c.tempSet - c.adjust.wetFan
                        && s.now >= s.cond.wetFan.due && s.now >= s.gap.wetFan.due;
            Adjusted(s).mode == if warm then RunCool else if cold then RunFan else RunWet
  {
  }

  /** COOL is left for WET when it is colder than the energy-saving target, or when no compressor has
      anything to do. */
  lemma StepFromCool(s: ModeState)
    requires s.sysMode == ModeAuto && s.sysState != StateClosed && s.mode == RunCool
    ensures var c := s.config;
            var goal := if c.tempSet < c.energyTemp then (c.energyTemp - c.tempDeviat) % 65536 else c.tempSet;
            var cold := s.ambient < goal - c.adjust.coolWet && s.now >= s.cond.coolWet.due;
            var idle := !s.firstRun && s.compsIdle && s.now >= s.idle.due;
            Adjusted(s).mode == if s.now >= s.gap.coolWet.due && (cold || idle) then RunWet else RunCool
  {
  }

  /** In any other system mode, with the system closed or no mode set, no step changes anything. */
  lemma StepsRest(s: ModeState)
    requires s.sysMode != ModeAuto || s.sysState == StateClosed || s.mode == NoRunMode
    ensures Adjusted(s) == s && Watched(s) == s
  {
  }

  /** A step that changes the mode arms the intervals of the new mode and no others, notes in COOL and HEAT
      whether a compressor has yet to start, shows the mode if a unit runs, and leaves the rest alone. */
  lemma StepEnters(s: ModeState)
    requires Adjusted(s).mode != s.mode
    ensures var t, p, now := Adjusted(s), s.config.interval, s.now;
            && t == s.(mode := t.mode, sysState := t.sysState, gap := t.gap, firstRun := t.firstRun)
            && t.sysState == (if !s.anyRunning then s.sysState
                              else match t.mode
                                   case RunCool => StateCool
                                   case RunHeat => StateHeat
                                   case RunFan => StateFan
                                   case RunWet => StateWet
                                   case NoRunMode => s.sysState)
            && t.firstRun == (if t.mode in {RunCool, RunHeat} then s.compsIdle else s.firstRun)
            && t.gap == match t.mode
                 case RunWet => s.gap.(wetCool := Timer(now + 60 * p.wetCool), wetFan := Timer(now + 60 * p.wetFan))
                 case RunFan => s.gap.(fanWet := Timer(now + 60 * p.fanWet))
                 case RunCool => s.gap.(coolWet := Timer(now + 60 * p.coolWet))
                 case RunHeat => s.gap.(heatFan := Timer(now + 60 * p.heatFan))
                 case NoRunMode => s.gap
  {
  }

  /** In FAN and WET the watch arms the condition timer of the first edge whose condition holds and is not
      being waited for, warm before cold. */
  lemma WatchInFan(s: ModeState)
    requires s.sysMode == ModeAuto && s.sysState != StateClosed && s.mode == RunFan
    ensures var warm := s.ambient > s.config.tempSet + s.config.adjust.fanWet && s.now >= s.cond.fanWet.due;
            var cold := s.ambient < s.config.tempSet - s.config.adjust.fanHeat && s.now >= s.cond.fanHeat.due;
            Watched(s) ==
              if warm then s.(cond := s.cond.(fanWet := Timer(s.now + 60 * s.config.wait.fanWet)))
              else if cold then s.(cond := s.cond.(fanHeat := Timer(s.now + 60 * s.config.wait.fanHeat)))
              else s
  {
  }

  lemma WatchInWet(s: ModeState)
    requires s.sysMode == ModeAuto && s.sysState != StateClosed && s.mode == RunWet
    ensures var c := s.config;
            var goal := if c.tempSet < c.energyTemp then (c.energyTemp - c.tempDeviat) % 65536 else c.tempSet;
            var warm := s.ambient > goal + c.adjust.wetCool && s.now >= s.cond.wetCool.due;
            var cold := s.ambient < c.tempSet - c.adjust.wetFan && s.now >= s.cond.wetFan.due;
            Watched(s) ==
              if warm then s.(cond := s.cond.(wetCool := Timer(s.now + 60 * c.wait.wetCool)))
              else if cold then s.(cond := s.cond.(wetFan := Timer(s.now + 60 * c.wait.wetFan)))
              else s
  {
  }

  /** In COOL it looks at the compressors only when it is not cold, and not before they have run. */
  lemma WatchInCool(s: ModeState)
    requires s.sysMode == ModeAuto && s.sysState != StateClosed && s.mode == RunCool
    ensures var c := s.config;
            var goal := if c.tempSet < c.energyTemp then (c.energyTemp - c.tempDeviat) % 65536 else c.tempSet;
            var cold := s.ambient < goal - c.adjust.coolWet && s.now >= s.cond.coolWet.due;
            Watched(s) ==
              if cold then s.(cond := s.cond.(coolWet := Timer(s.now + 60 * c.wait.coolWet)))
              else if !s.firstRun && s.compsIdle && s.now >= s.idle.due then
                s.(idle := Timer(s.now + 60 * c.idleWait))
              else s
  {
  }

  /** In HEAT it declares a first run whatever it sees. */
  lemma WatchInHeat(s: ModeState)
    requires s.sysMode == ModeAuto && s.sysState != StateClosed && s.mode == RunHeat
    ensures var warm := s.ambient > s.config.tempSet + s.config.adjust.heatFan && s.now >= s.cond.heatFan.due;
            Watched(s) ==
              if warm then
                s.(firstRun := true, cond := s.cond.(heatFan := Timer(s.now + 60 * s.config.wait.heatFan)))
              else s.(firstRun := true)
  {
  }

  // ------------------------------------------------------------------------------------------
  // Runs
  // ------------------------------------------------------------------------------------------

  /** Anything else that happens: time passes, readings, settings, units and the system mode change,
      an operator sets a running mode. None of it touches the timers or the first-run flag. */
  ghost predicate Elsewhere(a: ModeState, b: ModeState) {
    && b.now >= a.now && b.cond == a.cond && b.gap == a.gap
    && b.idle == a.idle && b.heatIdle == a.heatIdle && b.firstRun == a.firstRun
  }

  ghost predicate AutoSwitch(a: ModeState, b: ModeState) {
    b == Adjusted(a) && b.mode != a.mode
  }

  ghost predicate Step(a: ModeState, b: ModeState) {
    b == Adjusted(a) || b == Watched(a) || Elsewhere(a, b)
  }

  ghost predicate Link(run: seq<ModeState>, i: int) {
    0 <= i < |run| - 1 ==> Step(run[i], run[i + 1])
  }

  ghost predicate IsRun(run: seq<ModeState>) {
    forall i :: Link(run, i)
  }

  /** From the automatic entry at step `i` to step `j` the mode stays as entered. */
  ghost predicate Stay(run: seq<ModeState>, i: nat, j: nat) {
    && i < j < |run| && AutoSwitch(run[i], run[i + 1])
    && forall k :: i < k <= j ==> run[k].mode == run[i + 1].mode
  }

  /** The edge whose interval timer guards the way from `m` to `n`. */
  function EdgeBetween(m: RunMode, n: RunMode): (e: Edge)
    requires Adjacent(m, n)
    ensures Source(e) == m && Target(e) == n
  {
    if m.RunCool? then CoolToWet else if m.RunHeat? then HeatToFan
    else if m.RunFan? then (if n.RunWet? then FanToWet else FanToHeat)
    else if n.RunCool? then WetToCool else WetToFan
  }

  predicate Adjacent(m: RunMode, n: RunMode) {
    exists e: Edge :: Source(e) == m && Target(e) == n
  }

  /** The edge that an automatic switch takes; its temperature condition holds unless the switch is
      for idle compressors. */
  lemma SwitchEdge(a: ModeState) returns (e: Edge)
    requires Choice(a) != a.mode
    ensures a.Active() && Source(e) == a.mode && Target(e) == Choice(a)
    ensures !a.gap.At(e).Running(a.now)
    ensures !CoolIdleExit(a) && !HeatIdleExit(a) ==> Wanted(a.ambient, a.config, e)
  {
    e := if Fires(a, FanToWet) then FanToWet
         else if Fires(a, CoolToWet) || CoolIdleExit(a) then CoolToWet
         else if Fires(a, FanToHeat) then FanToHeat
         else if Fires(a, WetToCool) then WetToCool
         else if Fires(a, WetToFan) then WetToFan
         else HeatToFan;
  }

  /** Automatic switches walk the path one edge at a time, and never while the edge's interval runs. */
  lemma SwitchTakesEdge(a: ModeState, b: ModeState)
    requires AutoSwitch(a, b)
    ensures a.Active() && Adjacent(a.mode, b.mode)
    ensures !a.gap.At(EdgeBetween(a.mode, b.mode)).Running(a.now)
  {
    var e := SwitchEdge(a);
  }

  lemma StepKeepsGap(a: ModeState, b: ModeState, e: Edge)
    requires Step(a, b) && a.mode == b.mode == Source(e)
    ensures b.gap.At(e) == a.gap.At(e) && b.now >= a.now
  {
  }

  /** While the mode stays, no step touches the interval timers of the edges that leave it. */
  lemma {:induction false} StayKeepsGap(run: seq<ModeState>, i: nat, j: nat, e: Edge)
    requires IsRun(run) && i <= j < |run| && forall k :: i <= k <= j ==> run[k].mode == Source(e)
    ensures run[j].gap.At(e) == run[i].gap.At(e) && run[j].now >= run[i].now
    decreases j
  {
    if j > i {
      StayKeepsGap(run, i, j - 1, e);
      assert Link(run, j - 1);
      StepKeepsGap(run[j - 1], run[j], e);
    }
  }

  lemma EntryArms(s: ModeState, m: RunMode, e: Edge)
    requires Source(e) == m
    ensures Entered(s, m).gap.At(e) == if e.FanToHeat? then s.gap.At(e) else Armed(s, s.config.interval.At(e))
  {
  }

  /** A plant that runs in a mode, with every timer stopped. */
  function Still(c: Config, mode: RunMode, ambient: int): ModeState {
    var stopped := PerEdge(STOPPED, STOPPED, STOPPED, STOPPED, STOPPED, STOPPED);
    ModeState(0, ModeAuto, StateOf(mode), mode, ambient, c, stopped, stopped, STOPPED, STOPPED, false, true, true)
  }

  function Uniform(n: nat): PerEdge<nat> {
    PerEdge(n, n, n, n, n, n)
  }

  /** Entering the mode at the start of an edge always arms the edge's interval timer, except for FAN to
      HEAT. */
  lemma EntryArmsExactly(e: Edge)
    ensures (forall s: ModeState :: Entered(s, Source(e)).gap.At(e) == Armed(s, s.config.interval.At(e)))
              <==> !e.FanToHeat?
  {
    var s := Still(Config(200, 0, 0, Uniform(10), Uniform(1), 1, 1, Uniform(1)), RunWet, 200);
    assert Entered(s, RunFan).gap.fanHeat == STOPPED && Armed(s, 1) == Timer(60);
    forall t: ModeState | !e.FanToHeat?
      ensures Entered(t, Source(e)).gap.At(e) == Armed(t, t.config.interval.At(e))
    {
      EntryArms(t, Source(e), e);
    }
  }

  /** A mode entered automatically is not left automatically, along any edge but FAN to HEAT, before
      the interval armed at its entry is over: whatever happens to temperatures, settings and timers
      in between, and whether the exit is for temperature or for idle compressors. */
  lemma MinimumDwell(run: seq<ModeState>, i: nat, j: nat)
    requires IsRun(run) && Stay(run, i, j) && j + 1 < |run| && AutoSwitch(run[j], run[j + 1])
    ensures Adjacent(run[j].mode, run[j + 1].mode)
    ensures var e := EdgeBetween(run[j].mode, run[j + 1].mode);
            !e.FanToHeat? ==> run[j].now >= run[i].now + 60 * run[i].config.interval.At(e)
  {
    SwitchTakesEdge(run[j], run[j + 1]);
    var e := EdgeBetween(run[j].mode, run[j + 1].mode);
    StayKeepsGap(run, i + 1, j, e);
    EntryArms(run[i], run[i + 1].mode, e);
  }

  /** The interval timer of FAN to HEAT is read but never armed. */
  lemma {:induction false} FanToHeatNeverArmed(run: seq<ModeState>, n: nat)
    requires IsRun(run) && n < |run|
    ensures run[n].gap.fanHeat == run[0].gap.fanHeat
  {
    if n > 0 {
      FanToHeatNeverArmed(run, n - 1);
      assert Link(run, n - 1);
    }
  }

  /** So that edge has no dwell. When two timers fall due in one second, the first callback takes WET to
      FAN, and the second one takes FAN on to HEAT if and only if it is cold enough for that too, and
      neither of the edge's timers runs. */
  lemma FanToHeatAtOnce(s: ModeState)
    requires Fires(s, WetToFan) && !Fires(s, WetToCool)
    ensures AutoSwitch(s, Adjusted(s)) && Adjusted(s).mode == RunFan
    ensures Adjusted(Adjusted(s)).mode == RunHeat <==>
              && s.ambient < s.config.tempSet - s.config.adjust.fanHeat
              && !s.cond.fanHeat.Running(s.now) && !s.gap.fanHeat.Running(s.now)
  {
    var t := Adjusted(s);
    assert t == Entered(s, RunFan) && t.Active();
    assert !Wanted(s.ambient, s.config, FanToWet);
  }

  // ------------------------------------------------------------------------------------------
  // Conditions that hold still
  // ------------------------------------------------------------------------------------------

  /** The place of a mode on the path. */
  function Level(m: RunMode): nat {
    match m
    case RunHeat => 0
    case RunFan => 1
    case RunWet => 2
    case RunCool => 3
    case NoRunMode => 4
  }

  /** A step under a fixed reading and fixed settings, without an exit for idle compressors and
      without anybody else setting the mode. */
  ghost predicate FixedStep(ambient: int, c: Config, a: ModeState, b: ModeState) {
    && a.ambient == ambient && a.config == c && b.ambient == ambient && b.config == c
    && !CoolIdleExit(a) && !HeatIdleExit(a)
    && (b == Adjusted(a) || b == Watched(a) || (Elsewhere(a, b) && b.mode == a.mode))
  }

  ghost predicate FixedRun(ambient: int, c: Config, run: seq<ModeState>) {
    forall i :: FixedLink(ambient, c, run, i)
  }

  ghost predicate FixedLink(ambient: int, c: Config, run: seq<ModeState>, i: int) {
    0 <= i < |run| - 1 ==> FixedStep(ambient, c, run[i], run[i + 1])
  }

  /** The temperature asks for a step up, or down, from this mode. */
  predicate AsksUp(ambient: int, c: Config, m: RunMode) {
    exists e: Edge :: Source(e) == m && Upward(e) && Wanted(ambient, c, e)
  }

  predicate AsksDown(ambient: int, c: Config, m: RunMode) {
    exists e: Edge :: Source(e) == m && !Upward(e) && Wanted(ambient, c, e)
  }

  /** One step moves by at most one level, and only where the temperature asks. */
  lemma FixedStepMoves(ambient: int, c: Config, a: ModeState, b: ModeState)
    requires FixedStep(ambient, c, a, b)
    ensures || b.mode == a.mode
            || (Level(b.mode) == Level(a.mode) + 1 && AsksUp(ambient, c, a.mode))
            || (Level(b.mode) == Level(a.mode) - 1 && AsksDown(ambient, c, a.mode))
  {
    if b.mode != a.mode {
      var e := SwitchEdge(a);
      assert Wanted(ambient, c, e);
    }
  }

  /** The temperature never asks for both directions of the same edge of the path. */
  lemma NoTugOfWar(ambient: int, c: Config, m: RunMode, n: RunMode)
    requires m != NoRunMode && n != NoRunMode && Level(n) == Level(m) + 1
    ensures !(AsksUp(ambient, c, m) && AsksDown(ambient, c, n))
  {
  }

  function Switches(run: seq<ModeState>): nat {
    if |run| < 2 then 0
    else Switches(run[..|run| - 1]) + if run[|run| - 1].mode != run[|run| - 2].mode then 1 else 0
  }

  /** All moves so far went up, and the last one cannot be taken back; or none, or all went down. */
  ghost predicate OneWay(ambient: int, c: Config, run: seq<ModeState>)
    requires |run| > 0
  {
    var first, last := run[0].mode, run[|run| - 1].mode;
    if Level(last) == Level(first) then Switches(run) == 0
    else if Level(last) > Level(first) then
      Switches(run) == Level(last) - Level(first) && !AsksDown(ambient, c, last)
    else Switches(run) == Level(first) - Level(last) && !AsksUp(ambient, c, last)
  }

  lemma OneWayStep(ambient: int, c: Config, run: seq<ModeState>)
    requires |run| >= 2 && run[0].mode != NoRunMode
    requires OneWay(ambient, c, run[..|run| - 1])
    requires run[|run| - 2].mode != NoRunMode
    requires FixedStep(ambient, c, run[|run| - 2], run[|run| - 1])
    ensures run[|run| - 1].mode != NoRunMode && OneWay(ambient, c, run)
  {
    var a, b := run[|run| - 2], run[|run| - 1];
    FixedStepMoves(ambient, c, a, b);
    if Level(b.mode) == Level(a.mode) + 1 {
      NoTugOfWar(ambient, c, a.mode, b.mode);
    } else if b.mode != a.mode {
      NoTugOfWar(ambient, c, b.mode, a.mode);
    }
  }

  /** Under a fixed reading and fixed settings the modes are walked in one direction only, so there
      are never more than three switches, and the number of switches is the distance walked. */
  lemma {:induction false} NoOscillation(ambient: int, c: Config, run: seq<ModeState>)
    requires |run| > 0 && FixedRun(ambient, c, run) && run[0].mode != NoRunMode
    ensures OneWay(ambient, c, run) && run[|run| - 1].mode != NoRunMode
    ensures Switches(run) <= 3
    decreases |run|
  {
    if |run| == 1 {
    } else {
      var prefix := run[..|run| - 1];
      assert FixedRun(ambient, c, prefix) by {
        forall i
          ensures FixedLink(ambient, c, prefix, i)
        {
          assert FixedLink(ambient, c, run, i);
        }
      }
      NoOscillation(ambient, c, prefix);
      assert FixedLink(ambient, c, run, |run| - 2);
      OneWayStep(ambient, c, run);
    }
  }

  // ------------------------------------------------------------------------------------------
  // Idle compressors
  // ------------------------------------------------------------------------------------------

  lemma StepKeepsFirstRun(a: ModeState, b: ModeState)
    requires Step(a, b) && a.mode == b.mode && (a.mode.RunCool? || a.firstRun)
    ensures b.firstRun == a.firstRun
  {
  }

  /** During a stay in COOL nothing changes the first-run flag, and once set it stays set in HEAT. */
  lemma {:induction false} FirstRunLatched(run: seq<ModeState>, i: nat, j: nat)
    requires IsRun(run) && i <= j < |run| && (run[i].mode.RunCool? || run[i].firstRun)
    requires forall k :: i <= k <= j ==> run[k].mode == run[i].mode
    ensures run[j].firstRun == run[i].firstRun
    decreases j
  {
    if j > i {
      FirstRunLatched(run, i, j - 1);
      assert Link(run, j - 1);
      StepKeepsFirstRun(run[j - 1], run[j]);
    }
  }

  /** The exit for idle compressors is closed for the whole of a stay in COOL or HEAT that was entered
      with every compressor stopped: not only until one has been seen running. */
  lemma IdleExitNeedsWarmEntry(run: seq<ModeState>, i: nat, j: nat)
    requires IsRun(run) && Stay(run, i, j) && run[i].compsIdle
    ensures !CoolIdleExit(run[j]) && !HeatIdleExit(run[j])
  {
    if run[j].mode.RunCool? || run[j].mode.RunHeat? {
      assert run[i + 1].firstRun;
      FirstRunLatched(run, i + 1, j);
    }
  }

  /** In COOL that is exact: after any other automatic entry the flag never stands in the way. */
  lemma CoolIdleExitExactly(run: seq<ModeState>, i: nat, j: nat)
    requires IsRun(run) && Stay(run, i, j) && run[j].mode.RunCool? && run[j].Active()
    requires run[j].compsIdle && !run[j].idle.Running(run[j].now) && !run[j].gap.coolWet.Running(run[j].now)
    ensures CoolIdleExit(run[j]) <==> !run[i].compsIdle
  {
    assert run[i + 1].firstRun == run[i].compsIdle;
    FirstRunLatched(run, i + 1, j);
  }

  /** A watch step that acts. */
  ghost predicate WatchedAt(run: seq<ModeState>, k: int) {
    0 <= k && k + 1 < |run| && run[k].Active() && run[k + 1] == Watched(run[k])
  }

  /** In HEAT the flag is up exactly if it was, or some watch has happened since: each watch puts it up. */
  lemma {:induction false} HeatFlagExactly(run: seq<ModeState>, i: nat, j: nat)
    requires IsRun(run) && i <= j < |run| && forall k :: i <= k <= j ==> run[k].mode.RunHeat?
    ensures run[j].firstRun <==> run[i].firstRun || exists k :: i <= k < j && WatchedAt(run, k)
    decreases j
  {
    if j > i {
      HeatFlagExactly(run, i, j - 1);
      assert Link(run, j - 1);
      if WatchedAt(run, j - 1) {
        assert run[j].firstRun;
      } else {
        assert run[j].firstRun == run[j - 1].firstRun;
      }
    }
  }

  /** So in HEAT the idle exit is open, its other conditions given, exactly if some compressor ran at
      entry and no watch has happened during the stay. */
  lemma HeatIdleExitExactly(run: seq<ModeState>, i: nat, j: nat)
    requires IsRun(run) && Stay(run, i, j) && run[j].mode.RunHeat? && run[j].Active()
    requires run[j].compsIdle && !run[j].heatIdle.Running(run[j].now) && !run[j].gap.heatFan.Running(run[j].now)
    ensures HeatIdleExit(run[j]) <==> !run[i].compsIdle && !exists k :: i < k < j && WatchedAt(run, k)
  {
    assert run[i + 1].firstRun == run[i].compsIdle;
    HeatFlagExactly(run, i + 1, j);
  }

  /** The timer that HEAT's idle exit waits for is never armed. */
  lemma {:induction false} HeatIdleNeverArmed(run: seq<ModeState>, n: nat)
    requires IsRun(run) && n < |run|
    ensures run[n].heatIdle == run[0].heatIdle
  {
    if n > 0 {
      HeatIdleNeverArmed(run, n - 1);
      assert Link(run, n - 1);
    }
  }

  // ------------------------------------------------------------------------------------------
  // Condition timers
  // ------------------------------------------------------------------------------------------

  lemma StepKeepsDeadline(a: ModeState, b: ModeState, e: Edge)
    requires Step(a, b)
    ensures b.cond.At(e).due >= a.cond.At(e).due && b.now >= a.now
  {
    if b == Watched(a) && b.cond != a.cond {
      var f := Noticed(a).value;
      assert Waits(a, f) && b.cond == a.cond.With(f, Armed(a, a.config.wait.At(f)));
    }
  }

  lemma {:induction false} DeadlinesNeverShrink(run: seq<ModeState>, i: nat, j: nat, e: Edge)
    requires IsRun(run) && i <= j < |run|
    ensures run[j].cond.At(e).due >= run[i].cond.At(e).due
    decreases j
  {
    if j > i {
      DeadlinesNeverShrink(run, i, j - 1, e);
      var due := run[j - 1].cond.At(e).due;
      assert run[j].cond.At(e).due >= due by {
        assert Link(run, j - 1);
        StepKeepsDeadline(run[j - 1], run[j], e);
      }
    }
  }

  /** Once the watch step has armed an edge's condition timer, no switch for temperature takes that
      edge before the waiting time set at that moment is over. */
  lemma ConditionWaits(run: seq<ModeState>, i: nat, j: nat, e: Edge)
    requires IsRun(run) && i < j < |run|
    requires run[i + 1] == Watched(run[i]) && run[i + 1].cond.At(e) != run[i].cond.At(e)
    requires Fires(run[j], e)
    ensures run[j].now >= run[i].now + 60 * run[i].config.wait.At(e)
  {
    assert run[i + 1].cond.At(e) == Armed(run[i], run[i].config.wait.At(e));
    DeadlinesNeverShrink(run, i + 1, j, e);
  }

  /** A watch that notices an edge's condition and arms its timer. */
  ghost predicate NoticedAt(run: seq<ModeState>, i: int, e: Edge) {
    WatchedAt(run, i) && Noticed(run[i]) == Some(e)
  }

  /** The waiting time that was set when the condition was noticed is over. */
  ghost predicate WaitOver(run: seq<ModeState>, i: int, j: int, e: Edge)
    requires 0 <= i < |run| && 0 <= j < |run|
  {
    run[j].now >= run[i].now + 60 * run[i].config.wait.At(e)
  }

  lemma NoticeArms(run: seq<ModeState>, i: nat, e: Edge)
    requires NoticedAt(run, i, e)
    ensures run[i + 1].cond.At(e) == Armed(run[i], run[i].config.wait.At(e)) && run[i + 1].now == run[i].now
  {
  }

  /** Nothing but a notice touches the condition timer. */
  lemma {:induction false} NeverNoticed(run: seq<ModeState>, j: nat, e: Edge)
    requires IsRun(run) && j < |run| && forall i :: 0 <= i < j ==> !NoticedAt(run, i, e)
    ensures run[j].cond.At(e) == run[0].cond.At(e)
  {
    if j > 0 {
      NeverNoticed(run, j - 1, e);
      assert Link(run, j - 1);
      var a := run[j - 1];
      if run[j] == Watched(a) && run[j].cond != a.cond {
        assert WatchedAt(run, j - 1) && !NoticedAt(run, j - 1, e);
        var f := Noticed(a).value;
        assert run[j].cond == a.cond.With(f, Armed(a, a.config.wait.At(f)));
      }
    }
  }

  /** Along a run that begins with the condition timer of an edge stopped, a switch for temperature
      along that edge has waited if and only if an earlier watch noticed the condition: every notice has
      been waited out, and without one the timer was never armed. */
  lemma WaitedExactly(run: seq<ModeState>, j: nat, e: Edge)
    requires IsRun(run) && j < |run| && run[0].cond.At(e) == STOPPED && Fires(run[j], e)
    ensures (exists i :: 0 <= i < j && NoticedAt(run, i, e) && WaitOver(run, i, j, e))
              <==> exists i :: 0 <= i < j && NoticedAt(run, i, e)
    ensures forall i :: 0 <= i < j && NoticedAt(run, i, e) ==> WaitOver(run, i, j, e)
    ensures (forall i :: 0 <= i < j ==> !NoticedAt(run, i, e)) ==> run[j].cond.At(e) == STOPPED
  {
    forall i: nat | i < j && NoticedAt(run, i, e)
      ensures WaitOver(run, i, j, e)
    {
      NoticeArms(run, i, e);
      DeadlinesNeverShrink(run, i + 1, j, e);
    }
    if forall i :: 0 <= i < j ==> !NoticedAt(run, i, e) {
      NeverNoticed(run, j, e);
    }
  }

  /** No step touches a condition timer that runs. */
  lemma StepKeepsRunning(a: ModeState, b: ModeState, e: Edge)
    requires Step(a, b) && a.cond.At(e).Running(a.now)
    ensures b.cond.At(e) == a.cond.At(e)
  {
    if b == Watched(a) && b.cond != a.cond {
      var f := Noticed(a).value;
      assert Waits(a, f) && b.cond == a.cond.With(f, Armed(a, a.config.wait.At(f)));
    }
  }

  /** The condition is not watched in between: until the waiting time is over, nothing that happens to
      the reading, the settings or the mode cancels or restarts the timer. */
  lemma {:induction false} LapseIgnored(run: seq<ModeState>, i: nat, j: nat, e: Edge)
    requires IsRun(run) && NoticedAt(run, i, e) && i < j < |run| && !WaitOver(run, i, j, e)
    ensures run[j].cond.At(e) == Armed(run[i], run[i].config.wait.At(e))
    decreases j
  {
    NoticeArms(run, i, e);
    if j > i + 1 {
      assert Link(run, j - 1);
      var a := run[j - 1];
      StepKeepsDeadline(a, run[j], e);
      LapseIgnored(run, i, j - 1, e);
      assert a.cond.At(e).Running(a.now);
      StepKeepsRunning(a, run[j], e);
    }
  }
}
