/**
 The exhaust-fan scheduler: the air-volume demand, the two switching routines, the control pass and
 its two timer callbacks. Fans are named by their position in the fan list.
 */
module FanControl {
  import opened Common
  import opened RunTimeOrder
  import opened RunTimeSort
  import opened ExAirFans
  import opened Demands
  import opened FanPlan
  import opened FanSchedule
  import opened Timers
  import opened VariableSchedule

  class FanSystem {
    var fans: seq<ExAirFan>
    var fanType: FanType
    var variate: ExAirFan?

    var systemMode: SystemMode
    var runMode: RunMode
    var now: nat
    var co2: nat
    var config: Settings

    var fanFreq: nat
    var demand: Demand
    var lastRequestNum: nat
    var lastRequestTime: nat
    var variableRequest: bool
    var sliceTmr: Timer
    var ctrlTmr: Timer

    /** The fan list as `vSystem_ChangeExAirFanType` leaves it: only fan 0 is ever variable, and the
        variable-fan pointer is set exactly on plants that have one. Loop counters are 8 bits wide. */
    ghost predicate Wired()
      reads `fans, `fanType, `variate, fans
    {
      && 0 < |fans| < TWO_8
      && (forall i :: 0 <= i < |fans| ==> fans[i].index == i)
      && (forall i :: 0 < i < |fans| ==> fans[i].drive.freqType.ConstantFreq?)
      && variate == (if fanType.TypeConstantVariable? then fans[0] else null)
      && fans[0].drive.freqType == (if fanType.TypeConstantVariable? then VariableFreq else ConstantFreq)
    }

    function Views(): (v: seq<FanState>)
      reads `fans, fans
      ensures |v| == |fans| && forall i :: 0 <= i < |fans| ==> v[i] == fans[i].View()
    {
      var fs := fans;
      seq(|fs|, i requires 0 <= i < |fs| reads fs => fs[i].View())
    }

    predicate Active()
      reads `systemMode
    {
      systemMode.ModeAuto? || systemMode.ModeEmergency?
    }

    method ChangeExAirFanType(t: FanType)
      requires Wired()
      modifies `fanType, `variate, fans[0]
      ensures Wired() && fanType == t && fans == old(fans)
      ensures fans[0].drive == if t.TypeConstantVariable?
                               then old(fans[0].drive).(freqType := VariableFreq, maxFreq := 500, minFreq := 0)
                               else old(fans[0].drive).(freqType := ConstantFreq)
    {
      var fan := fans[0];
      fanType := t;
      if t.TypeConstantVariable? {
        fan.drive := fan.drive.(freqType := VariableFreq, maxFreq := 500, minFreq := 0);
        variate := fan;
      } else {
        fan.drive := fan.drive.(freqType := ConstantFreq);
        variate := null;
      }
    }

    method AdjustExAirFanFreq(freq: nat)
      requires Wired()
      modifies `fanFreq, fans[0]
      ensures Wired()
      ensures fanType.TypeConstant? ==> fanFreq == old(fanFreq) && fans[0].View() == old(fans[0].View())
      ensures fanType.TypeConstantVariable? ==>
                var f := FreqClamp(freq, config.minFreq, config.maxFreq);
                fanFreq == f && fans[0].View() == FreqSet(old(fans[0].View()), f)
    {
      var f := freq;
      if !fanType.TypeConstantVariable? {
        return;
      }
      if f < config.minFreq {
        f := config.minFreq;
      }
      if f > config.maxFreq {
        f := config.maxFreq;
      }
      fans[0].SetFreq(f);
      fanFreq := f;
    }

    /** The eligible fans in list order, and how many of them run. */
    method CollectEligible(ghost v: seq<FanState>) returns (list: seq<nat>, running: nat)
      requires Wired() && Found(v)
      ensures Stable(Hours(v), list)
      ensures forall x :: x in list <==> x in Eligible(v)
      ensures |list| == |Eligible(v)| && running == |FanPlan.Running(v)|
    {
      list, running := [], 0;
      for i := 0 to |fans|
        invariant list == EligibleList(v, i) && running == RunningCount(v, i)
      {
        assert v[i] == fans[i].View();
        if fans[i].drive.freqType.ConstantFreq? && !fans[i].io.err && fans[i].io.remote {
          list := list + [i];
          if fans[i].io.running {
            running := running + 1;
          }
        }
      }
      CollectedList(v);
    }

    /** `v` shows the fans as they are now. */
    ghost predicate Found(v: seq<FanState>)
      reads `fans, fans
    {
      |v| == |fans| && forall i :: 0 <= i < |fans| ==> fans[i].View() == v[i]
    }

    /** The fans, found as `v`, after some of them have been commanded. */
    ghost predicate Became(v: seq<FanState>, p: Plan)
      reads `fans, fans
    {
      |v| == |fans| && forall i :: 0 <= i < |fans| ==> fans[i].View() == Applied(p, i, v[i])
    }

    method CommandOff(f: nat, ghost v: seq<FanState>, ghost p: Plan)
      requires Wired() && f < |fans| && Became(v, p) && f !in p.on
      modifies fans
      ensures Wired() && Became(v, p.(off := p.off + {f}))
    {
      fans[f].SwitchClose();
    }

    method CommandOn(f: nat, ghost v: seq<FanState>, ghost p: Plan)
      requires Wired() && f < |fans| && Became(v, p) && f !in p.off
      modifies fans
      ensures Wired() && Became(v, p.(on := p.on + {f}))
    {
      OpenTwice(v[f]);
      fans[f].SwitchOpen();
    }

    /** One place of the closing scan. */
    method CloseAt(list: seq<nat>, c: nat, ghost v: seq<FanState>) returns (taken: bool)
      requires Sorted(Hours(v), list) && 0 < c <= |list| && forall x :: x in list <==> x in Eligible(v)
      requires Wired() && Became(v, Plan(Met(FanPlan.Running(v), list[c..]), {}))
      modifies fans
      ensures Wired() && Became(v, Plan(Met(FanPlan.Running(v), list[c - 1..]), {}))
      ensures var r := FanPlan.Running(v);
              |Met(r, list[c - 1..])| == |Met(r, list[c..])| + if taken then 1 else 0
    {
      ghost var p := Plan(Met(FanPlan.Running(v), list[c..]), {});
      var f := list[c - 1];
      assert f in list && fans[f].View() == Applied(p, f, v[f]);
      MetSuffix(Hours(v), FanPlan.Running(v), list, c);
      taken := fans[f].io.running;
      if taken {
        CommandOff(f, v, p);
      }
    }

    /** Scan from the longest-run fan down, closing running fans while the 8-bit count `n` is above
        `floor`. */
    method CloseLongest(list: seq<nat>, start: nat, floor: int, ghost v: seq<FanState>)
      requires Wired() && start < TWO_8 && Found(v)
      requires Sorted(Hours(v), list) && forall x :: x in list <==> x in Eligible(v)
      modifies fans
      ensures Wired()
      ensures var r := FanPlan.Running(v);
              var k := if floor < 0 then |r| else Max(start - floor, 0);
              Became(v, Plan(Picked(Hours(v), Longest, r, k), {}))
    {
      ghost var r := FanPlan.Running(v);
      ghost var k := if floor < 0 then |r| else Max(start - floor, 0);
      assert Met(r, list[|list|..]) == {};
      var i, n := 0, start;
      while n > floor && i < |list|
        invariant 0 <= i <= |list| && 0 <= n < TWO_8
        invariant floor >= 0 ==> n == start - |Met(r, list[|list| - i..])|
        invariant floor >= 0 ==> |Met(r, list[|list| - i..])| <= k
        invariant Wired() && Became(v, Plan(Met(r, list[|list| - i..]), {}))
        decreases |list| - i
      {
        var taken := CloseAt(list, |list| - i, v);
        if taken {
          n := U8(n - 1);
        }
        i := i + 1;
      }
      FinishClose(list, |list| - i, k, v);
    }

    lemma FinishClose(list: seq<nat>, c: nat, k: nat, v: seq<FanState>)
      requires Sorted(Hours(v), list) && (forall x :: x in list <==> x in Eligible(v)) && c <= |list|
      requires c == 0 || |Met(FanPlan.Running(v), list[c..])| == k
      requires |Met(FanPlan.Running(v), list[c..])| <= k || k == |FanPlan.Running(v)|
      ensures Met(FanPlan.Running(v), list[c..]) == Picked(Hours(v), Longest, FanPlan.Running(v), k)
    {
      var r := FanPlan.Running(v);
      EligibleSplit(v);
      SubsetSize(Met(r, list[c..]), r);
      ScanFromEnd(Hours(v), list, r, c, k);
    }

    /** One place of the opening scan. */
    method OpenAt(list: seq<nat>, c: nat, ghost v: seq<FanState>) returns (taken: bool)
      requires Sorted(Hours(v), list) && c < |list| && forall x :: x in list <==> x in Eligible(v)
      requires Wired() && Became(v, Plan({}, Met(Idle(v), list[..c])))
      modifies fans
      ensures Wired() && Became(v, Plan({}, Met(Idle(v), list[..c + 1])))
      ensures |Met(Idle(v), list[..c + 1])| == |Met(Idle(v), list[..c])| + if taken then 1 else 0
    {
      ghost var p := Plan({}, Met(Idle(v), list[..c]));
      var f := list[c];
      assert f in list && fans[f].View() == Applied(p, f, v[f]);
      MetPrefix(Hours(v), Idle(v), list, c);
      taken := !fans[f].io.running && !fans[f].io.err;
      if taken {
        CommandOn(f, v, p);
      }
    }

    /** Scan from the shortest-run fan up, opening idle fans until `start` are opened. */
    method OpenShortest(list: seq<nat>, start: nat, ghost v: seq<FanState>)
      requires Wired() && Found(v)
      requires Sorted(Hours(v), list) && forall x :: x in list <==> x in Eligible(v)
      modifies fans
      ensures Wired() && Became(v, Plan({}, Picked(Hours(v), Shortest, Idle(v), start)))
    {
      ghost var d := Idle(v);
      assert Met(d, list[..0]) == {};
      var i, n := 0, start;
      while n > 0 && i < |list|
        invariant 0 <= i <= |list| && n == start - |Met(d, list[..i])| && n >= 0
        invariant Wired() && Became(v, Plan({}, Met(d, list[..i])))
        decreases |list| - i
      {
        var taken := OpenAt(list, i, v);
        if taken {
          n := n - 1;
        }
        i := i + 1;
      }
      EligibleSplit(v);
      ScanFromFront(Hours(v), list, d, i, start);
    }

    /** The fan list once the variable fan, if the plant has one, has been driven for `goal`. */
    function WithVariate(v: seq<FanState>, goal: nat): seq<FanState>
      requires |v| > 0
      reads `fanType, `variableRequest, `config
    {
      Prepared(config, fanType.TypeConstantVariable?, variableRequest, goal, v)
    }

    method DriveVariate(goal: nat, n: nat)
      requires Wired()
      modifies `fanFreq, fans[0]
      ensures Wired()
      ensures fanType.TypeConstant? ==> fans[0].View() == old(fans[0].View()) && fanFreq == old(fanFreq)
      ensures fanType.TypeConstantVariable? ==>
                fans[0].View() == VariateDriven(old(fans[0].View()), goal, n, variableRequest,
                                                config.minFreq, config.maxFreq)
    {
      if goal > n && fanType.TypeConstantVariable? && !variate.io.err && variate.io.remote {
        variate.SwitchOpen();
        AdjustExAirFanFreq(config.maxFreq);
      }
      if goal <= n && !variableRequest && fanType.TypeConstantVariable? && variate != null && variate.io.running {
        variate.SwitchClose();
      }
    }

    /** Driving the variable fan leaves every input alone, and so both routines' decisions. */
    lemma VariateKeepsPlans(v: seq<FanState>, goal: nat, floor: int)
      requires Wired() && |v| == |fans| && (fanType.TypeConstantVariable? ==> !v[0].Constant())
      ensures var w := WithVariate(v, goal);
              && Hours(v) == Hours(w) && Eligible(v) == Eligible(w)
              && FanPlan.Running(v) == FanPlan.Running(w)
              && ScanPlan(v, goal, floor) == ScanPlan(w, goal, floor)
    {
      PreparedKeepsPlans(config, fanType.TypeConstantVariable?, variableRequest, goal, v);
      PlansOnInputs(v, WithVariate(v, goal), 0, 0);
    }

    /** The collection, sorting and variable-fan part that both routines begin with. */
    method Prepare(goal: nat, ghost v: seq<FanState>) returns (list: seq<nat>, running: nat)
      requires Wired() && Found(v)
      modifies `fanFreq, fans[0]
      ensures Wired() && Found(WithVariate(v, goal))
      ensures Sorted(Hours(v), list) && forall x :: x in list <==> x in Eligible(v)
      ensures running == |FanPlan.Running(v)|
    {
      list, running := CollectEligible(v);
      assert Views() == v;
      list := SortByRunTime(list, Hours(Views()));
      DriveVariate(goal, |list|);
    }

    /** Close or open fans until `goal` of them run, but close only while the count of surplus fans
        is above `floor`. */
    method SwitchTo(list: seq<nat>, running: nat, goal: nat, floor: int, ghost v: seq<FanState>)
      requires Wired() && Found(v) && running == |FanPlan.Running(v)|
      requires Sorted(Hours(v), list) && forall x :: x in list <==> x in Eligible(v)
      modifies fans
      ensures Wired()
      ensures Became(v, ScanPlan(v, goal, floor))
    {
      SmallRunning(v);
      ScanPlanOneWay(v, goal, floor);
      if goal < running {
        CloseLongest(list, running - goal, floor, v);
      }
      if goal > running {
        OpenShortest(list, goal - running, v);
      }
    }

    /** What both routines do, with their own goal and floor. */
    method CommandFans(goal: nat, floor: int, ghost v: seq<FanState>)
      requires Wired() && Found(v)
      modifies `fanFreq, fans
      ensures Wired() && Became(WithVariate(v, goal), ScanPlan(v, goal, floor))
    {
      var list, running := Prepare(goal, v);
      VariateKeepsPlans(v, goal, floor);
      SwitchTo(list, running, goal, floor, WithVariate(v, goal));
    }

    /** Bring the number of running constant fans to the requested number. */
    method ConstantSwitch(ghost v: seq<FanState>)
      requires Wired() && Found(v)
      modifies `fanFreq, `lastRequestNum, fans
      ensures Wired()
      ensures !Active() ==> Found(v) && lastRequestNum == old(lastRequestNum)
      ensures Active() ==> lastRequestNum == demand.request
      ensures Active() ==> Became(WithVariate(v, demand.request), SwitchPlan(v, demand.request))
    {
      if systemMode.ModeManual? || systemMode.ModeClose? {
        return;
      }
      CommandFans(demand.request, 0, v);
      SwitchPlanIs(v, demand.request);
      lastRequestNum := demand.request;
    }

    /** Bring the number of running constant fans into the band from the always-open number to the
        requested one. */
    method ConstantAlwaysOpen(ghost v: seq<FanState>)
      requires Wired() && Found(v)
      modifies `fanFreq, fans
      ensures Wired()
      ensures !Active() ==> Found(v)
      ensures Active() ==>
                Became(WithVariate(v, demand.open), AlwaysOpenPlan(v, demand.open, demand.request))
    {
      if systemMode.ModeManual? || systemMode.ModeClose? {
        return;
      }
      CommandFans(demand.open, demand.request - demand.open, v);
      AlwaysOpenPlanIs(v, demand.open, demand.request);
    }

    // ---------------------------------------------------------------------------------------
    // The demand
    // ---------------------------------------------------------------------------------------

    /** The variable fan takes the remainder. Otherwise constant fans share it. */
    predicate VariateUsable()
      reads `fanType, `variate, variate
    {
      fanType.TypeConstantVariable? && variate != null && !variate.io.err && variate.io.remote
    }

    function Heating(): bool
      reads `runMode
    {
      runMode.RunHeat?
    }

    /** The minimum frequency divides the slice of a usable variable fan. */
    predicate DivisorOk()
      reads `fanType, `config, `variate, variate
    {
      VariateUsable() && config.ratedVol != 0 ==> config.minFreq > 0
    }

    function Scene(): VariableSchedule.Scene
      reads `config, `runMode, `now, `fanType, `variate, variate, `variableRequest
    {
      VariableSchedule.Scene(config, Heating(), now, fanType.TypeConstantVariable?, VariateUsable(), variableRequest)
    }

    /** The plant after a decision. */
    ghost predicate Reached(o: Outcome)
      reads `fans, fans, `variableRequest, `demand, `lastRequestNum, `lastRequestTime, `sliceTmr, `ctrlTmr
    {
      Sched() == o.sched && variableRequest == o.asked && Became(o.base, o.plan)
    }

    function Sched(): FanSchedule.Sched
      reads `demand, `lastRequestNum, `lastRequestTime, `sliceTmr, `ctrlTmr
    {
      FanSchedule.Sched(demand, lastRequestNum, lastRequestTime, sliceTmr, ctrlTmr)
    }

    method ExAirRequestVol()
      requires Wired() && DivisorOk() && InRange(config)
      modifies `demand
      ensures demand == NextDemand(config, Heating(), VariateUsable(), old(demand)) && DemandOk(demand)
    {
      var volume: nat;
      if runMode.RunHeat? {
        volume := U32(config.freAirSet * config.heatRatio) / 100;
      } else {
        volume := U32(config.freAirSet * config.coolRatio) / 100;
      }
      var open := OpenNumber(volume, config.ratedVol, demand.open);
      if VariateUsable() {
        demand := ShareVariable(config, volume, open, demand);
      } else if fanType.TypeConstant? ||
                (fanType.TypeConstantVariable? && variate != null && (variate.io.err || !variate.io.remote))
      {
        demand := ShareConstant(config, volume, open, demand);
      }
    }

    // ---------------------------------------------------------------------------------------
    // Timer callbacks and the control pass
    // ---------------------------------------------------------------------------------------

    /** The longest-run of all running constant fans, or -1. Faulty and local fans count too. */
    method LongestExAirFan(ghost v: seq<FanState>) returns (f: int)
      requires Wired() && Found(v)
      ensures -1 <= f < |fans|
      ensures if f >= 0 then IsLongest(v, f) else AllRunning(v) == {}
      ensures forall j :: 0 <= j < |v| && v[j].drive.freqType == ConstantFreq && v[j].io.running ==>
                f >= 0 && v[j].io.hours <= v[f].io.hours && (v[j].io.hours == v[f].io.hours ==> f <= j)
      ensures f >= 0 ==> v[f].drive.freqType == ConstantFreq && v[f].io.running
    {
      var list: seq<nat> := [];
      for i := 0 to |fans|
        invariant forall x :: x in list <==> x in AllRunning(v) && x < i
        invariant forall a :: 0 <= a < |list| ==> list[a] < i
        invariant forall a, b :: 0 <= a < b < |list| ==> list[a] < list[b]
      {
        assert v[i] == fans[i].View();
        if fans[i].drive.freqType.ConstantFreq? && fans[i].io.running {
          list := list + [i];
        }
      }
      assert forall j: nat :: j < |v| && v[j].Constant() && v[j].io.running ==> j in AllRunning(v);
      if |list| == 0 {
        assert forall x :: x in AllRunning(v) ==> x in list;
        return -1;
      }
      assert Views() == v;
      f := FirstLongest(list, Hours(Views()));
      assert IsLongest(v, f) by {
        forall j | j in AllRunning(v)
          ensures v[j].io.hours < v[f].io.hours || (v[j].io.hours == v[f].io.hours && f <= j)
        {
          assert j in list;
          var m :| 0 <= m < |list| && list[m] == j;
        }
      }
    }

    /** The fan whose slice has ended: the variable fan, or else the longest-run constant fan. */
    method SliceFan(ghost v: seq<FanState>) returns (f: int)
      requires Wired() && Active() && Found(v)
      modifies `variableRequest
      ensures -1 <= f < |fans|
      ensures VariateUsable() ==> f == 0 && !variableRequest
      ensures !VariateUsable() ==> variableRequest == old(variableRequest)
      ensures !VariateUsable() ==> if f >= 0 then IsLongest(v, f) else AllRunning(v) == {}
    {
      f := -1;
      if VariateUsable() {
        variableRequest := false;
        f := 0;
      } else if fanType.TypeConstant? ||
                (fanType.TypeConstantVariable? && variate != null && (variate.io.err || !variate.io.remote))
      {
        f := LongestExAirFan(v);
      }
    }

    /** The slice is over: the fan that ran it is closed. */
    method RequestTimeTmrCallback(ghost v: seq<FanState>) returns (ghost f: int)
      requires Wired() && Found(v)
      modifies `variableRequest, fans
      ensures Wired() && -1 <= f < |fans|
      ensures !Active() ==> f == -1 && variableRequest == old(variableRequest)
      ensures Active() && old(VariateUsable()) ==> f == 0 && !variableRequest
      ensures Active() && !old(VariateUsable()) ==>
                if f >= 0 then IsLongest(v, f) else AllRunning(v) == {}
      ensures Became(v, if f >= 0 then Plan({f}, {}) else NOTHING)
    {
      f := -1;
      if Active() {
        var fan := SliceFan(v);
        if fan >= 0 {
          CommandOff(fan, v, NOTHING);
        }
        f := fan;
      }
    }

    /** The tick of the control period. */
    method CtrlTmrCallback(ghost v: seq<FanState>)
      requires Wired() && Found(v) && InRange(config) && (Active() ==> DivisorOk())
      modifies `demand, `lastRequestNum, `lastRequestTime, `sliceTmr, `variableRequest, `fanFreq, fans
      ensures Wired()
      ensures !Active() ==> Reached(Outcome(old(Sched()), old(variableRequest), v, NOTHING))
      ensures Active() ==> Reached(TickResult(old(Scene()), old(Sched()), v)) && DemandOk(demand)
    {
      if systemMode.ModeManual? || systemMode.ModeClose? {
        return;
      }
      ghost var e := Scene();
      ExAirRequestVol();
      if VariateUsable() {
        TickVariable(v, e);
      } else if fanType.TypeConstant? ||
                (fanType.TypeConstantVariable? && variate != null && (variate.io.err || !variate.io.remote))
      {
        TickConstant(v, e);
      }
    }

    /** Without a variable fan it switches to the requested number of constant fans for the slice. */
    method TickConstant(ghost v: seq<FanState>, ghost e: VariableSchedule.Scene)
      requires Wired() && Active() && Found(v) && e == Scene()
      modifies `lastRequestNum, `lastRequestTime, `sliceTmr, `fanFreq, fans
      ensures Wired() && Reached(ConstantTick(e, old(Sched()), v))
    {
      ghost var o := ConstantTick(e, Sched(), v);
      if demand.time >= config.runTimeLeast {
        if !sliceTmr.Running(now) || lastRequestTime != demand.time {
          lastRequestTime := demand.time;
          SwitchNow(v, o.base, o.plan);
          sliceTmr := Regist(now, demand.time);
        }
      }
    }

    /** The switch routine in a mode in which it acts. */
    method SwitchNow(ghost v: seq<FanState>, ghost u: seq<FanState>, ghost p: Plan)
      requires Wired() && Active() && Found(v)
      requires u == WithVariate(v, demand.request) && p == SwitchPlan(v, demand.request)
      modifies `fanFreq, `lastRequestNum, fans
      ensures Wired() && lastRequestNum == demand.request && Became(u, p)
    {
      ConstantSwitch(v);
    }

    /** With one the tick runs it at minimum frequency for the slice, or closes it. */
    method TickVariable(ghost v: seq<FanState>, ghost e: VariableSchedule.Scene)
      requires Wired() && VariateUsable() && Found(v) && e == Scene()
      modifies `lastRequestTime, `sliceTmr, `variableRequest, `fanFreq, fans[0]
      ensures Wired() && Reached(VariateTick(e, old(Sched()), v))
    {
      if demand.time >= config.runTimeLeast {
        variableRequest := true;
        RunVariate(config.minFreq, v);
        if !sliceTmr.Running(now) || lastRequestTime != demand.time {
          lastRequestTime := demand.time;
          sliceTmr := Regist(now, demand.time);
        }
      } else {
        variableRequest := false;
        assert v[0] == fans[0].View();
        variate.SwitchClose();
      }
    }

    method RunVariate(freq: nat, ghost v: seq<FanState>)
      requires Wired() && VariateUsable() && Found(v)
      modifies `fanFreq, fans[0]
      ensures Wired() && Found(v[0 := RunAt(v[0], freq, config.minFreq, config.maxFreq)])
      ensures fanFreq == FreqClamp(freq, config.minFreq, config.maxFreq)
    {
      assert v[0] == fans[0].View();
      variate.SwitchOpen();
      AdjustExAirFanFreq(freq);
    }

    /** (Re)start the control period, running its tick first. */
    method RestartPeriod(ghost v: seq<FanState>)
      requires Wired() && Found(v) && DivisorOk() && InRange(config) && Active()
      modifies `demand, `lastRequestNum, `lastRequestTime, `sliceTmr, `ctrlTmr, `variableRequest, `fanFreq, fans
      ensures Wired() && Reached(RestartResult(old(Scene()), old(Sched()), v))
    {
      if config.ctrlPeriod == 0 {
        ctrlTmr := STOPPED;
      } else {
        ghost var o := TickResult(Scene(), Sched(), v);
        CtrlTmrCallback(v);
        ctrlTmr := Regist(now, config.ctrlPeriod);
        assert Reached(o.(sched := o.sched.(ctrl := ctrlTmr)));
      }
    }

    /** The plant has no variable fan, or it is out of use. */
    ghost predicate Substituted(v: seq<FanState>)
      reads `fanType
    {
      |v| > 0 && (fanType.TypeConstantVariable? ==> !v[0].Constant() && !v[0].Healthy())
    }

    lemma OutOfUse(v: seq<FanState>)
      requires Wired() && Found(v)
      ensures Substituted(v) <==> !VariateUsable()
    {
      assert v[0] == fans[0].View();
    }

    lemma SwitchAgain(v: seq<FanState>, w: seq<FanState>, p: Plan, open: nat, request: nat)
      requires Substituted(v) && open <= request && |v| == |fans|
      requires p == SwitchPlan(v, request) || p == AlwaysOpenPlan(v, open, request)
      requires |w| == |v| && forall i :: 0 <= i < |v| ==> w[i] == Applied(p, i, WithVariate(v, open)[i])
      ensures Became(WithVariate(w, request), SwitchPlan(w, request)) ==>
                Became(WithVariate(v, open), SwitchPlan(v, request))
    {
      SwitchOnPrepared(config, fanType.TypeConstantVariable?, variableRequest, open, request, v, w, p);
    }

    /** While a slice is under way the pass keeps switching, in case a fan failed or went local. */
    method SwitchDuringSlice(ghost v: seq<FanState>)
      requires Wired() && Active() && DemandOk(demand) && Substituted(v)
      requires Became(WithVariate(v, demand.open), AlwaysOpenPlan(v, demand.open, demand.request))
      modifies `lastRequestNum, `fanFreq, fans
      ensures Wired() && Became(WithVariate(v, demand.open), PassPlan(old(Sched()), now, v))
      ensures lastRequestNum == if sliceTmr.Running(now) then demand.request else old(lastRequestNum)
    {
      if sliceTmr.Running(now) {
        ghost var w := Views();
        ConstantSwitch(w);
        SwitchAgain(v, w, AlwaysOpenPlan(v, demand.open, demand.request), demand.open, demand.request);
      }
    }

    /** A restart on fans already commanded by `p` leaves their commands as one switch would. */
    lemma RestartOnTop(e: VariableSchedule.Scene, s: FanSchedule.Sched, v: seq<FanState>, w: seq<FanState>, p: Plan)
      requires |v| > 0 && e.Ok() && !e.usable && DemandOk(s.demand) && Fresh(e.c, e.heating, s.demand)
      requires RestartsTick(e.now, s) && (e.variable ==> !v[0].Constant() && !v[0].Healthy())
      requires p == SwitchPlan(v, s.demand.request) || p == AlwaysOpenPlan(v, s.demand.open, s.demand.request)
      requires var u := Prepared(e.c, e.variable, e.asked, s.demand.open, v);
               |w| == |u| && forall i :: 0 <= i < |u| ==> w[i] == Applied(p, i, u[i])
      ensures var o, u := RestartResult(e, s, w), Prepared(e.c, e.variable, e.asked, s.demand.open, v);
              var q := if RestartSwitches(e.c, e.now, s) then SwitchPlan(v, s.demand.request) else p;
              && o.sched == AfterRestart(e.c, e.now, s) && o.asked == e.asked
              && o.sched.demand == s.demand
              && |o.base| == |u| && forall i :: 0 <= i < |u| ==> Applied(o.plan, i, o.base[i]) == Applied(q, i, u[i])
    {
      SwitchOnPrepared(e.c, e.variable, e.asked, s.demand.open, s.demand.request, v, w, p);
    }

    /** The last step of the pass, on fans already commanded by `p`. */
    method RestartIfNeeded(ghost v: seq<FanState>, ghost p: Plan)
      requires Wired() && Active() && InRange(config) && DemandOk(demand) && !VariateUsable()
      requires Substituted(v) && Fresh(config, Heating(), demand) && Became(WithVariate(v, demand.open), p)
      requires p == SwitchPlan(v, demand.request) || p == AlwaysOpenPlan(v, demand.open, demand.request)
      modifies `demand, `lastRequestNum, `lastRequestTime, `sliceTmr, `ctrlTmr, `variableRequest, `fanFreq, fans
      ensures Wired() && DemandOk(demand)
      ensures Reached(Outcome(AfterRestart(config, now, old(Sched())), old(variableRequest),
                              old(WithVariate(v, demand.open)),
                              if RestartSwitches(config, now, old(Sched()))
                              then SwitchPlan(v, old(demand).request) else p))
    {
      if !ctrlTmr.Running(now) || lastRequestNum != demand.request {
        ghost var w := Views();
        ghost var o := RestartResult(Scene(), Sched(), w);
        RestartOnTop(Scene(), Sched(), v, w, p);
        RestartPeriod(w);
        assert Reached(o);
      }
    }

    /** The control pass of a plant whose fans all run at constant speed, or whose variable fan is
        out of use. */
    method ConstantCtrl(ghost v: seq<FanState>)
      requires Wired() && Found(v) && InRange(config) && DemandOk(demand)
      requires !VariateUsable() ==> Fresh(config, Heating(), demand)
      modifies `demand, `lastRequestNum, `lastRequestTime, `sliceTmr, `ctrlTmr, `variableRequest, `fanFreq, fans
      ensures Wired() && DemandOk(demand)
      ensures !Active() || old(VariateUsable()) ==> Reached(Outcome(old(Sched()), old(variableRequest), v, NOTHING))
      ensures Active() && !old(VariateUsable()) ==> Reached(ConstantResult(old(Scene()), old(Sched()), v))
    {
      if systemMode.ModeManual? || systemMode.ModeClose? {
        return;
      }
      if fanType.TypeConstant? ||
         (fanType.TypeConstantVariable? && variate != null && (variate.io.err || !variate.io.remote))
      {
        ConstantPass(v);
      }
    }

    method ConstantPass(ghost v: seq<FanState>)
      requires Wired() && Found(v) && InRange(config) && DemandOk(demand) && Active()
      requires !VariateUsable() && Fresh(config, Heating(), demand)
      modifies `demand, `lastRequestNum, `lastRequestTime, `sliceTmr, `ctrlTmr, `variableRequest, `fanFreq, fans
      ensures Wired() && DemandOk(demand) && Reached(ConstantResult(old(Scene()), old(Sched()), v))
    {
      ghost var u, p := WithVariate(v, demand.open), PassPlan(Sched(), now, v);
      OutOfUse(v);
      BringIntoBand(v);
      assert WithVariate(v, demand.open) == u;
      RestartIfNeeded(v, p);
    }

    method BringIntoBand(ghost v: seq<FanState>)
      requires Wired() && Found(v) && DemandOk(demand) && Active() && !VariateUsable() && Substituted(v)
      modifies `lastRequestNum, `fanFreq, fans
      ensures Wired() && !VariateUsable() && Became(WithVariate(v, demand.open), PassPlan(old(Sched()), now, v))
      ensures lastRequestNum == if sliceTmr.Running(now) then demand.request else old(lastRequestNum)
    {
      ghost var p := PassPlan(Sched(), now, v);
      ConstantAlwaysOpen(v);
      SwitchDuringSlice(v);
      CommandsKeepUsable(v, demand.open, p);
    }

    /** The state of the variable fan and its request. */
    function Var(): Variate
      requires |fans| > 0
      reads `fans, `variableRequest, fans
    {
      Variate(fans[0].View(), variableRequest)
    }

    /** Set the variable fan to the continuous frequency, if that is not below its minimum. */
    method DriveContinuously(freq: nat)
      requires Wired() && VariateUsable()
      modifies `variableRequest, `fanFreq, fans[0]
      ensures Wired() && Var() == ContinuousDriven(old(Var()), freq, config.minFreq, config.maxFreq)
      ensures freq >= config.minFreq ==> fanFreq == FreqClamp(freq, config.minFreq, config.maxFreq)
    {
      if freq >= config.minFreq {
        variate.SwitchOpen();
        variableRequest := true;
      }
      if freq >= config.minFreq && freq <= config.maxFreq {
        AdjustExAirFanFreq(freq);
      }
      if freq > config.maxFreq {
        AdjustExAirFanFreq(config.maxFreq);
      }
    }

    /** The control pass of a plant with a healthy variable fan: bring the constant fans into the
        band, then run the variable fan on the remainder. */
    method BothCtrl(ghost v: seq<FanState>)
      requires Wired() && Found(v) && DivisorOk() && InRange(config) && DemandOk(demand)
      requires VariateUsable() && Active()
      modifies `demand, `lastRequestNum, `lastRequestTime, `sliceTmr, `ctrlTmr, `variableRequest, `fanFreq, fans
      ensures Wired() && DemandOk(demand)
      ensures Narrow(config) == 0 ==> Reached(Outcome(old(Sched()), old(variableRequest), v, NOTHING))
      ensures Narrow(config) > 0 ==> Reached(VariableResult(old(Scene()), old(Sched()), v))
    {
      if !fanType.TypeConstantVariable? || variate == null || Narrow(config) == 0 {
        return;
      }
      assert v[0] == fans[0].View();
      ConstantAlwaysOpen(v);
      CommandsKeepUsable(v, demand.open, AlwaysOpenPlan(v, demand.open, demand.request));
      ShareRemainder(v);
    }

    /** A large enough remainder runs the fan continuously and stops both timers; a smaller one keeps
        a control period under way, whose ticks run the fan for a slice. */
    method ShareRemainder(ghost v: seq<FanState>)
      requires Wired() && DivisorOk() && InRange(config) && DemandOk(demand)
      requires VariateUsable() && Active() && Narrow(config) > 0 && |v| == |fans| && !v[0].Constant()
      requires Became(WithVariate(v, demand.open), AlwaysOpenPlan(v, demand.open, demand.request))
      modifies `demand, `lastRequestNum, `lastRequestTime, `sliceTmr, `ctrlTmr, `variableRequest, `fanFreq, fans
      ensures Wired() && DemandOk(demand) && Reached(VariableResult(old(Scene()), old(Sched()), v))
    {
      SwitchOnlyEligible(v, demand.open, demand.request);
      if Continuous(config, demand) {
        ghost var e, s := Scene(), Sched();
        assert fans[0].View() == WithVariate(v, demand.open)[0];
        DriveContinuously(FastFreq(NarrowResidual(config, demand), Narrow(config)));
        StopTimers(VariableResult(e, s, v));
      } else {
        SliceBranch(v);
      }
    }

    method SwitchBesideSlice(ghost v: seq<FanState>)
      requires Wired() && DemandOk(demand) && Active() && VariateUsable() && |v| == |fans| && !v[0].Constant()
      requires Became(WithVariate(v, demand.open), AlwaysOpenPlan(v, demand.open, demand.request))
      modifies `lastRequestNum, `fanFreq, fans
      ensures Wired() && VariateUsable()
      ensures var w := Variate(WithVariate(v, demand.open)[0], variableRequest);
              var t := DuringSlice(config, now, old(Sched()), w, |Eligible(v)|);
              Sched() == t.0 && Became(v[0 := t.1.fan], PassPlan(old(Sched()), now, v))
    {
      if sliceTmr.Running(now) {
        ghost var w := Views();
        ConstantSwitch(w);
        SwitchBeside(config, true, variableRequest, demand.open, demand.request, v, w,
                     AlwaysOpenPlan(v, demand.open, demand.request));
        CommandsKeepUsable(w, demand.request, SwitchPlan(w, demand.request));
      }
    }

    /** A restart beside constant fans already commanded by `p` only drives the variable fan. */
    lemma RestartBeside(e: VariableSchedule.Scene, s: FanSchedule.Sched, u: seq<FanState>, w: seq<FanState>, p: Plan)
      requires |u| > 0 && e.Ok() && e.usable && RestartsTick(e.now, s) && 0 !in p.off + p.on
      requires |w| == |u| && forall i :: 0 <= i < |u| ==> w[i] == Applied(p, i, u[i])
      ensures var o, r := RestartResult(e, s, w),
                  VariableRestart(e.c, e.now, s, Variate(u[0], e.asked), NextDemand(e.c, e.heating, true, s.demand));
              && o.sched == r.0 && o.asked == r.1.asked && (DemandOk(s.demand) ==> DemandOk(o.sched.demand))
              && |o.base| == |u|
              && forall i :: 0 <= i < |u| ==> Applied(o.plan, i, o.base[i]) == Applied(p, i, u[0 := r.1.fan][i])
    {
      assert w[0] == u[0];
    }

    method SliceBranch(ghost v: seq<FanState>)
      requires Wired() && DivisorOk() && InRange(config) && DemandOk(demand) && Active()
      requires VariateUsable() && Narrow(config) > 0 && |v| == |fans| && !v[0].Constant()
      requires Became(WithVariate(v, demand.open), AlwaysOpenPlan(v, demand.open, demand.request))
      requires !Continuous(config, demand)
      modifies `demand, `lastRequestNum, `lastRequestTime, `sliceTmr, `ctrlTmr, `variableRequest, `fanFreq, fans
      ensures Wired() && DemandOk(demand) && Reached(VariableResult(old(Scene()), old(Sched()), v))
    {
      ghost var p := PassPlan(Sched(), now, v);
      ghost var w := Variate(WithVariate(v, demand.open)[0], variableRequest);
      ghost var t := DuringSlice(config, now, Sched(), w, |Eligible(v)|);
      SwitchOnlyEligible(v, demand.open, demand.request);
      SwitchBesideSlice(v);
      RestartVariable(v[0 := t.1.fan], p);
    }

    method RestartVariable(ghost u: seq<FanState>, ghost p: Plan)
      requires Wired() && DivisorOk() && InRange(config) && DemandOk(demand) && Active() && VariateUsable()
      requires Became(u, p) && 0 !in p.off + p.on
      modifies `demand, `lastRequestNum, `lastRequestTime, `sliceTmr, `ctrlTmr, `variableRequest, `fanFreq, fans
      ensures Wired() && DemandOk(demand)
      ensures var d := NextDemand(config, Heating(), true, old(demand));
              var (t, w) := VariableRestart(config, now, old(Sched()), Variate(u[0], old(variableRequest)), d);
              Reached(Outcome(t, w.asked, u[0 := w.fan], p))
    {
      if !ctrlTmr.Running(now) || lastRequestNum != demand.request {
        ghost var w := Views();
        RestartBeside(Scene(), Sched(), u, w, p);
        RestartPeriod(w);
      }
    }

    method ManualCtrl(ghost v: seq<FanState>)
      requires Wired() && Found(v)
      modifies fans
      ensures Wired() && Became(v, ManualPlan(v))
    {
      ghost var off: set<nat>, on: set<nat> := {}, {};
      for i := 0 to |fans|
        invariant Wired() && Became(v, Plan(off, on))
        invariant off == (set j | 0 <= j < i && v[j].cmd.Off?)
        invariant on == (set j | 0 <= j < i && v[j].cmd.On? && v[j].Healthy())
      {
        assert fans[i].View() == v[i];
        if fans[i].cmd.On? && !fans[i].io.err && fans[i].io.remote {
          CommandOn(i, v, Plan(off, on));
          on := on + {i};
        } else if fans[i].cmd.Off? {
          CommandOff(i, v, Plan(off, on));
          off := off + {i};
        }
      }
      assert Plan(off, on) == ManualPlan(v);
    }

    /** The CO2 reading is too high: every fan is requested and both timers stop. */
    method VentilateAll(ghost v: seq<FanState>)
      requires Wired() && Found(v) && Active() && DemandOk(demand)
      modifies `demand, `lastRequestNum, `sliceTmr, `ctrlTmr, `variableRequest, `fanFreq, fans
      ensures Wired() && DemandOk(demand) && Reached(VentilateResult(old(Scene()), old(Sched()), v))
    {
      ghost var e, s := Scene(), Sched();
      if VariateUsable() {
        assert v[0] == fans[0].View();
        VentilateVariable(v);
      } else if fanType.TypeConstant? ||
                (fanType.TypeConstantVariable? && variate != null && (variate.io.err || !variate.io.remote))
      {
        RequestNow(4, v);
      }
      StopTimers(VentilateResult(e, s, v));
    }

    method StopTimers(ghost o: Outcome)
      requires Wired() && variableRequest == o.asked && Became(o.base, o.plan)
      requires o.sched == Sched().(slice := STOPPED, ctrl := STOPPED)
      modifies `sliceTmr, `ctrlTmr
      ensures Wired() && Reached(o)
    {
      sliceTmr := STOPPED;
      ctrlTmr := STOPPED;
    }

    method VentilateVariable(ghost v: seq<FanState>)
      requires Wired() && Found(v) && Active() && DemandOk(demand) && VariateUsable() && !v[0].Constant()
      modifies `demand, `lastRequestNum, `variableRequest, `fanFreq, fans
      ensures Wired() && demand == old(demand).(request := 3) && lastRequestNum == 3 && variableRequest
      ensures var f := old(WithVariate(v, 3))[0];
              Became(v[0 := RunAt(f, config.maxFreq, config.minFreq, config.maxFreq)], SwitchPlan(v, 3))
    {
      RequestNow(3, v);
      CommandsKeepUsable(v, 3, SwitchPlan(v, 3));
      SwitchOnlyEligible(v, 3, 3);
      assert fans[0].View() == WithVariate(v, 3)[0];
      FullSpeed();
    }

    method RequestNow(n: nat, ghost v: seq<FanState>)
      requires Wired() && Found(v) && Active() && DemandOk(demand) && n in {3, 4}
      modifies `demand, `lastRequestNum, `fanFreq, fans
      ensures Wired() && demand == old(demand).(request := n) && lastRequestNum == n
      ensures Became(WithVariate(v, n), SwitchPlan(v, n))
    {
      demand := demand.(request := n);
      ConstantSwitch(v);
    }

    /** Commands never touch the inputs, so the variable fan stays as usable as it was. */
    lemma CommandsKeepUsable(v: seq<FanState>, goal: nat, p: Plan)
      requires Wired() && |v| == |fans| && Became(WithVariate(v, goal), p)
      ensures VariateUsable() == (fanType.TypeConstantVariable? && v[0].Healthy())
    {
      assert fans[0].View() == Applied(p, 0, WithVariate(v, goal)[0]);
    }

    method FullSpeed()
      requires Wired() && VariateUsable()
      modifies `variableRequest, `fanFreq, fans[0]
      ensures Wired() && variableRequest
      ensures fans[0].View() == RunAt(old(fans[0].View()), config.maxFreq, config.minFreq, config.maxFreq)
    {
      variableRequest := true;
      variate.SwitchOpen();
      AdjustExAirFanFreq(config.maxFreq);
    }

    /** The CO2 reading is low enough: the fans follow the demand. */
    method FollowDemand(ghost v: seq<FanState>)
      requires Wired() && Found(v) && Active() && DivisorOk() && InRange(config)
      modifies `demand, `lastRequestNum, `lastRequestTime, `sliceTmr, `ctrlTmr, `variableRequest, `fanFreq, fans
      ensures Wired() && DemandOk(demand)
      ensures Reached(DemandResult(old(Scene()), old(Sched()), v))
    {
      ExAirRequestVol();
      NextDemandSettles(config, Heating(), VariateUsable(), old(demand));
      if VariateUsable() {
        BothCtrl(v);
      } else if fanType.TypeConstant? ||
                (fanType.TypeConstantVariable? && variate != null && (variate.io.err || !variate.io.remote))
      {
        ConstantCtrl(v);
      }
    }

    /** The control pass: manual operation repeats the commands, a high CO2 reading overrides the
        demand, a low one follows it, and anything else leaves the plant alone. */
    method ExAirFanCtrl(ghost v: seq<FanState>)
      requires Wired() && Found(v) && InRange(config) && DemandOk(demand)
      requires Active() && co2 < config.co2Thr - config.co2Dev ==> DivisorOk()
      modifies `demand, `lastRequestNum, `lastRequestTime, `sliceTmr, `ctrlTmr, `variableRequest, `fanFreq, fans
      ensures Wired() && DemandOk(demand)
      ensures systemMode == ModeManual ==> Sched() == old(Sched()) && Became(v, ManualPlan(v))
      ensures systemMode == ModeClose ==> Sched() == old(Sched()) && Found(v)
      ensures systemMode in {ModeAuto, ModeEmergency} ==>
                if co2 > config.co2Thr + config.co2Dev then Reached(VentilateResult(old(Scene()), old(Sched()), v))
                else if co2 < config.co2Thr - config.co2Dev then Reached(DemandResult(old(Scene()), old(Sched()), v))
                else Sched() == old(Sched()) && Found(v)
    {
      if systemMode.ModeManual? {
        ManualCtrl(v);
      }
      if systemMode.ModeAuto? || systemMode.ModeEmergency? {
        if co2 > config.co2Thr + config.co2Dev {
          VentilateAll(v);
        }
        if co2 < config.co2Thr - config.co2Dev {
          FollowDemand(v);
        }
      }
    }

    lemma SmallRunning(v: seq<FanState>)
      requires Wired() && |v| == |fans|
      ensures |FanPlan.Running(v)| < TWO_8
    {
      CollectedList(v);
      EligibleSplit(v);
      RunningCountBound(v, |v|);
    }
  }

  /** The cascade of comparisons picks the number of whole fans, whatever the old number was. */
  method OpenNumber(volume: nat, rated: nat, was: nat) returns (open: nat)
    requires rated <= MAX_RATED
    ensures open == OpenNum(volume, rated)
  {
    open := was;
    if volume < rated {
      open := 0;
    }
    if rated <= volume && volume < U32(rated * 2) {
      open := 1;
    }
    if U32(rated * 2) <= volume && volume < U32(rated * 3) {
      open := 2;
    }
    if U32(rated * 3) <= volume {
      open := 3;
    }
    var n := OpenNum(volume, rated);
    assert n == 0 || n == 1 || n == 2 || n == 3;
  }

  /** Taking the whole fans off the volume never wraps. */
  lemma CascadeFits(volume: nat, rated: nat, open: nat)
    requires rated <= MAX_RATED && volume < TWO_32 && open == OpenNum(volume, rated)
    ensures U32(volume - U32(rated * open)) == Residual(volume, rated)
  {
    assert rated * open <= rated * 3 by {
      MulOrder(rated, open, 1);
      MulOrder(rated, 3, 1);
      MulMono(open, 3, rated);
    }
  }

  /** The first of the longest-run fans in a list. */
  method FirstLongest(list: seq<nat>, h: seq<nat>) returns (f: nat)
    requires |list| > 0 && forall a :: 0 <= a < |list| ==> list[a] < |h|
    requires forall a, b :: 0 <= a < b < |list| ==> list[a] < list[b]
    ensures f in list
    ensures forall m :: 0 <= m < |list| ==> h[list[m]] < h[f] || (h[list[m]] == h[f] && f <= list[m])
  {
    var k := 0;
    for n := 0 to |list|
      invariant 0 <= k < |list| && (n == 0 ==> k == 0) && (n > 0 ==> k < n)
      invariant forall m :: 0 <= m < n ==>
                              h[list[m]] < h[list[k]] || (h[list[m]] == h[list[k]] && list[k] <= list[m])
    {
      if h[list[k]] < h[list[n]] {
        k := n;
      }
    }
    f := list[k];
  }

  /** A healthy variable fan takes the remainder. */
  method ShareVariable(c: Settings, volume: nat, open: nat, was: Demand) returns (d: Demand)
    requires c.ratedVol <= MAX_RATED && volume < TWO_32 && open == OpenNum(volume, c.ratedVol)
    requires c.ratedVol != 0 ==> c.minFreq > 0
    ensures d.volume == volume && d.open == open && d.request == open
    ensures d.time == if c.ratedVol == 0 then was.time
                      else VariableTime(Residual(volume, c.ratedVol), c.minFreq, c.ctrlPeriod, c.ratedVol)
  {
    var time := was.time;
    if c.ratedVol != 0 {
      CascadeFits(volume, c.ratedVol, open);
      var residual := U32(volume - U32(c.ratedVol * open));
      time := VariableTime(residual, c.minFreq, c.ctrlPeriod, c.ratedVol);
    }
    d := Demand(volume, open, open, time);
  }

  /** Otherwise one more constant fan takes it, for a slice of the period if that is long enough. */
  method ShareConstant(c: Settings, volume: nat, open: nat, was: Demand) returns (d: Demand)
    requires c.ratedVol <= MAX_RATED && volume < TWO_32 && open == OpenNum(volume, c.ratedVol)
    ensures d.volume == volume && d.open == open
    ensures d.time == if c.ratedVol == 0 then was.time
                      else ConstantTime(Residual(volume, c.ratedVol), c.ctrlPeriod, c.ratedVol)
    ensures d.request == if d.time >= c.runTimeLeast then open + 1 else open
  {
    var request, time := open, was.time;
    if c.ratedVol != 0 {
      CascadeFits(volume, c.ratedVol, open);
      var residual := U32(volume - U32(c.ratedVol * open));
      time := ConstantTime(residual, c.ctrlPeriod, c.ratedVol);
    }
    if time >= c.runTimeLeast {
      request := open + 1;
    }
    d := Demand(volume, open, request, time);
  }

  function SwitchCloses(running: nat, goal: nat, floor: int): int {
    if running <= goal then 0 else if floor < 0 then running else Max(running - goal - floor, 0)
  }

  /** The plan that one call of `SwitchTo` carries out. */
  function ScanPlan(v: seq<FanState>, goal: nat, floor: int): Plan {
    var h, r := Hours(v), FanPlan.Running(v);
    Plan(Picked(h, Longest, r, SwitchCloses(|r|, goal, floor)),
         Picked(h, Shortest, Idle(v), goal - |r|))
  }

  /** One call of `SwitchTo` only closes or only opens. */
  lemma ScanPlanOneWay(v: seq<FanState>, goal: nat, floor: int)
    ensures var r := |FanPlan.Running(v)|;
            && (goal <= r ==> ScanPlan(v, goal, floor).on == {})
            && (goal >= r ==> ScanPlan(v, goal, floor).off == {})
  {
    EligibleSplit(v);
    var h, r := Hours(v), FanPlan.Running(v);
    if goal <= |r| {
      PickedNone(h, Shortest, Idle(v), goal - |r|);
    }
    if goal >= |r| {
      PickedNone(h, Longest, r, 0);
    }
  }

  lemma SwitchPlanIs(v: seq<FanState>, request: nat)
    ensures SwitchPlan(v, request) == ScanPlan(v, request, 0)
  {
    EligibleSplit(v);
    var h, r := Hours(v), FanPlan.Running(v);
    if |r| <= request {
      PickedNone(h, Longest, r, |r| - request);
      PickedNone(h, Longest, r, 0);
    }
  }

  lemma AlwaysOpenPlanIs(v: seq<FanState>, open: nat, request: nat)
    ensures AlwaysOpenPlan(v, open, request) == ScanPlan(v, open, request - open)
  {
    EligibleSplit(v);
    var h, r := Hours(v), FanPlan.Running(v);
    if |r| <= request {
      PickedNone(h, Longest, r, |r| - request);
      PickedNone(h, Longest, r, 0);
    }
  }

  lemma {:induction false} RunningCountBound(v: seq<FanState>, n: nat)
    requires n <= |v|
    ensures RunningCount(v, n) <= n
  {
    if n > 0 {
      RunningCountBound(v, n - 1);
    }
  }
}
