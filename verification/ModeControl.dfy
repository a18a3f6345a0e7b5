/** The handlers that carry out the automatic choice of running mode on the units. */
module ModeControl {
  import opened Common
  import opened Timers
  import opened UnitModes
  import opened Units

  class ModeSystem {
    var units: seq<ModularRoof>
    var now: nat
    var sysMode: SystemMode
    var sysState: SystemState
    var mode: RunMode
    var bmsMode: RunMode
    var ambient: int
    var config: Config
    var cond: PerEdge<Timer>
    var gap: PerEdge<Timer>
    var idle: Timer
    var heatIdle: Timer
    var firstRun: bool

    /** No healthy unit has a compressor running. */
    predicate CompsIdle()
      reads `units, units`io
    {
      forall i :: 0 <= i < |units| ==> !units[i].io.CompressorBusy()
    }

    predicate AnyRunning()
      reads `units, units`io
    {
      exists i :: 0 <= i < |units| && units[i].io.running
    }

    function View(): ModeState
      reads this, units`io
    {
      ModeState(now, sysMode, sysState, mode, ambient, config, cond, gap, idle, heatIdle, firstRun,
                CompsIdle(), AnyRunning())
    }

    /** Asking whether all compressors stand idle ends the first run as a side effect. */
    method UnitCompsClosed() returns (closed: bool)
      modifies `firstRun
      ensures closed == CompsIdle() && firstRun == (old(firstRun) && closed)
      ensures closed <==> forall i :: 0 <= i < |units| && units[i].io.compRunning ==>
                                        units[i].io.stopErr || units[i].io.commErr
    {
      for n := 0 to |units|
        invariant forall i :: 0 <= i < n ==> !units[i].io.CompressorBusy()
        invariant firstRun == old(firstRun)
      {
        if units[n].io.compRunning && !units[n].io.stopErr && !units[n].io.commErr {
          if firstRun {
            firstRun := false;
          }
          return false;
        }
      }
      return true;
    }

    /** The same mode and targets; the switch may differ. */
    static ghost predicate SameOrders(a: Orders, b: Orders) {
      a.mode == b.mode && a.coolTempSet == b.coolTempSet && a.heatTempSet == b.heatTempSet
    }

    method OpenUnits()
      modifies units`told
      ensures AllSwitchedOn()
      ensures forall i :: 0 <= i < |units| ==> SameOrders(units[i].told, old(units[i].told))
    {
      for n := 0 to |units|
        invariant forall i :: 0 <= i < |units| ==> SameOrders(units[i].told, old(units[i].told))
        invariant forall i :: 0 <= i < n && units[i].io.online && !units[i].io.stopErr ==> units[i].told.switchCmd == On
      {
        units[n].SwitchOpen();
      }
    }

    /** The target that the units are given in WET and COOL; 0 in any other case. */
    method ChangeEnergyTemp() returns (temp: nat)
      modifies units`told
      ensures sysMode.ModeAuto? && (mode.RunCool? || mode.RunWet?) ==>
                temp == CoolTarget(config) && AllSetTo(temp)
      ensures forall i :: 0 <= i < |units| ==>
                          units[i].told.mode == old(units[i].told.mode) &&
                          units[i].told.switchCmd == old(units[i].told.switchCmd)
      ensures !(sysMode.ModeAuto? && (mode.RunCool? || mode.RunWet?)) ==>
                temp == 0 &&
                forall i :: 0 <= i < |units| ==>
                  units[i].told == old(units[i].told)
    {
      temp := 0;
      if !sysMode.ModeAuto? {
        return;
      }
      if mode.RunCool? || mode.RunWet? {
        if config.tempSet < config.energyTemp {
          temp := U16(config.energyTemp - config.tempDeviat);
        } else {
          temp := config.tempSet;
        }
        for n := 0 to |units|
          invariant forall i :: 0 <= i < |units| ==>
                                units[i].told.mode == old(units[i].told.mode) &&
                                units[i].told.switchCmd == old(units[i].told.switchCmd)
          invariant forall i :: 0 <= i < n ==> units[i].told.coolTempSet == units[i].told.heatTempSet == temp
        {
          units[n].told := units[n].told.(coolTempSet := temp, heatTempSet := temp);
        }
      }
    }

    ghost predicate AllSwitchedOn()
      reads `units, units`io, units`told
    {
      forall i :: 0 <= i < |units| && units[i].io.online && !units[i].io.stopErr ==> units[i].told.switchCmd == On
    }

    ghost predicate AllSetTo(temp: nat)
      reads `units, units`told
    {
      forall i :: 0 <= i < |units| ==> units[i].told.coolTempSet == units[i].told.heatTempSet == temp
    }

    ghost predicate RunningSetTo(temp: nat)
      reads `units, units`io, units`told
    {
      forall i :: 0 <= i < |units| && units[i].io.running ==>
                    units[i].told.coolTempSet == units[i].told.heatTempSet == temp
    }

    ghost predicate AllInMode(m: RunMode)
      reads `units, units`told
    {
      forall i :: 0 <= i < |units| ==> units[i].told.mode == m
    }

    /** All units take the mode, and those that run the target; in automatic operation every unit that can be
        is switched on, and in WET and COOL all of them are given the energy-saving target. */
    ghost predicate UnitsTold(m: RunMode)
      reads `units, `sysMode, `config
      reads units`io, units`told
    {
      && AllInMode(m)
      && (sysMode.ModeAuto? ==> AllSwitchedOn())
      && (if sysMode.ModeAuto? && (m.RunCool? || m.RunWet?) then AllSetTo(CoolTarget(config))
          else RunningSetTo(config.tempSet))
    }

    method SetUnitRunningMode(m: RunMode)
      modifies `mode, `bmsMode, `sysState
      modifies units`told
      ensures mode == m && bmsMode == m && UnitsTold(m) && SameUnits(old(CompsIdle()), old(AnyRunning()))
      ensures sysState == ModeSet(old(View()), m).sysState
    {
      mode := m;
      bmsMode := m;
      TellUnits(m);
      PrepareAuto();
    }

    /** Setting a mode commands the units; what they report stays as it was. */
    predicate SameUnits(idleBefore: bool, runningBefore: bool)
      reads `units, units`io
    {
      CompsIdle() == idleBefore && AnyRunning() == runningBefore
    }

    method PrepareAuto()
      requires AllInMode(mode) && RunningSetTo(config.tempSet)
      modifies units`told
      ensures UnitsTold(mode)
    {
      if sysMode.ModeAuto? {
        OpenUnits();
      }
      if (mode.RunCool? || mode.RunWet?) && sysMode.ModeAuto? {
        var temp := ChangeEnergyTemp();
      }
    }

    /** Running units take the system's target temperature and show their mode as the system state. */
    method TellUnits(m: RunMode)
      modifies `sysState, units`told
      ensures AllInMode(m) && RunningSetTo(config.tempSet)
      ensures sysState == if AnyRunning() && m != NoRunMode then StateOf(m) else old(sysState)
    {
      for n := 0 to |units|
        invariant forall i :: 0 <= i < n ==> units[i].told.mode == m
        invariant forall i :: 0 <= i < n && units[i].io.running ==>
                    units[i].told.coolTempSet == units[i].told.heatTempSet == config.tempSet
        invariant sysState == if (exists i :: 0 <= i < n && units[i].io.running) && m != NoRunMode
                              then StateOf(m) else old(sysState)
      {
        units[n].told := units[n].told.(mode := m);
        if units[n].io.running {
          units[n].told := units[n].told.(coolTempSet := config.tempSet, heatTempSet := config.tempSet);
          match units[n].told.mode {
            case RunCool => sysState := StateCool;
            case RunHeat => sysState := StateHeat;
            case RunFan => sysState := StateFan;
            case RunWet => sysState := StateWet;
            case NoRunMode =>
          }
          assert units[n].io.running;
        }
      }
    }

    method EnterWet()
      modifies `mode, `bmsMode, `sysState, `gap
      modifies units`told
      ensures View() == Entered(old(View()), RunWet) && UnitsTold(RunWet) && bmsMode == RunWet
    {
      SetUnitRunningMode(RunWet);
      assert View() == ModeSet(old(View()), RunWet);
      gap := gap.(wetCool := Regist(now, config.interval.wetCool * 60));
      gap := gap.(wetFan := Regist(now, config.interval.wetFan * 60));
    }

    method EnterFan()
      modifies `mode, `bmsMode, `sysState, `gap
      modifies units`told
      ensures View() == Entered(old(View()), RunFan) && UnitsTold(RunFan) && bmsMode == RunFan
    {
      SetUnitRunningMode(RunFan);
      gap := gap.(fanWet := Regist(now, config.interval.fanWet * 60));
    }

    method NoteFirstRun()
      modifies `firstRun
      ensures firstRun == CompsIdle()
    {
      var closed := UnitCompsClosed();
      if closed {
        firstRun := true;
      }
    }

    method SetAndNote(m: RunMode)
      modifies `mode, `bmsMode, `sysState, `firstRun
      modifies units`told
      ensures View() == ModeSet(old(View()), m).(firstRun := old(CompsIdle()))
      ensures UnitsTold(m) && bmsMode == m
    {
      SetUnitRunningMode(m);
      NoteFirstRun();
    }

    /** COOL and HEAT begin with the compressors' first run when none of them runs yet. */
    method EnterCool()
      modifies `mode, `bmsMode, `sysState, `gap, `firstRun
      modifies units`told
      ensures View() == Entered(old(View()), RunCool) && UnitsTold(RunCool) && bmsMode == RunCool
    {
      SetAndNote(RunCool);
      gap := gap.(coolWet := Regist(now, config.interval.coolWet * 60));
    }

    method EnterHeat()
      modifies `mode, `bmsMode, `sysState, `gap, `firstRun
      modifies units`told
      ensures View() == Entered(old(View()), RunHeat) && UnitsTold(RunHeat) && bmsMode == RunHeat
    {
      SetAndNote(RunHeat);
      gap := gap.(heatFan := Regist(now, config.interval.heatFan * 60));
    }

    method RefreshTarget() returns (temp: nat)
      requires sysMode.ModeAuto? && (mode.RunCool? || mode.RunWet?)
      modifies units`told
      ensures temp == CoolTarget(config) && View() == old(View())
    {
      temp := ChangeEnergyTemp();
    }

    /** The automatic step. */
    method AdjustUnitRunningMode()
      modifies `mode, `bmsMode, `sysState, `gap, `firstRun, units`told
      ensures View() == Adjusted(old(View()))
      ensures mode != old(mode) ==> bmsMode == mode && UnitsTold(mode)
    {
      if !sysMode.ModeAuto? || sysState.StateClosed? {
        return;
      }
      var next := mode;
      if mode.RunFan? {
        next := LeaveFan();
      } else if mode.RunWet? {
        next := LeaveWet();
      } else if mode.RunCool? {
        next := LeaveCool();
      } else if mode.RunHeat? {
        next := LeaveHeat();
      }
      if next != mode {
        Enter(next);
      }
    }

    method Enter(m: RunMode)
      requires m != NoRunMode
      modifies `mode, `bmsMode, `sysState, `gap, `firstRun, units`told
      ensures View() == Entered(old(View()), m) && UnitsTold(m) && bmsMode == m
    {
      if m.RunWet? {
        EnterWet();
      } else if m.RunFan? {
        EnterFan();
      } else if m.RunCool? {
        EnterCool();
      } else {
        EnterHeat();
      }
    }

    method LeaveFan() returns (next: RunMode)
      requires View().Active() && mode.RunFan?
      ensures next == Choice(View())
    {
      next := mode;
      if ambient > config.tempSet + config.adjust.fanWet && !cond.fanWet.Running(now) && !gap.fanWet.Running(now) {
        next := RunWet;
      } else if ambient < config.tempSet - config.adjust.fanHeat && !cond.fanHeat.Running(now) &&
                !gap.fanHeat.Running(now)
      {
        next := RunHeat;
      }
    }

    method LeaveWet() returns (next: RunMode)
      requires View().Active() && mode.RunWet?
      modifies units`told
      ensures next == Choice(View()) && View() == old(View())
    {
      next := mode;
      var temp := RefreshTarget();
      if ambient > temp + config.adjust.wetCool && !cond.wetCool.Running(now) && !gap.wetCool.Running(now) {
        next := RunCool;
      } else if ambient < config.tempSet - config.adjust.wetFan && !cond.wetFan.Running(now) &&
                !gap.wetFan.Running(now)
      {
        next := RunFan;
      }
    }

    method LeaveCool() returns (next: RunMode)
      requires View().Active() && mode.RunCool?
      modifies `firstRun, units`told
      ensures next == Choice(View()) && View() == old(View())
    {
      next := mode;
      var temp := RefreshTarget();
      if ambient < temp - config.adjust.coolWet && !cond.coolWet.Running(now) && !gap.coolWet.Running(now) {
        next := RunWet;
      } else if !firstRun {
        var closed := UnitCompsClosed();
        if closed && !idle.Running(now) && !gap.coolWet.Running(now) {
          next := RunWet;
        }
      }
    }

    method LeaveHeat() returns (next: RunMode)
      requires View().Active() && mode.RunHeat?
      modifies `firstRun
      ensures next == Choice(View()) && View() == old(View())
    {
      next := mode;
      if ambient > config.tempSet + config.adjust.heatFan && !cond.heatFan.Running(now) && !gap.heatFan.Running(now) {
        next := RunFan;
      } else if !firstRun {
        var closed := UnitCompsClosed();
        if closed && !heatIdle.Running(now) && !gap.heatFan.Running(now) {
          next := RunFan;
        }
      }
    }

    /** The watch step. */
    method ChangeUnitRunningMode()
      modifies `cond, `idle, `heatIdle, `firstRun, units`told
      ensures View() == Watched(old(View()))
    {
      if !sysMode.ModeAuto? || sysState.StateClosed? {
        return;
      }
      if mode.RunFan? {
        if ambient > config.tempSet + config.adjust.fanWet && !cond.fanWet.Running(now) {
          cond := cond.(fanWet := Regist(now, config.wait.fanWet * 60));
        } else if ambient < config.tempSet - config.adjust.fanHeat && !cond.fanHeat.Running(now) {
          cond := cond.(fanHeat := Regist(now, config.wait.fanHeat * 60));
        }
      } else if mode.RunWet? {
        WatchWet();
      } else if mode.RunCool? {
        WatchCool();
      } else if mode.RunHeat? {
        WatchHeat();
      }
    }

    method WatchWet()
      requires View().Active() && mode.RunWet?
      modifies `cond, units`told
      ensures View() == Watched(old(View()))
    {
      var temp := RefreshTarget();
      if ambient > temp + config.adjust.wetCool && !cond.wetCool.Running(now) {
        cond := cond.(wetCool := Regist(now, config.wait.wetCool * 60));
      } else if ambient < config.tempSet - config.adjust.wetFan && !cond.wetFan.Running(now) {
        cond := cond.(wetFan := Regist(now, config.wait.wetFan * 60));
      }
    }

    method WatchCool()
      requires View().Active() && mode.RunCool?
      modifies `cond, `idle, `firstRun, units`told
      ensures View() == Watched(old(View()))
    {
      var temp := RefreshTarget();
      if ambient < temp - config.adjust.coolWet && !cond.coolWet.Running(now) {
        cond := cond.(coolWet := Regist(now, config.wait.coolWet * 60));
        return;
      }
      if !firstRun {
        var closed := UnitCompsClosed();
        if closed && !idle.Running(now) {
          idle := Regist(now, config.idleWait * 60);
        }
      }
    }

    method WatchHeat()
      requires View().Active() && mode.RunHeat?
      modifies `cond, `heatIdle, `firstRun
      ensures View() == Watched(old(View()))
    {
      firstRun := true;
      if ambient > config.tempSet + config.adjust.heatFan && !cond.heatFan.Running(now) {
        cond := cond.(heatFan := Regist(now, config.wait.heatFan * 60));
        return;
      }
      if !firstRun {
        assert false;
      }
    }
  }
}
