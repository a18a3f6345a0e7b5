/** The supervision handlers on the device lists. */
module Supervisors {
  import opened Common
  import opened ExAirFans
  import opened Supervision
  import opened Timers
  import opened Units

  class Supervisor {
    var units: seq<ModularRoof>
    var fans: seq<ExAirFan>
    var sysMode: SystemMode
    var bmsMode: SystemMode
    var sysState: SystemState
    var runMode: RunMode
    var bmsRunMode: RunMode
    var unitErr: bool
    var fanErr: bool
    var sliceTmr: Timer
    var ctrlTmr: Timer

    function View(): Sup
      reads `sysMode, `bmsMode, `sysState, `runMode, `bmsRunMode, `unitErr, `fanErr
    {
      Sup(sysMode, bmsMode, sysState, runMode, bmsRunMode, unitErr, fanErr)
    }

    predicate AnyRemote()
      reads `fans, fans`io
    {
      exists i :: 0 <= i < |fans| && fans[i].io.remote
    }

    predicate AnyFanWorking()
      reads `fans, fans`io
    {
      exists i :: 0 <= i < |fans| && !fans[i].io.err
    }

    predicate AnyFanRunning()
      reads `fans, fans`io
    {
      exists i :: 0 <= i < |fans| && fans[i].io.running
    }

    predicate AnyUnitHealthy()
      reads `units, units`io
    {
      exists i :: 0 <= i < |units| && units[i].io.Healthy()
    }

    /** What the units report, from the `n`th on. */
    function Reports(n: nat): (r: seq<(bool, RunMode)>)
      requires n <= |units|
      reads `units, units`io, units`told
      ensures |r| == |units| - n
      decreases |units| - n
    {
      if n == |units| then [] else [(units[n].io.running, units[n].told.mode)] + Reports(n + 1)
    }

    /** Every unit that can be is switched on. */
    ghost predicate AllOpen()
      reads `units, units`io, units`told
    {
      forall i :: 0 <= i < |units| && units[i].io.online && !units[i].io.stopErr ==> units[i].told.switchCmd == On
    }

    /** No fan is left on, no running unit either, and the scheduler's timers are stopped. */
    ghost predicate AllClosed()
      reads `units, units`io, units`told, `fans, fans`cmd, fans`relay, `sliceTmr, `ctrlTmr
    {
      && FansOff(|fans|) && sliceTmr == STOPPED && ctrlTmr == STOPPED
      && forall i :: 0 <= i < |units| && units[i].io.running ==> units[i].told.switchCmd == Off
    }

    ghost predicate FansOff(n: nat)
      requires n <= |fans|
      reads `fans, fans`cmd, fans`relay
    {
      forall i :: 0 <= i < n ==> fans[i].cmd == Off && fans[i].relay == Off
    }

    /** `start` is the running mode that entering AUTO or EMERGENCY asks the units for, if any: by the
        indoor temperature, the target and its tolerance. */
    method ChangeSystemMode(m: SystemMode, ambient: int, tempSet: nat, tolerance: nat) returns (start: Option<RunMode>)
      modifies `sysMode, `bmsMode, `sliceTmr, `ctrlTmr, units`told, fans`cmd, fans`relay
      ensures View() == ModeChanged(old(View()), m, old(AnyRemote()))
      ensures start.Some? ==>
                start.value == if m.ModeEmergency? || ambient > tempSet + tolerance then RunFan else RunHeat
      ensures start.Some? <==>
                sysMode != old(sysMode) &&
                (m.ModeEmergency? || (m.ModeAuto? && (sysState.StateClosed? || sysState.StateExFan?)))
      ensures sysMode != old(sysMode) && (m.ModeAuto? || m.ModeEmergency?) ==> AllOpen()
      ensures sysMode != old(sysMode) && m.ModeClose? ==> AllClosed()
    {
      start := None;
      if sysMode == m {
        return;
      }
      if m.ModeAuto? {
        var remote := CountRemote();
        if remote == 0 || unitErr || fanErr {
          bmsMode := sysMode;
          return;
        }
        sysMode := m;
        OpenUnits();
        if ambient > tempSet + tolerance {
          if sysState.StateClosed? || sysState.StateExFan? {
            start := Some(RunFan);
          }
        } else {
          if sysState.StateClosed? || sysState.StateExFan? {
            start := Some(RunHeat);
          }
        }
      }
      if m.ModeClose? {
        sysMode := m;
        CloseAll();
      }
      if m.ModeManual? {
        sysMode := m;
      }
      if m.ModeEmergency? {
        if unitErr {
          bmsMode := sysMode;
          return;
        }
        sysMode := m;
        OpenUnits();
        start := Some(RunFan);
      }
    }

    method CountRemote() returns (n: nat)
      ensures n == 0 <==> !AnyRemote()
    {
      n := 0;
      for i := 0 to |fans|
        invariant n == 0 <==> !(exists j :: 0 <= j < i && fans[j].io.remote)
      {
        if fans[i].io.remote {
          n := n + 1;
        }
      }
    }

    method OpenUnits()
      modifies units`told
      ensures AllOpen()
    {
      for i := 0 to |units|
        invariant forall j :: 0 <= j < i && units[j].io.online && !units[j].io.stopErr ==> units[j].told.switchCmd == On
      {
        units[i].SwitchOpen();
      }
    }

    method CloseAll()
      modifies `sliceTmr, `ctrlTmr, units`told, fans`cmd, fans`relay
      ensures AllClosed()
    {
      CloseExAirFans();
      for i := 0 to |units|
        invariant FansOff(|fans|) && sliceTmr == STOPPED && ctrlTmr == STOPPED
        invariant forall j :: 0 <= j < i && units[j].io.running ==> units[j].told.switchCmd == Off
      {
        units[i].SwitchClose();
      }
    }

    method CloseExAirFans()
      modifies `sliceTmr, `ctrlTmr, fans`cmd, fans`relay
      ensures FansOff(|fans|) && sliceTmr == STOPPED && ctrlTmr == STOPPED
    {
      for i := 0 to |fans|
        invariant FansOff(i)
      {
        fans[i].SwitchClose();
      }
      sliceTmr := STOPPED;
      ctrlTmr := STOPPED;
    }

    /** In automatic and emergency operation every healthy unit on line is switched on again. */
    ghost predicate HealthyOn(n: nat)
      requires n <= |units|
      reads `units, units`io, units`told
    {
      forall i :: 0 <= i < n && units[i].io.Healthy() && units[i].io.online ==> units[i].told.switchCmd == On
    }

    method CountHealthy() returns (n: nat)
      modifies units`told
      ensures n == 0 <==> !AnyUnitHealthy()
      ensures sysMode.ModeAuto? || sysMode.ModeEmergency? ==> HealthyOn(|units|)
      ensures forall u :: u in units && (sysMode in {ModeClose, ModeManual} || !u.io.Healthy()) ==>
                            u.told == old(u.told)
    {
      n := 0;
      for i := 0 to |units|
        invariant n == 0 <==> forall j :: 0 <= j < i ==> !units[j].io.Healthy()
        invariant sysMode.ModeAuto? || sysMode.ModeEmergency? ==> HealthyOn(i)
        invariant forall u :: u in units && (sysMode in {ModeClose, ModeManual} || !u.io.Healthy()) ==>
                                u.told == old(u.told)
      {
        if !units[i].io.stopErr && !units[i].io.commErr {
          n := n + 1;
          if sysMode.ModeAuto? || sysMode.ModeEmergency? {
            units[i].SwitchOpen();
          }
          assert units[i].io.Healthy();
        }
      }
    }

    method UnitErr()
      modifies `sysMode, `bmsMode, `unitErr, units`told
      ensures View() == UnitsChecked(old(View()), AnyUnitHealthy())
      ensures unitErr <==> forall i :: 0 <= i < |units| ==> units[i].io.stopErr || units[i].io.commErr
      ensures old(sysMode).ModeAuto? || old(sysMode).ModeEmergency? ==> HealthyOn(|units|)
    {
      var n := CountHealthy();
      if n == 0 {
        unitErr := true;
        if sysMode.ModeAuto? || sysMode.ModeEmergency? {
          sysMode := ModeManual;
          bmsMode := ModeManual;
        }
      } else {
        unitErr := false;
      }
    }

    method ExAirFanErr()
      modifies `sysMode, `bmsMode, `fanErr
      ensures View() == FansChecked(old(View()), AnyFanWorking())
      ensures fanErr <==> forall i :: 0 <= i < |fans| ==> fans[i].io.err
    {
      var n := 0;
      for i := 0 to |fans|
        invariant n == 0 <==> !(exists j :: 0 <= j < i && !fans[j].io.err)
      {
        if !fans[i].io.err {
          n := n + 1;
        }
      }
      if n == 0 {
        fanErr := true;
        if sysMode.ModeAuto? {
          sysMode := ModeManual;
          bmsMode := ModeManual;
        }
      } else {
        fanErr := false;
      }
    }

    method ExAirFanRemoteChange()
      modifies `sysMode, `bmsMode
      ensures View() == RemoteChecked(old(View()), AnyRemote())
      ensures sysMode == if old(sysMode) == ModeAuto && (forall i :: 0 <= i < |fans| ==> !fans[i].io.remote)
                         then ModeManual else old(sysMode)
    {
      var n := CountRemote();
      if n == 0 {
        if sysMode.ModeAuto? {
          sysMode := ModeManual;
          bmsMode := ModeManual;
        }
      }
    }

    method ShowUnit(m: RunMode)
      modifies `sysState, `runMode
      ensures View() == Shown(old(View()), m)
    {
      match m {
        case RunCool => sysState := StateCool; runMode := RunCool;
        case RunHeat => sysState := StateHeat; runMode := RunHeat;
        case RunFan => sysState := StateFan; runMode := RunFan;
        case RunWet => sysState := StateWet; runMode := RunWet;
        case NoRunMode =>
      }
    }

    /** Unit `n` is the first one that runs. */
    ghost predicate FirstToRun(n: nat)
      reads `units, units`io
    {
      n < |units| && units[n].io.running && forall j :: 0 <= j < n ==> !units[j].io.running
    }

    lemma {:induction false} ReportsFirst(n: nat, k: nat)
      requires k <= n && FirstToRun(n)
      ensures FirstRunning(Reports(k)) == Some(units[n].told.mode)
      decreases n - k
    {
      if k < n {
        ReportsFirst(n, k + 1);
      }
    }

    lemma {:induction false} ReportsNone(k: nat)
      requires k <= |units| && forall j :: k <= j < |units| ==> !units[j].io.running
      ensures FirstRunning(Reports(k)) == None
      decreases |units| - k
    {
      if k < |units| {
        ReportsNone(k + 1);
      }
    }

    /** A unit's run state or mode has changed. If the run state did, the unit's commands follow it. */
    method UnitRunningState(changed: Option<nat>, runState: bool)
      requires changed.Some? ==> changed.value < |units|
      modifies `sysMode, `bmsMode, `sysState, `runMode, `bmsRunMode, units`told
      ensures View() == UnitsSeen(old(View()), FirstRunning(Reports(0)), AnyFanRunning())
      ensures changed.Some? && runState ==>
                var u := units[changed.value];
                u.told.switchCmd == u.told.switchState == (if u.io.running then On else Off)
      ensures forall u :: u in units && !(changed.Some? && runState && u == units[changed.value]) ==>
                            u.told == old(u.told)
    {
      if changed.Some? && runState {
        var u := units[changed.value];
        if u.io.running {
          u.told := u.told.(switchCmd := On, switchState := On);
        } else {
          u.told := u.told.(switchCmd := Off, switchState := Off);
        }
      }
      SeeUnits();
    }

    /** The first running unit decides the derived states. */
    method LookAtUnits() returns (found: bool)
      modifies `sysMode, `bmsMode, `sysState, `runMode, `bmsRunMode
      ensures found == FirstRunning(Reports(0)).Some?
      ensures View() == match FirstRunning(Reports(0))
                        case Some(m) => UnitFound(old(View()), m)
                        case None => old(View())
    {
      for n := 0 to |units|
        invariant View() == old(View())
        invariant forall j :: 0 <= j < n ==> !units[j].io.running
      {
        if units[n].io.running {
          ReportsFirst(n, 0);
          ShowUnit(units[n].told.mode);
          if sysMode.ModeClose? {
            runMode := units[n].told.mode;
            bmsRunMode := units[n].told.mode;
            sysMode := ModeManual;
            bmsMode := ModeManual;
          }
          return true;
        }
      }
      ReportsNone(0);
      return false;
    }

    /** Any running fan wakes a closed system. */
    method LookAtFans() returns (state: SystemState)
      modifies `sysMode, `bmsMode
      ensures state == if AnyFanRunning() then StateExFan else StateClosed
      ensures View() == if AnyFanRunning() then Awakened(old(View())) else old(View())
    {
      state := StateClosed;
      for n := 0 to |fans|
        invariant state == StateClosed || state == StateExFan
        invariant state == StateClosed <==> forall j :: 0 <= j < n ==> !fans[j].io.running
        invariant View() == if state == StateExFan then Awakened(old(View())) else old(View())
      {
        if fans[n].io.running {
          if sysMode.ModeClose? {
            sysMode := ModeManual;
            bmsMode := ModeManual;
          }
          state := StateExFan;
          assert fans[n].io.running;
        }
      }
    }

    /** The part of the unit handler that recomputes the derived states. */
    method SeeUnits()
      modifies `sysMode, `bmsMode, `sysState, `runMode, `bmsRunMode
      ensures View() == UnitsSeen(old(View()), FirstRunning(Reports(0)), AnyFanRunning())
    {
      var found := LookAtUnits();
      if !found {
        sysState := LookAtFans();
      }
    }

    /** A fan's run state has changed. The command of a healthy remote fan follows it. */
    method FanRunningState(changed: Option<nat>)
      requires changed.Some? ==> changed.value < |fans|
      modifies `sysMode, `bmsMode, `sysState, `runMode, `bmsRunMode, fans`cmd
      ensures View() == FansSeen(old(View()), FirstRunning(Reports(0)), AnyFanRunning())
      ensures changed.Some? && !fans[changed.value].io.err && fans[changed.value].io.remote ==>
                fans[changed.value].cmd == if fans[changed.value].io.running then On else Off
      ensures forall f :: f in fans && !(changed.Some? && f == fans[changed.value] && !f.io.err && f.io.remote) ==>
                            f.cmd == old(f.cmd)
    {
      if changed.Some? && fans[changed.value].io.remote && !fans[changed.value].io.err {
        if fans[changed.value].io.running {
          fans[changed.value].cmd := On;
        } else {
          fans[changed.value].cmd := Off;
        }
      }
      SeeFans();
    }

    method SeeFans()
      modifies `sysMode, `bmsMode, `sysState, `runMode, `bmsRunMode
      ensures View() == FansSeen(old(View()), FirstRunning(Reports(0)), AnyFanRunning())
    {
      sysState := LookAtFans();
      var found := LookAtUnits();
    }
  }
}
