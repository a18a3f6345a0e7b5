/**
 Which system mode the controller may be in, and what it concludes from the devices' run states. The
 handlers are modelled on the mode registers, the two all-failed flags and the derived states.
 */
module Supervision {
  import opened Common
  import UnitModes

  datatype Sup = Sup(
    sysMode: SystemMode, bmsMode: SystemMode, sysState: SystemState, runMode: RunMode, bmsRunMode: RunMode,
    unitErr: bool, fanErr: bool)

  // ------------------------------------------------------------------------------------------
  // System modes
  // ------------------------------------------------------------------------------------------

  /** A mode is taken on only if the plant can carry it: AUTO needs a remote fan and neither kind of
      device failed entirely, EMERGENCY needs a unit. A refusal puts the old mode back in the register. */
  function ModeChanged(s: Sup, m: SystemMode, anyRemote: bool): Sup {
    var refused := (m.ModeAuto? && (!anyRemote || s.unitErr || s.fanErr)) || (m.ModeEmergency? && s.unitErr);
    if s.sysMode == m then s
    else if refused then s.(bmsMode := s.sysMode)
    else s.(sysMode := m)
  }

  function Demoted(s: Sup): Sup {
    s.(sysMode := ModeManual, bmsMode := ModeManual)
  }

  function UnitsChecked(s: Sup, anyHealthy: bool): Sup {
    var t := if !anyHealthy && (s.sysMode.ModeAuto? || s.sysMode.ModeEmergency?) then Demoted(s) else s;
    t.(unitErr := !anyHealthy)
  }

  function FansChecked(s: Sup, anyWorking: bool): Sup {
    var t := if !anyWorking && s.sysMode.ModeAuto? then Demoted(s) else s;
    t.(fanErr := !anyWorking)
  }

  function RemoteChecked(s: Sup, anyRemote: bool): Sup {
    if !anyRemote && s.sysMode.ModeAuto? then Demoted(s) else s
  }

  // ------------------------------------------------------------------------------------------
  // Run states
  // ------------------------------------------------------------------------------------------

  /** The mode of the first running unit, if one runs. */
  function FirstRunning(units: seq<(bool, RunMode)>): Option<RunMode> {
    if units == [] then None
    else if units[0].0 then Some(units[0].1)
    else FirstRunning(units[1..])
  }

  function Shown(s: Sup, m: RunMode): Sup {
    if m.NoRunMode? then s else s.(sysState := UnitModes.StateOf(m), runMode := m)
  }

  /** A device that runs while the system is closed has been started by hand. */
  function Awakened(s: Sup): Sup {
    if s.sysMode.ModeClose? then Demoted(s) else s
  }

  /** A running unit decides the derived states. */
  function UnitFound(s: Sup, m: RunMode): Sup {
    var t := Shown(s, m);
    Awakened(if t.sysMode.ModeClose? then t.(runMode := m, bmsRunMode := m) else t)
  }

  /** The unit handler: units first, fans only if no unit runs. */
  function UnitsSeen(s: Sup, unit: Option<RunMode>, anyFan: bool): Sup {
    match unit
    case Some(m) => UnitFound(s, m)
    case None => if anyFan then Awakened(s).(sysState := StateExFan) else s.(sysState := StateClosed)
  }

  /** The fan handler: fans first, then units over them. */
  function FansSeen(s: Sup, unit: Option<RunMode>, anyFan: bool): Sup {
    var t := (if anyFan then Awakened(s) else s).(sysState := if anyFan then StateExFan else StateClosed);
    match unit
    case Some(m) => UnitFound(t, m)
    case None => t
  }

  /** The two handlers draw the same conclusion about system state, running mode and system mode,
      whenever the first running unit has a mode at all; without one, exactly when the old state
      happens to be what the fans alone suggest and no running mode is lost. */
  lemma HandlersAgreeExactly(s: Sup, unit: Option<RunMode>, anyFan: bool)
    ensures var u, f := UnitsSeen(s, unit, anyFan), FansSeen(s, unit, anyFan);
            (u.sysState == f.sysState && u.runMode == f.runMode && u.sysMode == f.sysMode && u.bmsMode == f.bmsMode)
              <==> (unit == Some(NoRunMode) ==>
                      && s.sysState == (if anyFan then StateExFan else StateClosed)
                      && (s.sysMode.ModeClose? && anyFan ==> s.runMode == NoRunMode))
  {
  }

  /** The running-mode register is the exception: when a closed system finds both a fan and a unit
      running, only the unit handler brings the register up to date. */
  lemma RegisterAgreesExactly(s: Sup, unit: Option<RunMode>, anyFan: bool)
    ensures UnitsSeen(s, unit, anyFan).bmsRunMode == FansSeen(s, unit, anyFan).bmsRunMode <==>
              (s.sysMode.ModeClose? && anyFan && unit.Some? ==> s.bmsRunMode == unit.value)
  {
  }

  /** Neither handler leaves the system closed while a device runs, or opens it while none does. */
  lemma ClosedExactly(s: Sup, unit: Option<RunMode>, anyFan: bool)
    ensures UnitsSeen(s, unit, anyFan).sysMode.ModeClose? <==> s.sysMode.ModeClose? && unit.None? && !anyFan
    ensures FansSeen(s, unit, anyFan).sysMode.ModeClose? <==> s.sysMode.ModeClose? && unit.None? && !anyFan
  {
  }

  /** The unit handler in plain terms: a running unit with a mode shows it, then come the fans; a device
      that runs takes a closed system to MANUAL, and a unit then brings its register along. */
  lemma UnitHandlerExactly(s: Sup, unit: Option<RunMode>, anyFan: bool)
    ensures var t, woken := UnitsSeen(s, unit, anyFan), s.sysMode == ModeClose && (unit.Some? || anyFan);
            && t.sysMode == (if woken then ModeManual else s.sysMode)
            && t.bmsMode == (if woken then ModeManual else s.bmsMode)
            && t.sysState == (match unit
                              case None => if anyFan then StateExFan else StateClosed
                              case Some(NoRunMode) => s.sysState
                              case Some(RunCool) => StateCool
                              case Some(RunHeat) => StateHeat
                              case Some(RunFan) => StateFan
                              case Some(RunWet) => StateWet)
            && t.runMode == (if unit.Some? && (unit.value != NoRunMode || s.sysMode == ModeClose)
                             then unit.value else s.runMode)
            && t.bmsRunMode == (if unit.Some? && s.sysMode == ModeClose then unit.value else s.bmsRunMode)
            && t.unitErr == s.unitErr && t.fanErr == s.fanErr
  {
  }

  /** The fan handler: the fans have taken a closed system to MANUAL before a unit is looked at, and they
      decide the state unless a running unit has a mode. */
  lemma FanHandlerExactly(s: Sup, unit: Option<RunMode>, anyFan: bool)
    ensures var t, woken := FansSeen(s, unit, anyFan), s.sysMode == ModeClose && (unit.Some? || anyFan);
            var alone := s.sysMode == ModeClose && !anyFan;
            && t.sysMode == (if woken then ModeManual else s.sysMode)
            && t.bmsMode == (if woken then ModeManual else s.bmsMode)
            && t.sysState == (match unit
                              case None => if anyFan then StateExFan else StateClosed
                              case Some(NoRunMode) => if anyFan then StateExFan else StateClosed
                              case Some(RunCool) => StateCool
                              case Some(RunHeat) => StateHeat
                              case Some(RunFan) => StateFan
                              case Some(RunWet) => StateWet)
            && t.runMode == (if unit.Some? && (unit.value != NoRunMode || alone) then unit.value else s.runMode)
            && t.bmsRunMode == (if unit.Some? && alone then unit.value else s.bmsRunMode)
            && t.unitErr == s.unitErr && t.fanErr == s.fanErr
  {
  }

  /** When no unit is healthy any more AUTO and EMERGENCY give way to MANUAL, when no fan works AUTO does,
      and so it does without a remote fan. Otherwise the mode stays, and nothing else changes but the flag. */
  lemma FaultsExactly(s: Sup, any: bool)
    ensures UnitsChecked(s, any) ==
              (if !any && s.sysMode in {ModeAuto, ModeEmergency}
               then s.(sysMode := ModeManual, bmsMode := ModeManual, unitErr := true) else s.(unitErr := !any))
    ensures FansChecked(s, any) ==
              (if !any && s.sysMode == ModeAuto
               then s.(sysMode := ModeManual, bmsMode := ModeManual, fanErr := true) else s.(fanErr := !any))
    ensures RemoteChecked(s, any) ==
              if !any && s.sysMode == ModeAuto then s.(sysMode := ModeManual, bmsMode := ModeManual) else s
  {
  }

  /** A request enters the mode asked for if the plant can carry it; if not, the mode stays and goes back
      into the register. */
  lemma ModeChangedExactly(s: Sup, m: SystemMode, anyRemote: bool)
    ensures var carried := match m
                           case ModeAuto => anyRemote && !s.unitErr && !s.fanErr
                           case ModeEmergency => !s.unitErr
                           case ModeManual => true
                           case ModeClose => true;
            ModeChanged(s, m, anyRemote) ==
              if s.sysMode == m then s else if carried then s.(sysMode := m) else s.(bmsMode := s.sysMode)
  {
  }

  // ------------------------------------------------------------------------------------------
  // Runs over any interleaving of events
  // ------------------------------------------------------------------------------------------

  /** The controller, whether a mode written to the register is still to be handled, and whether a
      remote fan was there the last time a handler looked. */
  datatype World = World(s: Sup, pending: bool, remoteSeen: bool)

  datatype Event =
    | Written(m: SystemMode)
    | ModeRequested(anyRemote: bool)
    | UnitFault(anyHealthy: bool)
    | FanFault(anyWorking: bool)
    | RemoteChanged(anyRemote: bool)
    | UnitRan(unit: Option<RunMode>, anyFan: bool)
    | FanRan(unit: Option<RunMode>, anyFan: bool)

  function After(w: World, e: Event): World {
    match e
    case Written(m) => w.(s := w.s.(bmsMode := m), pending := true)
    case ModeRequested(r) =>
      var looks := w.s.bmsMode.ModeAuto? && !w.s.sysMode.ModeAuto?;
      World(ModeChanged(w.s, w.s.bmsMode, r), false, if looks then r else w.remoteSeen)
    case UnitFault(h) => w.(s := UnitsChecked(w.s, h))
    case FanFault(h) => w.(s := FansChecked(w.s, h))
    case RemoteChanged(r) => w.(s := RemoteChecked(w.s, r), remoteSeen := r)
    case UnitRan(u, f) => w.(s := UnitsSeen(w.s, u, f))
    case FanRan(u, f) => w.(s := FansSeen(w.s, u, f))
  }

  function Replay(w: World, events: seq<Event>): World {
    if events == [] then w else After(Replay(w, events[..|events| - 1]), events[|events| - 1])
  }

  ghost predicate Safe(w: World) {
    && (w.s.sysMode.ModeAuto? ==> !w.s.unitErr && !w.s.fanErr && w.remoteSeen)
    && (w.s.sysMode.ModeEmergency? ==> !w.s.unitErr)
    && (w.s.bmsMode == w.s.sysMode || w.pending)
  }

  /** The run states end AUTO and EMERGENCY at most, and register and mode move together. */
  lemma RunStatesKeep(s: Sup, unit: Option<RunMode>, anyFan: bool)
    ensures UnitsSeen(s, unit, anyFan).unitErr == FansSeen(s, unit, anyFan).unitErr == s.unitErr
    ensures UnitsSeen(s, unit, anyFan).fanErr == FansSeen(s, unit, anyFan).fanErr == s.fanErr
    ensures Reseated(s, UnitsSeen(s, unit, anyFan)) && Reseated(s, FansSeen(s, unit, anyFan))
  {
  }

  predicate Reseated(s: Sup, t: Sup) {
    (t.sysMode == s.sysMode && t.bmsMode == s.bmsMode) || t.sysMode == t.bmsMode == ModeManual
  }

  lemma RunStatesSafe(w: World, e: Event)
    requires Safe(w) && (e.UnitRan? || e.FanRan?)
    ensures Safe(After(w, e))
  {
    RunStatesKeep(w.s, e.unit, e.anyFan);
  }

  lemma StepSafe(w: World, e: Event)
    requires Safe(w)
    ensures Safe(After(w, e))
  {
    if e.UnitRan? || e.FanRan? {
      RunStatesSafe(w, e);
    }
  }

  /** However events interleave, AUTO is never kept when all units or all fans have failed or no fan
      is remote, EMERGENCY never without a unit, and register and mode differ only while a written
      mode waits to be handled. */
  lemma {:induction false} AlwaysSafe(w: World, events: seq<Event>)
    requires Safe(w)
    ensures Safe(Replay(w, events))
    decreases |events|
  {
    if events == [] {
    } else {
      AlwaysSafe(w, events[..|events| - 1]);
      StepSafe(Replay(w, events[..|events| - 1]), events[|events| - 1]);
    }
  }

  /** Handling the register always ends with register and mode equal. */
  lemma RequestSettles(w: World, anyRemote: bool)
    ensures var t := After(w, ModeRequested(anyRemote)); t.s.bmsMode == t.s.sysMode && !t.pending
  {
  }

  /** A mode that is written and then handled is entered if it is the mode already or the plant can carry it,
      and otherwise the old mode stays. */
  lemma WrittenIsHandled(w: World, m: SystemMode, anyRemote: bool)
    ensures var carried := (m == ModeAuto ==> anyRemote && !w.s.unitErr && !w.s.fanErr)
                           && (m == ModeEmergency ==> !w.s.unitErr);
            Replay(w, [Written(m), ModeRequested(anyRemote)]).s.sysMode ==
              if w.s.sysMode == m || carried then m else w.s.sysMode
  {
    var events := [Written(m), ModeRequested(anyRemote)];
    assert events[..1] == [Written(m)] && events[..1][..0] == [];
    assert Replay(w, events[..1]) == After(w, Written(m));
  }

  /** A requested mode is entered exactly when it is the mode already, or its conditions hold. */
  lemma RequestGrantedExactly(w: World, anyRemote: bool)
    ensures After(w, ModeRequested(anyRemote)).s.sysMode == w.s.bmsMode <==>
              || w.s.sysMode == w.s.bmsMode
              || w.s.bmsMode.ModeClose? || w.s.bmsMode.ModeManual?
              || (w.s.bmsMode.ModeAuto? && anyRemote && !w.s.unitErr && !w.s.fanErr)
              || (w.s.bmsMode.ModeEmergency? && !w.s.unitErr)
  {
  }

  // ------------------------------------------------------------------------------------------
  // What the events say
  // ------------------------------------------------------------------------------------------

  /** Event `i` is the last report about the units, or about the fans' faults, or about their operation. */
  ghost predicate LastUnitFault(events: seq<Event>, i: nat) {
    i < |events| && events[i].UnitFault? && forall j :: i < j < |events| ==> !events[j].UnitFault?
  }

  ghost predicate LastFanFault(events: seq<Event>, i: nat) {
    i < |events| && events[i].FanFault? && forall j :: i < j < |events| ==> !events[j].FanFault?
  }

  /** The flag of the units is what the last report found, and without one what it was. */
  lemma {:induction false} UnitFlagFollows(w: World, events: seq<Event>)
    ensures forall i: nat :: LastUnitFault(events, i) ==> (Replay(w, events).s.unitErr <==> !events[i].anyHealthy)
    ensures (forall e :: e in events ==> !e.UnitFault?) ==> Replay(w, events).s.unitErr == w.s.unitErr
    decreases |events|
  {
    if events != [] {
      var n := |events| - 1;
      UnitFlagFollows(w, events[..n]);
      StepFlags(Replay(w, events[..n]), events[n]);
      if !events[n].UnitFault? {
        assert forall i: nat :: LastUnitFault(events, i) ==> LastUnitFault(events[..n], i);
      }
    }
  }

  /** So is the flag of the fans. */
  lemma {:induction false} FanFlagFollows(w: World, events: seq<Event>)
    ensures forall i: nat :: LastFanFault(events, i) ==> (Replay(w, events).s.fanErr <==> !events[i].anyWorking)
    ensures (forall e :: e in events ==> !e.FanFault?) ==> Replay(w, events).s.fanErr == w.s.fanErr
    decreases |events|
  {
    if events != [] {
      var n := |events| - 1;
      FanFlagFollows(w, events[..n]);
      StepFlags(Replay(w, events[..n]), events[n]);
      if !events[n].FanFault? {
        assert forall i: nat :: LastFanFault(events, i) ==> LastFanFault(events[..n], i);
      }
    }
  }

  lemma StepFlags(w: World, e: Event)
    ensures After(w, e).s.unitErr == if e.UnitFault? then !e.anyHealthy else w.s.unitErr
    ensures After(w, e).s.fanErr == if e.FanFault? then !e.anyWorking else w.s.fanErr
  {
  }

  /** From a safe start, in AUTO the last reports found a healthy unit and a working fan, and in EMERGENCY
      a healthy unit: whatever else happened, and however often the operator asked. */
  lemma CarriedByReports(w: World, events: seq<Event>)
    requires Safe(w)
    ensures var mode := Replay(w, events).s.sysMode;
            && (mode in {ModeAuto, ModeEmergency} ==>
                  forall i: nat :: LastUnitFault(events, i) ==> events[i].anyHealthy)
            && (mode == ModeAuto ==> forall i: nat :: LastFanFault(events, i) ==> events[i].anyWorking)
  {
    AlwaysSafe(w, events);
    UnitFlagFollows(w, events);
    FanFlagFollows(w, events);
  }

  /** Once the last remote fan has gone, AUTO comes back only by a request that found one. */
  lemma {:induction false} AutoNeedsRemote(w: World, events: seq<Event>, i: nat)
    requires i < |events| && events[i] == RemoteChanged(false) && Replay(w, events).s.sysMode == ModeAuto
    ensures exists j :: i < j < |events| && events[j] == ModeRequested(true)
    decreases |events|
  {
    var n := |events| - 1;
    var v := Replay(w, events[..n]);
    StepToAuto(v, events[n]);
    if i < n && events[n] != ModeRequested(true) {
      AutoNeedsRemote(w, events[..n], i);
      var j :| i < j < n && events[..n][j] == ModeRequested(true);
      assert events[j] == ModeRequested(true);
    }
  }

  lemma StepToAuto(w: World, e: Event)
    requires After(w, e).s.sysMode == ModeAuto
    ensures e != RemoteChanged(false) && (w.s.sysMode == ModeAuto || e == ModeRequested(true))
  {
  }
}
