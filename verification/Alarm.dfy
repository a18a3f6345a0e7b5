/** The sound-and-light alarm: when it may sound, and what silences it. */
module Alarms {
  import opened Common
  import opened ExAirFans
  import opened Units

  class Alarm {
    var units: seq<ModularRoof>
    var fans: seq<ExAirFan>
    var supAirMax: nat
    var co2: nat
    var co2Alarm: nat
    var co2SenErr: bool
    var tempHumiOutErr: bool
    var tempHumiInErr: bool
    var enabled: bool
    var output: Command

    predicate UnitAlarm(i: nat)
      requires i < |units|
      reads `units, `supAirMax, units`io
    {
      !units[i].io.online || units[i].io.stopErr || units[i].io.supAirTemp > supAirMax
    }

    /** A unit is off line, stopped by a fault or too hot, a fan is at fault, the CO2 reading is at its
        limit, or all sensors of a kind have failed. */
    predicate Condition()
      reads `units, `fans, `supAirMax, `co2, `co2Alarm, `co2SenErr, `tempHumiOutErr, `tempHumiInErr
      reads units`io, fans`io
    {
      || (exists i :: 0 <= i < |units| && UnitAlarm(i))
      || (exists i :: 0 <= i < |fans| && fans[i].io.err)
      || co2 >= co2Alarm
      || co2SenErr || tempHumiOutErr || tempHumiInErr
    }

    lemma ConditionMeans()
      ensures Condition() <==>
                || (exists i :: 0 <= i < |units| &&
                      (!units[i].io.online || units[i].io.stopErr || units[i].io.supAirTemp > supAirMax))
                || (exists i :: 0 <= i < |fans| && fans[i].io.err)
                || co2 >= co2Alarm || co2SenErr || tempHumiOutErr || tempHumiInErr
    {
      assert forall i :: 0 <= i < |units| ==>
          (UnitAlarm(i) <==> !units[i].io.online || units[i].io.stopErr || units[i].io.supAirTemp > supAirMax);
    }

    function View(): AlarmState
      reads `enabled, `output
    {
      AlarmState(enabled, output)
    }

    method SetAlarm()
      modifies `output
      ensures View() == AfterCall(old(View()), Set, Condition())
      ensures output == On <==> enabled || old(output) == On
    {
      if enabled {
        output := On;
      }
    }

    method DelAlarm()
      modifies `output
      ensures output == Off
    {
      output := Off;
    }

    /** Silence the alarm unless some condition for it holds. */
    method DelAlarmRequest()
      modifies `output
      ensures View() == AfterCall(old(View()), DelRequest, Condition())
      ensures output == On <==> old(output) == On && enabled && Condition()
    {
      if !enabled {
        DelAlarm();
      }
      for n := 0 to |units|
        invariant output == if enabled then old(output) else Off
        invariant forall i :: 0 <= i < n ==> !UnitAlarm(i)
      {
        if !units[n].io.online || units[n].io.stopErr {
          assert UnitAlarm(n);
          return;
        }
        if units[n].io.supAirTemp > supAirMax {
          assert UnitAlarm(n);
          return;
        }
      }
      for n := 0 to |fans|
        invariant output == if enabled then old(output) else Off
        invariant forall i :: 0 <= i < n ==> !fans[i].io.err
      {
        if fans[n].io.err {
          assert Condition();
          return;
        }
      }
      assert !(exists i :: 0 <= i < |units| && UnitAlarm(i));
      if co2 >= co2Alarm {
        return;
      }
      if co2SenErr || tempHumiOutErr || tempHumiInErr {
        return;
      }
      DelAlarm();
    }

    /** The operator's clean command; it is taken back once carried out. */
    method CleanAlarm(clean: bool) returns (still: bool)
      modifies `output
      ensures View() == AfterCall(old(View()), Clean(clean), Condition()) && !still
      ensures output == On <==> old(output) == On && !clean
    {
      still := clean;
      if clean {
        output := Off;
        still := false;
      }
    }

    /** Enabling sounds the alarm exactly if a condition holds; disabling silences it. */
    method AlarmEnable(enable: bool)
      modifies `enabled, `output
      ensures View() == AfterCall(old(View()), Enable(enable), Condition())
      ensures enabled == enable && (output == On <==> enable && (Condition() || old(output) == On))
    {
      enabled := enable;
      if enable {
        for n := 0 to |units|
          invariant enabled == enable && output == old(output)
          invariant forall i :: 0 <= i < n ==> !UnitAlarm(i)
        {
          if !units[n].io.online || units[n].io.stopErr {
            assert UnitAlarm(n);
            SetAlarm();
            return;
          }
          if units[n].io.supAirTemp > supAirMax {
            assert UnitAlarm(n);
            SetAlarm();
            return;
          }
        }
        for n := 0 to |fans|
          invariant enabled == enable && output == old(output)
          invariant forall i :: 0 <= i < n ==> !fans[i].io.err
        {
          if fans[n].io.err {
            SetAlarm();
            return;
          }
        }
        if co2 >= co2Alarm {
          SetAlarm();
          return;
        }
        if co2SenErr || tempHumiOutErr || tempHumiInErr {
          SetAlarm();
          return;
        }
      } else {
        DelAlarm();
      }
    }
  }

  // ------------------------------------------------------------------------------------------
  // Runs: between two calls any condition may come or go
  // ------------------------------------------------------------------------------------------

  datatype AlarmState = AlarmState(enabled: bool, output: Command)

  /** `condition` is whether an alarm condition holds at the moment of the call. */
  datatype Call = Set | DelRequest | Clean(clean: bool) | Enable(enable: bool)

  function AfterCall(s: AlarmState, call: Call, condition: bool): AlarmState {
    match call
    case Set => if s.enabled then s.(output := On) else s
    case DelRequest => if !s.enabled || !condition then s.(output := Off) else s
    case Clean(clean) => if clean then s.(output := Off) else s
    case Enable(e) => AlarmState(e, if !e then Off else if condition then On else s.output)
  }

  function AfterCalls(s: AlarmState, calls: seq<(Call, bool)>): AlarmState {
    if calls == [] then s
    else AfterCall(AfterCalls(s, calls[..|calls| - 1]), calls[|calls| - 1].0, calls[|calls| - 1].1)
  }

  /** The alarm never sounds while it is disabled. */
  lemma {:induction false} SoundsOnlyEnabled(s: AlarmState, calls: seq<(Call, bool)>)
    requires s.output == On ==> s.enabled
    ensures AfterCalls(s, calls).output == On ==> AfterCalls(s, calls).enabled
    decreases |calls|
  {
    if calls == [] {
    } else {
      SoundsOnlyEnabled(s, calls[..|calls| - 1]);
    }
  }

  /** With a condition present throughout and the alarm kept enabled, a sounding alarm is silenced by
      the operator's clean command and by nothing else. */
  lemma {:induction false} OnlyCleanSilences(s: AlarmState, calls: seq<(Call, bool)>)
    requires s.enabled && s.output == On
    requires forall i :: 0 <= i < |calls| ==> calls[i].1 && calls[i].0 != Enable(false)
    ensures AfterCalls(s, calls).enabled
    ensures AfterCalls(s, calls).output == Off ==> exists i :: 0 <= i < |calls| && calls[i].0 == Clean(true)
    decreases |calls|
  {
    if calls == [] {
    } else {
      var prefix, last := calls[..|calls| - 1], calls[|calls| - 1].0;
      OnlyCleanSilences(s, prefix);
      if AfterCalls(s, prefix).output == Off {
        var i :| 0 <= i < |prefix| && prefix[i].0 == Clean(true);
        assert calls[i].0 == Clean(true);
      } else if AfterCalls(s, calls).output == Off {
        assert last == Clean(true);
      }
    }
  }

  /** The last call of a sequence decides, in terms of the condition at that moment: a call to sound or the
      enabling under a condition sounds an enabled alarm; a request without one, cleaning and disabling
      silence it; and nothing else changes the output. */
  lemma LastCallDecides(s: AlarmState, calls: seq<(Call, bool)>, call: Call, condition: bool)
    ensures var t, u := AfterCalls(s, calls), AfterCalls(s, calls + [(call, condition)]);
            && u.enabled == (if call.Enable? then call.enable else t.enabled)
            && u.output == match call
                 case Set => if t.enabled then On else t.output
                 case DelRequest => if t.enabled && condition then t.output else Off
                 case Clean(clean) => if clean then Off else t.output
                 case Enable(e) => if !e then Off else if condition then On else t.output
  {
    var all := calls + [(call, condition)];
    assert all[..|all| - 1] == calls;
  }
}
