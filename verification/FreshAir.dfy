/** The fresh-air target of the system and its division among the two units. */
module FreshAir {
  import opened Common
  import opened Units

  const UNIT_NUM := 2
  const MAX_TARGET := 130000
  const UNIT_MAX := 65000
  const BASE := 65535

  /** Target, shares and health of the units, and the two registers that show the target in base 65535. */
  datatype Air = Air(target: nat, share: seq<nat>, healthy: seq<bool>, high: nat, low: nat)

  ghost predicate Shaped(a: Air) {
    |a.share| == UNIT_NUM && |a.healthy| == UNIT_NUM && a.high < TWO_16 && a.low < TWO_16
  }

  function Decoded(high: nat, low: nat): nat {
    high * BASE + low
  }

  function HealthyUnits(h: seq<bool>): nat
    requires |h| == UNIT_NUM
  {
    (if h[0] then 1 else 0) + if h[1] then 1 else 0
  }

  /** What the healthy units have been told to deliver together. */
  function Delivered(a: Air): nat
    requires Shaped(a)
  {
    (if a.healthy[0] then a.share[0] else 0) + if a.healthy[1] then a.share[1] else 0
  }

  /** The division is right: no unit is asked for more than it can, and the healthy units together are
      asked for the target, short of it by less than one unit of volume per unit. */
  ghost predicate Divided(a: Air)
    requires Shaped(a)
  {
    var h := HealthyUnits(a.healthy);
    h > 0 ==>
      && a.target <= UNIT_MAX * h
      && (forall i :: 0 <= i < UNIT_NUM && a.healthy[i] ==> a.share[i] <= UNIT_MAX)
      && a.target < Delivered(a) + h && Delivered(a) <= a.target
  }

  class FreshAirControl {
    var units: seq<ModularRoof>
    var freAirSet: nat
    var bmsHigh: nat
    var bmsLow: nat

    /** Two different units; the target within its limit; registers of 16 bits. */
    ghost predicate Valid()
      reads this
    {
      |units| == UNIT_NUM && units[0] != units[1] && freAirSet <= MAX_TARGET && bmsHigh < TWO_16 && bmsLow < TWO_16
    }

    function View(): (a: Air)
      requires |units| == UNIT_NUM
      reads this, units
    {
      Air(freAirSet, [units[0].told.freAirSet, units[1].told.freAirSet],
          [units[0].io.Healthy(), units[1].io.Healthy()], bmsHigh, bmsLow)
    }

    predicate Works(i: nat)
      requires i < |units|
      reads `units, units`io
    {
      !units[i].io.stopErr && !units[i].io.commErr
    }

    /** Exactly one of the two units works. */
    predicate WorksAlone()
      requires |units| == UNIT_NUM
      reads `units, units`io
    {
      Works(0) != Works(1)
    }

    /** Both units are told half the target, or the one that works all of it up to its limit. */
    predicate Given()
      requires |units| == UNIT_NUM
      reads `units, `freAirSet, units`io, units`told
    {
      && (Works(0) && Works(1) ==> units[0].told.freAirSet == units[1].told.freAirSet == freAirSet / 2)
      && (Works(0) && !Works(1) ==> units[0].told.freAirSet == Min(freAirSet, 65000))
      && (Works(1) && !Works(0) ==> units[1].told.freAirSet == Min(freAirSet, 65000))
    }

    /** The number of healthy units and the last of them. */
    method CountHealthy() returns (n: nat, unit: int)
      requires |units| == UNIT_NUM
      ensures n == HealthyUnits(View().healthy)
      ensures n > 0 ==> 0 <= unit < UNIT_NUM && units[unit].io.Healthy()
      ensures n == 1 ==> !units[1 - unit].io.Healthy()
    {
      n, unit := 0, -1;
      for i := 0 to UNIT_NUM
        invariant n == (if i > 0 && units[0].io.Healthy() then 1 else 0)
                       + if i > 1 && units[1].io.Healthy() then 1 else 0
        invariant if n == 0 then unit == -1 else 0 <= unit < i && units[unit].io.Healthy()
      {
        if !units[i].io.commErr && !units[i].io.stopErr {
          unit := i;
          n := n + 1;
        }
      }
    }

    method ShowTarget()
      requires Valid()
      modifies `bmsHigh, `bmsLow
      ensures Valid() && Decoded(bmsHigh, bmsLow) == freAirSet
    {
      bmsLow := freAirSet % BASE;
      bmsHigh := freAirSet / BASE;
    }

    method ShareEvenly()
      requires Valid()
      modifies units`told
      ensures units[0].told.freAirSet == units[1].told.freAirSet == freAirSet / UNIT_NUM
    {
      var share := U16(freAirSet / UNIT_NUM);
      for i := 0 to UNIT_NUM
        invariant forall j :: 0 <= j < i ==> units[j].told.freAirSet == share
      {
        units[i].told := units[i].told.(freAirSet := share);
      }
    }

    /** Divide the target: one healthy unit gets all of it up to its limit, and the target gives way;
        two get half each; without a healthy unit nothing is divided. */
    method Divide(n: nat, unit: int)
      requires Valid() && n == HealthyUnits(View().healthy)
      requires n > 0 ==> 0 <= unit < UNIT_NUM && units[unit].io.Healthy()
      requires n == 1 ==> !units[1 - unit].io.Healthy()
      modifies `freAirSet, `bmsHigh, `bmsLow, units`told
      ensures Valid() && Divided(View()) && Given()
      ensures freAirSet == TargetAfterFault(old(freAirSet), n)
      ensures freAirSet != old(freAirSet) ==> Decoded(bmsHigh, bmsLow) == freAirSet
      ensures freAirSet == old(freAirSet) ==> bmsHigh == old(bmsHigh) && bmsLow == old(bmsLow)
    {
      if n > 0 && n < UNIT_NUM {
        if freAirSet > UNIT_MAX {
          units[unit].told := units[unit].told.(freAirSet := UNIT_MAX);
          freAirSet := UNIT_MAX;
          ShowTarget();
        } else {
          units[unit].told := units[unit].told.(freAirSet := U16(freAirSet));
        }
      } else if n == UNIT_NUM {
        ShareEvenly();
      }
    }

    /** The register pair asks for a new target. */
    method SetFreAir()
      requires Valid()
      modifies `freAirSet, `bmsHigh, `bmsLow, units`told
      ensures Valid() && Decoded(bmsHigh, bmsLow) == freAirSet
      ensures var want := old(bmsHigh) * 65535 + old(bmsLow);
              freAirSet == if want > 130000 then old(freAirSet)
                           else if WorksAlone() && want != old(freAirSet) && want > 65000 then 65000 else want
      ensures var want := old(bmsHigh) * 65535 + old(bmsLow);
              want <= 130000 && want != old(freAirSet) ==> Given()
      ensures var want, h := Decoded(old(bmsHigh), old(bmsLow)), HealthyUnits(old(View()).healthy);
              && freAirSet == TargetAfterRequest(old(freAirSet), h, want)
              && (if want > MAX_TARGET || want == old(freAirSet) then View().share == old(View()).share
                  else Divided(View()))
    {
      var want := U32(bmsHigh * BASE + bmsLow);
      assert bmsHigh * BASE + bmsLow < TWO_32;
      if want > MAX_TARGET {
        ShowTarget();
        return;
      }
      var n, unit := CountHealthy();
      if freAirSet == want {
        return;
      }
      freAirSet := want;
      Divide(n, unit);
    }

    /** A unit has failed or come back. */
    method UnitErr()
      requires Valid()
      modifies `freAirSet, `bmsHigh, `bmsLow, units`told
      ensures Valid() && Divided(View()) && Given()
      ensures freAirSet == if WorksAlone() && old(freAirSet) > 65000 then 65000 else old(freAirSet)
      ensures freAirSet == TargetAfterFault(old(freAirSet), HealthyUnits(old(View()).healthy))
      ensures Decoded(old(bmsHigh), old(bmsLow)) == old(freAirSet) ==> Decoded(bmsHigh, bmsLow) == freAirSet
    {
      var n, unit := CountHealthy();
      Divide(n, unit);
    }

    /** The periodic refresh divides again without touching the target: a single unit may then fall
        short of a target that was set for two. */
    method FreshFreAir()
      requires Valid()
      modifies units`told
      ensures Valid() && Given()
      ensures var a, h := View(), HealthyUnits(View().healthy);
              h > 0 ==>
                && (forall i :: 0 <= i < UNIT_NUM && a.healthy[i] ==> a.share[i] <= UNIT_MAX)
                && Delivered(a) <= freAirSet
                && (Divided(a) <==> freAirSet <= UNIT_MAX * h)
    {
      var n, unit := CountHealthy();
      if n > 0 && n < UNIT_NUM {
        if freAirSet > UNIT_MAX {
          units[unit].told := units[unit].told.(freAirSet := UNIT_MAX);
        } else {
          units[unit].told := units[unit].told.(freAirSet := U16(freAirSet));
        }
      } else if n == UNIT_NUM {
        ShareEvenly();
      }
    }
  }

  // ------------------------------------------------------------------------------------------
  // Runs
  // ------------------------------------------------------------------------------------------

  /** What a unit failing or returning does to the target, by the number of healthy units. */
  function TargetAfterFault(target: nat, healthy: nat): nat {
    if healthy == 1 then Min(target, UNIT_MAX) else target
  }

  function TargetAfterRequest(target: nat, healthy: nat, want: nat): nat {
    if want > MAX_TARGET || want == target then target else TargetAfterFault(want, healthy)
  }

  datatype AirEvent = Request(want: nat, healthy: nat) | Fault(healthy: nat)

  function TargetAfter(target: nat, events: seq<AirEvent>): nat {
    if events == [] then target
    else
      var t := TargetAfter(target, events[..|events| - 1]);
      match events[|events| - 1]
      case Request(want, h) => TargetAfterRequest(t, h, want)
      case Fault(h) => TargetAfterFault(t, h)
  }

  /** Whatever is requested and whatever fails, the target never exceeds its limit; and right after a
      fault that leaves one unit it is within that unit's reach. */
  lemma {:induction false} TargetBounded(target: nat, events: seq<AirEvent>)
    requires target <= MAX_TARGET
    ensures TargetAfter(target, events) <= MAX_TARGET
    ensures events != [] && events[|events| - 1] == Fault(1) ==> TargetAfter(target, events) <= UNIT_MAX
    decreases |events|
  {
    if events == [] {
    } else {
      TargetBounded(target, events[..|events| - 1]);
    }
  }

  /** The failing and returning of units, by the number of healthy units each time. */
  function Faults(counts: seq<nat>): (events: seq<AirEvent>)
    ensures |events| == |counts| && forall i :: 0 <= i < |counts| ==> events[i] == Fault(counts[i])
  {
    seq(|counts|, i requires 0 <= i < |counts| => Fault(counts[i]))
  }

  /** However units fail and return, the target is kept exactly if a single unit can reach it or there
      never was only one; a target lost to a failed unit is not restored when the unit comes back. */
  lemma {:induction false} LostTargetStaysLost(target: nat, counts: seq<nat>)
    ensures TargetAfter(target, Faults(counts)) == target <==> target <= UNIT_MAX || 1 !in counts
    ensures TargetAfter(target, Faults(counts)) in {target, UNIT_MAX}
    decreases |counts|
  {
    if counts == [] {
    } else {
      var n := |counts| - 1;
      LostTargetStaysLost(target, counts[..n]);
      assert Faults(counts)[..n] == Faults(counts[..n]);
      assert 1 in counts <==> 1 in counts[..n] || counts[n] == 1;
    }
  }

  /** What a request comes to: the target asked for, unless that is above the limit or a single unit cannot
      reach it; asking for the old target again changes nothing. */
  lemma RequestMeets(target: nat, events: seq<AirEvent>, want: nat, healthy: nat)
    ensures var t := TargetAfter(target, events);
            TargetAfter(target, events + [Request(want, healthy)]) ==
              if want > 130000 then t
              else if healthy == 1 && want != t && want > 65000 then 65000 else want
  {
    var all := events + [Request(want, healthy)];
    assert all[..|all| - 1] == events;
  }
}
