/**
 The exhaust air-volume demand: how many fans run all the time, how many are requested, and what
 becomes of the remainder that is less than one fan, either a frequency or a slice of time.
 All volumes and products are 32-bit unsigned, as the controller computes them.
 */
module Demands {
  import opened Common

  const MAX_RATED := 100000
  const MAX_FRESH := 130000
  const MAX_PERIOD := 7200
  const MAX_FREQ := 500

  datatype Settings = Settings(
    freAirSet: nat, coolRatio: nat, heatRatio: nat, ratedVol: nat, ctrlPeriod: nat,
    runTimeLeast: nat, minFreq: nat, maxFreq: nat, co2Thr: nat, co2Dev: nat)

  /** The limits that the setters and the register table enforce, and the widths of the others. */
  predicate InRange(s: Settings) {
    && s.freAirSet <= MAX_FRESH && s.ratedVol <= MAX_RATED
    && s.coolRatio < TWO_8 && s.heatRatio < TWO_8
    && s.ctrlPeriod < TWO_16 && s.runTimeLeast < TWO_16
    && s.minFreq <= MAX_FREQ && s.maxFreq <= MAX_FREQ && s.co2Thr < TWO_16 && s.co2Dev < TWO_16
  }

  /** Requested volume, always-open and requested number of fans, and the slice time. */
  datatype Demand = Demand(volume: nat, open: nat, request: nat, time: nat)

  predicate DemandOk(d: Demand) {
    d.open <= 3 && d.open <= d.request <= 4
  }

  function Volume(s: Settings, heating: bool): nat {
    U32(s.freAirSet * (if heating then s.heatRatio else s.coolRatio)) / 100
  }

  /** As many whole fans as the volume holds, but three at most. */
  function OpenNum(volume: nat, rated: nat): (n: nat)
    ensures n <= 3 && rated * n <= volume
    ensures rated > 0 && n < 3 ==> volume < rated * (n + 1)
  {
    if rated == 0 then 3 else
      var q := volume / rated;
      var n := Min(3, q);
      assert rated * n <= volume by {
        assert rated * n <= rated * q;
      }
      n
  }

  function Residual(volume: nat, rated: nat): nat {
    volume - rated * OpenNum(volume, rated)
  }

  function ConstantTime(residual: nat, period: nat, rated: nat): nat
    requires rated > 0
  {
    U32(residual * period) / rated
  }

  function VariableTime(residual: nat, minFreq: nat, period: nat, rated: nat): nat
    requires rated > 0 && minFreq > 0
  {
    U32(U32(residual * 500) / minFreq * period) / rated
  }

  /** One demand calculation. `variable` tells whether a healthy variable fan takes the remainder;
      its minimum frequency is then a divisor. A rated volume of 0 leaves the old slice time. */
  function NextDemand(s: Settings, heating: bool, variable: bool, was: Demand): (d: Demand)
    requires variable && s.ratedVol != 0 ==> s.minFreq > 0
    ensures DemandOk(d)
  {
    var volume := Volume(s, heating);
    var open := OpenNum(volume, s.ratedVol);
    var residual := Residual(volume, s.ratedVol);
    var time :=
      if s.ratedVol == 0 then was.time
      else if variable then VariableTime(residual, s.minFreq, s.ctrlPeriod, s.ratedVol)
      else ConstantTime(residual, s.ctrlPeriod, s.ratedVol);
    Demand(volume, open, if !variable && time >= s.runTimeLeast then open + 1 else open, time)
  }

  /** Calculating again with the same settings changes nothing. */
  lemma NextDemandSettles(s: Settings, heating: bool, variable: bool, was: Demand)
    requires variable && s.ratedVol != 0 ==> s.minFreq > 0
    ensures var d := NextDemand(s, heating, variable, was);
            NextDemand(s, heating, variable, d) == d
  {
  }

  lemma DivBracket(a: nat, b: nat)
    requires b > 0
    ensures b * (a / b) <= a < b * (a / b + 1)
  {
  }

  lemma MulMono(a: nat, b: nat, c: nat)
    requires a <= b
    ensures a * c <= b * c
  {
  }

  /** What the slice of a constant fan delivers: `rated * t` falls short of the remainder's share of
      the period by less than one second of one fan, exactly when the product fits 32 bits. */
  lemma ConstantTimeExactly(residual: nat, period: nat, rated: nat)
    requires 0 < rated < TWO_32
    ensures var t := ConstantTime(residual, period, rated);
            rated * t <= residual * period < rated * (t + 1) <==> residual * period < TWO_32
  {
    var p := residual * period;
    var t := ConstantTime(residual, period, rated);
    DivBracket(U32(p), rated);
    if p >= TWO_32 {
      assert U32(p) + TWO_32 <= p;
      assert rated * (t + 1) <= U32(p) + rated;
    }
  }

  const MAX_VOLUME := 331500

  lemma PercentBound(x: nat)
    requires x <= MAX_VOLUME * 100
    ensures U32(x) / 100 <= MAX_VOLUME
  {
  }

  lemma VolumeBound(s: Settings, heating: bool)
    requires InRange(s)
    ensures Volume(s, heating) <= MAX_VOLUME
  {
    var ratio := if heating then s.heatRatio else s.coolRatio;
    MulMono(s.freAirSet, MAX_FRESH, ratio);
    PercentBound(s.freAirSet * ratio);
  }

  /** The volume is the fresh-air target times the ratio of the running mode, in percent, rounded down. */
  lemma VolumeExactly(s: Settings, heating: bool, variable: bool, was: Demand)
    requires InRange(s) && (variable && s.ratedVol != 0 ==> s.minFreq > 0)
    ensures var v := NextDemand(s, heating, variable, was).volume;
            100 * v <= s.freAirSet * (if heating then s.heatRatio else s.coolRatio) < 100 * (v + 1)
  {
    var x := s.freAirSet * (if heating then s.heatRatio else s.coolRatio);
    MulMono(s.freAirSet, MAX_FRESH, if heating then s.heatRatio else s.coolRatio);
    assert x <= MAX_FRESH * 255 < TWO_32;
    DivBracket(x, 100);
  }

  /** Whole fans always run, three at most. Without a variable fan one more is requested if the slice is
      worth starting; with one the constant fans are asked for no more. A rated volume of 0 leaves the old
      slice time. */
  lemma RequestExactly(s: Settings, heating: bool, variable: bool, was: Demand)
    requires variable && s.ratedVol != 0 ==> s.minFreq > 0
    ensures var d := NextDemand(s, heating, variable, was);
            && (s.ratedVol > 0 ==> d.open == Min(3, d.volume / s.ratedVol))
            && (s.ratedVol == 0 ==> d.open == 3 && d.time == was.time)
            && d.request == d.open + if !variable && d.time >= s.runTimeLeast then 1 else 0
  {
  }

  lemma ResidualBound(volume: nat, rated: nat)
    ensures 0 <= Residual(volume, rated) <= volume
  {
  }

  /** Within the register limits that product always fits. */
  lemma ResidualFits(s: Settings, heating: bool)
    requires InRange(s) && s.ctrlPeriod <= MAX_PERIOD
    ensures Residual(Volume(s, heating), s.ratedVol) * s.ctrlPeriod < TWO_32
    ensures Residual(Volume(s, heating), s.ratedVol) * 500 < TWO_32
  {
    VolumeBound(s, heating);
    ResidualBound(Volume(s, heating), s.ratedVol);
    var r := Residual(Volume(s, heating), s.ratedVol);
    MulMono(r, MAX_VOLUME, s.ctrlPeriod);
  }

  /** The slice of a remainder smaller than one fan ends before the period does. */
  lemma SliceShorter(residual: nat, period: nat, rated: nat)
    requires residual < rated && period > 0 && residual * period < TWO_32
    ensures ConstantTime(residual, period, rated) < period
  {
    var t := ConstantTime(residual, period, rated);
    DivBracket(residual * period, rated);
    if t >= period {
      MulMono(period, t, rated);
      MulMono(residual + 1, rated, period);
    }
  }

  /** Below four rated fans the remainder is less than one fan, and its slice ends within the period. */
  lemma SliceWithinPeriod(s: Settings, heating: bool, was: Demand)
    requires InRange(s) && 0 < s.ctrlPeriod <= MAX_PERIOD && s.ratedVol > 0
    requires Volume(s, heating) < 4 * s.ratedVol
    ensures var d := NextDemand(s, heating, false, was);
            var residual := Residual(d.volume, s.ratedVol);
            && residual < s.ratedVol && d.time < s.ctrlPeriod
            && s.ratedVol * d.time <= residual * s.ctrlPeriod < s.ratedVol * (d.time + 1)
  {
    var volume := Volume(s, heating);
    var r := Residual(volume, s.ratedVol);
    assert r < s.ratedVol;
    assert r * s.ctrlPeriod < TWO_32 by {
      ResidualFits(s, heating);
    }
    ConstantTimeExactly(r, s.ctrlPeriod, s.ratedVol);
    SliceShorter(r, s.ctrlPeriod, s.ratedVol);
    var d := NextDemand(s, heating, false, was);
    assert d.time == ConstantTime(r, s.ctrlPeriod, s.ratedVol) && d.volume == volume;
  }

  // ------------------------------------------------------------------------------------------
  // The variable fan
  // ------------------------------------------------------------------------------------------

  /** The remainder is large enough for the variable fan to run continuously. */
  predicate FastBranch(residual: nat, minFreq: nat, rated: nat) {
    residual >= minFreq * rated / 500
  }

  function FastFreq(residual: nat, rated: nat): nat
    requires rated > 0
  {
    U16(U32(residual * 500) / rated)
  }

  lemma BelowFull(x: nat, rated: nat)
    requires rated > 0 && x < 500 * rated
    ensures var q := x / rated; q < 500 && q * rated <= x < (q + 1) * rated
  {
    DivBracket(x, rated);
  }

  lemma NarrowQuotient(x: nat, rated: nat)
    requires rated > 0 && x < 500 * rated && x < TWO_32
    ensures U16(U32(x) / rated) == x / rated
  {
    BelowFull(x, rated);
  }

  /** The continuous frequency is the remainder in tenths of a percent of a fan, rounded down. */
  lemma FastFreqExact(residual: nat, rated: nat)
    requires 0 < rated < TWO_16 && residual < rated
    ensures var f := FastFreq(residual, rated);
            f < 500 && f * rated <= 500 * residual < (f + 1) * rated
  {
    var x := residual * 500;
    NarrowQuotient(x, rated);
    BelowFull(x, rated);
  }

  /** The continuous branch finds a frequency below the minimum exactly when its threshold was rounded
      down onto the remainder. */
  lemma DeadZoneExactly(residual: nat, minFreq: nat, rated: nat)
    requires 0 < rated < TWO_16 && residual < rated && FastBranch(residual, minFreq, rated)
    ensures FastFreq(residual, rated) < minFreq <==>
              residual == minFreq * rated / 500 && minFreq * rated % 500 != 0
  {
    FastFreqExact(residual, rated);
    var f, m := FastFreq(residual, rated), minFreq * rated;
    DivBracket(m, 500);
    if f < minFreq {
      MulMono(f + 1, minFreq, rated);
      assert 500 * residual < m;
    } else {
      MulMono(minFreq, f, rated);
      assert m <= 500 * residual;
    }
  }

  lemma MulOrder(a: nat, b: nat, c: nat)
    ensures a * b * c == a * (b * c) && a * b == b * a
  {
  }

  /** Two divisions in a row, with a multiplication between them. */
  lemma DivChain(x: nat, m: nat, p: nat, rated: nat)
    requires m > 0 && rated > 0
    ensures var t := x / m * p / rated;
            && m * rated * t <= x * p
            && x * p < m * (rated * (t + 1) + p)
  {
    var b := x / m;
    var bp := b * p;
    var t := bp / rated;
    DivBracket(x, m);
    DivBracket(bp, rated);
    DivChainLow(x, m, p, b, bp, rated, t);
    DivChainHigh(x, m, p, b, bp, rated, t);
  }

  lemma DivChainLow(x: nat, m: nat, p: nat, b: nat, bp: nat, rated: nat, t: nat)
    requires bp == b * p && m * b <= x && rated * t <= bp
    ensures m * rated * t <= x * p
  {
    var rt := rated * t;
    MulOrder(m, rated, t);
    MulOrder(m, b, p);
    MulMono(m * b, x, p);
    MulMono(rt, bp, m);
    MulOrder(rt, m, 1);
    MulOrder(bp, m, 1);
    assert m * rt <= m * bp;
  }

  lemma DivChainHigh(x: nat, m: nat, p: nat, b: nat, bp: nat, rated: nat, t: nat)
    requires m > 0 && bp == b * p && x < m * (b + 1) && bp < rated * (t + 1)
    ensures x * p < m * (rated * (t + 1) + p)
  {
    var c := rated * (t + 1) + p;
    assert (b + 1) * p < c;
    MulOrder(m, b + 1, p);
    MulMono(x, m * (b + 1), p);
    assert x * p <= m * ((b + 1) * p);
    MulMono((b + 1) * p + 1, c, m);
    assert m * ((b + 1) * p) < m * c;
  }

  lemma SlowQuotient(residual: nat, minFreq: nat, rated: nat)
    requires rated > 0 && minFreq > 0 && !FastBranch(residual, minFreq, rated)
    ensures residual * 500 / minFreq < rated
  {
    var x := residual * 500;
    DivBracket(minFreq * rated, 500);
    assert x < minFreq * rated;
    DivBracket(x, minFreq);
    if x / minFreq >= rated {
      MulMono(rated, x / minFreq, minFreq);
    }
  }

  lemma QuotientShorter(b: nat, period: nat, rated: nat)
    requires b < rated && period > 0
    ensures b * period / rated < period
  {
    DivBracket(b * period, rated);
    MulMono(b + 1, rated, period);
    if b * period / rated >= period {
      MulMono(period, b * period / rated, rated);
    }
  }

  /** In the slow branch the variable fan's slice never overflows 32 bits and ends within the period. */
  lemma VariableSliceFits(residual: nat, minFreq: nat, period: nat, rated: nat)
    requires 0 < rated < TWO_16 && 1 <= minFreq <= 500 && 0 < period <= MAX_PERIOD
    requires residual < rated && !FastBranch(residual, minFreq, rated)
    ensures var t := VariableTime(residual, minFreq, period, rated);
            t == residual * 500 / minFreq * period / rated && t < period
  {
    var x := residual * 500;
    assert U32(x) == x;
    var b := x / minFreq;
    assert b < rated by {
      SlowQuotient(residual, minFreq, rated);
    }
    var bp := b * period;
    assert U32(bp) == bp by {
      MulMono(b, TWO_16, period);
    }
    assert VariableTime(residual, minFreq, period, rated) == bp / rated;
    QuotientShorter(b, period, rated);
  }

  /** Run at minimum frequency for that long, the fan delivers the remainder's share of the period,
      short of it by less than one second of slice and one step of the intermediate division. */
  lemma VariableSlice(residual: nat, minFreq: nat, period: nat, rated: nat)
    requires 0 < rated < TWO_16 && 1 <= minFreq <= 500 && 0 < period <= MAX_PERIOD
    requires residual < rated && !FastBranch(residual, minFreq, rated)
    ensures var t := VariableTime(residual, minFreq, period, rated);
            minFreq * rated * t <= residual * 500 * period < minFreq * (rated * (t + 1) + period)
  {
    VariableSliceFits(residual, minFreq, period, rated);
    DivChain(residual * 500, minFreq, period, rated);
  }
}
