/**
 The sampling ring of one sensor and the means that the system forms over several. CO2 sensors and
 the temperature half of the temperature-humidity sensors sample alike, within different limits.
 */
module Sensors {
  import opened Common

  const SAMPLE_NUM := 5

  const MIN_CO2 := 0
  const MAX_CO2 := 5000
  const MIN_IN_TEMP := 0
  const MAX_IN_TEMP := 600

  const CO2_SEN_NUM := 3
  const TEMP_SEN_IN_NUM := 12

  function Sum(s: seq<int>): int {
    if s == [] then 0 else Sum(s[..|s| - 1]) + s[|s| - 1]
  }

  lemma {:induction false} SumUpdate(s: seq<int>, i: nat, x: int)
    requires i < |s|
    ensures Sum(s[i := x]) == Sum(s) - s[i] + x
  {
    var n := |s| - 1;
    if i == n {
      assert s[i := x][..n] == s[..n];
    } else {
      assert s[i := x][..n] == s[..n][i := x];
      SumUpdate(s[..n], i, x);
    }
  }

  lemma {:induction false} SumBetween(s: seq<int>, lo: int, hi: int)
    requires forall i :: 0 <= i < |s| ==> lo <= s[i] <= hi
    ensures lo * |s| <= Sum(s) <= hi * |s|
  {
    if s != [] {
      var n := |s| - 1;
      SumBetween(s[..n], lo, hi);
      OneMore(lo, n);
      OneMore(hi, n);
      assert Sum(s) == Sum(s[..n]) + s[n];
    }
  }

  lemma OneMore(a: int, n: nat)
    ensures a * (n + 1) == a * n + a
  {
  }

  /** A mean rounded toward zero still lies between the extremes. */
  lemma MeanBetween(total: int, n: nat, lo: int, hi: int)
    requires n > 0 && lo * n <= total <= hi * n
    ensures lo <= TruncDiv(total, n) <= hi
  {
    var q := TruncDiv(total, n);
    if total >= 0 {
      assert q * n <= total < (q + 1) * n;
    } else {
      assert (q - 1) * n < total <= q * n;
    }
    if q < lo {
      Steps(q + 1, lo, n);
    }
    if hi < q {
      Steps(hi, q - 1, n);
    }
  }

  lemma Steps(a: int, b: int, n: nat)
    requires a <= b
    ensures a * n <= b * n
  {
  }

  /** The last five readings. */
  function LastFive(h: seq<int>): (r: seq<int>)
    requires |h| >= SAMPLE_NUM
    ensures |r| == SAMPLE_NUM
  {
    h[|h| - SAMPLE_NUM..]
  }

  class SampleRing {
    const min: int
    const max: int
    const slots: array<int>

    var online: bool
    var reading: int
    var avg: int
    var total: int
    var index: nat
    var err: bool

    /** Every reading that has been accepted, oldest first. */
    ghost var accepted: seq<int>

    /** The ring holds the accepted readings of the round under way below `index`, and those of the
        round before from there on; the running total is their sum. */
    ghost predicate Valid()
      reads this, slots
    {
      && slots.Length == SAMPLE_NUM && index <= SAMPLE_NUM && min <= 0 < max
      && index <= |accepted| && (|accepted| - index) % SAMPLE_NUM == 0
      && (forall x :: x in accepted ==> min < x < max)
      && total == Sum(slots[..])
      && (forall i :: 0 <= i < index ==> slots[i] == accepted[|accepted| - index + i])
      && (forall i :: index <= i < SAMPLE_NUM ==>
            slots[i] == if |accepted| == index then 0 else accepted[|accepted| - index - SAMPLE_NUM + i])
      && min <= avg <= max
    }

    constructor (min: int, max: int)
      requires min <= 0 < max
      ensures Valid() && this.min == min && this.max == max && accepted == [] && fresh(slots)
    {
      this.min, this.max := min, max;
      slots := new int[SAMPLE_NUM](i => 0);
      online, reading, avg, total, index, err := false, 0, 0, 0, 0, false;
      accepted := [];
      new;
      SumBetween(slots[..], 0, 0);
    }

    /** A reading is accepted while the ring is filling and only strictly within the limits. */
    ghost predicate Accepts(r: int)
      reads `index
    {
      index < SAMPLE_NUM && min < r < max
    }

    /** One sampling tick. After it the error flag says exactly that the sensor is off line; a full
        ring publishes the mean of the last five accepted readings and starts a new round. */
    method Tick()
      requires Valid()
      modifies this, slots
      ensures Valid() && online == old(online)
      ensures err == !online
      ensures reading == if online then old(reading) else 0
      ensures var taken := old(index) < 5 && min < (if online then old(reading) else 0) < max;
              accepted == old(accepted) + if taken then [reading] else []
      ensures old(index) == SAMPLE_NUM ==>
                index == 0 && |accepted| >= SAMPLE_NUM && avg == TruncDiv(Sum(LastFive(accepted)), SAMPLE_NUM)
      ensures old(index) < SAMPLE_NUM ==> avg == if online then old(avg) else 0
    {
      if avg < min || avg > max || !online {
        err := true;
        reading := 0;
        avg := 0;
      } else {
        err := false;
      }
      if index < SAMPLE_NUM && reading > min && reading < max {
        Accept();
      } else if index == SAMPLE_NUM {
        Publish();
      }
    }

    method Accept()
      requires Valid() && Accepts(reading)
      modifies `total, `index, `accepted, slots
      ensures Valid() && accepted == old(accepted) + [reading]
    {
      ghost var s := slots[..];
      total := total - slots[index];
      slots[index] := reading;
      total := total + reading;
      SumUpdate(s, index, reading);
      assert slots[..] == s[index := reading];
      index := index + 1;
      accepted := accepted + [reading];
    }

    method Publish()
      requires Valid() && index == SAMPLE_NUM
      modifies `avg, `index
      ensures Valid() && index == 0 && |accepted| >= SAMPLE_NUM
      ensures avg == TruncDiv(Sum(LastFive(accepted)), SAMPLE_NUM)
    {
      assert slots[..] == LastFive(accepted);
      forall i | 0 <= i < SAMPLE_NUM
        ensures min <= slots[..][i] <= max
      {
        assert LastFive(accepted)[i] in accepted;
      }
      SumBetween(slots[..], min, max);
      MeanBetween(total, SAMPLE_NUM, min, max);
      avg := TruncDiv(total, SAMPLE_NUM);
      index := 0;
    }
  }

  /** 16-bit two's complement. */
  function S16(x: int): (r: int)
    ensures -0x8000 <= r < 0x8000
    ensures -0x8000 <= x < 0x8000 ==> r == x
  {
    (x + 0x8000) % TWO_16 - 0x8000
  }

  /** The averages of the sensors that are not in error. */
  function Usable(avgs: seq<int>, errs: seq<bool>): (u: seq<int>)
    requires |avgs| == |errs|
    ensures |u| <= |avgs|
    ensures forall x :: x in u ==> x in avgs
  {
    if avgs == [] then []
    else
      var n := |avgs| - 1;
      var u := Usable(avgs[..n], errs[..n]);
      if errs[n] then u else u + [avgs[n]]
  }

  /** What a mean over sensors has to be. */
  ghost predicate IsMean(mean: int, u: seq<int>) {
    if u == [] then mean == 0
    else mean == TruncDiv(Sum(u), |u|) && exists i, j :: 0 <= i < |u| && 0 <= j < |u| && u[i] <= mean <= u[j]
  }

  /** Some reading is the least and some the greatest. */
  lemma {:induction false} Extremes(u: seq<int>) returns (i: nat, j: nat)
    requires u != []
    ensures i < |u| && j < |u| && forall k :: 0 <= k < |u| ==> u[i] <= u[k] <= u[j]
  {
    if |u| == 1 {
      i, j := 0, 0;
    } else {
      var n := |u| - 1;
      i, j := Extremes(u[..n]);
      i := if u[n] < u[i] then n else i;
      j := if u[n] > u[j] then n else j;
    }
  }

  lemma MeanOfUsable(u: seq<int>)
    requires u != []
    ensures IsMean(TruncDiv(Sum(u), |u|), u)
  {
    var i, j := Extremes(u);
    SumBetween(u, u[i], u[j]);
    MeanBetween(Sum(u), |u|, u[i], u[j]);
  }

  /** One more sensor adds its average and one to the count, unless it is in error. */
  lemma UsableStep(avgs: seq<int>, errs: seq<bool>, n: nat)
    requires n < |avgs| == |errs|
    ensures var u, v := Usable(avgs[..n], errs[..n]), Usable(avgs[..n + 1], errs[..n + 1]);
            if errs[n] then v == u else |v| == |u| + 1 && Sum(v) == Sum(u) + avgs[n]
  {
    var u, v := Usable(avgs[..n], errs[..n]), Usable(avgs[..n + 1], errs[..n + 1]);
    assert avgs[..n + 1][..n] == avgs[..n] && errs[..n + 1][..n] == errs[..n];
    if !errs[n] {
      assert v[..|v| - 1] == u;
    }
  }

  class SensorSystem {
    var co2Sensors: seq<SampleRing>
    var tempSensors: seq<SampleRing>
    var co2: int
    var co2SenErr: bool
    var ambient: int
    var tempSenErr: bool

    function Avgs(s: seq<SampleRing>): (r: seq<int>)
      reads s
      ensures |r| == |s| && forall i :: 0 <= i < |s| ==> r[i] == s[i].avg
    {
      seq(|s|, i requires 0 <= i < |s| reads s => s[i].avg)
    }

    function Errs(s: seq<SampleRing>): (r: seq<bool>)
      reads s
      ensures |r| == |s| && forall i :: 0 <= i < |s| ==> r[i] == s[i].err
    {
      seq(|s|, i requires 0 <= i < |s| reads s => s[i].err)
    }

    /** The sum and the number of the usable CO2 sensors; the unsigned 16-bit sum never wraps. */
    method SumCO2() returns (total: int, num: nat)
      requires |co2Sensors| == CO2_SEN_NUM
      requires forall s :: s in co2Sensors ==> MIN_CO2 <= s.avg <= MAX_CO2
      ensures var u := Usable(Avgs(co2Sensors), Errs(co2Sensors)); total == Sum(u) && num == |u|
    {
      ghost var a, e := Avgs(co2Sensors), Errs(co2Sensors);
      total, num := 0, 0;
      for n := 0 to |co2Sensors|
        invariant num == |Usable(a[..n], e[..n])| && total == Sum(Usable(a[..n], e[..n]))
        invariant 0 <= total <= MAX_CO2 * n
      {
        UsableStep(a, e, n);
        assert MIN_CO2 <= co2Sensors[n].avg <= MAX_CO2;
        if !co2Sensors[n].err {
          total := U16(total + co2Sensors[n].avg);
          num := num + 1;
        }
      }
      assert a[..|co2Sensors|] == a && e[..|co2Sensors|] == e;
    }

    /** The sum and the number of the usable indoor sensors; the signed 16-bit sum never wraps. */
    method SumTemp() returns (total: int, num: nat)
      requires |tempSensors| == TEMP_SEN_IN_NUM
      requires forall s :: s in tempSensors ==> MIN_IN_TEMP <= s.avg <= MAX_IN_TEMP
      ensures var u := Usable(Avgs(tempSensors), Errs(tempSensors)); total == Sum(u) && num == |u|
    {
      ghost var a, e := Avgs(tempSensors), Errs(tempSensors);
      total, num := 0, 0;
      for n := 0 to |tempSensors|
        invariant num == |Usable(a[..n], e[..n])| && total == Sum(Usable(a[..n], e[..n]))
        invariant 0 <= total <= MAX_IN_TEMP * n
      {
        UsableStep(a, e, n);
        assert MIN_IN_TEMP <= tempSensors[n].avg <= MAX_IN_TEMP;
        if !tempSensors[n].err {
          total := S16(total + tempSensors[n].avg);
          num := num + 1;
        }
      }
      assert a[..|tempSensors|] == a && e[..|tempSensors|] == e;
    }

    /** Unless CO2 sensing is in error, the system's CO2 reading becomes the mean of the usable
        sensors. */
    method CO2PPM()
      requires |co2Sensors| == CO2_SEN_NUM
      requires forall s :: s in co2Sensors ==> MIN_CO2 <= s.avg <= MAX_CO2
      modifies `co2
      ensures if co2SenErr then co2 == old(co2) else IsMean(co2, Usable(Avgs(co2Sensors), Errs(co2Sensors)))
    {
      ghost var u := Usable(Avgs(co2Sensors), Errs(co2Sensors));
      var total, num := SumCO2();
      var mean := 0;
      if num != 0 {
        MeanOfUsable(u);
        mean := TruncDiv(total, num);
      }
      assert IsMean(mean, u);
      if co2 != mean && !co2SenErr {
        co2 := mean;
      }
      assert u == Usable(Avgs(co2Sensors), Errs(co2Sensors));
    }

    /** Unless temperature sensing is in error, the indoor temperature becomes the mean of the usable
        sensors. */
    method TempIn()
      requires |tempSensors| == TEMP_SEN_IN_NUM
      requires forall s :: s in tempSensors ==> MIN_IN_TEMP <= s.avg <= MAX_IN_TEMP
      modifies `ambient
      ensures if tempSenErr then ambient == old(ambient)
              else IsMean(ambient, Usable(Avgs(tempSensors), Errs(tempSensors)))
    {
      if tempSenErr {
        return;
      }
      ghost var u := Usable(Avgs(tempSensors), Errs(tempSensors));
      var total, num := SumTemp();
      var mean := 0;
      if num != 0 {
        MeanOfUsable(u);
        mean := TruncDiv(total, num);
      }
      assert IsMean(mean, u);
      if ambient != mean {
        ambient := mean;
      }
      assert u == Usable(Avgs(tempSensors), Errs(tempSensors));
    }
  }
}
