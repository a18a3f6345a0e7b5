/**
 What the two switching routines of the exhaust-fan scheduler decide, as sets of fans, and the
 laws of those decisions. `v` lists the fans as the routine finds them.
 */
module FanPlan {
  import opened Common
  import opened RunTimeOrder
  import opened RunTimeSort
  import opened ExAirFans

  function Hours(v: seq<FanState>): (h: seq<nat>)
    ensures |h| == |v| && forall i :: 0 <= i < |v| ==> h[i] == v[i].io.hours
  {
    seq(|v|, i requires 0 <= i < |v| => v[i].io.hours)
  }

  /** Constant-speed fans without fault and under remote control. */
  function Eligible(v: seq<FanState>): set<nat> {
    set i | 0 <= i < |v| && v[i].Constant() && v[i].Healthy()
  }

  function Running(v: seq<FanState>): set<nat> {
    set i | 0 <= i < |v| && v[i].Constant() && v[i].Healthy() && v[i].io.running
  }

  function Idle(v: seq<FanState>): set<nat> {
    set i | 0 <= i < |v| && v[i].Constant() && v[i].Healthy() && !v[i].io.running
  }

  /** The eligible fans among the first `n`, in list order. */
  function EligibleList(v: seq<FanState>, n: nat): (l: seq<nat>)
    requires n <= |v|
  {
    if n == 0 then []
    else if v[n - 1].Constant() && v[n - 1].Healthy() then EligibleList(v, n - 1) + [n - 1]
    else EligibleList(v, n - 1)
  }

  function RunningCount(v: seq<FanState>, n: nat): nat
    requires n <= |v|
  {
    if n == 0 then 0
    else RunningCount(v, n - 1) + if n - 1 in Running(v) then 1 else 0
  }

  lemma {:induction false} EligibleListMembers(v: seq<FanState>, n: nat)
    requires n <= |v|
    ensures forall a, b :: 0 <= a < b < |EligibleList(v, n)| ==> EligibleList(v, n)[a] < EligibleList(v, n)[b]
    ensures forall x :: x in EligibleList(v, n) <==> x in Eligible(v) && x < n
  {
    if n == 0 {
    } else {
      EligibleListMembers(v, n - 1);
      var l := EligibleList(v, n - 1);
      forall a | 0 <= a < |l|
        ensures l[a] < n - 1
      {
        assert l[a] in l;
      }
    }
  }

  function Below(s: set<nat>, n: nat): set<nat> {
    set x | x in s && x < n
  }

  lemma BelowNext(s: set<nat>, n: nat)
    ensures Below(s, n + 1) == Below(s, n) + if n in s then {n} else {}
    ensures |Below(s, n + 1)| == |Below(s, n)| + if n in s then 1 else 0
  {
    assert Below(s, n + 1) == Below(s, n) + if n in s then {n} else {};
  }

  lemma {:induction false} EligibleListCounts(v: seq<FanState>, n: nat)
    requires n <= |v|
    ensures |EligibleList(v, n)| == |Below(Eligible(v), n)|
    ensures RunningCount(v, n) == |Below(Running(v), n)|
  {
    if n == 0 {
    } else {
      EligibleListCounts(v, n - 1);
      BelowNext(Eligible(v), n - 1);
      BelowNext(Running(v), n - 1);
    }
  }

  /** The list a scan over all fans collects, before it is sorted. */
  lemma CollectedList(v: seq<FanState>)
    ensures Stable(Hours(v), EligibleList(v, |v|))
    ensures forall x :: x in EligibleList(v, |v|) <==> x in Eligible(v)
    ensures |EligibleList(v, |v|)| == |Eligible(v)|
    ensures RunningCount(v, |v|) == |Running(v)|
  {
    EligibleListMembers(v, |v|);
    EligibleListCounts(v, |v|);
    assert Below(Eligible(v), |v|) == Eligible(v) && Below(Running(v), |v|) == Running(v);
    var l := EligibleList(v, |v|);
    forall a | 0 <= a < |l|
      ensures l[a] < |v|
    {
      assert l[a] in l;
    }
  }

  /** The fans commanded off and the fans commanded on by one routine. */
  datatype Plan = Plan(off: set<nat>, on: set<nat>)

  function Applied(p: Plan, i: nat, s: FanState): FanState {
    if i in p.off then Closed(s) else if i in p.on then Opened(s) else s
  }

  /** Bring the count of running fans to `request`. */
  function SwitchPlan(v: seq<FanState>, request: nat): (p: Plan) {
    var h, r := Hours(v), Running(v);
    Plan(Picked(h, Longest, r, |r| - request), Picked(h, Shortest, Idle(v), request - |r|))
  }

  /** How many running fans the always-open routine closes. When `request < open` its countdown
      passes below its floor, wraps around as an 8-bit number, and the scan closes every one. */
  function AlwaysOpenCloses(running: nat, open: nat, request: nat): (k: int) {
    if running <= open then 0 else if request < open then running else running - request
  }

  /** Bring the count of running fans into `[open, request]`. */
  function AlwaysOpenPlan(v: seq<FanState>, open: nat, request: nat): (p: Plan) {
    var h, r := Hours(v), Running(v);
    Plan(Picked(h, Longest, r, AlwaysOpenCloses(|r|, open, request)),
         Picked(h, Shortest, Idle(v), open - |r|))
  }

  /** The fans that will be running once feedback has followed the commands. */
  function Planned(v: seq<FanState>, p: Plan): set<nat> {
    Running(v) - p.off + p.on
  }

  lemma EligibleSplit(v: seq<FanState>)
    ensures Eligible(v) == Running(v) + Idle(v) && Running(v) !! Idle(v)
    ensures |Eligible(v)| == |Running(v)| + |Idle(v)|
    ensures Indexes(Hours(v), Eligible(v))
    ensures Indexes(Hours(v), Running(v)) && Indexes(Hours(v), Idle(v))
  {
    assert Eligible(v) == Running(v) + Idle(v);
  }

  /** The size of any plan that closes some running fans and opens some idle ones. */
  lemma PlannedSize(v: seq<FanState>, p: Plan)
    requires p.off <= Running(v) && p.on <= Idle(v)
    ensures |Planned(v, p)| == |Running(v)| - |p.off| + |p.on|
    ensures Planned(v, p) <= Eligible(v)
  {
    EligibleSplit(v);
    assert Running(v) == (Running(v) - p.off) + p.off;
  }

  lemma PlanSizes(v: seq<FanState>, closes: int, opens: int)
    ensures var h := Hours(v);
            var p := Plan(Picked(h, Longest, Running(v), closes), Picked(h, Shortest, Idle(v), opens));
            && p.off <= Running(v) && p.on <= Idle(v)
            && |p.off| == Min(Max(closes, 0), |Running(v)|)
            && |p.on| == Min(Max(opens, 0), |Idle(v)|)
  {
    EligibleSplit(v);
    var h := Hours(v);
    if closes >= 0 {
      PickedCount(h, Longest, Running(v), closes);
    } else {
      assert Picked(h, Longest, Running(v), closes) == {};
    }
    if opens >= 0 {
      PickedCount(h, Shortest, Idle(v), opens);
    } else {
      assert Picked(h, Shortest, Idle(v), opens) == {};
    }
  }

  lemma SwitchSizes(v: seq<FanState>, request: nat)
    ensures var p, r := SwitchPlan(v, request), |Running(v)|;
            && p.off <= Running(v) && p.on <= Idle(v)
            && |p.off| == Max(r - request, 0)
            && |p.on| == Min(Max(request - r, 0), |Idle(v)|)
  {
    PlanSizes(v, |Running(v)| - request, request - |Running(v)|);
  }

  /** The switch routine plans exactly the requested number of fans, or all there are. */
  lemma SwitchExact(v: seq<FanState>, request: nat)
    ensures |Planned(v, SwitchPlan(v, request))| == Min(request, |Eligible(v)|)
    ensures Planned(v, SwitchPlan(v, request)) <= Eligible(v)
  {
    SwitchSizes(v, request);
    EligibleSplit(v);
    PlannedSize(v, SwitchPlan(v, request));
  }

  /** Only constant fans without fault and under remote control are closed if running and opened if not, and
      none of them is left standing while fewer than requested run. */
  lemma SwitchServes(v: seq<FanState>, request: nat, i: nat)
    requires i < |v|
    ensures var p := SwitchPlan(v, request);
            var able := v[i].drive.freqType == ConstantFreq && !v[i].io.err && v[i].io.remote;
            && (i in p.off ==> able && v[i].io.running) && (i in p.on ==> able && !v[i].io.running)
            && (i in Planned(v, p) <==> able && (i in p.on || (v[i].io.running && i !in p.off)))
            && |Planned(v, p)| <= request
            && (able && |Planned(v, p)| < request ==> i in Planned(v, p))
  {
    SwitchExact(v, request);
    SwitchSizes(v, request);
    if |Planned(v, SwitchPlan(v, request))| < request {
      SubsetSize(Planned(v, SwitchPlan(v, request)), Eligible(v));
    }
  }

  /** What commands do to a fan: off drops command and relay, on raises them unless the fan is at fault or
      local. */
  lemma CommandsReach(p: Plan, i: nat, s: FanState)
    requires i !in p.off || i !in p.on
    ensures var t := Applied(p, i, s);
            && (i in p.off ==> t.cmd == t.relay == Off)
            && (i in p.on && !s.io.err && s.io.remote ==> t.cmd == t.relay == On)
            && (i in p.on && (s.io.err || !s.io.remote) ==> t == s)
            && (i !in p.off && i !in p.on ==> t == s) && t.io == s.io
  {
  }

  /** Both routines close the longest-run fans and open the shortest-run ones. */
  lemma SwitchByHours(v: seq<FanState>, request: nat, x: nat, y: nat)
    ensures var p := SwitchPlan(v, request);
            && (x in p.off && y in Running(v) - p.off ==> v[x].io.hours >= v[y].io.hours)
            && (x in p.on && y in Idle(v) - p.on ==> v[x].io.hours <= v[y].io.hours)
  {
    EligibleSplit(v);
    var p := SwitchPlan(v, request);
    var h, r := Hours(v), Running(v);
    if x in p.off && y in r - p.off {
      PickedByHours(h, Longest, r, |r| - request, x, y);
    }
    if x in p.on && y in Idle(v) - p.on {
      PickedByHours(h, Shortest, Idle(v), request - |r|, x, y);
    }
  }

  ghost predicate InBand(v: seq<FanState>, open: nat, request: nat, n: nat) {
    Min(open, |Eligible(v)|) <= n <= request
  }

  /** The sizes of the always-open plan. */
  lemma AlwaysOpenSizes(v: seq<FanState>, open: nat, request: nat)
    requires open <= request
    ensures var p, r := AlwaysOpenPlan(v, open, request), |Running(v)|;
            && p.off <= Running(v) && p.on <= Idle(v)
            && |p.off| == (if r <= request then 0 else r - request)
            && |p.on| == Min(Max(open - r, 0), |Idle(v)|)
  {
    EligibleSplit(v);
    PlanSizes(v, AlwaysOpenCloses(|Running(v)|, open, request), open - |Running(v)|);
  }

  /** Fewer commands than it takes to enter the band from `r` fans do not get there. */
  lemma BandNeeds(r: nat, idle: nat, open: nat, request: nat, off: nat, on: nat)
    requires open <= request && off <= r && on <= idle && Min(open, r + idle) <= r - off + on <= request
    ensures (if r <= request then 0 else r - request) + Min(Max(open - r, 0), idle) <= off + on
  {
  }

  /** With `open <= request` the always-open routine lands in the band, and no other choice of fans
      lands there with fewer commands. */
  lemma AlwaysOpenBand(v: seq<FanState>, open: nat, request: nat, other: Plan)
    requires open <= request
    requires other.off <= Running(v) && other.on <= Idle(v)
    ensures var p := AlwaysOpenPlan(v, open, request);
            && p.off <= Running(v) && p.on <= Idle(v)
            && InBand(v, open, request, |Planned(v, p)|)
            && (InBand(v, open, request, |Planned(v, other)|) ==>
                  |p.off| + |p.on| <= |other.off| + |other.on|)
  {
    AlwaysOpenLands(v, open, request);
    if InBand(v, open, request, |Planned(v, other)|) {
      EligibleSplit(v);
      PlannedSize(v, other);
      SubsetSize(other.off, Running(v));
      SubsetSize(other.on, Idle(v));
      BandNeeds(|Running(v)|, |Idle(v)|, open, request, |other.off|, |other.on|);
    }
  }

  lemma AlwaysOpenLands(v: seq<FanState>, open: nat, request: nat)
    requires open <= request
    ensures var p, r := AlwaysOpenPlan(v, open, request), |Running(v)|;
            && p.off <= Running(v) && p.on <= Idle(v) && InBand(v, open, request, |Planned(v, p)|)
            && |p.off| + |p.on| == (if r <= request then 0 else r - request) + Min(Max(open - r, 0), |Idle(v)|)
  {
    AlwaysOpenSizes(v, open, request);
    EligibleSplit(v);
    PlannedSize(v, AlwaysOpenPlan(v, open, request));
  }

  /** Should `open` ever exceed `request`, the routine closes every running fan as soon as one more
      than `open` of them runs. */
  lemma AlwaysOpenOvershoots(v: seq<FanState>, open: nat, request: nat)
    requires request < open < |Running(v)|
    ensures Planned(v, AlwaysOpenPlan(v, open, request)) == {}
  {
    EligibleSplit(v);
    var r := Running(v);
    var p := AlwaysOpenPlan(v, open, request);
    PlanSizes(v, |r|, open - |r|);
    SubsetSize(p.off, r);
  }

  /** One pass runs the always-open routine and then the switch routine on the same feedback. The
      two never contradict each other, and together they command what the second alone commands. */
  lemma PassIsSwitch(v: seq<FanState>, open: nat, request: nat)
    requires open <= request
    ensures var a, b := AlwaysOpenPlan(v, open, request), SwitchPlan(v, request);
            && a.off == b.off && a.on <= b.on
            && (a.off + b.off) !! (a.on + b.on)
            && forall i: nat, s: FanState :: Applied(b, i, Applied(a, i, s)) == Applied(b, i, s)
  {
    EligibleSplit(v);
    var h, r := Hours(v), Running(v);
    var a, b := AlwaysOpenPlan(v, open, request), SwitchPlan(v, request);
    PickedMonotone(h, Shortest, Idle(v), open - |r|, request - |r|);
    if |r| <= open {
      assert a.off == b.off == {};
    }
    forall i: nat, s: FanState
      ensures Applied(b, i, Applied(a, i, s)) == Applied(b, i, s)
    {
      OpenTwice(s);
    }
  }

  /** Commanding a fan on twice is the same as commanding it once. */
  lemma OpenTwice(s: FanState)
    ensures Opened(Opened(s)) == Opened(s)
    ensures Closed(Closed(s)) == Closed(s)
  {
  }

  /** The two lists show the same inputs and the same kinds of fan; only commands may differ. */
  ghost predicate SameInputs(v: seq<FanState>, w: seq<FanState>) {
    |v| == |w| && forall i :: 0 <= i < |v| ==> v[i].io == w[i].io && v[i].Constant() == w[i].Constant()
  }

  /** Commands do not feed back within a pass: both routines decide on inputs alone. */
  lemma PlansOnInputs(v: seq<FanState>, w: seq<FanState>, open: nat, request: nat)
    requires SameInputs(v, w)
    ensures Hours(v) == Hours(w) && Eligible(v) == Eligible(w)
    ensures Running(v) == Running(w) && Idle(v) == Idle(w)
    ensures SwitchPlan(v, request) == SwitchPlan(w, request)
    ensures AlwaysOpenPlan(v, open, request) == AlwaysOpenPlan(w, open, request)
  {
    assert Hours(v) == Hours(w) && Eligible(v) == Eligible(w);
    assert Running(v) == Running(w) && Idle(v) == Idle(w);
  }
}
