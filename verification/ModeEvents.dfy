/**
 The running-mode machine driven by what drives it in the firmware. The automatic step is taken by the
 callbacks of the condition and idle timers, and by nothing else; every change of the reading or of the
 target is followed at once by a watch; and the controller watches every ten seconds besides.
 */
module ModeEvents {
  import opened Common
  import opened Timers
  import opened UnitModes

  /** Time passes; a timer that has fallen due calls back; the indoor temperature changes; the periodic
      watch; the target is set; the operator sets a running mode. */
  datatype Event =
    | Pass(seconds: nat)
    | Callback
    | Reading(ambient: int)
    | Poll
    | Target(tempSet: nat)
    | Operator(mode: RunMode)

  /** The machine and how many callbacks are outstanding in this second. */
  datatype Board = Board(s: ModeState, pending: nat)

  function Falls(t: Timer, now: nat): nat {
    if t.due == now then 1 else 0
  }

  /** How many condition and idle timers fall due in this second. */
  function DueCount(s: ModeState): nat {
    Falls(s.cond.fanWet, s.now) + Falls(s.cond.fanHeat, s.now) + Falls(s.cond.wetCool, s.now)
    + Falls(s.cond.wetFan, s.now) + Falls(s.cond.coolWet, s.now) + Falls(s.cond.heatFan, s.now)
    + Falls(s.idle, s.now) + Falls(s.heatIdle, s.now)
  }

  function After(b: Board, e: Event): Board
    requires e.Callback? ==> b.pending > 0
  {
    match e
    case Pass(n) => var m := b.s.(now := b.s.now + n); Board(m, DueCount(m))
    case Callback => Board(Adjusted(b.s), b.pending - 1)
    case Reading(t) => b.(s := Watched(b.s.(ambient := t)))
    case Poll => b.(s := Watched(b.s))
    case Target(t) => b.(s := Watched(b.s.(config := b.s.config.(tempSet := t))))
    case Operator(m) => b.(s := ModeSet(b.s, m))
  }

  predicate Outside(t: Timer, from: nat, to: nat) {
    t.due <= from || t.due >= to
  }

  /** No deadline lies strictly between now and `to`. */
  predicate Uneventful(s: ModeState, to: nat) {
    && Outside(s.cond.fanWet, s.now, to) && Outside(s.cond.fanHeat, s.now, to)
    && Outside(s.cond.wetCool, s.now, to) && Outside(s.cond.wetFan, s.now, to)
    && Outside(s.cond.coolWet, s.now, to) && Outside(s.cond.heatFan, s.now, to)
    && Outside(s.idle, s.now, to) && Outside(s.heatIdle, s.now, to)
  }

  /** Time passes up to the next deadline once all callbacks have been made, and for ten seconds or more
      only if the periodic watches in between have nothing to do. Each timer that falls due calls back
      once. */
  predicate Allowed(b: Board, e: Event) {
    match e
    case Pass(n) => n > 0 && b.pending == 0 && Uneventful(b.s, b.s.now + n) && (n < 10 || Watched(b.s) == b.s)
    case Callback => b.pending > 0
    case Reading(t) => t != b.s.ambient
    case Poll => true
    case Target(t) => t != b.s.config.tempSet
    case Operator(m) => m != NoRunMode
  }

  predicate Leads(a: Board, e: Event, b: Board) {
    Allowed(a, e) && b == After(a, e)
  }

  /** Each event of a chain leads from one state to the next. */
  ghost predicate IsChain<S(!new), E(!new)>(leads: (S, E, S) -> bool, ss: seq<S>, es: seq<E>) {
    |ss| == |es| + 1 && forall i :: 0 <= i < |es| ==> leads(ss[i], es[i], ss[i + 1])
  }

  /** Some chain of these events leads from `a` to `b`. */
  ghost predicate Reaches<S(!new), E(!new)>(leads: (S, E, S) -> bool, a: S, es: seq<E>, b: S) {
    exists ss :: IsChain(leads, ss, es) && ss[0] == a && ss[|es|] == b
  }

  lemma OneEvent<S(!new), E(!new)>(leads: (S, E, S) -> bool, a: S, e: E, b: S)
    requires leads(a, e, b)
    ensures Reaches(leads, a, [e], b)
  {
    assert IsChain(leads, [a, b], [e]);
  }

  lemma Joined<S(!new), E(!new)>(
      leads: (S, E, S) -> bool, a: S, es: seq<E>, b: S, fs: seq<E>, c: S, all: seq<E>)
    requires Reaches(leads, a, es, b) && Reaches(leads, b, fs, c) && all == es + fs
    ensures Reaches(leads, a, all, c)
  {
    var ss :| IsChain(leads, ss, es) && ss[0] == a && ss[|es|] == b;
    var ts :| IsChain(leads, ts, fs) && ts[0] == b && ts[|fs|] == c;
    var us := ss + ts[1..];
    forall i | 0 <= i < |all|
      ensures leads(us[i], all[i], us[i + 1])
    {
      if i < |es| {
        assert leads(ss[i], es[i], ss[i + 1]);
      } else {
        assert leads(ts[i - |es|], fs[i - |es|], ts[i - |es| + 1]);
      }
    }
    assert IsChain(leads, us, all);
  }

  /** A play lists the events and the states they lead through. */
  ghost predicate IsPlay(boards: seq<Board>, events: seq<Event>) {
    IsChain(Leads, boards, events)
  }

  /** These events can happen in this order, and lead from `a` to `b`. */
  ghost predicate Plays(a: Board, events: seq<Event>, b: Board) {
    Reaches(Leads, a, events, b)
  }

  // ------------------------------------------------------------------------------------------
  // Plays are runs
  // ------------------------------------------------------------------------------------------

  function Last(run: seq<ModeState>): ModeState
    requires run != []
  {
    run[|run| - 1]
  }

  lemma Extend(run: seq<ModeState>, b: ModeState) returns (longer: seq<ModeState>)
    requires run != [] && IsRun(run) && Step(Last(run), b)
    ensures longer == run + [b] && IsRun(longer) && longer[0] == run[0] && Last(longer) == b
  {
    longer := run + [b];
    forall i
      ensures Link(longer, i)
    {
      assert Link(run, i);
    }
  }

  /** Each event is made of one or two steps. */
  lemma EventIsSteps(run: seq<ModeState>, b: Board, e: Event) returns (longer: seq<ModeState>)
    requires run != [] && IsRun(run) && Last(run) == b.s && Allowed(b, e)
    ensures longer != [] && IsRun(longer) && longer[0] == run[0] && Last(longer) == After(b, e).s
  {
    var s := b.s;
    match e
    case Reading(t) =>
      longer := Extend(run, s.(ambient := t));
      longer := Extend(longer, After(b, e).s);
    case Target(t) =>
      longer := Extend(run, s.(config := s.config.(tempSet := t)));
      longer := Extend(longer, After(b, e).s);
    case _ =>
      longer := Extend(run, After(b, e).s);
  }

  lemma Shorter(boards: seq<Board>, events: seq<Event>)
    requires IsPlay(boards, events) && events != []
    ensures IsPlay(boards[..|events|], events[..|events| - 1])
    ensures Leads(boards[|events| - 1], events[|events| - 1], boards[|events|])
  {
  }

  /** What is true of every run is true of every play. */
  lemma {:induction false} PlayIsRun(boards: seq<Board>, events: seq<Event>) returns (run: seq<ModeState>)
    requires IsPlay(boards, events)
    ensures run != [] && IsRun(run) && run[0] == boards[0].s && Last(run) == boards[|events|].s
    decreases |events|
  {
    if events == [] {
      run := [boards[0].s];
    } else {
      Shorter(boards, events);
      var n := |events| - 1;
      run := PlayIsRun(boards[..|events|], events[..n]);
      run := EventIsSteps(run, boards[n], events[n]);
    }
  }

  // ------------------------------------------------------------------------------------------
  // Single events under given settings
  // ------------------------------------------------------------------------------------------

  /** A target of 20 degrees with tolerances of one degree, waits and intervals of a minute, and a wait of
      ten minutes for HEAT. */
  const SETTINGS := Config(200, 0, 0, Uniform(10), Uniform(1).(fanHeat := 10), 1, 1, Uniform(1))

  /** A plant under these settings, with all callbacks made. */
  function At(now: nat, mode: RunMode, ambient: int, cond: PerEdge<Timer>, gap: PerEdge<Timer>): Board {
    Board(Still(SETTINGS, mode, ambient).(now := now, cond := cond, gap := gap), 0)
  }

  function Due(fanWet: nat, fanHeat: nat, wetCool: nat, wetFan: nat): PerEdge<Timer> {
    PerEdge(Timer(fanWet), Timer(fanHeat), Timer(wetCool), Timer(wetFan), STOPPED, STOPPED)
  }

  lemma ColdInWet(now: nat, mild: int, cond: PerEdge<Timer>, gap: PerEdge<Timer>)
    requires 190 <= mild <= 210 && !cond.wetFan.Running(now)
    ensures Plays(At(now, RunWet, mild, cond, gap), [Reading(150)],
                  At(now, RunWet, 150, cond.(wetFan := Timer(now + 60)), gap))
  {
    var a, b := At(now, RunWet, mild, cond, gap), At(now, RunWet, 150, cond.(wetFan := Timer(now + 60)), gap);
    assert Leads(a, Reading(150), b) by {
      assert Noticed(At(now, RunWet, 150, cond, gap).s) == Some(WetToFan);
    }
    OneEvent(Leads, a, Reading(150), b);
  }

  lemma ColdInFan(now: nat, mild: int, cond: PerEdge<Timer>, gap: PerEdge<Timer>)
    requires 190 <= mild <= 210 && !cond.fanHeat.Running(now)
    ensures Plays(At(now, RunFan, mild, cond, gap), [Reading(150)],
                  At(now, RunFan, 150, cond.(fanHeat := Timer(now + 600)), gap))
  {
    var a, b := At(now, RunFan, mild, cond, gap), At(now, RunFan, 150, cond.(fanHeat := Timer(now + 600)), gap);
    assert Leads(a, Reading(150), b) by {
      assert Noticed(At(now, RunFan, 150, cond, gap).s) == Some(FanToHeat);
    }
    OneEvent(Leads, a, Reading(150), b);
  }

  lemma HotInFan(now: nat, was: int, cond: PerEdge<Timer>, gap: PerEdge<Timer>)
    requires was != 250
    ensures var timer := if cond.fanWet.Running(now) then cond.fanWet else Timer(now + 60);
            Plays(At(now, RunFan, was, cond, gap), [Reading(250)],
                  At(now, RunFan, 250, cond.(fanWet := timer), gap))
  {
    var timer := if cond.fanWet.Running(now) then cond.fanWet else Timer(now + 60);
    var a, b := At(now, RunFan, was, cond, gap), At(now, RunFan, 250, cond.(fanWet := timer), gap);
    assert Leads(a, Reading(250), b) by {
      var seen := if cond.fanWet.Running(now) then None else Some(FanToWet);
      assert Noticed(At(now, RunFan, 250, cond, gap).s) == seen;
    }
    OneEvent(Leads, a, Reading(250), b);
  }

  /** A reading within the tolerances arms nothing. */
  lemma Mild(now: nat, mode: RunMode, was: int, mild: int, cond: PerEdge<Timer>, gap: PerEdge<Timer>)
    requires (mode.RunFan? || mode.RunWet?) && 190 <= mild <= 210 && mild != was
    ensures Plays(At(now, mode, was, cond, gap), [Reading(mild)], At(now, mode, mild, cond, gap))
  {
    var a, b := At(now, mode, was, cond, gap), At(now, mode, mild, cond, gap);
    assert Leads(a, Reading(mild), b) by {
      assert Noticed(b.s) == None;
    }
    OneEvent(Leads, a, Reading(mild), b);
  }

  /** Seconds up to a time at which `k` timers fall due. If they are many, no condition may hold that is
      not being waited for. */
  lemma Waiting(now: nat, mode: RunMode, ambient: int, cond: PerEdge<Timer>, gap: PerEdge<Timer>, n: nat, k: nat)
    requires n > 0 && (mode.RunFan? || mode.RunWet?)
    requires Uneventful(At(now, mode, ambient, cond, gap).s, now + n)
    requires DueCount(At(now + n, mode, ambient, cond, gap).s) == k
    requires n < 10 || Noticed(At(now, mode, ambient, cond, gap).s) == None
    ensures Plays(At(now, mode, ambient, cond, gap), [Pass(n)],
                  At(now + n, mode, ambient, cond, gap).(pending := k))
  {
    var a, b := At(now, mode, ambient, cond, gap), At(now + n, mode, ambient, cond, gap).(pending := k);
    assert Leads(a, Pass(n), b);
    OneEvent(Leads, a, Pass(n), b);
  }

  // ------------------------------------------------------------------------------------------
  // What the waiting times do not prevent
  // ------------------------------------------------------------------------------------------

  const NONE := Due(0, 0, 0, 0)

  lemma SkippedStart() returns (b: Board)
    ensures Plays(At(0, RunWet, 200, NONE, NONE), [Reading(150), Pass(55)], b)
    ensures b == At(55, RunWet, 150, Due(0, 0, 0, 60), NONE)
  {
    var a, armed := At(0, RunWet, 200, NONE, NONE), Due(0, 0, 0, 60);
    b := At(0 + 55, RunWet, 150, armed, NONE);
    assert NONE.(wetFan := Timer(0 + 60)) == armed;
    ColdInWet(0, 200, NONE, NONE);
    Waiting(0, RunWet, 150, armed, NONE, 55, 0);
    Joined(Leads, a, [Reading(150)], At(0, RunWet, 150, armed, NONE), [Pass(55)], b, [Reading(150), Pass(55)]);
  }

  lemma SkippedEnd() returns (b: Board, c: Board)
    ensures Plays(At(55, RunWet, 150, Due(0, 0, 0, 60), NONE), [Operator(RunFan), Pass(5)], b)
    ensures Leads(b, Callback, c) && b.s.now == c.s.now == 60
    ensures b.s.mode == RunFan && b.s.cond.fanHeat == STOPPED && c.s.mode == RunHeat
  {
    var a, armed := At(55, RunWet, 150, Due(0, 0, 0, 60), NONE), Due(0, 0, 0, 60);
    var fan := At(55, RunFan, 150, armed, NONE);
    b := At(55 + 5, RunFan, 150, armed, NONE).(pending := 1);
    OneEvent(Leads, a, Operator(RunFan), fan);
    Waiting(55, RunFan, 150, armed, NONE, 5, 1);
    Joined(Leads, a, [Operator(RunFan)], fan, [Pass(5)], b, [Operator(RunFan), Pass(5)]);
    assert Choice(b.s) == RunHeat;
    c := After(b, Callback);
  }

  /** A switch without waiting: cold arms the timer of WET to FAN, the operator sets FAN five seconds
      before it falls due, and its callback takes FAN on to HEAT, whose timer was never armed. */
  lemma ConditionSkipped() returns (a: Board, b: Board, c: Board)
    ensures a == At(0, RunWet, 200, NONE, NONE)
    ensures Plays(a, [Reading(150), Pass(55), Operator(RunFan), Pass(5)], b)
    ensures Leads(b, Callback, c) && b.s.now == c.s.now == 60
    ensures b.s.mode == RunFan && b.s.cond.fanHeat == STOPPED && c.s.mode == RunHeat
  {
    a := At(0, RunWet, 200, NONE, NONE);
    var m := SkippedStart();
    b, c := SkippedEnd();
    Joined(Leads, a, [Reading(150), Pass(55)], m, [Operator(RunFan), Pass(5)], b,
           [Reading(150), Pass(55), Operator(RunFan), Pass(5)]);
  }

  lemma LapsedStart() returns (b: Board)
    ensures Plays(At(0, RunFan, 200, NONE, NONE), [Reading(250), Pass(5)], b)
    ensures b == At(5, RunFan, 250, Due(60, 0, 0, 0), NONE)
  {
    var a, armed := At(0, RunFan, 200, NONE, NONE), Due(60, 0, 0, 0);
    b := At(0 + 5, RunFan, 250, armed, NONE);
    assert NONE.(fanWet := Timer(0 + 60)) == armed;
    HotInFan(0, 200, NONE, NONE);
    Waiting(0, RunFan, 250, armed, NONE, 5, 0);
    Joined(Leads, a, [Reading(250)], At(0, RunFan, 250, armed, NONE), [Pass(5)], b, [Reading(250), Pass(5)]);
  }

  lemma LapsedMiddle() returns (b: Board, c: Board)
    ensures Plays(At(5, RunFan, 250, Due(60, 0, 0, 0), NONE), [Reading(200)], b) && Plays(b, [Pass(50)], c)
    ensures b.s.now == 5 && b.s.config == SETTINGS && b.s.ambient == 200
    ensures c == At(55, RunFan, 200, Due(60, 0, 0, 0), NONE)
  {
    var armed := Due(60, 0, 0, 0);
    b, c := At(5, RunFan, 200, armed, NONE), At(5 + 50, RunFan, 200, armed, NONE);
    Mild(5, RunFan, 250, 200, armed, NONE);
    Waiting(5, RunFan, 200, armed, NONE, 50, 0);
  }

  lemma LapsedEnd() returns (b: Board, c: Board)
    ensures Plays(At(55, RunFan, 200, Due(60, 0, 0, 0), NONE), [Reading(250), Pass(5)], b)
    ensures Leads(b, Callback, c) && b.s.now == c.s.now == 60
    ensures b.s.mode == RunFan && c.s.mode == RunWet
  {
    var a, armed := At(55, RunFan, 200, Due(60, 0, 0, 0), NONE), Due(60, 0, 0, 0);
    assert armed.(fanWet := Timer(60)) == armed;
    var hot := At(55, RunFan, 250, armed, NONE);
    b := At(55 + 5, RunFan, 250, armed, NONE).(pending := 1);
    HotInFan(55, 200, armed, NONE);
    Waiting(55, RunFan, 250, armed, NONE, 5, 1);
    Joined(Leads, a, [Reading(250)], hot, [Pass(5)], b, [Reading(250), Pass(5)]);
    assert Choice(b.s) == RunWet;
    c := After(b, Callback);
  }

  /** A lapse that is not seen: heat arms the timer of FAN to WET, is gone after five seconds and stays
      gone for fifty, comes back five seconds before the timer falls due, and still the mode is switched. */
  lemma ConditionLapsed() returns (a: Board, b: Board, c: Board, d: Board, e: Board)
    ensures a == At(0, RunFan, 200, NONE, NONE)
    ensures Plays(a, [Reading(250), Pass(5), Reading(200)], b) && Plays(b, [Pass(50)], c)
    ensures b.s.now == 5 && c.s.now == 55 && b.s.ambient == c.s.ambient == 200 && !Wanted(200, SETTINGS, FanToWet)
    ensures Plays(c, [Reading(250), Pass(5)], d) && Leads(d, Callback, e) && d.s.now == e.s.now == 60
    ensures d.s.mode == RunFan && e.s.mode == RunWet
  {
    a := At(0, RunFan, 200, NONE, NONE);
    var m := LapsedStart();
    b, c := LapsedMiddle();
    d, e := LapsedEnd();
    Joined(Leads, a, [Reading(250), Pass(5)], m, [Reading(200)], b, [Reading(250), Pass(5), Reading(200)]);
  }

  /** Cold, and at once heat: both timers of FAN are armed. */
  lemma NoTimeStart() returns (b: Board)
    ensures Plays(At(0, RunFan, 200, NONE, NONE), [Reading(150), Reading(250)], b)
    ensures b == At(0, RunFan, 250, Due(60, 600, 0, 0), NONE)
  {
    var a, cold := At(0, RunFan, 200, NONE, NONE), Due(0, 600, 0, 0);
    assert NONE.(fanHeat := Timer(0 + 600)) == cold && cold.(fanWet := Timer(0 + 60)) == Due(60, 600, 0, 0);
    var m := At(0, RunFan, 150, cold, NONE);
    b := At(0, RunFan, 250, Due(60, 600, 0, 0), NONE);
    ColdInFan(0, 200, NONE, NONE);
    HotInFan(0, 150, cold, NONE);
    Joined(Leads, a, [Reading(150)], m, [Reading(250)], b, [Reading(150), Reading(250)]);
  }

  /** WET after a minute, with its intervals armed. */
  lemma NoTimeWet() returns (b: Board)
    ensures Plays(At(0, RunFan, 250, Due(60, 600, 0, 0), NONE), [Pass(60), Callback], b)
    ensures b == At(60, RunWet, 250, Due(60, 600, 0, 0), Due(0, 0, 120, 120))
  {
    var a, armed := At(0, RunFan, 250, Due(60, 600, 0, 0), NONE), Due(60, 600, 0, 0);
    var m := At(0 + 60, RunFan, 250, armed, NONE).(pending := 1);
    Waiting(0, RunFan, 250, armed, NONE, 60, 1);
    assert Choice(m.s) == RunWet;
    b := After(m, Callback);
    OneEvent(Leads, m, Callback, b);
    Joined(Leads, a, [Pass(60)], m, [Callback], b, [Pass(60), Callback]);
  }

  lemma NoTimeMild() returns (b: Board)
    ensures Plays(At(60, RunWet, 250, Due(60, 600, 0, 0), Due(0, 0, 120, 120)), [Reading(205), Pass(480)], b)
    ensures b == At(540, RunWet, 205, Due(60, 600, 0, 0), Due(0, 0, 120, 120))
  {
    var cond, gap := Due(60, 600, 0, 0), Due(0, 0, 120, 120);
    var a, m := At(60, RunWet, 250, cond, gap), At(60, RunWet, 205, cond, gap);
    b := At(60 + 480, RunWet, 205, cond, gap);
    Mild(60, RunWet, 250, 205, cond, gap);
    Waiting(60, RunWet, 205, cond, gap, 480, 0);
    Joined(Leads, a, [Reading(205)], m, [Pass(480)], b, [Reading(205), Pass(480)]);
  }

  /** Cold a minute before both timers fall due. */
  lemma NoTimeCold() returns (b: Board)
    ensures Plays(At(540, RunWet, 205, Due(60, 600, 0, 0), Due(0, 0, 120, 120)), [Reading(150), Pass(60)], b)
    ensures b == At(600, RunWet, 150, Due(60, 600, 0, 600), Due(0, 0, 120, 120)).(pending := 2)
  {
    var cond, both, gap := Due(60, 600, 0, 0), Due(60, 600, 0, 600), Due(0, 0, 120, 120);
    assert cond.(wetFan := Timer(540 + 60)) == both;
    var a, m := At(540, RunWet, 205, cond, gap), At(540, RunWet, 150, both, gap);
    b := At(540 + 60, RunWet, 150, both, gap).(pending := 2);
    ColdInWet(540, 205, cond, gap);
    Waiting(540, RunWet, 150, both, gap, 60, 2);
    Joined(Leads, a, [Reading(150)], m, [Pass(60)], b, [Reading(150), Pass(60)]);
  }

  lemma NoTimeEnd(b: Board) returns (c: Board, d: Board)
    requires b == At(600, RunWet, 150, Due(60, 600, 0, 600), Due(0, 0, 120, 120)).(pending := 2)
    ensures Leads(b, Callback, c) && Leads(c, Callback, d) && b.s.now == c.s.now == d.s.now == 600
    ensures b.s.mode == RunWet && c.s.mode == RunFan && d.s.mode == RunHeat
    ensures Adjusted(b.s.(cond := b.s.cond.With(FanToHeat, Timer(601)))).mode == RunFan
  {
    FanToHeatAtOnce(b.s);
    FanToHeatAtOnce(b.s.(cond := b.s.cond.With(FanToHeat, Timer(601))));
    c := After(b, Callback);
    d := After(c, Callback);
  }

  /** FAN for no time at all: cold arms the timer of FAN to HEAT for ten minutes, heat leads to WET within
      one, and cold again nine minutes after the start arms the timer of WET to FAN. Both timers fall due
      in the same second, and their two callbacks take WET to FAN and FAN to HEAT. The firmware's timers
      count parts of a second: the first callback may come while the timer of FAN to HEAT still runs,
      which makes no difference to it. */
  lemma FanForNoTime() returns (a: Board, b: Board, c: Board, d: Board)
    ensures a == At(0, RunFan, 200, NONE, NONE)
    ensures Plays(a, [Reading(150), Reading(250), Pass(60), Callback, Reading(205), Pass(480),
                      Reading(150), Pass(60)], b)
    ensures Leads(b, Callback, c) && Leads(c, Callback, d) && b.s.now == c.s.now == d.s.now == 600
    ensures b.s.mode == RunWet && c.s.mode == RunFan && d.s.mode == RunHeat
    ensures Adjusted(b.s.(cond := b.s.cond.With(FanToHeat, Timer(601)))).mode == RunFan
  {
    a := At(0, RunFan, 200, NONE, NONE);
    var k := NoTimeStart();
    var l := NoTimeWet();
    var m := NoTimeMild();
    b := NoTimeCold();
    var toWet := [Reading(150), Reading(250), Pass(60), Callback];
    Joined(Leads, a, [Reading(150), Reading(250)], k, [Pass(60), Callback], l, toWet);
    Joined(Leads, a, toWet, l, [Reading(205), Pass(480)], m, toWet + [Reading(205), Pass(480)]);
    Joined(Leads, a, toWet + [Reading(205), Pass(480)], m, [Reading(150), Pass(60)], b,
           [Reading(150), Reading(250), Pass(60), Callback, Reading(205), Pass(480), Reading(150), Pass(60)]);
    c, d := NoTimeEnd(b);
  }
}
