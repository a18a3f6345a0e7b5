/**
 One exhaust fan: its switch, its frequency setting and the two-second supervision tick.
 The relay and the analog output are plain fields; the digital and analog inputs are written by the
 environment between handler calls.
 */
module ExAirFans {
  import opened Common

  const TICK_SECONDS := 2
  const CTRL_ERR_DELAY := 10

  /** Feedback: run state, fault and remote inputs, measured frequency, accumulated run hours. */
  datatype Inputs = Inputs(running: bool, err: bool, remote: bool, runningFreq: nat, hours: nat)

  datatype Drive = Drive(freqType: FreqType, setFreq: nat, minFreq: nat, maxFreq: nat, analogOut: nat)

  /** The tick's bookkeeping: a command is awaited, for how long, and the latched control fault. */
  datatype Watch = Watch(waiting: bool, timeCount: nat, ctrlErr: bool)

  datatype FanState = FanState(io: Inputs, drive: Drive, watch: Watch, cmd: Command, relay: Command) {
    predicate Healthy() {
      !io.err && io.remote
    }

    predicate Constant() {
      drive.freqType.ConstantFreq?
    }

    /** The command asks for something else than the feedback reports. */
    predicate Mismatch() {
      cmd.On? != io.running
    }

    /** A mismatch that the tick is allowed to act on. */
    predicate Demanded() {
      Mismatch() && (cmd.On? ==> Healthy())
    }
  }

  function FreqClamp(f: int, lo: int, hi: int): int {
    Min(Max(f, lo), hi)
  }

  function FreqSet(s: FanState, f: nat): (r: FanState) {
    var c := FreqClamp(f, s.drive.minFreq, s.drive.maxFreq);
    if s.Constant() || s.io.err then s
    else if s.cmd.On? && s.io.runningFreq != c then s.(drive := s.drive.(setFreq := c, analogOut := c))
    else s.(drive := s.drive.(setFreq := c))
  }

  function Opened(s: FanState): (r: FanState) {
    var on := s.(relay := On, cmd := On);
    if !s.Healthy() then s else if s.io.running then on else FreqSet(on, on.drive.setFreq)
  }

  function Closed(s: FanState): (r: FanState) {
    s.(relay := Off, cmd := Off)
  }

  /** The tick repeats an unanswered command and starts to wait for the answer. */
  function Driven(s: FanState): (r: FanState) {
    var d := if !s.Mismatch() then s else if s.cmd.Off? then Closed(s) else Opened(s);
    d.(watch := s.watch.(waiting := s.watch.waiting || s.Demanded()))
  }

  /** The counting part of a tick: how long the command has gone unanswered. */
  function Waited(s: FanState): (r: FanState) {
    var w := s.watch;
    if !w.waiting || !s.io.remote then s
    else if !s.Mismatch() then s.(watch := Watch(false, 0, w.ctrlErr))
    else if w.timeCount + TICK_SECONDS >= CTRL_ERR_DELAY then s.(watch := Watch(false, 0, true))
    else s.(watch := w.(timeCount := w.timeCount + TICK_SECONDS))
  }

  /** A fault, local operation or a control fault takes the command away. */
  predicate Tripped(s: FanState) {
    !s.Healthy() || s.watch.ctrlErr
  }

  function Guarded(s: FanState): (r: FanState) {
    if !Tripped(s) then s
    else s.(cmd := Off, watch := s.watch.(waiting := false), relay := if s.io.running then Off else s.relay)
  }

  function Tuned(s: FanState): (r: FanState) {
    var goal, run := s.drive.setFreq, s.io.runningFreq;
    if s.cmd.On? && s.io.running && (goal > run + 10 || goal + 10 < run) then FreqSet(s, goal) else s
  }

  /** One supervision tick. */
  function Ticked(s: FanState): (r: FanState) {
    Tuned(Guarded(Waited(Driven(s))))
  }

  class ExAirFan {
    /** The position of the fan in the fan list. */
    const index: nat

    var io: Inputs
    var drive: Drive
    var watch: Watch
    var cmd: Command
    var relay: Command

    constructor (index: nat, freqType: FreqType)
      ensures this.index == index && drive.freqType == freqType
      ensures cmd == Off && relay == Off && watch == Watch(false, 0, false)
    {
      this.index := index;
      drive := Drive(freqType, 0, 0, 0, 0);
      io := Inputs(false, false, false, 0, 0);
      watch, cmd, relay := Watch(false, 0, false), Off, Off;
    }

    function View(): (s: FanState)
      reads this
    {
      FanState(io, drive, watch, cmd, relay)
    }

    method SetFreq(freq: nat)
      modifies `drive
      ensures View() == FreqSet(old(View()), freq)
      ensures drive.freqType.VariableFreq? && !io.err ==>
                && (drive.minFreq <= freq <= drive.maxFreq ==> drive.setFreq == freq)
                && (freq < drive.minFreq <= drive.maxFreq ==> drive.setFreq == drive.minFreq)
                && (drive.maxFreq < freq ==> drive.setFreq == drive.maxFreq)
                && drive.analogOut == if cmd.On? && io.runningFreq != drive.setFreq then drive.setFreq
                                      else old(drive.analogOut)
      ensures drive.freqType.ConstantFreq? || io.err ==> drive == old(drive)
    {
      var f := freq;
      if drive.freqType.VariableFreq? && !io.err {
        if f < drive.minFreq {
          f := drive.minFreq;
        }
        if f > drive.maxFreq {
          f := drive.maxFreq;
        }
        drive := drive.(setFreq := f);
        if cmd.On? && io.runningFreq != f {
          drive := drive.(analogOut := f);
        }
      }
    }

    /** A healthy variable fan comes out with its set frequency clamped to the new range. */
    method SetFreqRange(lo: nat, hi: nat)
      modifies `drive
      ensures drive.freqType == old(drive.freqType)
      ensures drive.freqType.VariableFreq? ==> drive.minFreq == lo && drive.maxFreq == hi
      ensures drive.freqType.VariableFreq? && !io.err ==>
                drive.setFreq == FreqClamp(old(drive.setFreq), lo, hi)
      ensures drive.freqType.VariableFreq? && !io.err && lo <= hi ==>
                && lo <= drive.setFreq <= hi
                && (lo <= old(drive.setFreq) <= hi ==> drive == old(drive).(minFreq := lo, maxFreq := hi))
      ensures drive.freqType.ConstantFreq? || io.err ==> drive.setFreq == old(drive.setFreq)
    {
      if drive.freqType.VariableFreq? {
        drive := drive.(maxFreq := hi, minFreq := lo);
        if drive.setFreq < drive.minFreq {
          SetFreq(drive.minFreq);
        }
        if drive.setFreq > drive.maxFreq {
          SetFreq(drive.maxFreq);
        }
      }
    }

    method SwitchOpen()
      modifies `drive, `cmd, `relay
      ensures View() == Opened(old(View()))
      ensures !io.err && io.remote ==> cmd == On && relay == On
      ensures io.err || !io.remote ==> View() == old(View())
      ensures var d := old(drive);
              (&& !io.err && io.remote && !io.running
               && d.freqType.VariableFreq? && d.minFreq <= d.setFreq <= d.maxFreq) ==>
                drive == if io.runningFreq != d.setFreq then d.(analogOut := d.setFreq) else d
      ensures io.running || drive.freqType.ConstantFreq? ==> drive == old(drive)
    {
      if !io.err && io.remote {
        relay := On;
        cmd := On;
        if !io.running {
          if drive.freqType.VariableFreq? {
            SetFreq(drive.setFreq);
          }
        }
      }
    }

    method SwitchClose()
      modifies `cmd, `relay
      ensures View() == Closed(old(View())) && cmd == Off && relay == Off
    {
      relay := Off;
      cmd := Off;
    }

    method Tick()
      modifies `drive, `watch, `cmd, `relay
      ensures View() == Ticked(old(View()))
    {
      RepeatCommand();
      CountWait();
      if io.err || !io.remote || watch.ctrlErr {
        cmd := Off;
        watch := watch.(waiting := false);
        if cmd.Off? && io.running {
          SwitchClose();
        }
      }
      if drive.freqType.VariableFreq? && !io.err && cmd.On? && io.running {
        if (drive.setFreq > io.runningFreq && drive.setFreq - io.runningFreq > 10) ||
           (drive.setFreq < io.runningFreq && io.runningFreq - drive.setFreq > 10)
        {
          SetFreq(drive.setFreq);
        }
      }
    }

    method RepeatCommand()
      modifies `drive, `watch, `cmd, `relay
      ensures View() == Driven(old(View()))
    {
      if cmd.On? && !io.running && !io.err && io.remote {
        watch := watch.(waiting := true);
        SwitchOpen();
      }
      if cmd.Off? && io.running {
        watch := watch.(waiting := true);
        SwitchClose();
      }
    }

    method CountWait()
      modifies `watch
      ensures View() == Waited(old(View()))
    {
      if watch.waiting && io.remote {
        if (cmd.Off? && io.running) || (cmd.On? && !io.running) {
          watch := watch.(timeCount := watch.timeCount + TICK_SECONDS);
        }
        if (cmd.Off? && !io.running) || (cmd.On? && io.running) {
          watch := watch.(waiting := false, timeCount := 0);
        }
      }
      if watch.timeCount >= CTRL_ERR_DELAY && watch.waiting && io.remote {
        watch := Watch(false, 0, true);
      }
    }
  }

  // ------------------------------------------------------------------------------------------
  // What reaches the fan
  // ------------------------------------------------------------------------------------------

  /** Setting a frequency moves it into the limits, and puts it out to the drive of a fan that is commanded
      on and measured at another one. A constant fan or one at fault is left alone. */
  lemma FreqReaches(s: FanState, f: nat)
    requires s.drive.minFreq <= s.drive.maxFreq
    ensures var r := FreqSet(s, f);
            if s.drive.freqType == ConstantFreq || s.io.err then r == s
            else
              && s.drive.minFreq <= r.drive.setFreq <= s.drive.maxFreq
              && (s.drive.minFreq <= f ==> r.drive.setFreq <= f) && (f <= s.drive.maxFreq ==> f <= r.drive.setFreq)
              && r.drive.analogOut == (if s.cmd == On && s.io.runningFreq != r.drive.setFreq
                                       then r.drive.setFreq else s.drive.analogOut)
              && r == s.(drive := s.drive.(setFreq := r.drive.setFreq, analogOut := r.drive.analogOut))
  {
  }

  /** The tick leaves the command alone unless the fan is at fault, local or in control fault, and then takes
      it away. The relay of a fan that stands against its command is raised, and that of one that runs
      against it is dropped, at every tick until the fan obeys. */
  lemma TickCommands(s: FanState)
    ensures var t := Ticked(s);
            && t.io == s.io
            && t.cmd == (if s.io.err || !s.io.remote || t.watch.ctrlErr then Off else s.cmd)
            && t.relay == (if s.cmd == On && !s.io.running && !s.io.err && s.io.remote then On
                           else if s.io.running && t.cmd == Off then Off else s.relay)
  {
  }

  /** A running fan that is more than a Hertz away from its set frequency has it put out again. */
  lemma TickTunes(s: FanState)
    requires s.drive.freqType == VariableFreq && s.io.running
    requires s.drive.minFreq <= s.drive.setFreq <= s.drive.maxFreq && Ticked(s).cmd == On
    ensures var goal, run := s.drive.setFreq, s.io.runningFreq;
            Ticked(s).drive == if goal > run + 10 || run > goal + 10 then s.drive.(analogOut := goal) else s.drive
  {
    TickCommands(s);
  }

  // ------------------------------------------------------------------------------------------
  // Runs of one fan
  // ------------------------------------------------------------------------------------------

  /** A run lists the states in which the ticks were taken. Everything but the tick's own
      bookkeeping may change between two ticks. */
  ghost predicate IsRun(run: seq<FanState>) {
    forall i, j :: 0 <= i && j == i + 1 < |run| ==> run[j].watch == Ticked(run[i]).watch
  }

  /** A run in which the operator may also clear the latched control fault between two ticks. */
  ghost predicate IsCleanedRun(run: seq<FanState>) {
    forall i, j :: 0 <= i && j == i + 1 < |run| ==>
                     var w := Ticked(run[i]).watch; run[j].watch in {w, w.(ctrlErr := false)}
  }

  ghost predicate CounterOk(s: FanState) {
    s.watch.timeCount in {0, 2, 4, 6, 8}
  }

  lemma TickCounts(s: FanState)
    requires CounterOk(s)
    ensures CounterOk(Ticked(s))
  {
    assert CounterOk(Waited(Driven(s)));
  }

  /** What every tick leaves behind. */
  lemma TickSafe(s: FanState)
    ensures Tripped(Ticked(s)) ==> Ticked(s).cmd == Off
    ensures Ticked(s).io.running && Ticked(s).cmd == Off ==> Ticked(s).relay == Off
  {
    var w := Waited(Driven(s));
    assert w.io.running && w.cmd == Off ==> w.relay == Off;
    assert Tripped(Guarded(w)) ==> Guarded(w).cmd == Off;
  }

  /** The counter stays among its five values for ever, whatever happens between the ticks. */
  lemma {:induction false} CounterBounded(run: seq<FanState>, n: nat)
    requires IsCleanedRun(run) && n < |run| && CounterOk(run[0])
    ensures CounterOk(run[n]) && CounterOk(Ticked(run[n]))
  {
    if n > 0 {
      CounterBounded(run, n - 1);
      var w := Ticked(run[n - 1]).watch;
      assert run[n].watch in {w, w.(ctrlErr := false)};
    }
    TickCounts(run[n]);
  }

  /** An unanswered tick of a healthy fan either latches or counts. */
  lemma MismatchTick(s: FanState)
    requires s.Mismatch() && s.Healthy()
    ensures var w := Ticked(s).watch;
            w.ctrlErr || (w.timeCount == s.watch.timeCount + 2 && s.watch.timeCount < 8)
    ensures s.watch.ctrlErr ==> Ticked(s).watch.ctrlErr
  {
  }

  lemma {:induction false} MismatchCounts(run: seq<FanState>, n: nat)
    requires IsRun(run) && n < |run|
    requires forall i :: 0 <= i <= n ==> run[i].Mismatch() && run[i].Healthy()
    ensures var w := Ticked(run[n]).watch; w.ctrlErr || (w.timeCount >= 2 * (n + 1) && n < 4)
  {
    if n > 0 {
      MismatchCounts(run, n - 1);
      assert run[n].watch == Ticked(run[n - 1]).watch;
    }
    MismatchTick(run[n]);
  }

  /** Five ticks in a row of an unanswered command, on a healthy remote fan, latch the control fault
      and take the command away. */
  lemma FiveMismatchesLatch(run: seq<FanState>)
    requires IsRun(run) && |run| == 5
    requires forall i :: 0 <= i < 5 ==> run[i].Mismatch() && run[i].Healthy()
    ensures Ticked(run[4]).watch.ctrlErr && Ticked(run[4]).cmd == Off
  {
    MismatchCounts(run, 4);
    TickSafe(run[4]);
  }

  /** Exactly when one tick latches the control fault. */
  lemma LatchesExactly(s: FanState)
    requires !s.watch.ctrlErr && CounterOk(s)
    ensures Ticked(s).watch.ctrlErr <==>
              && s.io.remote && s.io.running != (s.cmd == On) && s.watch.timeCount == 8
              && (s.watch.waiting || (s.cmd == On ==> !s.io.err))
  {
  }

  lemma {:induction false} StaleCountKept(run: seq<FanState>, n: nat)
    requires IsRun(run) && n < |run| && !run[0].watch.waiting
    requires forall i :: 0 <= i < n ==> !run[i].Mismatch()
    ensures run[n].watch == run[0].watch
  {
    if n > 0 {
      StaleCountKept(run, n - 1);
      assert run[n].watch == Ticked(run[n - 1]).watch;
    }
  }

  /** The converse of `FiveMismatchesLatch` is false. A fan that goes local with four unanswered
      ticks on its counter keeps them: no later tick in agreement clears them, and back in remote
      operation a single unanswered tick is taken for a control fault. */
  lemma StaleCountLatches(run: seq<FanState>, n: nat)
    requires IsRun(run) && 1 <= n < |run|
    requires run[0].watch.timeCount == 8 && !run[0].watch.ctrlErr && !run[0].io.remote
    requires forall i :: 1 <= i < n ==> !run[i].Mismatch()
    requires run[n].Mismatch() && run[n].Healthy()
    ensures Ticked(run[n]).watch.ctrlErr
  {
    assert run[1].watch == Watch(false, 8, false);
    assert IsRun(run[1..]) by {
      forall i, j | 0 <= i && j == i + 1 < |run[1..]|
        ensures run[1..][j].watch == Ticked(run[1..][i]).watch
      {
        assert run[j + 1].watch == Ticked(run[i + 1]).watch;
      }
    }
    StaleCountKept(run[1..], n - 1);
    MismatchTick(run[n]);
  }

  /** Agreement clears a counter exactly when the tick is still waiting for an answer. */
  lemma AgreementClearsExactly(s: FanState)
    requires !s.Mismatch() && s.watch.timeCount > 0
    ensures Ticked(s).watch.timeCount == 0 <==> s.watch.waiting && s.io.remote
  {
  }

  // ------------------------------------------------------------------------------------------
  // Fans that stay healthy
  // ------------------------------------------------------------------------------------------

  /** How many ticks in a row, just before the `n`th, found the command unanswered. */
  ghost function Trail(run: seq<FanState>, n: nat): (k: nat)
    requires n < |run|
    ensures k <= n
  {
    if n == 0 || !run[n - 1].Mismatch() then 0 else Trail(run, n - 1) + 1
  }

  lemma {:induction false} TrailMeans(run: seq<FanState>, n: nat, m: nat)
    requires n < |run|
    ensures Trail(run, n) >= m <==> m <= n && forall i :: n - m <= i < n ==> run[i].Mismatch()
    decreases n
  {
    if n > 0 && m > 0 && run[n - 1].Mismatch() {
      TrailMeans(run, n - 1, m - 1);
    }
  }

  /** A fan that is new to the tick, and healthy without a control fault up to the `n`th tick. */
  ghost predicate IsHealthyRun(run: seq<FanState>, n: nat) {
    && IsRun(run) && n < |run| && run[0].watch == Watch(false, 0, false)
    && forall i :: 0 <= i <= n ==> run[i].Healthy() && !run[i].watch.ctrlErr
  }

  /** One more tick of a healthy fan that has not latched: the counter follows the trail. */
  lemma TrailTick(s: FanState, trail: nat)
    requires s.Healthy() && !s.watch.ctrlErr
    requires s.watch.timeCount == 2 * trail && (s.watch.waiting <==> trail > 0)
    ensures var w, next := Ticked(s).watch, if s.Mismatch() then trail + 1 else 0;
            w.ctrlErr || (w.timeCount == 2 * next <= 8 && (w.waiting <==> next > 0))
  {
    var w := Waited(Driven(s));
    assert Ticked(s).watch == Guarded(w).watch;
  }

  /** The counter is the trail of unanswered ticks, two seconds each, and awaited while there is one. */
  lemma {:induction false} CountsTrail(run: seq<FanState>, n: nat)
    requires IsHealthyRun(run, n)
    ensures run[n].watch.timeCount == 2 * Trail(run, n) <= 8
    ensures run[n].watch.waiting <==> Trail(run, n) > 0
  {
    if n > 0 {
      CountsTrail(run, n - 1);
      TrailTick(run[n - 1], Trail(run, n - 1));
      assert run[n].watch == Ticked(run[n - 1]).watch;
    }
  }

  lemma LatchesAtFive(s: FanState, trail: nat)
    requires s.Healthy() && !s.watch.ctrlErr
    requires s.watch.timeCount == 2 * trail <= 8 && (s.watch.waiting <==> trail > 0)
    ensures Ticked(s).watch.ctrlErr <==> s.Mismatch() && trail >= 4
  {
    LatchesExactly(s);
  }

  /** On a healthy remote fan the tick latches the control fault if and only if it and the four ticks
      before it all found the command unanswered. */
  lemma FiveInARowExactly(run: seq<FanState>, n: nat)
    requires IsHealthyRun(run, n)
    ensures Ticked(run[n]).watch.ctrlErr <==>
              n >= 4 && forall i :: n - 4 <= i <= n ==> run[i].Mismatch()
  {
    CountsTrail(run, n);
    TrailMeans(run, n, 4);
    LatchesAtFive(run[n], Trail(run, n));
  }
}
