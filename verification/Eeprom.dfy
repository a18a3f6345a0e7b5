/**
 The parameters remembered in EEPROM. One data class keeps the values of its registered variables
 three times: in the variables themselves, in a shadow buffer and in its EEPROM page. The pure part
 says what a boot, a write pass and a power cycle do to those three, and what holds over whole runs.
 */
module Eeproms {
  import opened Common

  const TRUE_BYTE := 1
  const FALSE_BYTE := 0

  const RUNTIME_WRITE_INTV := 7200
  const SYSTEM_POLL_TIME_OUT_S := 10
  const RUNTIME_EVERY := RUNTIME_WRITE_INTV / SYSTEM_POLL_TIME_OUT_S

  /** One data class: its variables in registration order, its shadow, its page, its change counter. */
  datatype Bank = Bank(live: seq<int>, shadow: seq<int>, image: seq<int>, times: nat) {
    predicate Sized() {
      |live| <= |shadow| == |image|
    }

    /** The page holds what the shadow holds. */
    predicate Persisted() {
      image == shadow
    }

    /** The shadow holds what the variables hold. */
    predicate Synced()
      requires Sized()
    {
      live == shadow[..|live|]
    }
  }

  function Cached(b: Bank): (s: seq<int>)
    requires b.Sized()
    ensures |s| == |b.shadow|
  {
    b.live + b.shadow[|b.live|..]
  }

  /** One write pass: a change is cached at once, and written to the page on every `every`th change. */
  function Passed(b: Bank, every: nat): (r: Bank)
    requires b.Sized()
    ensures r.Sized() && r.live == b.live && r.Synced()
  {
    if b.Synced() then b
    else
      var s := Cached(b);
      if b.times + 1 >= every then Bank(b.live, s, s, 0) else Bank(b.live, s, b.image, b.times + 1)
  }

  /** Reading back the page of a class with registrations overwrites its shadow and its variables. */
  function Loaded(b: Bank): (r: Bank)
    requires b.Sized()
    ensures r.Sized() && |r.live| == |b.live| && r.image == b.image && r.times == b.times
    ensures if b.live == [] then r == b else r.Persisted() && r.Synced()
  {
    if b.live == [] then b else Bank(b.image[..|b.live|], b.image, b.image, b.times)
  }

  function Stored(b: Bank): (r: Bank)
    requires b.Sized()
    ensures r.Sized() && if b.live == [] then r == b else r.Persisted() && r.live == b.live
  {
    if b.live == [] then b else b.(image := b.shadow)
  }

  function Registered(b: Bank, v: int): (r: Bank)
    requires b.Sized() && |b.live| < |b.shadow|
    ensures r.Sized() && |r.shadow| == |b.shadow|
  {
    Bank(b.live + [v], b.shadow[|b.live| := v], b.image, b.times)
  }

  // ----- Runs of write passes -----

  /** Between two passes the variables change at will; then the pass runs. */
  predicate Step(a: Bank, b: Bank, every: nat) {
    a.Sized() && |a.live| == |b.live| && b == Passed(a.(live := b.live), every)
  }

  predicate Link(run: seq<Bank>, i: nat, every: nat)
    requires i + 1 < |run|
  {
    Step(run[i], run[i + 1], every)
  }

  predicate IsRun(run: seq<Bank>, every: nat) {
    run != [] && run[0].Sized() && forall i | 0 <= i < |run| - 1 :: Link(run, i, every)
  }

  function Last(run: seq<Bank>): Bank
    requires run != []
  {
    run[|run| - 1]
  }

  lemma Shorter(run: seq<Bank>, every: nat)
    requires IsRun(run, every) && |run| > 1
    ensures IsRun(run[..|run| - 1], every)
    ensures Step(Last(run[..|run| - 1]), Last(run), every)
  {
    var n := |run| - 1;
    assert Link(run, n - 1, every);
    forall i | 0 <= i < n - 1
      ensures Link(run[..n], i, every)
    {
      assert Link(run, i, every);
    }
  }

  /** How many passes of a run found a change. */
  function Changes(run: seq<Bank>): nat
    requires run != [] && forall b :: b in run ==> b.Sized() && |b.live| == |run[0].live|
    requires forall b :: b in run ==> |b.shadow| == |run[0].shadow|
  {
    if |run| == 1 then 0
    else
      var n := |run| - 1;
      Changes(run[..n]) + if run[n].live == run[n - 1].shadow[..|run[n].live|] then 0 else 1
  }

  /** How many passes of a run wrote the page. */
  function Writes(run: seq<Bank>, every: nat): nat
    requires run != [] && forall b :: b in run ==> b.Sized() && |b.live| == |run[0].live|
    requires forall b :: b in run ==> |b.shadow| == |run[0].shadow|
  {
    if |run| == 1 then 0
    else
      var n := |run| - 1;
      Writes(run[..n], every)
      + if run[n].live != run[n - 1].shadow[..|run[n].live|] && run[n - 1].times + 1 >= every then 1 else 0
  }

  /** No pass changes the sizes. */
  lemma {:induction false} RunSized(run: seq<Bank>, every: nat)
    requires IsRun(run, every)
    ensures forall b :: b in run ==>
              b.Sized() && |b.live| == |run[0].live| && |b.shadow| == |run[0].shadow|
  {
    if |run| > 1 {
      var n := |run| - 1;
      Shorter(run, every);
      RunSized(run[..n], every);
      assert Last(run[..n]) in run[..n];
      forall b | b in run
        ensures b.Sized() && |b.live| == |run[0].live| && |b.shadow| == |run[0].shadow|
      {
        assert b in run[..n] || b == run[n];
      }
    }
  }

  lemma OneMoreInterval(w: nat, every: nat)
    ensures (w + 1) * every == w * every + every
  {
  }

  /** The change counter is the number of changed passes since the last write: over a run it counts
      the changes modulo the interval, and the page is written once for every full interval. */
  lemma {:induction false} CountsChanges(run: seq<Bank>, every: nat)
    requires every > 0 && IsRun(run, every) && run[0].times == 0
    ensures forall b :: b in run ==> b.Sized() && |b.live| == |run[0].live| && |b.shadow| == |run[0].shadow|
    ensures Last(run).times < every
    ensures Changes(run) == Writes(run, every) * every + Last(run).times
  {
    RunSized(run, every);
    if |run| > 1 {
      var n := |run| - 1;
      Shorter(run, every);
      CountsChanges(run[..n], every);
      OneMoreInterval(Writes(run[..n], every), every);
    }
  }

  /** A later part of a run is a run. */
  lemma PartIsRun(run: seq<Bank>, every: nat, k: nat)
    requires IsRun(run, every) && k < |run| && run[k].Sized()
    ensures IsRun(run[k..], every)
  {
    var s := run[k..];
    forall i | 0 <= i < |s| - 1
      ensures Link(s, i, every)
    {
      assert Link(run, k + i, every);
    }
  }

  /** What the page holds is what the variables held after an earlier pass `k`, since when fewer than
      `every` passes have found a change. */
  lemma {:induction false} PageIsRecent(run: seq<Bank>, every: nat) returns (k: nat)
    requires every > 0 && IsRun(run, every) && run[0].times == 0 && run[0].Persisted()
    ensures k < |run| && IsRun(run[k..], every) && run[k].Sized()
    ensures forall b :: b in run[k..] ==> b.Sized() && |b.live| == |run[k].live| && |b.shadow| == |run[k].shadow|
    ensures Last(run).image == run[k].shadow == run[k].image && (k > 0 ==> run[k].Synced())
    ensures Changes(run[k..]) == Last(run).times < every
  {
    RunSized(run, every);
    var n := |run| - 1;
    if n == 0 {
      k := 0;
      assert run[0..] == run;
    } else {
      Shorter(run, every);
      k := PageIsRecent(run[..n], every);
      if run[n].live != run[n - 1].shadow[..|run[n].live|] && run[n - 1].times + 1 >= every {
        k := n;
        assert run[n..] == [run[n]];
      } else {
        assert run[k..][..n - k] == run[..n][k..];
        PartIsRun(run, every, k);
      }
    }
  }

  /** A class written on every change: whatever the variables do, after each pass page, shadow and
      variables agree. */
  lemma {:induction false} EveryPassPersists(run: seq<Bank>)
    requires IsRun(run, 1) && run[0].Persisted() && run[0].Synced()
    ensures Last(run).Sized() && |Last(run).live| == |run[0].live|
    ensures Last(run).Persisted() && Last(run).Synced()
    ensures Last(run).image[..|run[0].live|] == Last(run).live
  {
    if |run| > 1 {
      Shorter(run, 1);
      EveryPassPersists(run[..|run| - 1]);
    }
  }

  /** When the page and the shadow disagree to begin with, as after a registration that comes after
      the boot, they agree again exactly when some pass has found a change. */
  lemma {:induction false} AgreesAgainExactly(run: seq<Bank>)
    requires IsRun(run, 1)
    ensures forall b :: b in run ==> b.Sized() && |b.live| == |run[0].live| && |b.shadow| == |run[0].shadow|
    ensures Last(run).Persisted() <==> run[0].Persisted() || Changes(run) > 0
  {
    RunSized(run, 1);
    if |run| > 1 {
      Shorter(run, 1);
      AgreesAgainExactly(run[..|run| - 1]);
    }
  }

  /** While no variable changes, passes change nothing. */
  lemma {:induction false} QuietRun(run: seq<Bank>, every: nat)
    requires IsRun(run, every) && run[0].Synced()
    requires forall b :: b in run ==> b.live == run[0].live
    ensures Last(run) == run[0]
  {
    if |run| > 1 {
      Shorter(run, every);
      QuietRun(run[..|run| - 1], every);
      assert Last(run) in run;
    }
  }

  /** So a variable that is registered after the boot and never changes stays out of the page, however
      many passes run. */
  lemma LateRegistrationIsLost(b: Bank, v: int, run: seq<Bank>)
    requires b.Sized() && b.Persisted() && b.Synced() && |b.live| < |b.shadow| && b.image[|b.live|] != v
    requires IsRun(run, 1) && run[0] == Registered(b, v)
    requires forall c :: c in run ==> c.live == run[0].live
    ensures Last(run).image == b.image && Last(run).image[|b.live|] != Last(run).live[|b.live|]
  {
    QuietRun(run, 1);
  }

  // ----- Power cycles -----

  function Zeros(n: nat): (s: seq<int>)
    ensures |s| == n && forall i :: 0 <= i < n ==> s[i] == 0
  {
    seq(n, i => 0)
  }

  /** After a power cycle only the page is left: buffers are zero and nothing is registered. */
  function Blank(image: seq<int>): (b: Bank)
    ensures b.Sized()
  {
    Bank([], Zeros(|image|), image, 0)
  }

  function RegisteredAll(b: Bank, defaults: seq<int>): (r: Bank)
    requires b.Sized() && |b.live| + |defaults| <= |b.shadow|
    ensures r.Sized() && r.live == b.live + defaults && r.image == b.image && r.times == b.times
    decreases |defaults|
  {
    if defaults == [] then b else RegisteredAll(Registered(b, defaults[0]), defaults[1..])
  }

  /** Registration copies the default of each variable into the shadow. */
  lemma {:induction false} RegisteredSynced(b: Bank, defaults: seq<int>)
    requires b.Sized() && b.Synced() && |b.live| + |defaults| <= |b.shadow|
    ensures RegisteredAll(b, defaults).Synced()
    decreases |defaults|
  {
    if defaults != [] {
      RegisteredSynced(Registered(b, defaults[0]), defaults[1..]);
    }
  }

  function PoweredUp(image: seq<int>, defaults: seq<int>): (b: Bank)
    requires |defaults| <= |image|
    ensures b.Sized() && b.live == defaults && b.image == image && b.times == 0
  {
    RegisteredAll(Blank(image), defaults)
  }

  /** The first-run flag is the last variable registered in the first class. */
  predicate FirstRun(image: seq<int>, n: nat)
    requires 0 < n <= |image|
  {
    image[n - 1] == TRUE_BYTE
  }

  /** What a boot does to the class that holds the flag. */
  function FlagBooted(u: Bank): (r: Bank)
    requires u.Sized() && u.live != []
    ensures r.Sized() && |r.live| == |u.live| && r.times == u.times && r.Persisted() && r.Synced()
  {
    var n := |u.live|;
    if FirstRun(u.image, n) then
      Loaded(Stored(u.(live := u.live[n - 1 := FALSE_BYTE], shadow := u.shadow[n - 1 := FALSE_BYTE])))
    else Loaded(u)
  }

  /** What a boot does to any other class. */
  function Booted(b: Bank, first: bool): (r: Bank)
    requires b.Sized()
    ensures r.Sized() && |r.live| == |b.live| && r.times == b.times
    ensures b.live != [] ==> r.Persisted() && r.Synced()
  {
    if first then Loaded(Stored(b)) else Loaded(b)
  }

  /** A boot after a power cycle takes over the registered defaults exactly when the flag says first
      run, or when the page holds them already; otherwise the variables come from the page. The page
      is written only on a first run, and then it holds the defaults and a cleared flag. */
  lemma BootChoosesExactly(page8: seq<int>, defaults8: seq<int>, page: seq<int>, defaults: seq<int>)
    requires 0 < |defaults8| <= |page8| && |defaults| <= |page| && defaults != []
    ensures var n := |defaults8|; var first := FirstRun(page8, n);
            var u, b := FlagBooted(PoweredUp(page8, defaults8)), Booted(PoweredUp(page, defaults), first);
            && (first <==> page8[n - 1] == 1)
            && (b.live == defaults <==> first || page[..|defaults|] == defaults)
            && u.live == (if first then defaults8[n - 1 := FALSE_BYTE] else page8[..n])
            && (!first ==> u.image == page8 && b.image == page && b.live == page[..|defaults|])
            && u.image[..n] == u.live && b.image[..|defaults|] == b.live
            && !FirstRun(u.image, n)
  {
    RegisteredSynced(Blank(page8), defaults8);
    RegisteredSynced(Blank(page), defaults);
  }

  /** One session of the board, from power-up to power-down: the boot, then the write passes. Between
      the passes the variables change at will, only the flag is nobody's to change. */
  datatype Session = Session(defaults8: seq<int>, defaults: seq<int>, run8: seq<Bank>, run: seq<Bank>)

  predicate FlagKept(run: seq<Bank>, n: nat) {
    run != [] && 0 < n <= |run[0].live|
    && forall i :: 0 <= i < |run| ==> n <= |run[i].live| && run[i].live[n - 1] == run[0].live[n - 1]
  }

  /** A session that starts from the given pages. */
  predicate IsSession(s: Session, page8: seq<int>, page: seq<int>, every: nat) {
    && 0 < |s.defaults8| <= |page8| && 0 < |s.defaults| <= |page|
    && IsRun(s.run8, 1) && IsRun(s.run, every)
    && s.run8[0] == FlagBooted(PoweredUp(page8, s.defaults8))
    && s.run[0] == Booted(PoweredUp(page, s.defaults), FirstRun(page8, |s.defaults8|))
    && FlagKept(s.run8, |s.defaults8|)
  }

  /** Sessions on one board, with the same registration order each time. */
  predicate IsHistory(h: seq<Session>, page8: seq<int>, page: seq<int>, every: nat) {
    && h != [] && IsSession(h[0], page8, page, every)
    && forall i | 0 <= i < |h| - 1 :: Follows(h, i, every)
  }

  predicate Follows(h: seq<Session>, i: nat, every: nat)
    requires i + 1 < |h|
  {
    && |h[i + 1].defaults8| == |h[i].defaults8| && |h[i + 1].defaults| == |h[i].defaults|
    && h[i].run8 != [] && h[i].run != []
    && IsSession(h[i + 1], Last(h[i].run8).image, Last(h[i].run).image, every)
  }

  /** At the end of a session the flag in the page is down. */
  lemma FlagDownAtEnd(s: Session, page8: seq<int>, page: seq<int>, every: nat)
    requires IsSession(s, page8, page, every)
    ensures |s.defaults8| <= |Last(s.run8).image| && !FirstRun(Last(s.run8).image, |s.defaults8|)
  {
    var n := |s.defaults8|;
    BootChoosesExactly(page8, s.defaults8, page, s.defaults);
    EveryPassPersists(s.run8);
    RunSized(s.run8, 1);
    assert Last(s.run8) in s.run8;
    var u := s.run8[0];
    assert u.image[..n][n - 1] == u.live[n - 1];
    assert Last(s.run8).image[..n][n - 1] == Last(s.run8).live[n - 1];
  }

  /** However often the power is cycled and whatever happens in between, the defaults are written to
      the pages at the first boot or never. */
  lemma FirstRunOnce(h: seq<Session>, page8: seq<int>, page: seq<int>, every: nat, j: nat)
    requires IsHistory(h, page8, page, every) && 0 < j < |h|
    ensures h[j - 1].run8 != [] && 0 < |h[j].defaults8| <= |Last(h[j - 1].run8).image|
    ensures !FirstRun(Last(h[j - 1].run8).image, |h[j].defaults8|)
  {
    assert Follows(h, j - 1, every);
    if j == 1 {
      FlagDownAtEnd(h[0], page8, page, every);
    } else {
      assert Follows(h, j - 2, every);
      FlagDownAtEnd(h[j - 1], Last(h[j - 2].run8).image, Last(h[j - 2].run).image, every);
    }
  }

  /** The next session finds every variable as the last one left it, for a class that is written on
      every change, and the page of the slower class as the last write left it. */
  lemma PowerCycleRestores(h: seq<Session>, page8: seq<int>, page: seq<int>, every: nat, j: nat)
    requires IsHistory(h, page8, page, every) && 0 < j < |h|
    ensures h[j - 1].run8 != [] && h[j].run8 != [] && h[j - 1].run != [] && h[j].run != []
    ensures h[j].run8[0].live == Last(h[j - 1].run8).live
    ensures |h[j].defaults| <= |Last(h[j - 1].run).image|
            && h[j].run[0].live == Last(h[j - 1].run).image[..|h[j].defaults|]
    ensures every == 1 ==> h[j].run[0].live == Last(h[j - 1].run).live
  {
    assert Follows(h, j - 1, every);
    FirstRunOnce(h, page8, page, every, j);
    var p8, p := Last(h[j - 1].run8).image, Last(h[j - 1].run).image;
    BootChoosesExactly(p8, h[j].defaults8, p, h[j].defaults);
    if j > 1 {
      assert Follows(h, j - 2, every);
      SessionEnds(h[j - 1], Last(h[j - 2].run8).image, Last(h[j - 2].run).image, every);
    } else {
      SessionEnds(h[0], page8, page, every);
    }
  }

  lemma SessionEnds(s: Session, page8: seq<int>, page: seq<int>, every: nat)
    requires IsSession(s, page8, page, every)
    ensures |s.defaults8| <= |Last(s.run8).image| && |s.defaults| <= |Last(s.run).image|
    ensures Last(s.run8).image[..|s.defaults8|] == Last(s.run8).live
    ensures every == 1 ==> Last(s.run).image[..|s.defaults|] == Last(s.run).live
  {
    EveryPassPersists(s.run8);
    RunSized(s.run8, 1);
    RunSized(s.run, every);
    assert Last(s.run8) in s.run8 && Last(s.run) in s.run;
    if every == 1 {
      EveryPassPersists(s.run);
    }
  }

  /** The slower class loses fewer than `every` changed passes: its variables come back as they were
      after some pass `k` of the last session, since when fewer than `every` passes found a change. */
  lemma PowerCycleLosesLittle(h: seq<Session>, page8: seq<int>, page: seq<int>, every: nat, j: nat)
    returns (k: nat)
    requires every > 0 && IsHistory(h, page8, page, every) && 0 < j < |h|
    ensures k < |h[j - 1].run| && h[j].run != [] && h[j].run[0].live == h[j - 1].run[k].live
    ensures var rest := h[j - 1].run[k..];
            && (forall b :: b in rest ==>
                  b.Sized() && |b.live| == |rest[0].live| && |b.shadow| == |rest[0].shadow|)
            && Changes(rest) < every
  {
    assert Follows(h, j - 1, every);
    PowerCycleRestores(h, page8, page, every, j);
    if j > 1 {
      assert Follows(h, j - 2, every);
    }
    var run := h[j - 1].run;
    k := PageIsRecent(run, every);
    RunSized(run, every);
    assert run[k] in run;
  }

  /** The running times are written on every 720th change. */
  lemma RuntimeCounts(run: seq<Bank>)
    requires IsRun(run, RUNTIME_EVERY) && run[0].times == 0
    ensures forall b :: b in run ==> b.Sized() && |b.live| == |run[0].live| && |b.shadow| == |run[0].shadow|
    ensures Changes(run) == Writes(run, RUNTIME_EVERY) * 720 + Last(run).times && Last(run).times < 720
  {
    CountsChanges(run, RUNTIME_EVERY);
  }

  /** So a power cycle costs them less than two hours of passes that found a change. */
  lemma RuntimeLosesLittle(h: seq<Session>, page8: seq<int>, page: seq<int>, j: nat) returns (k: nat)
    requires IsHistory(h, page8, page, RUNTIME_EVERY) && 0 < j < |h|
    ensures k < |h[j - 1].run| && h[j].run != [] && h[j].run[0].live == h[j - 1].run[k].live
    ensures var rest := h[j - 1].run[k..];
            && (forall b :: b in rest ==>
                  b.Sized() && |b.live| == |rest[0].live| && |b.shadow| == |rest[0].shadow|)
            && Changes(rest) * SYSTEM_POLL_TIME_OUT_S < RUNTIME_WRITE_INTV
  {
    k := PowerCycleLosesLittle(h, page8, page, RUNTIME_EVERY, j);
  }

  // ----- The module itself -----

  /** The variables of the program, by address. */
  class Memory {
    var at: seq<int>
  }

  predicate Addresses(cells: seq<nat>, at: seq<int>) {
    && (forall i :: 0 <= i < |cells| ==> cells[i] < |at|)
    && (forall i, j :: 0 <= i < j < |cells| ==> cells[i] != cells[j])
  }

  function Values(cells: seq<nat>, at: seq<int>): (l: seq<int>)
    requires Addresses(cells, at)
    ensures |l| == |cells| && forall i :: 0 <= i < |l| ==> l[i] == at[cells[i]]
  {
    seq(|cells|, i requires 0 <= i < |cells| => at[cells[i]])
  }

  /** Memory `b` is memory `a` with at most the given variables changed. */
  predicate OnlyChanges(a: seq<int>, b: seq<int>, cells: seq<nat>) {
    |b| == |a| && forall p: nat :: p < |a| && p !in cells ==> b[p] == a[p]
  }

  lemma ValuesKept(cells: seq<nat>, a: seq<int>, b: seq<int>, changed: seq<nat>)
    requires Addresses(cells, a) && OnlyChanges(a, b, changed) && forall p :: p in changed ==> p !in cells
    ensures Addresses(cells, b) && Values(cells, b) == Values(cells, a)
  {
    forall i | 0 <= i < |cells|
      ensures b[cells[i]] == a[cells[i]]
    {
      assert cells[i] in cells;
    }
  }

  class DataBank {
    const every: nat
    const mem: Memory
    const ptrs: array<Option<nat>>
    const shadow: array<int>

    var count: nat
    var changedTimes: nat

    /** The EEPROM page of this class. */
    var page: seq<int>

    /** The addresses of the registered variables, in order. */
    ghost var cells: seq<nat>

    ghost predicate Valid()
      reads this, ptrs, mem
    {
      && |cells| == count <= ptrs.Length == shadow.Length == |page|
      && (forall i :: 0 <= i < count ==> ptrs[i] == Some(cells[i]))
      && (forall i :: count <= i < ptrs.Length ==> ptrs[i] == None)
      && Addresses(cells, mem.at)
    }

    ghost function View(): (b: Bank)
      requires Valid()
      reads this, ptrs, shadow, mem
      ensures b.Sized()
    {
      Bank(Values(cells, mem.at), shadow[..], page, changedTimes)
    }

    /** Power-up: empty tables over the page that was left. */
    constructor (every: nat, page: seq<int>, mem: Memory)
      ensures Valid() && this.every == every && this.mem == mem && fresh(ptrs) && fresh(shadow)
      ensures cells == [] && View() == Blank(page)
    {
      this.every, this.mem, this.page := every, mem, page;
      ptrs := new Option<nat>[|page|](i => None);
      shadow := new int[|page|](i => 0);
      count, changedTimes, cells := 0, 0, [];
    }

    /** A variable is registered once, and only while there is room; no pointer is refused. */
    method Regist(p: Option<nat>) returns (ok: bool)
      requires Valid() && (p.Some? ==> p.value < |mem.at|)
      modifies `count, `cells, ptrs, shadow
      ensures Valid()
      ensures ok <==> p.Some? && p.value !in old(cells) && old(count) < ptrs.Length
      ensures cells == old(cells) + if ok then [p.value] else []
      ensures View() == if ok then Registered(old(View()), mem.at[p.value]) else old(View())
    {
      if p == None {
        return false;
      }
      for i := 0 to count
        invariant p.value !in cells[..i]
      {
        if ptrs[i] == p {
          return false;
        }
      }
      if count < ptrs.Length {
        ptrs[count] := p;
        shadow[count] := mem.at[p.value];
        count, cells := count + 1, cells + [p.value];
        ok := true;
      } else {
        ok := false;
      }
    }

    /** Caches every changed variable in the shadow and tells whether there was any. */
    method Changed() returns (changed: bool)
      requires Valid()
      modifies shadow
      ensures changed <==> !old(View()).Synced()
      ensures shadow[..] == Cached(old(View()))
    {
      changed := false;
      ghost var b := View();
      for i := 0 to ptrs.Length
        invariant changed <==> exists j :: 0 <= j < i && j < count && b.live[j] != b.shadow[j]
        invariant forall j :: 0 <= j < ptrs.Length ==>
                    shadow[j] == if j < i && j < count then b.live[j] else b.shadow[j]
      {
        if ptrs[i] != None && shadow[i] != mem.at[ptrs[i].value] {
          changed := true;
          shadow[i] := mem.at[ptrs[i].value];
        }
      }
    }

    method WritePass()
      requires Valid()
      modifies `changedTimes, `page, shadow
      ensures Valid() && View() == Passed(old(View()), every)
    {
      ghost var b := View();
      var changed := Changed();
      if changed {
        changedTimes := changedTimes + 1;
        if changedTimes >= every {
          page := shadow[..];
          changedTimes := 0;
        }
      } else {
        assert Cached(b) == b.shadow;
      }
    }

    /** Reading the page back: no other variable of the program changes. */
    method Load()
      requires Valid()
      modifies shadow, mem
      ensures Valid() && View() == Loaded(old(View()))
      ensures OnlyChanges(old(mem.at), mem.at, cells)
    {
      ghost var b := View();
      if count > 0 {
        forall i | 0 <= i < shadow.Length {
          shadow[i] := page[i];
        }
      }
      assert shadow[..] == Loaded(b).shadow;
      CopyBack();
      assert Values(cells, mem.at) == shadow[..count];
    }

    method CopyBack()
      requires Valid()
      modifies mem
      ensures Valid() && OnlyChanges(old(mem.at), mem.at, cells)
      ensures forall i :: 0 <= i < count ==> mem.at[cells[i]] == shadow[i]
    {
      for i := 0 to count
        invariant Valid() && OnlyChanges(old(mem.at), mem.at, cells)
        invariant forall j :: 0 <= j < i ==> mem.at[cells[j]] == shadow[j]
      {
        if ptrs[i] != None {
          mem.at := mem.at[ptrs[i].value := shadow[i]];
        }
      }
    }

    /** Writing the shadow as it is. */
    method WriteFirstTime()
      requires Valid()
      modifies `page
      ensures Valid() && View() == Stored(old(View()))
    {
      if count > 0 {
        page := shadow[..];
      }
    }
  }

  /** The EEPROM task over the class that holds the first-run flag and any one other class. */
  class DataTask {
    const bytes: DataBank
    const other: DataBank

    /** The address of the flag. */
    const firstRun: nat

    /** The two classes share neither buffers nor variables. */
    static ghost predicate Apart(a: DataBank, b: DataBank)
      reads a, a.ptrs, b, b.ptrs, a.mem, b.mem
    {
      && a != b && a.ptrs != b.ptrs && a.shadow != b.shadow && a.mem == b.mem && a.Valid() && b.Valid()
      && forall p :: p in a.cells ==> p !in b.cells
    }

    ghost predicate Valid()
      reads bytes, bytes.ptrs, other, other.ptrs, bytes.mem, other.mem
    {
      Apart(bytes, other) && bytes.count > 0 && bytes.cells[bytes.count - 1] == firstRun
    }

    /** The flag is registered after all the others. */
    constructor (bytes: DataBank, other: DataBank, firstRun: nat)
      requires Apart(bytes, other) && bytes.count < bytes.ptrs.Length && firstRun < |bytes.mem.at|
      requires firstRun !in bytes.cells && firstRun !in other.cells
      modifies bytes, bytes.ptrs, bytes.shadow
      ensures Valid() && this.bytes == bytes && this.other == other && this.firstRun == firstRun
      ensures bytes.View() == Registered(old(bytes.View()), bytes.mem.at[firstRun])
    {
      this.bytes, this.other, this.firstRun := bytes, other, firstRun;
      new;
      var ok := bytes.Regist(Some(firstRun));
    }

    method SetFlag(v: int)
      requires Valid()
      modifies bytes.mem
      ensures Valid() && other.View() == old(other.View()) && bytes.mem.at[firstRun] == v
    {
      var m := bytes.mem.at;
      bytes.mem.at := m[firstRun := v];
      ValuesKept(other.cells, m, bytes.mem.at, [firstRun]);
    }

    /** The flag is fetched from the page; on a first run it is cleared and the defaults are written. */
    method SyncDefaults()
      requires Valid()
      modifies bytes.mem, bytes`page, bytes.shadow, other`page
      ensures Valid()
      ensures var u, n := old(bytes.View()), bytes.count;
              bytes.page == if FirstRun(u.image, n) then u.shadow[n - 1 := FALSE_BYTE] else u.image
      ensures other.View() == if old(FirstRun(bytes.page, bytes.count)) then Stored(old(other.View()))
                              else old(other.View())
    {
      SetFlag(bytes.page[bytes.count - 1]);
      if bytes.mem.at[firstRun] == TRUE_BYTE {
        WriteDefaults();
      }
    }

    /** With the flag down, every class writes its shadow. */
    method WriteDefaults()
      requires Valid()
      modifies bytes.mem, bytes`page, bytes.shadow, other`page
      ensures Valid() && other.View() == Stored(old(other.View()))
      ensures bytes.page == old(bytes.shadow[..])[bytes.count - 1 := FALSE_BYTE]
    {
      SetFlag(FALSE_BYTE);
      bytes.shadow[bytes.count - 1] := FALSE_BYTE;
      assert other.View() == old(other.View());
      bytes.WriteFirstTime();
      other.WriteFirstTime();
    }

    /** On a first run the defaults go to the pages, with the flag down; then everything is read. */
    method Boot()
      requires Valid()
      modifies bytes.mem, bytes`page, bytes.shadow, other`page, other.shadow
      ensures Valid()
      ensures bytes.View() == FlagBooted(old(bytes.View()))
      ensures other.View() == Booted(old(other.View()), old(FirstRun(bytes.page, bytes.count)))
    {
      ghost var u := bytes.View();
      SyncDefaults();
      assert Loaded(bytes.View()) == FlagBooted(u);
      ReadBack();
    }

    method ReadBack()
      requires Valid()
      modifies bytes.mem, bytes.shadow, other.shadow
      ensures Valid()
      ensures bytes.View() == Loaded(old(bytes.View())) && other.View() == Loaded(old(other.View()))
    {
      ghost var m := bytes.mem.at;
      bytes.Load();
      ValuesKept(other.cells, m, bytes.mem.at, bytes.cells);
      m := bytes.mem.at;
      other.Load();
      ValuesKept(bytes.cells, m, bytes.mem.at, other.cells);
    }
  }
}
