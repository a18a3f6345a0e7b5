/**
 The list of monitored variables: registration links an entry into an array-backed list, and a poll
 pass along the list posts an event for each variable whose 16-bit image has changed.
 */
module Monitors {
  import opened Common

  const MONITOR_DATA_MAX_NUM := 90

  datatype DataType = UInt8 | UInt16 | Int8 | Int16 | OtherType

  /** What is known of one monitored variable: its address, the semaphore and type it was registered
      with, and the image of its value when it was last seen. */
  datatype Entry = Entry(addr: nat, sem: nat, kind: DataType, val: int)

  datatype Info = Info(entry: Entry, id: nat, next: Option<nat>, last: Option<nat>)

  datatype Post = Post(sem: nat, addr: nat)

  // ----- Images -----

  predicate InType(kind: DataType, v: int) {
    match kind
    case UInt8 => 0 <= v < 0x100
    case UInt16 => 0 <= v < TWO_16
    case Int8 => -0x80 <= v < 0x80
    case Int16 => -0x8000 <= v < 0x8000
    case OtherType => true
  }

  /** The 16-bit image: unsigned types are zero-extended and signed ones sign-extended. */
  function Image(kind: DataType, v: int): (u: int)
    requires kind != OtherType
    ensures 0 <= u < TWO_16
  {
    match kind
    case UInt8 => v % 0x100
    case UInt16 => U16(v)
    case Int8 => U16((v + 0x80) % 0x100 - 0x80)
    case Int16 => U16(v)
  }

  /** The image of a negative value is its two's complement, whatever the width of its type. */
  lemma ImageOf(kind: DataType, v: int)
    requires kind != OtherType && InType(kind, v)
    ensures Image(kind, v) == if v < 0 then v + TWO_16 else v
  {
    match kind
    case UInt8 =>
    case UInt16 =>
    case Int8 =>
      assert (v + 0x80) % 0x100 == v + 0x80;
    case Int16 =>
  }

  /** No change of a variable within its type escapes its image. */
  lemma ImageTells(kind: DataType, v: int, w: int)
    requires kind != OtherType && InType(kind, v) && InType(kind, w)
    ensures Image(kind, v) == Image(kind, w) <==> v == w
  {
    ImageOf(kind, v);
    ImageOf(kind, w);
  }

  // ----- Registration -----

  predicate Monitored(es: seq<Entry>, p: nat) {
    exists i :: 0 <= i < |es| && es[i].addr == p
  }

  /** A variable is entered once, at the end, while there is room. */
  function Noted(es: seq<Entry>, e: Entry): (r: seq<Entry>) {
    if |es| >= MONITOR_DATA_MAX_NUM || Monitored(es, e.addr) then es else es + [e]
  }

  function NotedAll(calls: seq<Entry>): (r: seq<Entry>) {
    if calls == [] then [] else Noted(NotedAll(calls[..|calls| - 1]), calls[|calls| - 1])
  }

  /** The calls that name a variable for the first time. */
  function Firsts(calls: seq<Entry>): (r: seq<Entry>) {
    if calls == [] then []
    else
      var n := |calls| - 1;
      Firsts(calls[..n]) + if Monitored(calls[..n], calls[n].addr) then [] else [calls[n]]
  }

  lemma {:induction false} FirstsName(calls: seq<Entry>, p: nat)
    ensures Monitored(Firsts(calls), p) <==> Monitored(calls, p)
  {
    if calls != [] {
      var n := |calls| - 1;
      FirstsName(calls[..n], p);
      var f, g := Firsts(calls[..n]), Firsts(calls);
      if Monitored(calls, p) {
        var i :| 0 <= i < |calls| && calls[i].addr == p;
        if i < n {
          assert calls[..n][i].addr == p;
          var j :| 0 <= j < |f| && f[j].addr == p;
          assert g[j].addr == p;
        } else if !Monitored(calls[..n], p) {
          assert g[|f|].addr == p;
        } else {
          var j :| 0 <= j < |f| && f[j].addr == p;
          assert g[j].addr == p;
        }
      }
      if Monitored(g, p) {
        var j :| 0 <= j < |g| && g[j].addr == p;
        if j < |f| {
          assert f[j].addr == p;
          var i :| 0 <= i < n && calls[..n][i].addr == p;
          assert calls[i].addr == p;
        } else {
          assert calls[n].addr == p;
        }
      }
    }
  }

  predicate Distinct(es: seq<Entry>) {
    forall i, j :: 0 <= i < j < |es| ==> es[i].addr != es[j].addr
  }

  /** After any calls the list holds the first call for each variable, in order, up to its capacity. */
  lemma {:induction false} HoldsFirstCalls(calls: seq<Entry>)
    ensures NotedAll(calls) == Firsts(calls)[..Min(|Firsts(calls)|, MONITOR_DATA_MAX_NUM)]
    ensures Distinct(Firsts(calls))
  {
    if calls != [] {
      var n := |calls| - 1;
      var e := calls[n];
      HoldsFirstCalls(calls[..n]);
      FirstsName(calls[..n], e.addr);
      var f := Firsts(calls[..n]);
      if |f| <= MONITOR_DATA_MAX_NUM {
        assert f[..|f|] == f;
      }
      if !Monitored(calls[..n], e.addr) {
        assert forall i :: 0 <= i < |f| ==> f[i].addr != e.addr;
      }
    }
  }

  // ----- Polling -----

  /** What the poll compares an entry with: its variable's image, or, for a type it does not know, the
      image it computed last. */
  function Seen(e: Entry, at: seq<int>, carry: int): int
    requires e.addr < |at|
  {
    if e.kind != OtherType then Image(e.kind, at[e.addr]) else carry
  }

  predicate InMemory(es: seq<Entry>, at: seq<int>) {
    forall i :: 0 <= i < |es| ==> es[i].addr < |at|
  }

  function Carried(es: seq<Entry>, at: seq<int>, carry: int): int
    requires InMemory(es, at)
  {
    if es == [] then carry
    else Seen(es[|es| - 1], at, Carried(es[..|es| - 1], at, carry))
  }

  function Polled(es: seq<Entry>, at: seq<int>, carry: int): (r: seq<Entry>)
    requires InMemory(es, at)
    ensures |r| == |es|
  {
    if es == [] then []
    else Polled(es[..|es| - 1], at, carry) + [es[|es| - 1].(val := Carried(es, at, carry))]
  }

  function Posts(es: seq<Entry>, at: seq<int>, carry: int): (r: seq<Post>)
    requires InMemory(es, at)
  {
    if es == [] then []
    else
      var e := es[|es| - 1];
      Posts(es[..|es| - 1], at, carry) + if e.val == Carried(es, at, carry) then [] else [Post(e.sem, e.addr)]
  }

  /** A pass that has been over the first `i` entries. */
  predicate Under(es: seq<Entry>, i: nat, at: seq<int>, carry: int, now: seq<Entry>, c: int, posts: seq<Post>)
    requires InMemory(es, at) && i <= |es|
  {
    && now == Polled(es[..i], at, carry) + es[i..]
    && c == Carried(es[..i], at, carry) && posts == Posts(es[..i], at, carry)
  }

  /** One more entry of a pass under way. */
  lemma UnderStep(es: seq<Entry>, i: nat, at: seq<int>, carry: int, now: seq<Entry>, c: int, posts: seq<Post>)
    requires InMemory(es, at) && i < |es| && Under(es, i, at, carry, now, c, posts)
    ensures |now| == |es| && now[i] == es[i]
    ensures var seen := Seen(es[i], at, c);
            Under(es, i + 1, at, carry, now[i := es[i].(val := seen)], seen,
                  posts + if es[i].val == seen then [] else [Post(es[i].sem, es[i].addr)])
  {
    assert es[..i + 1][..i] == es[..i];
  }

  /** What the entry at index `k` is compared with, and left with: the image of the nearest entry of a known
      type at or before it, or `carry` if there is none. */
  function Expected(es: seq<Entry>, k: nat, at: seq<int>, carry: int): int
    requires k < |es| && InMemory(es, at)
  {
    if es[k].kind != OtherType then Image(es[k].kind, at[es[k].addr])
    else if k == 0 then carry
    else Expected(es, k - 1, at, carry)
  }

  lemma {:induction false} ExpectedInPrefix(es: seq<Entry>, n: nat, k: nat, at: seq<int>, carry: int)
    requires k < n <= |es| && InMemory(es, at)
    ensures Expected(es[..n], k, at, carry) == Expected(es, k, at, carry)
  {
    if k > 0 {
      ExpectedInPrefix(es, n, k - 1, at, carry);
    }
  }

  lemma {:induction false} CarriedLast(es: seq<Entry>, at: seq<int>, carry: int)
    requires InMemory(es, at) && es != []
    ensures Carried(es, at, carry) == Expected(es, |es| - 1, at, carry)
  {
    var n := |es| - 1;
    if n > 0 {
      CarriedLast(es[..n], at, carry);
      ExpectedInPrefix(es, n, n - 1, at, carry);
    }
  }

  /** A pass leaves each entry with what it was compared with, and nothing else changed: an entry of a known
      type has the image of its variable. */
  lemma {:induction false} PollSettles(es: seq<Entry>, at: seq<int>, carry: int, k: nat)
    requires InMemory(es, at) && k < |es|
    ensures Polled(es, at, carry)[k] == es[k].(val := Expected(es, k, at, carry))
  {
    var n := |es| - 1;
    if k < n {
      PollSettles(es[..n], at, carry, k);
      ExpectedInPrefix(es, n, k, at, carry);
    } else {
      CarriedLast(es, at, carry);
    }
  }

  predicate Stale(es: seq<Entry>, k: nat, at: seq<int>, carry: int)
    requires k < |es| && InMemory(es, at)
  {
    es[k].val != Expected(es, k, at, carry)
  }

  predicate Increasing(ks: seq<nat>, n: nat) {
    (forall i, j :: 0 <= i < j < |ks| ==> ks[i] < ks[j]) && forall i :: 0 <= i < |ks| ==> ks[i] < n
  }

  /** The posts for the entries at the given indices of the list. */
  function PostsAt(es: seq<Entry>, ks: seq<nat>): (ps: seq<Post>)
    requires Increasing(ks, |es|)
    ensures |ps| == |ks| && forall i :: 0 <= i < |ks| ==> ps[i] == Post(es[ks[i]].sem, es[ks[i]].addr)
  {
    seq(|ks|, i requires 0 <= i < |ks| => Post(es[ks[i]].sem, es[ks[i]].addr))
  }

  /** A pass posts once, in list order, for exactly the entries that differ from what they are compared
      with; for an entry of a known type that is the image of its own variable. */
  lemma {:induction false} PostsExactlyChanged(es: seq<Entry>, at: seq<int>, carry: int) returns (ks: seq<nat>)
    requires InMemory(es, at)
    ensures Increasing(ks, |es|) && Posts(es, at, carry) == PostsAt(es, ks)
    ensures forall k :: 0 <= k < |es| ==> (k in ks <==> Stale(es, k, at, carry))
  {
    if es == [] {
      ks := [];
    } else {
      var n := |es| - 1;
      var js := PostsExactlyChanged(es[..n], at, carry);
      assert PostsAt(es[..n], js) == PostsAt(es, js);
      CarriedLast(es, at, carry);
      if Stale(es, n, at, carry) {
        ks := js + [n];
        assert PostsAt(es, ks) == PostsAt(es, js) + [Post(es[n].sem, es[n].addr)];
      } else {
        ks := js;
      }
      forall k | 0 <= k < |es|
        ensures k in ks <==> Stale(es, k, at, carry)
      {
        if k < n {
          assert k in ks <==> k in js;
          ExpectedInPrefix(es, n, k, at, carry);
        }
      }
    }
  }

  /** The entry at `m` is the nearest one of a known type at or before `k`. */
  predicate Nearest(es: seq<Entry>, m: nat, k: nat) {
    m <= k < |es| && es[m].kind != OtherType && forall j :: m < j <= k ==> es[j].kind == OtherType
  }

  /** The poll has no case for a type it does not know, and so never looks at the variable of such an entry:
      the entry posts exactly if it differs from the image of the nearest known one before it, or, with
      none before it, from the image that the previous pass ended with. */
  lemma {:induction false} UnknownTypeMisfires(es: seq<Entry>, k: nat, at: seq<int>, carry: int)
    requires k < |es| && InMemory(es, at)
    ensures forall m: nat :: Nearest(es, m, k) ==>
              (Stale(es, k, at, carry) <==> es[k].val != Image(es[m].kind, at[es[m].addr]))
    ensures (forall m :: 0 <= m <= k ==> es[m].kind == OtherType) ==> (Stale(es, k, at, carry) <==> es[k].val != carry)
  {
    NearestDecides(es, k, at, carry);
  }

  lemma {:induction false} NearestDecides(es: seq<Entry>, k: nat, at: seq<int>, carry: int)
    requires k < |es| && InMemory(es, at)
    ensures forall m: nat :: Nearest(es, m, k) ==> Expected(es, k, at, carry) == Image(es[m].kind, at[es[m].addr])
    ensures (forall m :: 0 <= m <= k ==> es[m].kind == OtherType) ==> Expected(es, k, at, carry) == carry
  {
    if es[k].kind == OtherType && k > 0 {
      NearestDecides(es, k - 1, at, carry);
    }
    forall m: nat | Nearest(es, m, k)
      ensures Expected(es, k, at, carry) == Image(es[m].kind, at[es[m].addr])
    {
      if m < k {
        assert es[k].kind == OtherType && Nearest(es, m, k - 1);
      }
    }
  }

  /** A second pass over an unchanged memory posts nothing, unless the list begins with a type that the poll
      does not know and the passes began with different images. */
  lemma PollTwiceIsQuiet(es: seq<Entry>, at: seq<int>, carry: int, carry': int)
    requires InMemory(es, at)
    ensures InMemory(Polled(es, at, carry), at)
    ensures Posts(Polled(es, at, carry), at, carry') == [] <==>
              es == [] || es[0].kind != OtherType || carry == carry'
  {
    var r := Polled(es, at, carry);
    forall k | 0 <= k < |es|
      ensures r[k] == es[k].(val := Expected(es, k, at, carry))
    {
      PollSettles(es, at, carry, k);
    }
    var ks := PostsExactlyChanged(r, at, carry');
    assert ks == [] || ks[0] in ks;
    if es == [] || es[0].kind != OtherType || carry == carry' {
      forall k: nat | k < |r|
        ensures !Stale(r, k, at, carry')
      {
        SameExpected(es, r, k, at, carry, carry');
      }
    } else {
      assert Stale(r, 0, at, carry') && 0 in ks;
    }
  }

  lemma {:induction false} SameExpected(
      es: seq<Entry>, r: seq<Entry>, k: nat, at: seq<int>, carry: int, carry': int)
    requires k < |es| == |r| && InMemory(es, at) && InMemory(r, at)
    requires forall i :: 0 <= i < |es| ==> r[i].addr == es[i].addr && r[i].kind == es[i].kind
    requires es[0].kind != OtherType || carry == carry'
    ensures Expected(r, k, at, carry') == Expected(es, k, at, carry)
  {
    if k > 0 {
      SameExpected(es, r, k - 1, at, carry, carry');
    }
  }

  // ----- The list -----

  /** Links lead forward. */
  predicate Forward(buf: seq<Info>) {
    forall k: nat :: k < |buf| && buf[k].next.Some? ==> k < buf[k].next.value < |buf|
  }

  /** The slots met when the links are followed from `p`. */
  function Walk(buf: seq<Info>, p: Option<nat>): (w: seq<nat>)
    requires Forward(buf) && (p.Some? ==> p.value < |buf|)
    ensures forall i :: 0 <= i < |w| ==> w[i] < |buf|
    decreases if p.Some? then |buf| - p.value else 0
  {
    if p.None? then [] else [p.value] + Walk(buf, buf[p.value].next)
  }

  predicate Linked(buf: seq<Info>, n: nat) {
    && n <= |buf|
    && (forall k: nat :: k < n ==> buf[k].next == if k + 1 < n then Some(k + 1) else None)
    && (forall k: nat :: n <= k < |buf| ==> buf[k].next == None)
  }

  /** The walk meets the slots in use, each once and in order. */
  lemma {:induction false} WalkMeetsAll(buf: seq<Info>, n: nat, k: nat)
    requires Linked(buf, n) && k <= n
    ensures Forward(buf)
    ensures var w := Walk(buf, if k < n then Some(k) else None);
            |w| == n - k && forall i :: 0 <= i < |w| ==> w[i] == k + i
    decreases n - k
  {
    if k < n {
      WalkMeetsAll(buf, n, k + 1);
    }
  }

  class Monitor {
    const buf: array<Info>
    var count: nat
    var head: Option<nat>

    /** The entries, in the order of their slots. */
    ghost var entries: seq<Entry>

    ghost predicate Valid()
      reads this, buf
    {
      && buf.Length == MONITOR_DATA_MAX_NUM && |entries| == count <= buf.Length
      && head == (if count > 0 then Some(0) else None)
      && (count > 0 ==> buf[0].last == Some(count - 1))
      && (forall k :: 0 <= k < count ==> Slot(k, if k + 1 < count then Some(k + 1) else None, entries[k]))
      && (forall k :: count <= k < buf.Length ==> buf[k].next == None && buf[k].entry.val == 0)
    }

    ghost predicate Slot(k: nat, next: Option<nat>, e: Entry)
      requires k < buf.Length
      reads buf
    {
      buf[k].next == next && buf[k].entry == e
    }

    /** Following the links from the head meets every entry once and in order, and the head's last
        link is the tail. */
    lemma TraversalMeetsEntries()
      requires Valid()
      ensures Forward(buf[..])
      ensures var w := Walk(buf[..], head);
              && |w| == |entries| && (forall i :: 0 <= i < |w| ==> buf[w[i]].entry == entries[i])
              && (head.Some? ==> buf[head.value].last == Some(w[|w| - 1]))
    {
      forall k: nat | k < count
        ensures buf[..][k].next == if k + 1 < count then Some(k + 1) else None
      {
        assert Slot(k, if k + 1 < count then Some(k + 1) else None, entries[k]);
      }
      WalkMeetsAll(buf[..], count, 0);
    }

    constructor ()
      ensures Valid() && entries == [] && fresh(buf)
    {
      buf := new Info[MONITOR_DATA_MAX_NUM](i => Info(Entry(0, 0, OtherType, 0), 0, None, None));
      count, head, entries := 0, None, [];
    }

    method Regist(p: nat, kind: DataType, sem: nat, at: seq<int>)
      requires Valid() && p < |at|
      modifies this, buf
      ensures Valid()
      ensures var val := if kind == OtherType then 0 else Image(kind, at[p]);
              entries == Noted(old(entries), Entry(p, sem, kind, val))
    {
      if count >= MONITOR_DATA_MAX_NUM {
        return;
      }
      for n := 0 to count
        invariant forall j :: 0 <= j < n ==> entries[j].addr != p
      {
        assert Slot(n, if n + 1 < count then Some(n + 1) else None, entries[n]);
        if buf[n].entry.addr == p {
          return;
        }
      }
      Append(p, kind, sem, if kind == OtherType then buf[count].entry.val else Image(kind, at[p]));
    }

    method Append(p: nat, kind: DataType, sem: nat, val: int)
      requires Valid() && count < MONITOR_DATA_MAX_NUM
      modifies this, buf
      ensures Valid() && entries == old(entries) + [Entry(p, sem, kind, val)]
    {
      var k := count;
      count := count + 1;
      buf[k] := Info(Entry(p, sem, kind, val), count + 1, None, buf[k].last);
      entries := entries + [Entry(p, sem, kind, val)];
      if head == None {
        head := Some(k);
      } else {
        var t := buf[head.value].last.value;
        buf[t] := buf[t].(next := Some(k));
      }
      buf[head.value] := buf[head.value].(last := Some(k));
      forall j | 0 <= j < count
        ensures Slot(j, if j + 1 < count then Some(j + 1) else None, entries[j])
      {
        assert j < k ==> old(Slot(j, if j + 1 < k then Some(j + 1) else None, entries[j]));
      }
    }

    /** One poll pass. `carry` is the image computed last, which outlives the pass. */
    method PollPass(at: seq<int>, carry: int) returns (c: int, posts: seq<Post>)
      requires Valid() && InMemory(entries, at)
      modifies buf, `entries
      ensures Valid()
      ensures entries == Polled(old(entries), at, carry)
      ensures posts == Posts(old(entries), at, carry)
      ensures c == Carried(old(entries), at, carry)
    {
      ghost var es := entries;
      ghost var i := 0;
      c, posts := carry, [];
      var p := head;
      while p != None
        invariant Valid() && 0 <= i <= count == |es| && p == if i < count then Some(i) else None
        invariant Under(es, i, at, carry, entries, c, posts)
        decreases count - i
      {
        UnderStep(es, i, at, carry, entries, c, posts);
        c, posts, p := PollOne(p.value, at, c, posts);
        i := i + 1;
      }
      assert es[..i] == es;
    }

    /** The body of the poll loop. */
    method PollOne(n: nat, at: seq<int>, carry: int, sent: seq<Post>)
      returns (c: int, posts: seq<Post>, next: Option<nat>)
      requires Valid() && n < count && entries[n].addr < |at|
      modifies buf, `entries
      ensures Valid() && next == if n + 1 < count then Some(n + 1) else None
      ensures c == Seen(old(entries)[n], at, carry)
      ensures entries == old(entries)[n := old(entries)[n].(val := c)]
      ensures var e := old(entries)[n]; posts == sent + if e.val == c then [] else [Post(e.sem, e.addr)]
    {
      assert Slot(n, if n + 1 < count then Some(n + 1) else None, entries[n]);
      var e := buf[n].entry;
      c, posts := carry, sent;
      if e.kind != OtherType {
        c := Image(e.kind, at[e.addr]);
      }
      if e.val != c {
        buf[n] := buf[n].(entry := e.(val := c));
        posts := posts + [Post(e.sem, e.addr)];
      }
      entries := entries[n := e.(val := c)];
      next := buf[n].next;
      forall j | 0 <= j < count
        ensures Slot(j, if j + 1 < count then Some(j + 1) else None, entries[j])
      {
        assert old(Slot(j, if j + 1 < count then Some(j + 1) else None, entries[j]));
      }
    }
  }
}
