/** The bubble sort that both fan-switching routines run over their list of eligible fans. */
module RunTimeSort {
  import opened RunTimeOrder

  ghost predicate Sorted(h: seq<nat>, s: seq<nat>) {
    && (forall a :: 0 <= a < |s| ==> s[a] < |h|)
    && (forall a, b :: 0 <= a < b < |s| ==> Before(h, s[a], s[b]))
  }

  ghost predicate SameMembers(s: seq<nat>, t: seq<nat>) {
    forall x :: x in s <==> x in t
  }

  /** Equal run hours keep the order of the fan list. */
  ghost predicate Stable(h: seq<nat>, s: seq<nat>) {
    && (forall a :: 0 <= a < |s| ==> s[a] < |h|)
    && (forall a, b :: 0 <= a < b < |s| ==> h[s[a]] != h[s[b]] || s[a] < s[b])
  }

  /** No fan of the first `m` has more hours than the fan at any place from `m` on. */
  ghost predicate TailHolds(h: seq<nat>, s: seq<nat>, m: int) {
    && (forall a :: 0 <= a < |s| ==> s[a] < |h|)
    && (forall a, b :: 0 <= a < b < |s| && m <= b ==> h[s[a]] <= h[s[b]])
  }

  /** Place `i` holds the most hours seen so far in the sweep. */
  ghost predicate MostAt(h: seq<nat>, s: seq<nat>, i: nat)
    requires i < |s| && forall a :: 0 <= a < |s| ==> s[a] < |h|
  {
    forall a :: 0 <= a < i ==> h[s[a]] <= h[s[i]]
  }

  ghost function Stepped(h: seq<nat>, s: seq<nat>, i: nat): seq<nat>
    requires i + 1 < |s| && forall a :: 0 <= a < |s| ==> s[a] < |h|
  {
    if h[s[i]] > h[s[i + 1]] then s[i := s[i + 1]][i + 1 := s[i]] else s
  }

  /** One comparison of the sweep keeps the list stable and its members. */
  lemma StepKeeps(h: seq<nat>, s: seq<nat>, i: nat, m: nat)
    requires i + 1 < m <= |s| && Stable(h, s) && TailHolds(h, s, m) && MostAt(h, s, i)
    ensures |Stepped(h, s, i)| == |s| && SameMembers(s, Stepped(h, s, i))
    ensures Stable(h, Stepped(h, s, i)) && TailHolds(h, Stepped(h, s, i), m)
    ensures MostAt(h, Stepped(h, s, i), i + 1)
  {
    var t := Stepped(h, s, i);
    if t != s {
      forall x | x in s
        ensures x in t
      {
        var a :| 0 <= a < |s| && s[a] == x;
        assert t[if a == i then i + 1 else if a == i + 1 then i else a] == x;
      }
    }
  }

  method StepInPlace(list: array<nat>, i: nat, h: seq<nat>)
    requires i + 1 < list.Length && forall a :: 0 <= a < list.Length ==> list[..][a] < |h|
    modifies list
    ensures list[..] == Stepped(h, old(list[..]), i)
  {
    assert list[i] == list[..][i] && list[i + 1] == list[..][i + 1];
    if h[list[i]] > h[list[i + 1]] {
      var t := list[i];
      list[i] := list[i + 1];
      list[i + 1] := t;
    }
  }

  /** One sweep over the first `m` places carries the largest of them to place `m - 1`. */
  method BubblePass(list: array<nat>, m: nat, h: seq<nat>)
    requires 1 <= m <= list.Length
    requires Stable(h, list[..]) && TailHolds(h, list[..], m)
    modifies list
    ensures Stable(h, list[..]) && SameMembers(list[..], old(list[..]))
    ensures TailHolds(h, list[..], m - 1)
  {
    ghost var s := list[..];
    for i := 0 to m - 1
      invariant list[..] == s && |s| == list.Length
      invariant Stable(h, s) && TailHolds(h, s, m) && SameMembers(s, old(list[..]))
      invariant MostAt(h, s, i)
    {
      StepKeeps(h, s, i, m);
      StepInPlace(list, i, h);
      s := Stepped(h, s, i);
    }
  }

  /** Sorts by run hours; the sort is stable, so the result is the unique `Sorted` arrangement. */
  method SortByRunTime(fans: seq<nat>, h: seq<nat>) returns (sorted: seq<nat>)
    requires Stable(h, fans)
    ensures Sorted(h, sorted) && SameMembers(sorted, fans) && |sorted| == |fans|
  {
    var list := new nat[|fans|](i requires 0 <= i < |fans| => fans[i]);
    assert list[..] == fans;
    SortInPlace(list, h);
    sorted := list[..];
  }

  method SortInPlace(list: array<nat>, h: seq<nat>)
    requires Stable(h, list[..])
    modifies list
    ensures Sorted(h, list[..]) && SameMembers(list[..], old(list[..]))
  {
    var p := 0;
    while p < list.Length - 1
      invariant 0 <= p <= list.Length
      invariant Stable(h, list[..]) && SameMembers(list[..], old(list[..]))
      invariant TailHolds(h, list[..], list.Length - p)
    {
      BubblePass(list, list.Length - p, h);
      p := p + 1;
    }
    assert TailHolds(h, list[..], 1);
  }

  /** Whatever a scan from the end of a sorted list has met of `s` was taken in order. */
  lemma SuffixInOrder(h: seq<nat>, list: seq<nat>, s: set<nat>, c: nat)
    requires Sorted(h, list) && Indexes(h, s) && (forall x :: x in s ==> x in list) && c <= |list|
    ensures TakenInOrder(h, Longest, s, Met(s, list[c..]))
  {
    forall x, y | x in Met(s, list[c..]) && y in s && Prior(h, Longest, y, x)
      ensures y in list[c..]
    {
      var a :| c <= a < |list| && list[a] == x;
      var b :| 0 <= b < |list| && list[b] == y;
      assert list[c..][b - c] == y;
    }
  }

  lemma PrefixInOrder(h: seq<nat>, list: seq<nat>, s: set<nat>, c: nat)
    requires Sorted(h, list) && Indexes(h, s) && (forall x :: x in s ==> x in list) && c <= |list|
    ensures TakenInOrder(h, Shortest, s, Met(s, list[..c]))
  {
    forall x, y | x in Met(s, list[..c]) && y in s && Prior(h, Shortest, y, x)
      ensures y in list[..c]
    {
      var a :| 0 <= a < c && list[a] == x;
      var b :| 0 <= b < |list| && list[b] == y;
      assert list[..c][b] == y;
    }
  }

  function Met(s: set<nat>, part: seq<nat>): set<nat> {
    set x | x in s && x in part
  }

  /** One more place of a scan from the end, and of a scan from the front. */
  lemma MetSuffix(h: seq<nat>, s: set<nat>, list: seq<nat>, c: nat)
    requires Sorted(h, list) && 0 < c <= |list|
    ensures var f, was := list[c - 1], Met(s, list[c..]);
            && f !in was
            && Met(s, list[c - 1..]) == (if f in s then was + {f} else was)
            && |Met(s, list[c - 1..])| == (if f in s then |was| + 1 else |was|)
  {
    var f, was := list[c - 1], Met(s, list[c..]);
    assert list[c - 1..] == [f] + list[c..];
    assert forall b :: c <= b < |list| ==> Before(h, list[c - 1], list[b]);
    assert Met(s, list[c - 1..]) == if f in s then was + {f} else was;
  }

  lemma MetPrefix(h: seq<nat>, s: set<nat>, list: seq<nat>, c: nat)
    requires Sorted(h, list) && c < |list|
    ensures var f, was := list[c], Met(s, list[..c]);
            && f !in was
            && Met(s, list[..c + 1]) == (if f in s then was + {f} else was)
            && |Met(s, list[..c + 1])| == (if f in s then |was| + 1 else |was|)
  {
    var f, was := list[c], Met(s, list[..c]);
    assert list[..c + 1] == list[..c] + [f];
    assert forall b :: 0 <= b < c ==> Before(h, list[b], list[c]);
    assert Met(s, list[..c + 1]) == if f in s then was + {f} else was;
  }

  /** A scan from the end that stops at `k` members of `s`, or at the start of the list, has met the
      `k` longest-run ones. */
  lemma ScanFromEnd(h: seq<nat>, list: seq<nat>, s: set<nat>, c: nat, k: nat)
    requires Sorted(h, list) && Indexes(h, s) && (forall x :: x in s ==> x in list) && c <= |list|
    requires |Met(s, list[c..])| <= k
    requires c == 0 || |Met(s, list[c..])| == k
    ensures Met(s, list[c..]) == Picked(h, Longest, s, k)
  {
    SuffixInOrder(h, list, s, c);
    if c == 0 {
      assert list[c..] == list && Met(s, list[c..]) == s;
    }
    SubsetSize(Met(s, list[c..]), s);
    PickedUnique(h, Longest, s, k, Met(s, list[c..]));
  }

  lemma ScanFromFront(h: seq<nat>, list: seq<nat>, s: set<nat>, c: nat, k: nat)
    requires Sorted(h, list) && Indexes(h, s) && (forall x :: x in s ==> x in list) && c <= |list|
    requires |Met(s, list[..c])| <= k
    requires c == |list| || |Met(s, list[..c])| == k
    ensures Met(s, list[..c]) == Picked(h, Shortest, s, k)
  {
    PrefixInOrder(h, list, s, c);
    if c == |list| {
      assert list[..c] == list && Met(s, list[..c]) == s;
    }
    SubsetSize(Met(s, list[..c]), s);
    PickedUnique(h, Shortest, s, k, Met(s, list[..c]));
  }
}
