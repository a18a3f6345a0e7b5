/**
 The order in which fans are taken by their run hours, and what "the k fans with the most (or
 the fewest) hours" means. Nothing here sorts: `Picked` counts, for each fan, how many others
 come before it. The scheduler's bubble sort and scans are proved to select exactly this set.
 */
module RunTimeOrder {
  import opened Common

  /** Which end of the list is taken first: the most hours to close, the fewest to open. */
  datatype End = Longest | Shortest

  /** The sorted order of a stable sort: by hours, and by position among equal hours. */
  predicate Before(h: seq<nat>, i: nat, j: nat)
    requires i < |h| && j < |h|
  {
    h[i] < h[j] || (h[i] == h[j] && i < j)
  }

  /** Fan `i` is taken before fan `j`. */
  predicate Prior(h: seq<nat>, e: End, i: nat, j: nat)
    requires i < |h| && j < |h|
  {
    if e.Longest? then Before(h, j, i) else Before(h, i, j)
  }

  predicate Indexes(h: seq<nat>, s: set<nat>) {
    forall i :: i in s ==> i < |h|
  }

  function PriorIn(h: seq<nat>, e: End, s: set<nat>, i: nat): (r: set<nat>)
    requires Indexes(h, s) && i < |h|
  {
    set j | j in s && Prior(h, e, j, i)
  }

  /** The first `k` members of `s`: those with fewer than `k` others taken before them. */
  function Picked(h: seq<nat>, e: End, s: set<nat>, k: int): (r: set<nat>)
    requires Indexes(h, s)
  {
    set i | i in s && |PriorIn(h, e, s, i)| < k
  }

  /** `a` never leaves behind a member of `s` that should have been taken before one of its own. */
  ghost predicate TakenInOrder(h: seq<nat>, e: End, s: set<nat>, a: set<nat>)
    requires Indexes(h, s)
  {
    a <= s && forall x, y :: x in a && y in s && Prior(h, e, y, x) ==> y in a
  }

  lemma SubsetSize<T>(a: set<T>, b: set<T>)
    requires a <= b
    ensures |a| <= |b|
    ensures |a| == |b| ==> a == b
  {
    assert b == a + (b - a);
    if |a| == |b| {
      assert |b - a| == 0;
    }
  }

  /** Some member of a nonempty set is taken after all the others. */
  lemma {:induction false} LastMember(h: seq<nat>, e: End, s: set<nat>) returns (m: nat)
    requires Indexes(h, s) && s != {}
    ensures m in s && forall j :: j in s && j != m ==> Prior(h, e, j, m)
    decreases |s|
  {
    var x :| x in s;
    if s == {x} {
      m := x;
    } else {
      var rest := s - {x};
      assert rest != {} by {
        assert s == rest + {x};
      }
      var y := LastMember(h, e, rest);
      m := if Prior(h, e, x, y) then y else x;
    }
  }

  /** Dropping the member taken last only takes that member out of the pick. */
  lemma PickedWithoutLast(h: seq<nat>, e: End, s: set<nat>, k: nat, m: nat)
    requires Indexes(h, s) && m in s && forall j :: j in s && j != m ==> Prior(h, e, j, m)
    ensures Picked(h, e, s, k) == Picked(h, e, s - {m}, k) + if |s - {m}| < k then {m} else {}
  {
    assert PriorIn(h, e, s, m) == s - {m};
    forall i | i in s - {m}
      ensures PriorIn(h, e, s, i) == PriorIn(h, e, s - {m}, i)
    {
      assert Prior(h, e, i, m);
    }
  }

  lemma {:induction false} PickedCount(h: seq<nat>, e: End, s: set<nat>, k: nat)
    requires Indexes(h, s)
    ensures |Picked(h, e, s, k)| == Min(k, |s|)
    decreases |s|
  {
    if s == {} {
    } else {
      var m := LastMember(h, e, s);
      PickedWithoutLast(h, e, s, k, m);
      PickedCount(h, e, s - {m}, k);
    }
  }

  /** Taking members in order until `k` are held, or none is left, can only end with `Picked`. */
  lemma PickedUnique(h: seq<nat>, e: End, s: set<nat>, k: nat, a: set<nat>)
    requires Indexes(h, s) && TakenInOrder(h, e, s, a)
    requires |a| == Min(k, |s|)
    ensures a == Picked(h, e, s, k)
  {
    forall x | x in s
      ensures x in a <==> |PriorIn(h, e, s, x)| < k
    {
      var p := PriorIn(h, e, s, x);
      if x in a {
        assert p <= a - {x};
        SubsetSize(p, a - {x});
      } else {
        assert a <= p by {
          forall z | z in a
            ensures z in p
          {
            assert !Prior(h, e, x, z);
          }
        }
        SubsetSize(a, p);
        SubsetSize(a + {x}, s);
      }
    }
  }

  lemma PickedInOrder(h: seq<nat>, e: End, s: set<nat>, k: int)
    requires Indexes(h, s)
    ensures TakenInOrder(h, e, s, Picked(h, e, s, k))
  {
    forall x, y | x in Picked(h, e, s, k) && y in s && Prior(h, e, y, x)
      ensures y in Picked(h, e, s, k)
    {
      SubsetSize(PriorIn(h, e, s, y), PriorIn(h, e, s, x));
    }
  }

  lemma PickedNone(h: seq<nat>, e: End, s: set<nat>, k: int)
    requires Indexes(h, s) && k <= 0
    ensures Picked(h, e, s, k) == {}
  {
  }

  /** A longer pick extends a shorter one. */
  lemma PickedMonotone(h: seq<nat>, e: End, s: set<nat>, k: int, k': int)
    requires Indexes(h, s) && k <= k'
    ensures Picked(h, e, s, k) <= Picked(h, e, s, k')
  {
  }

  /** Every fan taken has at least (closing) or at most (opening) the hours of every fan left. */
  lemma PickedByHours(h: seq<nat>, e: End, s: set<nat>, k: int, x: nat, y: nat)
    requires Indexes(h, s)
    requires x in Picked(h, e, s, k) && y in s && y !in Picked(h, e, s, k)
    ensures if e.Longest? then h[x] >= h[y] else h[x] <= h[y]
  {
    PickedInOrder(h, e, s, k);
  }
}
