/**
 * The nearest / second-nearest facility bookkeeping that all three engines
 * keep for every node v: (D0[v], F0[v]) is the nearest open facility and its
 * distance, (D1[v], F1[v]) the second nearest.  Distances are read from a
 * dense matrix G, where G[s, v] is the distance from facility s to node v.
 */
module Assignment {

  /** One node's entries of the D and F tables. */
  datatype Assign = Assign(d0: int, f0: int, d1: int, f1: int)

  /** The part of a node's entries that a swap evaluation depends on. */
  datatype Core = Core(d0: int, f0: int, d1: int)

  function CoreOf(a: Assign): Core
  {
    Core(a.d0, a.f0, a.d1)
  }

  ghost predicate Square(G: array2<int>, n: int)
  {
    G.Length0 == n && G.Length1 == n
  }

  /** Every open facility is a node id. */
  ghost predicate InRange(S: set<int>, n: int)
  {
    forall s :: s in S ==> 0 <= s < n
  }

  /** Every distance is a finite, non-negative value strictly below the sentinel `inf`. */
  ghost predicate Below(G: array2<int>, n: int, inf: int)
    reads G
    requires Square(G, n)
  {
    forall i, j :: 0 <= i < n && 0 <= j < n ==> 0 <= G[i, j] < inf
  }

  /** f is an open facility nearest to v, at distance d. */
  ghost predicate IsNearest(G: array2<int>, S: set<int>, v: int, d: int, f: int)
    reads G
    requires InRange(S, G.Length0) && 0 <= v < G.Length1
  {
    f in S && d == G[f, v] && forall s :: s in S ==> d <= G[s, v]
  }

  /** f is an open facility other than `near`, nearest to v among those, at distance d. */
  ghost predicate IsSecond(G: array2<int>, S: set<int>, v: int, near: int, d: int, f: int)
    reads G
    requires InRange(S, G.Length0) && 0 <= v < G.Length1
  {
    f in S && f != near && d == G[f, v] && forall s :: s in S && s != near ==> d <= G[s, v]
  }

  /**
   * Node v's entries agree with the open set S.  With no open facility both
   * entries hold the sentinels (distance inf, facility id n); with a single
   * one the second entry keeps the sentinels.
   */
  ghost predicate EntryOk(G: array2<int>, S: set<int>, n: int, inf: int, v: int, a: Assign)
    reads G
    requires Square(G, n) && InRange(S, n) && 0 <= v < n
  {
    && (S == {} ==> a == Assign(inf, n, inf, n))
    && (S != {} ==> IsNearest(G, S, v, a.d0, a.f0))
    && (S != {} && S - {a.f0} == {} ==> a.d1 == inf && a.f1 == n)
    && (S - {a.f0} != {} ==> IsSecond(G, S, v, a.f0, a.d1, a.f1))
  }

  /** The per-node update that opening facility f at distance g performs. */
  function AddAt(g: int, f: int, a: Assign): Assign
  {
    if g < a.d0 then Assign(g, f, a.d0, a.f0)
    else if g < a.d1 then Assign(a.d0, a.f0, g, f)
    else a
  }

  /**
   * The per-node effect of closing facility f, where S is the open set after
   * the removal: a node served by f promotes its second nearest and takes a
   * fresh second nearest; a node whose second nearest was f takes a fresh
   * second nearest; any other node is untouched.  A fresh second nearest is
   * any nearest member of S other than the node's nearest.
   */
  ghost predicate RemovedAt(G: array2<int>, S: set<int>, n: int, v: int, f: int, a: Assign, b: Assign)
    reads G
    requires Square(G, n) && InRange(S, n) && 0 <= v < n
  {
    if a.f0 == f then b.d0 == a.d1 && b.f0 == a.f1 && IsSecond(G, S, v, b.f0, b.d1, b.f1)
    else if a.f1 == f then b.d0 == a.d0 && b.f0 == a.f0 && IsSecond(G, S, v, a.f0, b.d1, b.f1)
    else b == a
  }

  lemma CardRemove(S: set<int>, x: int)
    requires x in S
    ensures |S - {x}| == |S| - 1
  {
    assert S == (S - {x}) + {x};
  }

  lemma CardAdd(S: set<int>, x: int)
    requires x !in S
    ensures |S + {x}| == |S| + 1
  {
  }

  /** Some member of a non-empty set. */
  lemma Member(S: set<int>) returns (x: int)
    requires S != {}
    ensures x in S
  {
    if forall y :: y !in S {
      assert false;
    }
    x :| x in S;
  }

  /** Some member of S other than f. */
  lemma OtherMember(S: set<int>, f: int) returns (t: int)
    requires S - {f} != {}
    ensures t in S && t != f
  {
    var R := S - {f};
    if forall x :: x !in R {
      assert false;
    }
    t :| t in R;
  }

  /** With fewer than n open ids among 0..n-1, some node is closed. */
  lemma {:induction false} ClosedNode(S: set<int>, n: int) returns (v: int)
    requires InRange(S, n) && |S| < n
    ensures 0 <= v < n && v !in S
  {
    if n - 1 !in S {
      v := n - 1;
    } else {
      CardRemove(S, n - 1);
      v := ClosedNode(S - {n - 1}, n - 1);
    }
  }

  /** A set with at least two members still has one after removing any single value. */
  lemma TwoLeft(S: set<int>, x: int)
    requires |S| >= 2
    ensures S - {x} != {}
  {
    if x in S {
      CardRemove(S, x);
      assert |S - {x}| >= 1;
    } else {
      assert S - {x} == S;
    }
  }

  /** Some member of the non-empty set S is at least as close to v as every other member. */
  lemma {:induction false} ClosestExists(G: array2<int>, S: set<int>, v: int)
    requires InRange(S, G.Length0) && S != {} && 0 <= v < G.Length1
    ensures exists f :: f in S && forall s :: s in S ==> G[f, v] <= G[s, v]
    decreases S
  {
    var x := Member(S);
    if S == {x} {
      assert forall s :: s in S ==> G[x, v] <= G[s, v];
    } else {
      ClosestExists(G, S - {x}, v);
      var g :| g in S - {x} && forall s :: s in S - {x} ==> G[g, v] <= G[s, v];
      var f := if G[x, v] < G[g, v] then x else g;
      assert forall s :: s in S ==> G[f, v] <= G[s, v];
    }
  }

  /** The distance from node v to its nearest member of the non-empty set S. */
  ghost function NearestDist(G: array2<int>, S: set<int>, v: int): (d: int)
    reads G
    requires InRange(S, G.Length0) && S != {} && 0 <= v < G.Length1
    ensures exists f :: f in S && d == G[f, v]
    ensures forall s :: s in S ==> d <= G[s, v]
  {
    ClosestExists(G, S, v);
    var f :| f in S && forall s :: s in S ==> G[f, v] <= G[s, v];
    G[f, v]
  }

  /** The distance of a nearest open facility is NearestDist. */
  lemma NearestIsNearestDist(G: array2<int>, S: set<int>, v: int, d: int, f: int)
    requires InRange(S, G.Length0) && 0 <= v < G.Length1
    requires IsNearest(G, S, v, d, f)
    ensures d == NearestDist(G, S, v)
  {
  }

  /** The nearest distance never exceeds the second-nearest distance. */
  lemma NearestNotFarther(G: array2<int>, S: set<int>, n: int, inf: int, v: int, a: Assign)
    requires Square(G, n) && InRange(S, n) && 0 <= v < n && Below(G, n, inf)
    requires EntryOk(G, S, n, inf, v, a)
    ensures a.d0 <= a.d1
  {
    if S != {} && S - {a.f0} != {} {
      assert a.d1 == G[a.f1, v];
    }
  }

  /** Opening a facility not yet open keeps node v's entries in agreement with the grown set. */
  lemma AddKeepsEntryOk(G: array2<int>, S: set<int>, n: int, inf: int, v: int, f: int, a: Assign)
    requires Square(G, n) && InRange(S, n) && 0 <= v < n && Below(G, n, inf)
    requires 0 <= f < n && f !in S
    requires EntryOk(G, S, n, inf, v, a)
    ensures EntryOk(G, S + {f}, n, inf, v, AddAt(G[f, v], f, a))
  {
    var S' := S + {f};
    var b := AddAt(G[f, v], f, a);
    var g := G[f, v];
    if S == {} {
      assert b == Assign(g, f, inf, n);
      assert S' - {f} == {};
    } else if S - {a.f0} == {} {
      assert S == {a.f0};
      if g < a.d0 {
        assert S' - {f} == {a.f0};
      } else {
        assert b == Assign(a.d0, a.f0, g, f);
        assert S' - {a.f0} == {f};
      }
    } else {
      assert a.f1 in S && a.f1 != f;
      if g < a.d0 {
        assert a.f0 in S' - {f};
      } else {
        assert a.f1 in S' - {b.f0};
      }
    }
  }

  /** Closing an open facility, with at least two others left, keeps node v's entries in agreement. */
  lemma RemoveKeepsEntryOk(G: array2<int>, S: set<int>, n: int, inf: int, v: int, f: int, a: Assign, b: Assign)
    requires Square(G, n) && InRange(S, n) && 0 <= v < n
    requires f in S && |S| >= 3
    requires EntryOk(G, S, n, inf, v, a)
    requires RemovedAt(G, S - {f}, n, v, f, a, b)
    ensures EntryOk(G, S - {f}, n, inf, v, b)
  {
    var S' := S - {f};
    CardRemove(S, f);
    TwoLeft(S, a.f0);
    TwoLeft(S', b.f0);
    if a.f0 == f {
      assert a.f1 in S';
    } else {
      assert a.f0 in S';
    }
  }

  /**
   * Opening a facility c and closing it again restores node v's nearest
   * entry and second-nearest distance; only the second-nearest id may end
   * up at another facility of equal distance.
   */
  lemma AddRemoveRoundTrip(G: array2<int>, S: set<int>, n: int, inf: int, v: int, c: int, a: Assign, b: Assign)
    requires Square(G, n) && InRange(S, n) && 0 <= v < n && Below(G, n, inf)
    requires 0 <= c < n && c !in S && |S| >= 2
    requires EntryOk(G, S, n, inf, v, a)
    requires RemovedAt(G, S, n, v, c, AddAt(G[c, v], c, a), b)
    ensures CoreOf(b) == CoreOf(a)
  {
    TwoLeft(S, a.f0);
    assert IsSecond(G, S, v, a.f0, a.d1, a.f1);
    var g := G[c, v];
    if g < a.d0 || g < a.d1 {
      assert IsSecond(G, S, v, a.f0, b.d1, b.f1);
      assert b.d1 <= G[a.f1, v];
      assert a.d1 <= G[b.f1, v];
    }
  }

  /**
   * The entries are determined by S up to ties: two rows that both agree
   * with S have the same nearest and the same second-nearest distance, so
   * recomputing them from scratch gives the incrementally kept distances.
   */
  lemma EntryDistancesUnique(G: array2<int>, S: set<int>, n: int, inf: int, v: int, a: Assign, b: Assign)
    requires Square(G, n) && InRange(S, n) && 0 <= v < n && Below(G, n, inf)
    requires EntryOk(G, S, n, inf, v, a) && EntryOk(G, S, n, inf, v, b)
    ensures a.d0 == b.d0 && a.d1 == b.d1
  {
    if S != {} {
      assert a.d0 <= G[b.f0, v] && b.d0 <= G[a.f0, v];
      if S - {a.f0} == {} {
        assert b.f0 == a.f0;
      } else if a.f0 == b.f0 {
        assert a.d1 <= G[b.f1, v] && b.d1 <= G[a.f1, v];
      } else {
        assert b.f0 in S - {a.f0} && a.f0 in S - {b.f0};
        assert a.d1 <= G[b.f0, v] && b.d1 <= G[a.f0, v];
        assert a.d0 <= G[a.f1, v] && b.d0 <= G[b.f1, v];
      }
    }
  }
}
