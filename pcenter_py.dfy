/**
 * The Python prototype of the tabu search.  Its state is a set of module
 * globals: the distance matrix, the list S of open centers in opening order,
 * the nearest / second-nearest tables D and F, M, the tabu matrix T, the
 * current and best radius, and the two move lists findPair fills.  The
 * model keeps them as the fields of one PCenter object.  Unlike the solver,
 * S is a list, findNext breaks ties by the smallest center id, and findPair
 * keeps one running minimum C for both move lists.
 */
module PCenterPy {
  import opened Assignment
  import opened Moves
  import Floyd
  import PairSort
  import Preprocess

  /** The sentinel distance of an unreachable node. */
  const INFINITY := 64000

  /** A move as findPair records it: (center to close, node to open, score). */
  type Entry = (int, int, int)

  datatype Option<T> = None | Some(value: T)

  /** What reservoirSamp gives back: None, the IndexError of an empty list, or an element. */
  datatype Sample<T> = NoSample | IndexError | Sampled(value: T)

  /**
   * reservoirSamp: None for None, IndexError for an empty list (it reads
   * element 0), otherwise an element of the list, the i-th replacing the
   * sample when a roll in [0, i] comes out 0.
   */
  method ReservoirSamp<T>(sampList: Option<seq<T>>) returns (r: Sample<T>)
    ensures sampList == None ==> r == NoSample
    ensures sampList == Some([]) ==> r == IndexError
    ensures sampList.Some? && sampList.value != [] ==> r.Sampled? && r.value in sampList.value
  {
    if sampList == None {
      return NoSample;
    }
    var xs := sampList.value;
    if xs == [] {
      return IndexError;
    }
    var res := xs[0];
    for i := 1 to |xs|
      invariant res in xs[..i]
    {
      var j :| 0 <= j <= i;
      if j < 1 {
        res := xs[i];
      }
    }
    r := Sampled(res);
  }

  /** The largest endpoint id of any edge, or 0 for no edge. */
  function MaxEndpoint(edges: seq<Preprocess.Edge>): (r: int)
    ensures 0 <= r
    ensures forall k :: 0 <= k < |edges| ==> edges[k].0 <= r && edges[k].1 <= r
    ensures r == 0 || exists k :: 0 <= k < |edges| && (edges[k].0 == r || edges[k].1 == r)
  {
    if edges == [] then 0
    else
      var r := MaxEndpoint(edges[..|edges| - 1]);
      var e := edges[|edges| - 1];
      var m := if e.0 < e.1 then e.1 else e.0;
      if m < r then r else m
  }

  /** Edges as an instance file holds them: 1-based endpoints and non-negative lengths. */
  predicate EdgesOk(edges: seq<Preprocess.Edge>)
  {
    forall k :: 0 <= k < |edges| ==> 1 <= edges[k].0 && 1 <= edges[k].1 && 0 <= edges[k].2
  }

  /** readData's scan of the edges for N, the number of nodes. */
  method NodeCount(edges: seq<Preprocess.Edge>) returns (N: int)
    ensures N == MaxEndpoint(edges)
  {
    N := 0;
    for k := 0 to |edges|
      invariant N == MaxEndpoint(edges[..k])
    {
      assert edges[..k + 1][..k] == edges[..k];
      var s := edges[k].0;
      var t := edges[k].1;
      N := if s < t then (if t < N then N else t) else (if s < N then N else s);
    }
    assert edges[..|edges|] == edges;
  }

  /**
   * The distance matrix readData builds: N is the largest endpoint, G starts
   * at INFINITY with a zero diagonal, every edge (1-based) writes its length
   * in both directions, a later edge between the same nodes overwriting an
   * earlier one, and Floyd-Warshall closes it.
   */
  method ReadGraph(edges: seq<Preprocess.Edge>) returns (N: int, G: array2<int>)
    requires edges != [] && EdgesOk(edges)
    ensures N == MaxEndpoint(edges) && 1 <= N
    ensures fresh(G) && G.Length0 == N && G.Length1 == N
    ensures Preprocess.ShortestBelow(G, N, INFINITY, Preprocess.Shift(edges))
  {
    N := NodeCount(edges);
    assert 1 <= edges[0].0 <= N;
    var shifted := Preprocess.Shift(edges);
    assert Preprocess.EdgesOk(shifted, N);
    G := Preprocess.Distances(N, INFINITY, shifted);
  }

  /** The first occurrence of x removed from s (list.remove), or s itself when x is absent. */
  function RemoveFirst(s: seq<int>, x: int): (r: seq<int>)
    ensures x !in s ==> r == s
    ensures x in s ==> |r| == |s| - 1
  {
    if s == [] then []
    else if s[0] == x then s[1..]
    else
      assert x in s ==> x in s[1..];
      [s[0]] + RemoveFirst(s[1..], x)
  }

  /** RemoveFirst deletes exactly the element at the first position holding x. */
  lemma {:induction false} RemoveFirstAt(s: seq<int>, x: int, i: int)
    requires 0 <= i < |s| && s[i] == x && x !in s[..i]
    ensures RemoveFirst(s, x) == s[..i] + s[i + 1..]
  {
    if i > 0 {
      assert s[0] in s[..i];
      assert s[1..][..i - 1] == s[1..i];
      RemoveFirstAt(s[1..], x, i - 1);
      assert s[..i] == [s[0]] + s[1..i];
      assert s[1..][i..] == s[i + 1..];
    }
  }

  /** No id occurs twice in the list. */
  predicate NoRepeats(s: seq<int>)
  {
    forall i, j :: 0 <= i < j < |s| ==> s[i] != s[j]
  }

  /** Removing an id from a list without repeats leaves the other ids, each once. */
  lemma RemoveFirstMembers(s: seq<int>, x: int)
    requires NoRepeats(s)
    ensures NoRepeats(RemoveFirst(s, x))
    ensures forall y :: y in RemoveFirst(s, x) <==> y in s && y != x
  {
    if x in s {
      var i :| 0 <= i < |s| && s[i] == x;
      assert x !in s[..i];
      RemoveFirstAt(s, x, i);
      DropNoRepeats(s, i);
      DropMembers(s, i);
    }
  }

  /** Dropping one position from a list without repeats leaves a list without repeats. */
  lemma DropNoRepeats(s: seq<int>, i: int)
    requires NoRepeats(s) && 0 <= i < |s|
    ensures NoRepeats(s[..i] + s[i + 1..])
  {
    var r := s[..i] + s[i + 1..];
    forall a, b | 0 <= a < b < |r|
      ensures r[a] != r[b]
    {
      var a' := if a < i then a else a + 1;
      var b' := if b < i then b else b + 1;
      assert r[a] == s[a'] && r[b] == s[b'];
    }
  }

  /** Dropping position i from a list without repeats removes exactly the value s[i]. */
  lemma DropMembers(s: seq<int>, i: int)
    requires NoRepeats(s) && 0 <= i < |s|
    ensures forall y :: y in s[..i] + s[i + 1..] <==> y in s && y != s[i]
  {
    var r := s[..i] + s[i + 1..];
    forall y
      ensures y in r <==> y in s && y != s[i]
    {
      if y in s && y != s[i] {
        var k :| 0 <= k < |s| && s[k] == y;
        if k < i { assert r[k] == y; } else { assert r[k - 1] == y; }
      }
      if y in r {
        var k :| 0 <= k < |r| && r[k] == y;
        if k < i { assert s[k] == y; } else { assert s[k + 1] == y; }
      }
    }
  }

  /** Removing the id just appended to a list that did not hold it gives the list back. */
  lemma {:induction false} RemoveAppended(s: seq<int>, x: int)
    requires x !in s
    ensures RemoveFirst(s + [x], x) == s
  {
    if s != [] {
      assert (s + [x])[1..] == s[1..] + [x];
      RemoveAppended(s[1..], x);
    }
  }

  /** The open centers of a list, as a set. */
  function Elems(s: seq<int>): (r: set<int>)
    ensures forall x :: x in r <==> x in s
  {
    set x | x in s
  }

  /** Appending a new id to a list without repeats adds exactly that id. */
  lemma Appended(s: seq<int>, x: int)
    requires NoRepeats(s) && x !in s
    ensures NoRepeats(s + [x]) && Elems(s + [x]) == Elems(s) + {x}
  {
  }

  /** A list without repeats has as many members as entries. */
  lemma {:induction false} ElemsCard(s: seq<int>)
    requires NoRepeats(s)
    ensures |Elems(s)| == |s|
  {
    if s != [] {
      var init := s[..|s| - 1];
      ElemsCard(init);
      assert Elems(s) == Elems(init) + {s[|s| - 1]};
      assert s[|s| - 1] !in init;
    }
  }

  /** The node ids 0 .. k - 1. */
  ghost function Nodes(k: int): set<int>
    decreases k
  {
    if k <= 0 then {} else Nodes(k - 1) + {k - 1}
  }

  /** Nodes(k) holds the ids below k, and there are k of them. */
  lemma {:induction false} NodesCard(k: nat)
    ensures |Nodes(k)| == k
    ensures forall u :: u in Nodes(k) <==> 0 <= u < k
  {
    if k > 0 {
      NodesCard(k - 1);
    }
  }

  /**
   * A set of node ids below n has at most n members; it has n exactly when
   * it holds every node, and otherwise some node is missing from it.
   */
  lemma NodesCover(s: set<int>, n: nat)
    requires InRange(s, n)
    ensures |s| <= n
    ensures |s| == n <==> forall u :: 0 <= u < n ==> u in s
    ensures |s| < n ==> exists u :: 0 <= u < n && u !in s
  {
    NodesCard(n);
    assert s <= Nodes(n) by {
      forall x | x in s
        ensures x in Nodes(n)
      {
        assert 0 <= x < n;
      }
    }
    if forall u :: 0 <= u < n ==> u in s {
      assert s == Nodes(n);
    } else {
      var u :| 0 <= u < n && u !in s;
      var rest := Nodes(n) - s;
      assert u in rest;
      assert Nodes(n) == s + rest && s * rest == {};
    }
  }

  /** A strictly increasing list has no repeats. */
  lemma IncreasingNoRepeats(s: seq<int>)
    requires forall j, k :: 0 <= j < k < |s| ==> s[j] < s[k]
    ensures NoRepeats(s)
  {
  }

  /**
   * In a strictly ascending list of (distance, id) pairs, the first pair
   * whose id is not f is at most every pair whose id is not f.
   */
  lemma FirstOther(sorted: seq<PairSort.Pair>, k: int, f: int)
    requires PairSort.StrictlySorted(sorted) && 0 <= k < |sorted|
    requires forall j :: 0 <= j < k ==> sorted[j].1 == f
    requires sorted[k].1 != f
    ensures forall e :: e in sorted && e.1 != f ==> PairSort.Less(sorted[k], e) || sorted[k] == e
  {
    forall e | e in sorted && e.1 != f
      ensures PairSort.Less(sorted[k], e) || sorted[k] == e
    {
      var j :| 0 <= j < |sorted| && sorted[j] == e;
      assert k <= j;
    }
  }

  class PCenter {
    /** N, the number of nodes. */
    const n: int
    /** P, the number of centers. */
    const p: int
    /** Distance matrix (numpy int32 in the program). */
    const G: array2<int>
    /** Row 0: distance to the nearest open center; row 1: to the second nearest. */
    const D: array2<int>
    /** Row 0: the nearest open center; row 1: the second nearest. */
    const F: array2<int>
    /** Tabu matrix: closing f for opening i is tabu while T[f, i] exceeds the iteration. */
    const T: array2<int>
    /** M[f]: the largest second-nearest distance among the nodes f serves. */
    const M: array<int>
    /** The open centers in opening order. */
    var S: seq<int>
    var scCur: int
    var scBest: int
    var tabuList: seq<Entry>
    var notTabuList: seq<Entry>

    ghost predicate Valid()
    {
      && 0 < n
      && G.Length0 == n && G.Length1 == n
      && D.Length0 == 2 && D.Length1 == n
      && F.Length0 == 2 && F.Length1 == n
      && T.Length0 == n && T.Length1 == n
      && M.Length == n
      && G != D && G != F && G != T && D != F && D != T && F != T
    }

    /**
     * What the search assumes of the instance: a symmetric matrix with a zero
     * diagonal whose other entries are positive and finite (a connected graph).
     */
    ghost predicate GraphOk()
      reads G
      requires Valid()
    {
      && Below(G, n, INFINITY)
      && (forall i, j :: 0 <= i < n && 0 <= j < n ==> G[i, j] == G[j, i])
      && (forall i :: 0 <= i < n ==> G[i, i] == 0)
      && (forall i, j :: 0 <= i < n && 0 <= j < n && i != j ==> 0 < G[i, j])
    }

    /** Node v's entries of D and F. */
    function At(v: int): Assign
      reads D, F
      requires Valid() && 0 <= v < n
    {
      Assign(D[0, v], F[0, v], D[1, v], F[1, v])
    }

    /** D and F agree with the open set s at every node. */
    ghost predicate Agrees(s: set<int>)
      reads G, D, F
      requires Valid()
    {
      && InRange(s, n)
      && forall v :: 0 <= v < n ==> EntryOk(G, s, n, INFINITY, v, At(v))
    }

    /** S holds no center twice, and D and F agree with its members. */
    ghost predicate Consistent()
      reads this`S, G, D, F
    {
      Valid() && NoRepeats(S) && Agrees(Elems(S))
    }

    /** The nearest distances, node by node. */
    function Row0(): (r: seq<int>)
      reads D
      requires Valid()
      ensures |r| == n && forall v :: 0 <= v < n ==> r[v] == D[0, v]
    {
      seq(n, v requires 0 <= v < n reads D => D[0, v])
    }

    /** scCur is the coverage radius of the current entries. */
    ghost predicate Tracked()
      reads this`scCur, D
    {
      Valid() && scCur == MaxOf(Row0())
    }

    /** Every node's entries, node by node. */
    ghost function Assigns(): (r: seq<Assign>)
      reads D, F
      requires Valid()
      ensures |r| == n && forall v :: 0 <= v < n ==> r[v] == At(v)
    {
      seq(n, v requires 0 <= v < n reads D, F => At(v))
    }

    /** The per-node cores, node by node. */
    ghost function Cores(): (r: seq<Core>)
      reads D, F
      requires Valid()
      ensures |r| == n && forall v :: 0 <= v < n ==> r[v] == CoreOf(At(v))
    {
      seq(n, v requires 0 <= v < n reads D, F => CoreOf(At(v)))
    }

    /** Row c of the distance matrix. */
    ghost function GRow(c: int): (r: seq<int>)
      reads G
      requires Valid() && 0 <= c < n
      ensures |r| == n && forall v :: 0 <= v < n ==> r[v] == G[c, v]
    {
      seq(n, v requires 0 <= v < n reads G => G[c, v])
    }

    /**
     * readData for one instance: the distance matrix of ReadGraph, F at N
     * everywhere, D at INFINITY, M and T zero, and S empty.
     */
    constructor Load(centerNum: int, edges: seq<Preprocess.Edge>)
      requires edges != [] && EdgesOk(edges)
      ensures n == MaxEndpoint(edges) && p == centerNum && Valid()
      ensures Preprocess.ShortestBelow(G, n, INFINITY, Preprocess.Shift(edges))
      ensures S == [] && Consistent()
      ensures forall v :: 0 <= v < n ==> At(v) == Assign(INFINITY, n, INFINITY, n)
      ensures forall i, j :: 0 <= i < n && 0 <= j < n ==> T[i, j] == 0
      ensures forall f :: 0 <= f < n ==> M[f] == 0
    {
      var N, g := ReadGraph(edges);
      n, p, G := N, centerNum, g;
      F := new int[2, N]((i, j) => N);
      D := new int[2, N]((i, j) => INFINITY);
      M := new int[N](f => 0);
      T := new int[N, N]((i, j) => 0);
      S := [];
      new;
      Unassigned();
    }

    /** With no center open and every entry at its sentinel, the entries agree with S. */
    lemma Unassigned()
      requires Valid() && S == []
      requires forall v :: 0 <= v < n ==> At(v) == Assign(INFINITY, n, INFINITY, n)
      ensures Consistent()
    {
      assert Elems(S) == {};
    }

    /** max(D[0]). */
    method ComputeRadius() returns (m: int)
      requires Valid()
      ensures m == MaxOf(Row0())
    {
      ghost var row := Row0();
      m := D[0, 0];
      assert row[..1] == [row[0]];
      for v := 1 to n
        invariant m == MaxOf(row[..v])
      {
        assert row[..v + 1][..v] == row[..v];
        if D[0, v] > m {
          m := D[0, v];
        }
      }
      assert row[..n] == row;
    }

    /** The loop body of addFacility for node v. */
    method AddAtNode(v: int, f: int)
      requires Valid() && 0 <= f < n && 0 <= v < n
      modifies D, F
      ensures At(v) == AddAt(G[f, v], f, old(At(v)))
      ensures forall u :: 0 <= u < n && u != v ==> At(u) == old(At(u))
    {
      if G[f, v] < D[0, v] {
        D[1, v] := D[0, v];
        F[1, v] := F[0, v];
        D[0, v] := G[f, v];
        F[0, v] := f;
      } else if G[f, v] < D[1, v] {
        D[1, v] := G[f, v];
        F[1, v] := f;
      }
    }

    /** Opening f at every node keeps the entries consistent with the grown open set. */
    lemma AddKeepsAgrees(S0: set<int>, f: int, A0: seq<Assign>)
      requires Valid() && GraphOk() && InRange(S0, n) && 0 <= f < n && f !in S0 && |A0| == n
      requires forall v :: 0 <= v < n ==> EntryOk(G, S0, n, INFINITY, v, A0[v])
      requires forall v :: 0 <= v < n ==> At(v) == AddAt(G[f, v], f, A0[v])
      ensures Agrees(S0 + {f})
    {
      forall v | 0 <= v < n
        ensures EntryOk(G, S0 + {f}, n, INFINITY, v, At(v))
      {
        AddKeepsEntryOk(G, S0, n, INFINITY, v, f, A0[v]);
      }
    }

    /**
     * addFacility: appends f to S; each node moves its nearest entry down to
     * second place when f is strictly nearer, or takes f as second nearest
     * when f is strictly nearer than that; the radius is recomputed.
     */
    method AddFacility(f: int)
      requires Valid() && GraphOk() && Consistent() && 0 <= f < n && f !in S
      modifies this`S, this`scCur, D, F
      ensures S == old(S) + [f]
      ensures forall v :: 0 <= v < n ==> At(v) == AddAt(G[f, v], f, old(At(v)))
      ensures Consistent() && Tracked()
    {
      ghost var A0 := Assigns();
      ghost var S0 := Elems(S);
      assert forall v :: 0 <= v < n ==> EntryOk(G, S0, n, INFINITY, v, A0[v]);
      Appended(S, f);
      S := S + [f];
      OpenAll(f, A0);
      scCur := ComputeRadius();
      AddKeepsAgrees(S0, f, A0);
    }

    /** The node loop of addFacility. */
    method OpenAll(f: int, ghost A0: seq<Assign>)
      requires Valid() && 0 <= f < n && A0 == Assigns()
      modifies D, F
      ensures forall v :: 0 <= v < n ==> At(v) == AddAt(G[f, v], f, A0[v])
    {
      for v := 0 to n
        invariant forall u :: 0 <= u < v ==> At(u) == AddAt(G[f, u], f, A0[u])
        invariant forall u :: v <= u < n ==> At(u) == A0[u]
      {
        AddAtNode(v, f);
      }
    }

    /**
     * findNext: sorts the pairs (G[v, s], s) over s in S and takes the first
     * whose center is not f as v's second nearest, so that among equally
     * near centers the smallest id wins; with no such center, v's entries
     * stay as they are.
     */
    method FindNext(v: int, f: int)
      requires Valid() && GraphOk() && InRange(Elems(S), n) && NoRepeats(S) && 0 <= v < n
      modifies D, F
      ensures (exists s :: s in S && s != f) ==>
        && IsSecond(G, Elems(S), v, f, D[1, v], F[1, v])
        && forall s :: s in S && s != f && G[s, v] == D[1, v] ==> F[1, v] <= s
      ensures !(exists s :: s in S && s != f) ==> At(v) == old(At(v))
      ensures D[0, v] == old(D[0, v]) && F[0, v] == old(F[0, v])
      ensures forall u :: 0 <= u < n && u != v ==> At(u) == old(At(u))
    {
      var sorted := SortedDistances(v);
      var k := 0;
      while k < |sorted| && sorted[k].1 == f
        invariant 0 <= k <= |sorted|
        invariant forall j :: 0 <= j < k ==> sorted[j].1 == f
      {
        k := k + 1;
      }
      if k < |sorted| {
        FirstOther(sorted, k, f);
        F[1, v] := sorted[k].1;
        D[1, v] := sorted[k].0;
        forall s | s in S && s != f
          ensures PairSort.Less(sorted[k], (G[v, s], s)) || sorted[k] == (G[v, s], s)
        {
          assert (G[v, s], s) in sorted;
        }
      } else {
        forall s | s in S
          ensures s == f
        {
          assert (G[v, s], s) in sorted;
        }
      }
    }

    /**
     * The loop body of removeFacility for node v, after f has left S: a node
     * served by f promotes its second nearest and looks up a new one, a node
     * whose second nearest was f looks up a new one.
     */
    method RepairNode(v: int, f: int)
      requires Valid() && GraphOk() && InRange(Elems(S), n) && NoRepeats(S) && 0 <= v < n
      requires |Elems(S)| >= 2
      modifies D, F
      ensures RemovedAt(G, Elems(S), n, v, f, old(At(v)), At(v))
      ensures forall u :: 0 <= u < n && u != v ==> At(u) == old(At(u))
    {
      if F[0, v] == f {
        D[0, v] := D[1, v];
        F[0, v] := F[1, v];
        TwoLeft(Elems(S), F[0, v]);
        var t := OtherMember(Elems(S), F[0, v]);
        FindNext(v, F[0, v]);
      } else if F[1, v] == f {
        TwoLeft(Elems(S), F[0, v]);
        var t := OtherMember(Elems(S), F[0, v]);
        FindNext(v, F[0, v]);
      }
    }

    /** Closing f at every node keeps the entries consistent with the shrunk open set. */
    lemma RemoveKeepsAgrees(S0: set<int>, f: int, A0: seq<Assign>)
      requires Valid() && GraphOk() && InRange(S0, n) && f in S0 && |S0| >= 3 && |A0| == n
      requires forall v :: 0 <= v < n ==> EntryOk(G, S0, n, INFINITY, v, A0[v])
      requires forall v :: 0 <= v < n ==> RemovedAt(G, S0 - {f}, n, v, f, A0[v], At(v))
      ensures Agrees(S0 - {f})
    {
      forall v | 0 <= v < n
        ensures EntryOk(G, S0 - {f}, n, INFINITY, v, At(v))
      {
        RemoveKeepsEntryOk(G, S0, n, INFINITY, v, f, A0[v], At(v));
      }
    }

    /**
     * removeFacility: raises (ValueError) and changes nothing when f is not
     * open; otherwise removes f from S and repairs every node it was nearest
     * or second nearest to; the radius is recomputed.
     */
    method RemoveFacility(f: int, ghost A0: seq<Assign>) returns (raised: bool)
      requires Valid() && GraphOk() && Consistent() && A0 == Assigns()
      requires f in S ==> |S| >= 3
      modifies this`S, this`scCur, D, F
      ensures raised <==> f !in old(S)
      ensures raised ==> S == old(S) && scCur == old(scCur) && Assigns() == A0
      ensures !raised ==> S == RemoveFirst(old(S), f) && Elems(S) == Elems(old(S)) - {f} && Tracked()
      ensures !raised ==> forall v :: 0 <= v < n ==> RemovedAt(G, Elems(S), n, v, f, A0[v], At(v))
      ensures Consistent()
    {
      if f !in S {
        return true;
      }
      raised := false;
      CloseCenter(f);
    }

    /** removeFacility once f is known to be open. */
    method CloseCenter(f: int)
      requires Valid() && GraphOk() && Consistent()
      requires f in S && |S| >= 3
      modifies this`S, this`scCur, D, F
      ensures S == RemoveFirst(old(S), f) && Elems(S) == Elems(old(S)) - {f}
      ensures forall v :: 0 <= v < n ==> RemovedAt(G, Elems(S), n, v, f, old(At(v)), At(v))
      ensures Consistent() && Tracked()
    {
      ghost var A0 := Assigns();
      ghost var S0 := Elems(S);
      assert forall v :: 0 <= v < n ==> EntryOk(G, S0, n, INFINITY, v, A0[v]);
      ElemsCard(S);
      RemoveFirstMembers(S, f);
      S := RemoveFirst(S, f);
      assert Elems(S) == S0 - {f};
      CardRemove(S0, f);
      RepairAll(f, A0);
      scCur := ComputeRadius();
      RemoveKeepsAgrees(S0, f, A0);
    }

    /** The node loop of removeFacility, after f has left S. */
    method RepairAll(f: int, ghost A0: seq<Assign>)
      requires Valid() && GraphOk() && InRange(Elems(S), n) && NoRepeats(S) && |Elems(S)| >= 2
      requires A0 == Assigns()
      modifies D, F
      ensures forall v :: 0 <= v < n ==> RemovedAt(G, Elems(S), n, v, f, A0[v], At(v))
    {
      ghost var E := Elems(S);
      for v := 0 to n
        invariant forall u :: 0 <= u < v ==> RemovedAt(G, E, n, u, f, A0[u], At(u))
        invariant forall u :: v <= u < n ==> At(u) == A0[u]
      {
        RepairNode(v, f);
      }
    }

    /** The pairs (G[v, s], s) over s in S, in ascending order (Python's sorted on tuples). */
    method SortedDistances(v: int) returns (sorted: seq<PairSort.Pair>)
      requires Valid() && InRange(Elems(S), n) && NoRepeats(S) && 0 <= v < n
      ensures PairSort.StrictlySorted(sorted)
      ensures forall e :: e in sorted ==> e.1 in S && e.0 == G[v, e.1]
      ensures forall s :: s in S ==> (G[v, s], s) in sorted
    {
      forall j | 0 <= j < |S|
        ensures 0 <= S[j] < n
      {
        assert S[j] in Elems(S);
      }
      var ds: seq<PairSort.Pair> := [];
      for k := 0 to |S|
        invariant |ds| == k && forall j :: 0 <= j < k ==> ds[j] == (G[v, S[j]], S[j])
      {
        ds := ds + [(G[v, S[k]], S[k])];
      }
      sorted := PairSort.Sort(ds);
      Preprocess.SortFacts(ds, sorted);
      forall s | s in S
        ensures (G[v, s], s) in sorted
      {
        var i :| 0 <= i < |S| && S[i] == s;
        assert ds[i] in ds;
      }
    }

    /** Closing f for opening i is tabu at iteration `step` (T[f][i] > step). */
    predicate IsTabu(f: int, i: int, step: int)
      reads T
      requires Valid() && 0 <= f < n && 0 <= i < n
    {
      T[f, i] > step
    }

    /** The score of the swap that opens i and closes f, from the cores before i opens. */
    ghost function Score(cores: seq<Core>, f: int, i: int): int
      reads G
      requires Valid() && |cores| == n && 0 <= i < n
    {
      SwapScore(cores, GRow(i), i, f)
    }

    /**
     * C is the running minimum of findPair over the evaluated swaps ev (keyed
     * (f, i)): INFINITY while none is evaluated, otherwise the least score.
     */
    static ghost predicate Least(ev: map<(int, int), int>, C: int)
    {
      && (forall m :: m in ev ==> C <= ev[m] < INFINITY)
      && (|ev| == 0 ==> C == INFINITY)
      && (|ev| > 0 ==> exists m :: m in ev && ev[m] == C)
    }

    /**
     * One of findPair's lists against the evaluated swaps ev and the running
     * minimum C: every entry is an evaluated swap of the list's class with
     * its score, no entry is below C, scores never rise along the list, and
     * every swap of the class whose score is C is in the list.
     */
    ghost predicate ListOk(ev: map<(int, int), int>, list: seq<Entry>, C: int, tabu: bool, step: int)
      reads T
      requires Valid()
    {
      && (forall m :: m in ev ==> 0 <= m.0 < n && 0 <= m.1 < n)
      && (forall k :: 0 <= k < |list| ==>
            && (list[k].0, list[k].1) in ev && ev[(list[k].0, list[k].1)] == list[k].2
            && IsTabu(list[k].0, list[k].1, step) == tabu && C <= list[k].2)
      && (forall j, k :: 0 <= j < k < |list| ==> list[k].2 <= list[j].2)
      && (forall m :: m in ev && ev[m] == C && IsTabu(m.0, m.1, step) == tabu ==> (m.0, m.1, C) in list)
    }

    /** The running minimum after one more swap is the smaller of C and its score. */
    lemma LeastStep(ev: map<(int, int), int>, C: int, f: int, i: int, x: int)
      requires (f, i) !in ev && Least(ev, C) && x < INFINITY
      ensures Least(ev[(f, i) := x], if x < C then x else C)
    {
      var ev' := ev[(f, i) := x];
      assert (f, i) in ev';
      if x >= C && |ev| > 0 {
        var m :| m in ev && ev[m] == C;
        assert m in ev';
      }
    }

    /** A swap below C starts its class's list afresh. */
    lemma ListReset(ev: map<(int, int), int>, list: seq<Entry>, C: int, tabu: bool, step: int, f: int, i: int, x: int)
      requires Valid() && 0 <= f < n && 0 <= i < n && (f, i) !in ev && Least(ev, C) && x < C
      requires ListOk(ev, list, C, tabu, step) && IsTabu(f, i, step) == tabu
      ensures ListOk(ev[(f, i) := x], [(f, i, x)], x, tabu, step)
    {
    }

    /** A swap at C joins the end of its class's list. */
    lemma ListAppend(ev: map<(int, int), int>, list: seq<Entry>, C: int, tabu: bool, step: int, f: int, i: int)
      requires Valid() && 0 <= f < n && 0 <= i < n && (f, i) !in ev
      requires ListOk(ev, list, C, tabu, step) && IsTabu(f, i, step) == tabu
      ensures ListOk(ev[(f, i) := C], list + [(f, i, C)], C, tabu, step)
    {
      var ev' := ev[(f, i) := C];
      var list' := list + [(f, i, C)];
      forall m | m in ev' && ev'[m] == C && IsTabu(m.0, m.1, step) == tabu
        ensures (m.0, m.1, C) in list'
      {
        if m != (f, i) {
          assert (m.0, m.1, C) in list;
        }
      }
    }

    /** A swap above C, or a swap of the other class, leaves a list as it is. */
    lemma ListKeep(ev: map<(int, int), int>, list: seq<Entry>, C: int, C': int, tabu: bool, step: int, f: int, i: int, x: int)
      requires Valid() && 0 <= f < n && 0 <= i < n && (f, i) !in ev && Least(ev, C)
      requires ListOk(ev, list, C, tabu, step)
      requires C' <= C && (C' < C ==> C' == x) && (x == C' ==> IsTabu(f, i, step) != tabu)
      ensures ListOk(ev[(f, i) := x], list, C', tabu, step)
    {
    }

    /** findPair's running state: C is the least score of ev, and both lists hold what ListOk says. */
    ghost predicate Offered(ev: map<(int, int), int>, C: int, step: int)
      reads this`tabuList, this`notTabuList, T
      requires Valid()
    {
      Least(ev, C) && ListOk(ev, tabuList, C, true, step) && ListOk(ev, notTabuList, C, false, step)
    }

    /**
     * The offer of one swap to findPair's lists: below C it becomes C and
     * starts its class's list afresh, at C it joins its class's list.
     */
    method Offer(f: int, i: int, newSc: int, step: int, C0: int, ghost ev: map<(int, int), int>) returns (C: int)
      requires Valid() && 0 <= f < n && 0 <= i < n && (f, i) !in ev && newSc < INFINITY && Least(ev, C0)
      requires ListOk(ev, tabuList, C0, true, step) && ListOk(ev, notTabuList, C0, false, step)
      modifies this`tabuList, this`notTabuList
      ensures Least(ev[(f, i) := newSc], C) && C == (if newSc < C0 then newSc else C0)
      ensures ListOk(ev[(f, i) := newSc], tabuList, C, true, step)
      ensures ListOk(ev[(f, i) := newSc], notTabuList, C, false, step)
    {
      C := C0;
      ghost var tl, nl := tabuList, notTabuList;
      LeastStep(ev, C0, f, i, newSc);
      if newSc < C {
        C := newSc;
        if T[f, i] > step {
          ListReset(ev, tl, C0, true, step, f, i, newSc);
          ListKeep(ev, nl, C0, C, false, step, f, i, newSc);
          tabuList := [(f, i, newSc)];
        } else {
          ListReset(ev, nl, C0, false, step, f, i, newSc);
          ListKeep(ev, tl, C0, C, true, step, f, i, newSc);
          notTabuList := [(f, i, newSc)];
        }
      } else if newSc == C {
        if T[f, i] > step {
          ListAppend(ev, tl, C0, true, step, f, i);
          ListKeep(ev, nl, C0, C, false, step, f, i, newSc);
          tabuList := tabuList + [(f, i, newSc)];
        } else {
          ListAppend(ev, nl, C0, false, step, f, i);
          ListKeep(ev, tl, C0, C, true, step, f, i, newSc);
          notTabuList := notTabuList + [(f, i, newSc)];
        }
      } else {
        ListKeep(ev, tl, C0, C, true, step, f, i, newSc);
        ListKeep(ev, nl, C0, C, false, step, f, i, newSc);
      }
    }

    /**
     * M[f] = max(dists), dists being the second-nearest distances of the
     * nodes f serves, computed as the largest of them above 0; while the
     * entries are consistent with S, f serves itself and this is the
     * maximum of a non-empty list (RemovalIsServedMax).
     */
    method ServedMax(f: int)
      requires Valid() && 0 <= f < n
      modifies M
      ensures M[f] == RemovalRadius(Cores(), f)
      ensures forall g :: 0 <= g < n && g != f ==> M[g] == old(M[g])
    {
      var m := 0;
      ghost var cores := Cores();
      for v := 0 to n
        invariant m == RemovalRadius(cores[..v], f)
      {
        assert cores[..v + 1][..v] == cores[..v];
        if F[0, v] == f && D[1, v] > m {
          m := D[1, v];
        }
      }
      assert cores[..n] == cores;
      M[f] := m;
    }

    /**
     * When f serves itself with a non-negative second-nearest distance, the
     * removal radius of f is the largest second-nearest distance among the
     * nodes f serves, reached by one of them.
     */
    lemma RemovalIsServedMax(f: int)
      requires Valid() && GraphOk() && Consistent() && f in S
      ensures forall v :: 0 <= v < n && F[0, v] == f ==> D[1, v] <= RemovalRadius(Cores(), f)
      ensures exists v :: 0 <= v < n && F[0, v] == f && D[1, v] == RemovalRadius(Cores(), f)
    {
      ServesItself(f);
      var cores := Cores();
      var r := RemovalRadius(cores, f);
      RemovalRadiusIsMax(cores, f);
      forall v | 0 <= v < n && F[0, v] == f
        ensures D[1, v] <= r
      {
        assert cores[v].f0 == f;
      }
      if r == 0 {
        assert cores[f].f0 == f;
        assert F[0, f] == f && D[1, f] == r;
      } else {
        var k :| 0 <= k < n && cores[k].f0 == f && cores[k].d1 == r;
        assert F[0, k] == f && D[1, k] == r;
      }
    }

    /** An open center is its own nearest center, and its second-nearest distance is not negative. */
    lemma ServesItself(f: int)
      requires Valid() && GraphOk() && Consistent() && f in S
      ensures F[0, f] == f && 0 <= D[1, f]
    {
      assert f in Elems(S);
      assert EntryOk(G, Elems(S), n, INFINITY, f, At(f));
      NearestNotFarther(G, Elems(S), n, INFINITY, f, At(f));
    }

    /** With some center open, the radius is a finite distance. */
    lemma RadiusBelow()
      requires Valid() && GraphOk() && Consistent() && Tracked() && S != []
      ensures scCur < INFINITY
    {
      MaxOfIsMax(Row0());
      var v :| 0 <= v < n && Row0()[v] == scCur;
      assert S[0] in Elems(S);
      assert EntryOk(G, Elems(S), n, INFINITY, v, At(v));
    }

    /** With a center open, scCur is the coverage radius of the open set. */
    lemma RadiusIsCover()
      requires Consistent() && Tracked() && Elems(S) != {}
      ensures scCur == CoverRadius(G, Elems(S), n)
    {
      forall v | 0 <= v < n
        ensures Row0()[v] == NearestRow(G, Elems(S), n)[v]
      {
        assert EntryOk(G, Elems(S), n, INFINITY, v, At(v));
        NearestIsNearestDist(G, Elems(S), v, D[0, v], F[0, v]);
      }
      MaxOfSame(Row0(), NearestRow(G, Elems(S), n));
    }

    /** With at least two centers open, M[g] is a finite distance. */
    lemma RemovalBelow(g: int)
      requires Valid() && GraphOk() && Consistent() && |Elems(S)| >= 2
      ensures RemovalRadius(Cores(), g) < INFINITY
    {
      var r := RemovalRadius(Cores(), g);
      RemovalRadiusIsMax(Cores(), g);
      if r != 0 {
        var u :| 0 <= u < n && Cores()[u].f0 == g && Cores()[u].d1 == r;
        assert EntryOk(G, Elems(S), n, INFINITY, u, At(u));
        TwoLeft(Elems(S), At(u).f0);
      }
    }

    /** Once i is open, the score of (f, i) reads off the entries: max(radius, M[f]). */
    lemma ScoreFromEntries(i: int, f: int, cores: seq<Core>)
      requires Valid() && 0 <= i < n && |cores| == n && Cores() == AddAll(cores, GRow(i), i)
      ensures Score(cores, f, i) == Max(MaxOf(Row0()), RemovalRadius(Cores(), f))
    {
      assert Row0() == D0s(Cores());
    }

    /** The cores after opening i are those AddAll computes from the cores before. */
    lemma CoresAfterAdd(i: int, A0: seq<Assign>, cores: seq<Core>)
      requires Valid() && 0 <= i < n && |A0| == n && |cores| == n
      requires forall v :: 0 <= v < n ==> CoreOf(A0[v]) == cores[v]
      requires forall v :: 0 <= v < n ==> At(v) == AddAt(G[i, v], i, A0[v])
      ensures Cores() == AddAll(cores, GRow(i), i)
    {
      forall v | 0 <= v < n
        ensures Cores()[v] == AddCore(G[i, v], i, cores[v])
      {
        AddAtCore(G[i, v], i, A0[v]);
      }
    }

    /** Opening i and closing it again gives every node back its core entries. */
    lemma RoundTripAll(i: int, S0: set<int>, A0: seq<Assign>, A2: seq<Assign>)
      requires Valid() && GraphOk() && InRange(S0, n) && 0 <= i < n && i !in S0 && |S0| >= 2
      requires |A0| == n && |A2| == n
      requires forall v :: 0 <= v < n ==> EntryOk(G, S0, n, INFINITY, v, A0[v])
      requires forall v :: 0 <= v < n ==> RemovedAt(G, S0, n, v, i, AddAt(G[i, v], i, A0[v]), A2[v])
      ensures forall v :: 0 <= v < n ==> CoreOf(A2[v]) == CoreOf(A0[v])
    {
      forall v | 0 <= v < n
        ensures CoreOf(A2[v]) == CoreOf(A0[v])
      {
        AddRemoveRoundTrip(G, S0, n, INFINITY, v, i, A0[v], A2[v]);
      }
    }

    /** Opens i, so that max(radius, M[f]) becomes the score of (f, i) once M[f] is up to date. */
    method OpenCandidate(i: int, ghost cores: seq<Core>)
      requires Valid() && GraphOk() && Consistent() && |S| >= 2
      requires 0 <= i < n && i !in S && Cores() == cores
      modifies this`S, this`scCur, D, F
      ensures S == old(S) + [i] && Consistent() && Tracked()
      ensures forall v :: 0 <= v < n ==> At(v) == AddAt(G[i, v], i, old(At(v)))
      ensures Cores() == AddAll(cores, GRow(i), i) && scCur < INFINITY
      ensures forall f :: f in old(S) ==> RemovalRadius(Cores(), f) < INFINITY
    {
      ghost var A0 := Assigns();
      ghost var S0 := S;
      AddFacility(i);
      CoresAfterAdd(i, A0, cores);
      RadiusBelow();
      ElemsCard(S);
      forall f | f in S0
        ensures RemovalRadius(Cores(), f) < INFINITY
      {
        RemovalBelow(f);
      }
    }

    /**
     * The inner loop of findPair for candidate i, over S1 (S without i):
     * M[f] is brought up to date and the swap (f, i) offered with score
     * max(Sc_cur, M[f]), which R[f] names.
     */
    method ScoreCenters(i: int, S1: seq<int>, step: int, C0: int, ghost cores: seq<Core>, ghost R: map<int, int>, ghost ev: map<(int, int), int>)
      returns (C: int, ghost ev': map<(int, int), int>)
      requires Valid() && 0 <= i < n && cores == Cores()
      requires NoRepeats(S1)
      requires forall f :: f in S1 ==> 0 <= f < n && f in R && R[f] == Max(scCur, RemovalRadius(cores, f)) < INFINITY
      requires forall m :: m in ev ==> m.1 != i
      requires Offered(ev, C0, step)
      modifies M, this`tabuList, this`notTabuList
      ensures Recorded(ev, ev', i, S1, R)
      ensures Offered(ev', C, step)
    {
      C, ev' := C0, ev;
      assert S1[..0] == [];
      for k := 0 to |S1|
        invariant cores == Cores()
        invariant Recorded(ev, ev', i, S1[..k], R)
        invariant Offered(ev', C, step)
      {
        ghost var prev := ev';
        NotYetScored(ev, prev, i, S1, k, R);
        C, ev' := ScoreOne(i, S1[k], step, C, cores, R[S1[k]], ev');
        ScoredStep(ev, prev, ev', i, S1, k, R);
      }
      assert S1[..|S1|] == S1;
    }

    /**
     * The swaps recorded after the centers of done were scored against i:
     * those of ev unchanged, and (g, i) at R[g] for each g in done.
     */
    static ghost predicate Recorded(ev: map<(int, int), int>, ev': map<(int, int), int>, i: int, done: seq<int>, R: map<int, int>)
    {
      && (forall m :: m in ev ==> m in ev' && ev'[m] == ev[m])
      && (forall g :: g in done ==> g in R && (g, i) in ev' && ev'[(g, i)] == R[g])
      && (forall m :: m in ev' ==> m in ev || (m.1 == i && m.0 in done))
    }

    /** The next center of a list without repeats has not been scored against i yet. */
    static lemma NotYetScored(ev: map<(int, int), int>, prev: map<(int, int), int>, i: int, S1: seq<int>, k: int, R: map<int, int>)
      requires 0 <= k < |S1| && NoRepeats(S1) && Recorded(ev, prev, i, S1[..k], R)
      requires forall m :: m in ev ==> m.1 != i
      ensures (S1[k], i) !in prev
    {
      assert S1[k] !in S1[..k];
    }

    /** Scoring the next center against i extends the record by one. */
    static lemma ScoredStep(ev: map<(int, int), int>, prev: map<(int, int), int>, next: map<(int, int), int>,
                            i: int, S1: seq<int>, k: int, R: map<int, int>)
      requires 0 <= k < |S1| && S1[k] in R && next == prev[(S1[k], i) := R[S1[k]]] && NoRepeats(S1)
      requires forall m :: m in ev ==> m.1 != i
      requires Recorded(ev, prev, i, S1[..k], R)
      ensures Recorded(ev, next, i, S1[..k + 1], R)
    {
      assert S1[..k + 1] == S1[..k] + [S1[k]];
    }

    /**
     * candidate: the nodes strictly closer to a farthest node (one whose
     * nearest center is at the radius) than that radius, in increasing
     * order. The farthest node is drawn by reservoir sampling among all
     * nodes at the radius.
     */
    method Candidate() returns (cands: seq<int>, ghost vertex: int)
      requires Valid()
      ensures 0 <= vertex < n && D[0, vertex] == MaxOf(Row0())
      ensures forall k :: 0 <= k < |cands| ==> 0 <= cands[k] < n && G[vertex, cands[k]] < D[0, vertex]
      ensures forall j :: 0 <= j < n && G[vertex, j] < D[0, vertex] ==> j in cands
      ensures forall j, k :: 0 <= j < k < |cands| ==> cands[j] < cands[k]
    {
      var maxDist := ComputeRadius();
      var vertexes: seq<int> := [];
      for v := 0 to n
        invariant forall k :: 0 <= k < |vertexes| ==> 0 <= vertexes[k] < n && D[0, vertexes[k]] == maxDist
        invariant forall u :: 0 <= u < v && D[0, u] == maxDist ==> u in vertexes
      {
        if D[0, v] == maxDist {
          vertexes := vertexes + [v];
        }
      }
      MaxOfIsMax(Row0());
      var w :| 0 <= w < n && Row0()[w] == maxDist;
      assert w in vertexes;
      var sample := ReservoirSamp(Some(vertexes));
      var chosen := sample.value;
      vertex := chosen;
      cands := [];
      for j := 0 to n
        invariant forall k :: 0 <= k < |cands| ==> 0 <= cands[k] < j && G[chosen, cands[k]] < maxDist
        invariant forall u :: 0 <= u < j && G[chosen, u] < maxDist ==> u in cands
        invariant forall k, l :: 0 <= k < l < |cands| ==> cands[k] < cands[l]
      {
        if G[chosen, j] < maxDist {
          cands := cands + [j];
        }
      }
    }

    /**
     * No open center is a candidate, and while some node is not a center,
     * the farthest node itself is one, so the candidate list is not empty.
     */
    lemma CandidatesAreClosed(vertex: int)
      requires Valid() && GraphOk() && Consistent() && S != []
      requires 0 <= vertex < n && D[0, vertex] == MaxOf(Row0())
      ensures forall j :: 0 <= j < n && G[vertex, j] < D[0, vertex] ==> j !in S
      ensures (exists u :: 0 <= u < n && u !in S) ==> G[vertex, vertex] < D[0, vertex]
    {
      assert S[0] in Elems(S);
      assert EntryOk(G, Elems(S), n, INFINITY, vertex, At(vertex));
      if u :| 0 <= u < n && u !in S {
        assert EntryOk(G, Elems(S), n, INFINITY, u, At(u));
        assert F[0, u] in Elems(S) && F[0, u] != u;
        MaxOfIsMax(Row0());
        assert Row0()[u] in Row0();
      }
    }

    /**
     * initial: open a random first center, then p - 1 more, each drawn by
     * reservoir sampling from the candidate list, and record the radius as
     * the best so far. Sampling from an empty candidate list raises
     * IndexError; this happens exactly when p exceeds the number of nodes,
     * at the moment every node is a center.
     */
    method Initial() returns (indexError: bool)
      requires Valid() && GraphOk() && S == [] && Consistent()
      modifies this`S, this`scCur, this`scBest, D, F
      ensures Consistent()
      ensures indexError <==> p > n
      ensures indexError ==> |S| == n
      ensures !indexError ==> |S| == (if p < 1 then 1 else p) && Tracked() && scBest == scCur
    {
      var server :| 0 <= server < n;
      AddFacility(server);
      var t := 0;
      while t < p - 1
        invariant 0 <= t && (t <= p - 1 || t == 0) && |S| == t + 1
        invariant Consistent() && Tracked()
        invariant t + 1 <= n
      {
        indexError := OpenSampled();
        if indexError {
          return;
        }
        t := t + 1;
      }
      scBest := scCur;
      indexError := false;
    }

    /**
     * One step of initial: a center drawn from the candidate list is opened.
     * The list is empty, and sampling raises IndexError, exactly when every
     * node is already a center.
     */
    method OpenSampled() returns (indexError: bool)
      requires Valid() && GraphOk() && Consistent() && S != []
      modifies this`S, this`scCur, D, F
      ensures Consistent()
      ensures indexError <==> |old(S)| == n
      ensures indexError ==> S == old(S)
      ensures !indexError ==> |S| == |old(S)| + 1 && Tracked()
    {
      ElemsCard(S);
      var nwk, vertex := Candidate();
      CandidatesAreClosed(vertex);
      NodesCover(Elems(S), n);
      var sample := ReservoirSamp(Some(nwk));
      if sample.IndexError? {
        assert forall u :: 0 <= u < n ==> u in Elems(S);
        return true;
      }
      indexError := false;
      AddFacility(sample.value);
    }

    /** With some center open, every node's nearest distance is non-negative and at most its second-nearest. */
    lemma EntriesOrdered()
      requires Valid() && GraphOk() && Consistent() && S != []
      ensures forall v :: 0 <= v < n ==> 0 <= D[0, v] <= D[1, v]
    {
      assert S[0] in Elems(S);
      forall v | 0 <= v < n
        ensures 0 <= D[0, v] <= D[1, v]
      {
        assert EntryOk(G, Elems(S), n, INFINITY, v, At(v));
        NearestNotFarther(G, Elems(S), n, INFINITY, v, At(v));
      }
    }

    /**
     * Once f has closed after i opened, the radius is the score findPair
     * gave the swap (f, i): max(radius with i open, M[f]).
     */
    lemma RadiusIsScore(i: int, f: int, cores: seq<Core>, A1: seq<Assign>)
      requires Valid() && Tracked() && 0 <= i < n && |cores| == n && |A1| == n
      requires forall v :: 0 <= v < n ==> CoreOf(A1[v]) == AddAll(cores, GRow(i), i)[v] && 0 <= A1[v].d0 <= A1[v].d1
      requires Consistent() && forall v :: 0 <= v < n ==> RemovedAt(G, Elems(S), n, v, f, A1[v], At(v))
      ensures scCur == Score(cores, f, i)
    {
      var a := AddAll(cores, GRow(i), i);
      forall v | 0 <= v < n
        ensures Row0()[v] == ClosedD0s(a, f)[v]
      {
        assert RemovedAt(G, Elems(S), n, v, f, A1[v], At(v));
      }
      assert Row0() == ClosedD0s(a, f);
      ScoreIsRadiusAfterClose(a, f);
    }

    /**
     * The swap step of the main loop: open i, then close f. The new radius
     * is the score of the swap computed from the cores before it.
     */
    method SwapCenters(f: int, i: int, ghost cores: seq<Core>)
      requires Valid() && GraphOk() && Consistent() && |S| >= 2 && cores == Cores()
      requires f in S && 0 <= i < n && i !in S
      modifies this`S, this`scCur, D, F
      ensures Elems(S) == Elems(old(S)) - {f} + {i} && |S| == |old(S)|
      ensures Consistent() && Tracked() && scCur == Score(cores, f, i)
    {
      ghost var S0 := S;
      ghost var A1 := OpenForSwap(i, cores);
      CloseForSwap(f, i, cores, S0, A1);
    }

    /** addFacility(i) ahead of a swap: the entries are then those AddAll computes, in order. */
    method OpenForSwap(i: int, ghost cores: seq<Core>) returns (ghost A1: seq<Assign>)
      requires Valid() && GraphOk() && Consistent() && |S| >= 2 && cores == Cores()
      requires 0 <= i < n && i !in S
      modifies this`S, this`scCur, D, F
      ensures S == old(S) + [i] && Consistent() && A1 == Assigns()
      ensures forall v :: 0 <= v < n ==> CoreOf(A1[v]) == AddAll(cores, GRow(i), i)[v] && 0 <= A1[v].d0 <= A1[v].d1
    {
      ghost var A0 := Assigns();
      AddFacility(i);
      CoresAfterAdd(i, A0, cores);
      EntriesOrdered();
      A1 := Assigns();
    }

    /** removeFacility(f) to complete a swap that opened i: the radius becomes the swap's score. */
    method CloseForSwap(f: int, i: int, ghost cores: seq<Core>, ghost S0: seq<int>, ghost A1: seq<Assign>)
      requires Valid() && GraphOk() && Consistent() && |S0| >= 2 && 0 <= i < n && |cores| == n
      requires S == S0 + [i] && NoRepeats(S0) && f in S0 && i !in S0 && A1 == Assigns()
      requires forall v :: 0 <= v < n ==> CoreOf(A1[v]) == AddAll(cores, GRow(i), i)[v] && 0 <= A1[v].d0 <= A1[v].d1
      modifies this`S, this`scCur, D, F
      ensures Elems(S) == Elems(S0) - {f} + {i} && |S| == |S0|
      ensures Consistent() && Tracked() && scCur == Score(cores, f, i)
    {
      ElemsCard(S);
      Appended(S0, i);
      var raised := RemoveFacility(f, A1);
      assert !raised;
      RadiusIsScore(i, f, cores, A1);
      SwappedMembers(Elems(S0), Elems(S), f, i);
    }

    /** Opening i and then closing f != i takes f out of the set and puts i in. */
    static lemma SwappedMembers(E0: set<int>, E: set<int>, f: int, i: int)
      requires E == (E0 + {i}) - {f} && f != i
      ensures E == E0 - {f} + {i}
    {
    }

    /**
     * The lists a run has held, trail[k] after k iterations, each with its
     * coverage radius radii[k].
     */
    ghost predicate Trace(trail: seq<seq<int>>, radii: seq<int>)
      reads G
      requires Valid()
    {
      && |trail| == |radii|
      && forall k :: 0 <= k < |trail| ==>
           InRange(Elems(trail[k]), n) && Elems(trail[k]) != {} && radii[k] == CoverRadius(G, Elems(trail[k]), n)
    }

    /**
     * The trace of a run so far: it starts at the initial list first with
     * radius start, ends at the current list and radius, and the best radius
     * is the least radius on it.
     */
    ghost predicate Traced(trail: seq<seq<int>>, radii: seq<int>, first: seq<int>, start: int)
      reads this`S, this`scCur, this`scBest, G
      requires Valid()
    {
      && Trace(trail, radii) && |trail| >= 1 && trail[0] == first && radii[0] == start
      && trail[|trail| - 1] == S && radii[|radii| - 1] == scCur
      && scBest in radii && forall r :: r in radii ==> scBest <= r
    }

    /**
     * One more iteration extends the trace: with the current list and its
     * radius appended, the best radius, lowered to the new radius when that
     * is smaller, stays the least radius on it.
     */
    lemma TraceStep(trail: seq<seq<int>>, radii: seq<int>, first: seq<int>, start: int, best: int)
      requires Valid() && Trace(trail, radii) && |trail| >= 1 && trail[0] == first && radii[0] == start
      requires best in radii && (forall x :: x in radii ==> best <= x)
      requires InRange(Elems(S), n) && Elems(S) != {} && scCur == CoverRadius(G, Elems(S), n)
      requires scBest == (if scCur < best then scCur else best)
      ensures Traced(trail + [S], radii + [scCur], first, start)
    {
      var trail', radii' := trail + [S], radii + [scCur];
      forall k | 0 <= k < |trail'|
        ensures InRange(Elems(trail'[k]), n) && Elems(trail'[k]) != {} && radii'[k] == CoverRadius(G, Elems(trail'[k]), n)
      {
        if k < |trail| {
          assert trail'[k] == trail[k] && radii'[k] == radii[k];
        }
      }
    }

    /** The trace starts at a p-center set whose coverage radius is start, and the best radius is at most start. */
    /** A trace starts at the current list, whose radius is the best radius. */
    lemma TraceBegins()
      requires Consistent() && Tracked() && |S| >= 1 && scBest == scCur
      ensures Traced([S], [scCur], S, scCur)
    {
      assert S[0] in Elems(S);
      RadiusIsCover();
    }

    lemma TraceStart(trail: seq<seq<int>>, radii: seq<int>, first: seq<int>, start: int)
      requires Valid() && Traced(trail, radii, first, start)
      ensures InRange(Elems(first), n) && Elems(first) != {} && start == CoverRadius(G, Elems(first), n)
      ensures scBest <= start
    {
      assert radii[0] in radii;
    }

    /** One iteration of the main loop that also extends the trace of the run. */
    method TracedIteration(step: int, opt: int, ghost trail: seq<seq<int>>, ghost radii: seq<int>, ghost first: seq<int>, ghost start: int)
      returns (stop: bool, ghost trail': seq<seq<int>>, ghost radii': seq<int>)
      requires Valid() && Steady(S, Cores()) && 2 <= p && Traced(trail, radii, first, start)
      modifies this`S, this`scCur, this`scBest, D, F, M, T, this`tabuList, this`notTabuList
      ensures Steady(S, Cores()) && |S| == |old(S)|
      ensures Traced(trail', radii', first, start) && trail' == trail + [S] && radii' == radii + [scCur]
      ensures stop <==> scBest <= opt
    {
      ghost var best := scBest;
      label Before:
      stop := SteadyIteration(step, opt);
      assert unchanged@Before(G) && S[0] in Elems(S);
      RadiusIsCover();
      TraceStep(trail, radii, first, start, best);
      trail', radii' := trail + [S], radii + [scCur];
    }

    /**
     * Iteration as the traced main loop uses it: the state stays steady, the
     * number of centers stays the same, and the best radius drops to the new
     * radius when that is smaller.
     */
    method SteadyIteration(step: int, opt: int) returns (stop: bool)
      requires Valid() && Steady(S, Cores()) && 2 <= p
      modifies this`S, this`scCur, this`scBest, D, F, M, T, this`tabuList, this`notTabuList
      ensures Steady(S, Cores()) && |S| == |old(S)|
      ensures scBest == (if scCur < old(scBest) then scCur else old(scBest))
      ensures stop <==> scBest <= opt
    {
      var tt, m;
      var cands, C;
      ghost var vertex, ev, marks, rows, s0, cur, best, nts, tls;
      tt, m, stop, cands, C, vertex, ev, marks, rows, s0, cur, best, nts, tls := Iteration(step, opt, Cores());
    }

    /** initial() on the empty state, starting the trace of the run at the initial list. */
    method Begin() returns (indexError: bool, ghost trail: seq<seq<int>>, ghost radii: seq<int>)
      requires Valid() && GraphOk() && S == [] && Consistent() && 2 <= p
      modifies this`S, this`scCur, this`scBest, D, F
      ensures indexError <==> p > n
      ensures !indexError ==> Steady(S, Cores()) && |S| == p && NoRepeats(S) && Traced(trail, radii, S, scCur)
    {
      trail, radii := [], [];
      label Empty:
      indexError := Initial();
      if indexError {
        return;
      }
      assert unchanged@Empty(G);
      TraceBegins();
      trail, radii := [S], [scCur];
    }

    /**
     * The search of the main program for one instance: initial, then up to
     * iterTimes iterations, stopping once the best radius reaches the known
     * optimum opt. iter is the index of the last iteration run; first is the
     * initial open set and start its coverage radius; trail and radii are
     * the lists held and their radii, one per iteration after the first.
     */
    method Run(iterTimes: int, opt: int)
      returns (indexError: bool, iter: int, ghost first: seq<int>, ghost start: int, ghost trail: seq<seq<int>>, ghost radii: seq<int>)
      requires Valid() && GraphOk() && S == [] && Consistent() && 2 <= p
      modifies this`S, this`scCur, this`scBest, D, F, M, T, this`tabuList, this`notTabuList
      ensures indexError <==> p > n
      ensures !indexError ==> |first| == p && NoRepeats(first) && InRange(Elems(first), n) && Elems(first) != {} && start == CoverRadius(G, Elems(first), n)
      ensures !indexError ==> |S| == p && Consistent() && Tracked() && scBest <= scCur && scBest <= start
      ensures !indexError ==> Traced(trail, radii, first, start)
      ensures !indexError ==> 0 <= iter && (iterTimes <= 0 ==> iter == 0) && (iterTimes > 0 ==> iter < iterTimes)
      ensures !indexError && iter < iterTimes - 1 ==> scBest <= opt
    {
      iter := 0;
      indexError, trail, radii := Begin();
      first, start := S, scCur;
      if indexError {
        return;
      }
      var i := 0;
      var stop := false;
      while i < iterTimes && !stop
        invariant Steady(S, Cores()) && |S| == p
        invariant Traced(trail, radii, first, start)
        invariant 0 <= i && (if iterTimes > 0 then i <= iterTimes else i == 0)
        invariant i == 0 ==> iter == 0 && !stop
        invariant i > 0 ==> iter == i - 1
        invariant stop ==> scBest <= opt
      {
        iter := i;
        stop, trail, radii := TracedIteration(i, opt, trail, radii, first, start);
        i := i + 1;
      }
      TraceStart(trail, radii, first, start);
    }

    /**
     * One iteration of the main loop: draw the tabu tenure
     * tt, evaluate every swap with the candidate list, choose a move and
     * apply it, and report whether the best radius has reached opt.
     */
    method Iteration(step: int, opt: int, ghost cores: seq<Core>)
      returns (tt: int, m: Option<Entry>, stop: bool, cands: seq<int>, C: int, ghost vertex: int,
               ghost ev: map<(int, int), int>, ghost marks: set<(int, int)>, ghost rows: seq<seq<int>>,
               ghost s0: seq<int>, ghost cur: int, ghost best: int, ghost nts: seq<Entry>, ghost tls: seq<Entry>)
      requires Steady(S, cores) && 2 <= p
      modifies this`S, this`scCur, this`scBest, D, F, M, T, this`tabuList, this`notTabuList
      ensures Consistent() && Tracked() && rows == Rows()
      ensures s0 == old(S) && cur == old(scCur) && best == old(scBest) && nts == notTabuList && tls == tabuList
      ensures Searched(cores, rows, s0, cur, best, vertex, cands, ev, C, marks, nts, tls, m)
      ensures Moved(m, tt, step, cores, s0, cur, best)
      ensures forall e :: e in ev ==> 0 <= e.0 < n && 0 <= e.1 < n && (e in marks <==> old(T[e.0, e.1]) > step)
      ensures p / 5 + 6 <= tt <= p / 5 + p / 10 + 10
      ensures m == None ==> unchanged(T)
      ensures m.Some? ==> forall a, b :: 0 <= a < n && 0 <= b < n && (a, b) != (m.value.0, m.value.1) && (a, b) != (m.value.1, m.value.0) ==>
        T[a, b] == old(T[a, b])
      ensures stop <==> scBest <= opt
    {
      var r :| 1 <= r <= p / 10 + 5;
      tt := p / 5 + 5 + r;
      s0, cur, best := S, scCur, scBest;
      cands, vertex, C, ev, marks, rows, nts, tls := Survey(step, cores, s0, cur);
      m := TakeMove(tt, step, ev, C, s0, cands, cores, marks, rows, vertex, cur, best, nts, tls);
      stop := scBest <= opt;
    }

    /**
     * The first half of an iteration: candidate() and findPair(step) on a
     * steady state, which they leave as it was.
     */
    method Survey(step: int, ghost cores: seq<Core>, ghost S0: seq<int>, ghost cur: int)
      returns (cands: seq<int>, ghost vertex: int, C: int, ghost ev: map<(int, int), int>, ghost marks: set<(int, int)>,
               ghost rows: seq<seq<int>>, ghost nts: seq<Entry>, ghost tls: seq<Entry>)
      requires Steady(S, cores) && 2 <= p && S0 == S && cur == scCur
      modifies this`S, this`scCur, D, F, M, this`tabuList, this`notTabuList
      ensures Steady(S0, cores) && scCur == cur
      ensures NoRepeats(cands) && forall k :: 0 <= k < |cands| ==> 0 <= cands[k] < n && cands[k] !in S0
      ensures Evaluated(ev, cores, S0, cands) && Offered(ev, C, step) && marks == TabuSet(ev, step) && rows == Rows()
      ensures nts == notTabuList && tls == tabuList
      ensures Surveyed(cores, rows, S0, cur, vertex, cands, ev, C, marks, nts, tls)
    {
      cands, vertex := ClosedCandidates();
      rows := Rows();
      assert cores[vertex].d0 == D[0, vertex] == cur;
      assert forall j :: 0 <= j < |rows| ==> (j in cands <==> rows[vertex][j] < cur);
      label Listed:
      C, ev := FindPair(cands, step, S0, cores);
      assert unchanged@Listed(G);
      marks := TabuSet(ev, step);
      nts, tls := notTabuList, tabuList;
      ListedFrom(ev, nts, C, false, step);
      ListedFrom(ev, tls, C, true, step);
      EvaluatedIsScored(ev, cores, rows, S0, cands);
    }

    /**
     * What candidate() and findPair found on a state with cores `cores`,
     * centers s0 and radius cur: vertex is a node at distance cur from its
     * nearest center, cands holds exactly the nodes strictly closer to it
     * than cur, ev every swap of a center for a candidate at its score, C the
     * least score, and both lists hold what Listed says, marks being the
     * tabu swaps.
     */
    static ghost predicate Surveyed(cores: seq<Core>, rows: seq<seq<int>>, s0: seq<int>, cur: int, vertex: int, cands: seq<int>,
                                    ev: map<(int, int), int>, C: int, marks: set<(int, int)>,
                                    notTabuList: seq<Entry>, tabuList: seq<Entry>)
    {
      && Scored(ev, cores, rows, s0, cands)
      && 0 <= vertex < |rows| && cores[vertex].d0 == cur
      && (forall j :: 0 <= j < |rows| ==> (j in cands <==> rows[vertex][j] < cur))
      && Least(ev, C)
      && Listed(ev, notTabuList, C, false, marks) && Listed(ev, tabuList, C, true, marks)
    }

    /** The rows of the distance matrix, as a value. */
    ghost function Rows(): (rows: seq<seq<int>>)
      reads G
      requires Valid()
      ensures |rows| == n && forall c :: 0 <= c < n ==> rows[c] == GRow(c)
    {
      seq(n, c requires 0 <= c < n reads G => GRow(c))
    }

    /**
     * Evaluated on values: ev holds exactly the swaps (f, i) with f in
     * centers and i in done, each at its score from the cores and the rows
     * of the distance matrix.
     */
    static ghost predicate Scored(ev: map<(int, int), int>, cores: seq<Core>, rows: seq<seq<int>>, centers: seq<int>, done: seq<int>)
    {
      && 0 < |cores| == |rows| && (forall c :: 0 <= c < |rows| ==> |rows[c]| == |cores|)
      && (forall m :: m in ev ==> m.0 in centers && m.1 in done && 0 <= m.1 < |rows|)
      && (forall m {:trigger m in ev} :: m in ev && 0 <= m.1 < |rows| ==> ev[m] == SwapScore(cores, rows[m.1], m.1, m.0))
      && (forall f, i {:trigger (f, i) in ev} :: f in centers && i in done ==> (f, i) in ev)
    }

    /** Evaluated swaps are scored by the rows of G. */
    lemma EvaluatedIsScored(ev: map<(int, int), int>, cores: seq<Core>, rows: seq<seq<int>>, centers: seq<int>, done: seq<int>)
      requires Valid() && |cores| == n && Evaluated(ev, cores, centers, done) && rows == Rows()
      ensures Scored(ev, cores, rows, centers, done)
    {
    }

    /** One iteration on values: what Surveyed says, and the move drawn as Drawn says against the best radius best. */
    static ghost predicate Searched(cores: seq<Core>, rows: seq<seq<int>>, s0: seq<int>, cur: int, best: int, vertex: int,
                                    cands: seq<int>, ev: map<(int, int), int>, C: int, marks: set<(int, int)>,
                                    notTabuList: seq<Entry>, tabuList: seq<Entry>, m: Option<Entry>)
    {
      && Surveyed(cores, rows, s0, cur, vertex, cands, ev, C, marks, notTabuList, tabuList)
      && Drawn(m, ev, marks, notTabuList, tabuList, best)
    }

    /** The evaluated swaps that are tabu at iteration `step`. */
    ghost function TabuSet(ev: map<(int, int), int>, step: int): (marks: set<(int, int)>)
      reads T
      requires Valid() && forall e :: e in ev ==> 0 <= e.0 < n && 0 <= e.1 < n
      ensures forall e :: e in ev ==> (e in marks <==> IsTabu(e.0, e.1, step))
    {
      set e | e in ev && IsTabu(e.0, e.1, step)
    }

    /**
     * ListOk on values: marks holds the evaluated swaps that are tabu, and
     * the list holds swaps of its class, at their scores, none below C and
     * never rising, among them every swap of the class whose score is C.
     */
    static ghost predicate Listed(ev: map<(int, int), int>, list: seq<Entry>, C: int, tabu: bool, marks: set<(int, int)>)
    {
      && (forall k :: 0 <= k < |list| ==>
            && (list[k].0, list[k].1) in ev && ev[(list[k].0, list[k].1)] == list[k].2
            && ((list[k].0, list[k].1) in marks) == tabu && C <= list[k].2)
      && (forall j, k :: 0 <= j < k < |list| ==> list[k].2 <= list[j].2)
      && (forall e :: e in ev && ev[e] == C && (e in marks) == tabu ==> (e.0, e.1, C) in list)
    }

    /** A list that is ListOk at iteration `step` is Listed against the tabu swaps of that iteration. */
    lemma ListedFrom(ev: map<(int, int), int>, list: seq<Entry>, C: int, tabu: bool, step: int)
      requires Valid() && ListOk(ev, list, C, tabu, step)
      ensures Listed(ev, list, C, tabu, TabuSet(ev, step))
    {
    }

    /**
     * How the move m was drawn from the lists, with marks the tabu swaps and
     * best the best radius: none exactly when there is no non-tabu entry and
     * no tabu entry beats best; otherwise an evaluated swap at its score,
     * from Pool; a tabu move only when it beats best; a non-tabu move that
     * beats best whenever the first non-tabu entry does.
     */
    static ghost predicate Drawn(m: Option<Entry>, ev: map<(int, int), int>, marks: set<(int, int)>,
                                 notTabuList: seq<Entry>, tabuList: seq<Entry>, best: int)
    {
      && (m == None <==> notTabuList == [] && (tabuList == [] || tabuList[0].2 >= best))
      && (m.Some? ==> (m.value.0, m.value.1) in ev && ev[(m.value.0, m.value.1)] == m.value.2)
      && (m.Some? ==> m.value in Pool(notTabuList, tabuList, best))
      && (m.Some? && (m.value.0, m.value.1) in marks ==> m.value.2 < best)
      && (notTabuList != [] && notTabuList[0].2 < best ==> m.Some? && (m.value.0, m.value.1) !in marks && m.value.2 < best)
    }

    /**
     * candidate() on a consistent state: vertex is a node at the largest
     * nearest distance, and the list holds, in increasing order, exactly the
     * nodes strictly closer to it than that distance; none of them is open,
     * and there is one while some node is not open.
     */
    method ClosedCandidates() returns (cands: seq<int>, ghost vertex: int)
      requires Valid() && GraphOk() && Consistent() && S != []
      ensures 0 <= vertex < n && D[0, vertex] == MaxOf(Row0())
      ensures forall j :: 0 <= j < n ==> (j in cands <==> G[vertex, j] < D[0, vertex])
      ensures forall j, k :: 0 <= j < k < |cands| ==> cands[j] < cands[k]
      ensures NoRepeats(cands) && forall k :: 0 <= k < |cands| ==> 0 <= cands[k] < n && cands[k] !in S
      ensures (exists u :: 0 <= u < n && u !in S) ==> cands != []
    {
      cands, vertex := Candidate();
      CandidatesAreClosed(vertex);
      IncreasingNoRepeats(cands);
    }

    /** The tail of an iteration: choose a move from findPair's lists and apply it, if there is one. */
    method TakeMove(tt: int, step: int, ghost ev: map<(int, int), int>, ghost C: int, ghost S0: seq<int>, ghost cands: seq<int>,
                    ghost cores: seq<Core>, ghost marks: set<(int, int)>, ghost rows: seq<seq<int>>, ghost vertex: int,
                    ghost cur: int, ghost best: int, ghost nts: seq<Entry>, ghost tls: seq<Entry>)
      returns (m: Option<Entry>)
      requires Steady(S0, cores) && Evaluated(ev, cores, S0, cands) && Offered(ev, C, step)
      requires forall k :: 0 <= k < |cands| ==> 0 <= cands[k] < n && cands[k] !in S0
      requires marks == TabuSet(ev, step) && cur == scCur && best == scBest && nts == notTabuList && tls == tabuList
      requires Surveyed(cores, rows, S0, cur, vertex, cands, ev, C, marks, nts, tls)
      modifies this`S, this`scCur, this`scBest, D, F, T
      ensures nts == notTabuList && tls == tabuList
      ensures Searched(cores, rows, S0, cur, best, vertex, cands, ev, C, marks, nts, tls, m)
      ensures Consistent() && Tracked() && Moved(m, tt, step, cores, S0, cur, best)
      ensures m == None ==> unchanged(T)
      ensures m.Some? ==> forall a, b :: 0 <= a < n && 0 <= b < n && (a, b) != (m.value.0, m.value.1) && (a, b) != (m.value.1, m.value.0) ==>
        T[a, b] == old(T[a, b])
    {
      m := Draw(ev, C, step, S0, cands, cores, marks, best, nts, tls);
      assert Searched(cores, rows, S0, cur, best, vertex, cands, ev, C, marks, nts, tls, m);
      ApplyChosen(m, tt, step, cores, S0, cur, best, nts, tls);
    }

    /**
     * Choose, on an iteration's survey: the move drawn, if any, is a swap of
     * a center for a candidate, at its score, drawn as Drawn says.
     */
    method Draw(ghost ev: map<(int, int), int>, ghost C: int, step: int, ghost S0: seq<int>, ghost cands: seq<int>,
                ghost cores: seq<Core>, ghost marks: set<(int, int)>, ghost best: int, ghost nts: seq<Entry>,
                ghost tls: seq<Entry>)
      returns (m: Option<Entry>)
      requires Steady(S0, cores) && Evaluated(ev, cores, S0, cands) && Offered(ev, C, step)
      requires forall k :: 0 <= k < |cands| ==> 0 <= cands[k] < n && cands[k] !in S0
      requires marks == TabuSet(ev, step) && best == scBest && nts == notTabuList && tls == tabuList
      ensures Steady(S0, cores) && best == scBest && nts == notTabuList && tls == tabuList && unchanged(T)
      ensures Drawn(m, ev, marks, nts, tls, best)
      ensures m.Some? ==> m.value.0 in S0 && 0 <= m.value.1 < n && m.value.1 !in S0 && m.value.2 == Score(cores, m.value.0, m.value.1)
    {
      m := Choose(ev, C, step, S0, cores, marks);
      if m.Some? {
        assert (m.value.0, m.value.1) in ev;
      }
    }

    /**
     * The state after the move m, if any, was applied to the centers s0 with
     * radius cur and best radius best: none leaves them as they were; a swap
     * (f, i, x) closes f and opens i, the radius becomes its score x, both
     * orders of the pair are tabu until step + tt, and the best radius drops
     * to x when x is smaller.
     */
    ghost predicate Moved(m: Option<Entry>, tt: int, step: int, cores: seq<Core>, s0: seq<int>, cur: int, best: int)
      reads this`S, this`scCur, this`scBest, G, T
      requires Valid() && |cores| == n
    {
      && |S| == |s0| && scBest <= scCur
      && (m == None ==> S == s0 && scCur == cur && scBest == best)
      && (m.Some? ==> var e := m.value;
            && 0 <= e.0 < n && 0 <= e.1 < n && e.0 in s0 && e.1 !in s0
            && Elems(S) == Elems(s0) - {e.0} + {e.1}
            && scCur == Score(cores, e.0, e.1) && e.2 == scCur
            && T[e.0, e.1] == tt + step && T[e.1, e.0] == tt + step
            && scBest == (if scCur < best then scCur else best))
    }

    /** ApplyMove when a move was chosen; nothing changes otherwise. */
    method ApplyChosen(m: Option<Entry>, tt: int, step: int, ghost cores: seq<Core>, ghost S0: seq<int>, ghost cur: int, ghost best: int,
                       ghost nts: seq<Entry>, ghost tls: seq<Entry>)
      requires Valid() && GraphOk() && Consistent() && Tracked() && |S| >= 2 && cores == Cores() && scBest <= scCur
      requires S0 == S && cur == scCur && best == scBest && nts == notTabuList && tls == tabuList
      requires m.Some? ==> m.value.0 in S && 0 <= m.value.1 < n && m.value.1 !in S && m.value.2 == Score(cores, m.value.0, m.value.1)
      modifies this`S, this`scCur, this`scBest, D, F, T
      ensures Consistent() && Tracked() && Moved(m, tt, step, cores, S0, cur, best)
      ensures nts == notTabuList && tls == tabuList
      ensures m == None ==> unchanged(T)
      ensures m.Some? ==> var e := m.value;
        forall a, b :: 0 <= a < n && 0 <= b < n && (a, b) != (e.0, e.1) && (a, b) != (e.1, e.0) ==> T[a, b] == old(T[a, b])
    {
      if m.Some? {
        ApplyMove(m.value, tt, step, cores);
      }
    }

    /** The list a move is drawn from, given the non-tabu and tabu lists and the best radius. */
    static function Pool(notTabuList: seq<Entry>, tabuList: seq<Entry>, best: int): (list: seq<Entry>)
      ensures list == notTabuList || list == tabuList
      ensures list == tabuList && list != notTabuList ==> notTabuList == [] || notTabuList[0].2 >= best
    {
      if notTabuList != [] && notTabuList[0].2 < best then notTabuList
      else if tabuList != [] && tabuList[0].2 < best then tabuList
      else notTabuList
    }

    /**
     * The move selection of the main loop: a non-tabu move
     * when the first non-tabu entry beats the best radius, else a tabu move
     * when the first tabu entry does (aspiration), else any non-tabu move,
     * else none. The move is drawn by reservoir sampling from the list.
     */
    method Choose(ghost ev: map<(int, int), int>, ghost C: int, step: int, ghost S0: seq<int>, ghost cores: seq<Core>,
                  ghost marks: set<(int, int)>) returns (m: Option<Entry>)
      requires Valid() && Offered(ev, C, step) && Steady(S0, cores) && marks == TabuSet(ev, step)
      ensures Steady(S0, cores) && Drawn(m, ev, marks, notTabuList, tabuList, scBest)
      ensures m == None <==> notTabuList == [] && (tabuList == [] || tabuList[0].2 >= scBest)
      ensures m.Some? ==> var e := m.value; (e.0, e.1) in ev && ev[(e.0, e.1)] == e.2
      ensures m.Some? && IsTabu(m.value.0, m.value.1, step) ==> m.value.2 < scBest
      ensures notTabuList != [] && notTabuList[0].2 < scBest ==> m.Some? && !IsTabu(m.value.0, m.value.1, step) && m.value.2 < scBest
      ensures m == None ==> forall e :: e in ev && ev[e] == C ==> IsTabu(e.0, e.1, step)
      ensures m.Some? ==> m.value in Pool(notTabuList, tabuList, scBest)
    {
      if notTabuList != [] && notTabuList[0].2 < scBest {
        var sample := ReservoirSamp(Some(notTabuList));
        ListHead(ev, notTabuList, C, false, step, sample.value);
        m := Some(sample.value);
      } else if tabuList != [] && tabuList[0].2 < scBest {
        var sample := ReservoirSamp(Some(tabuList));
        ListHead(ev, tabuList, C, true, step, sample.value);
        m := Some(sample.value);
      } else if notTabuList != [] {
        var sample := ReservoirSamp(Some(notTabuList));
        ListHead(ev, notTabuList, C, false, step, sample.value);
        m := Some(sample.value);
      } else {
        m := None;
      }
    }

    /** An entry of a list is an evaluated swap of the list's class, no better than the list's first entry. */
    lemma ListHead(ev: map<(int, int), int>, list: seq<Entry>, C: int, tabu: bool, step: int, e: Entry)
      requires Valid() && ListOk(ev, list, C, tabu, step) && e in list
      ensures (e.0, e.1) in ev && ev[(e.0, e.1)] == e.2 && 0 <= e.0 < n && 0 <= e.1 < n
      ensures IsTabu(e.0, e.1, step) == tabu && e.2 <= list[0].2
    {
      var k :| 0 <= k < |list| && list[k] == e;
    }

    /** T[f][i] = T[i][f] = until: the pair stays tabu up to that iteration. */
    method SetTabu(f: int, i: int, until: int)
      requires Valid() && 0 <= f < n && 0 <= i < n
      modifies T
      ensures T[f, i] == until && T[i, f] == until
      ensures forall a, b :: 0 <= a < n && 0 <= b < n && (a, b) != (f, i) && (a, b) != (i, f) ==> T[a, b] == old(T[a, b])
    {
      T[f, i] := until;
      T[i, f] := until;
    }

    /**
     * Applying the chosen move: the swap, both tabu entries
     * of the pair set to tt + step, and the best radius kept.
     */
    method ApplyMove(m: Entry, tt: int, step: int, ghost cores: seq<Core>)
      requires Valid() && GraphOk() && Consistent() && |S| >= 2 && cores == Cores()
      requires m.0 in S && 0 <= m.1 < n && m.1 !in S
      modifies this`S, this`scCur, this`scBest, D, F, T
      ensures Elems(S) == Elems(old(S)) - {m.0} + {m.1} && |S| == |old(S)|
      ensures Consistent() && Tracked() && scCur == Score(cores, m.0, m.1)
      ensures scBest == (if scCur < old(scBest) then scCur else old(scBest))
      ensures T[m.0, m.1] == tt + step && T[m.1, m.0] == tt + step
      ensures forall a, b :: 0 <= a < n && 0 <= b < n && (a, b) != (m.0, m.1) && (a, b) != (m.1, m.0) ==> T[a, b] == old(T[a, b])
    {
      assert m.0 in Elems(S);
      SwapCenters(m.0, m.1, cores);
      SetTabu(m.0, m.1, tt + step);
      if scCur < scBest {
        scBest := scCur;
      }
    }

    /**
     * findPair: every swap (f, i) of a center f in S and a candidate i is
     * evaluated, each candidate opened and closed again in turn. Afterwards
     * S and the cores are as before, every such swap is recorded with its
     * score, C is the least of them, and the two lists hold what Offered
     * says, the tabu swaps in one and the others in the other.
     */
    method FindPair(cands: seq<int>, step: int, ghost S0: seq<int>, ghost cores: seq<Core>) returns (C: int, ghost ev: map<(int, int), int>)
      requires Steady(S0, cores)
      requires NoRepeats(cands) && forall k :: 0 <= k < |cands| ==> 0 <= cands[k] < n && cands[k] !in S
      modifies this`S, this`scCur, D, F, M, this`tabuList, this`notTabuList
      ensures Steady(S0, cores) && scCur == old(scCur) && Evaluated(ev, cores, S0, cands) && Offered(ev, C, step)
    {
      C, ev := EvaluateAll(cands, step, S0, cores);
    }

    /** The candidate loop of findPair, from empty lists and C = INFINITY. */
    method EvaluateAll(cands: seq<int>, step: int, ghost S0: seq<int>, ghost cores: seq<Core>) returns (C: int, ghost ev: map<(int, int), int>)
      requires Valid() && GraphOk() && Consistent() && Tracked() && |S| >= 2 && S == S0 && cores == Cores()
      requires NoRepeats(cands) && forall k :: 0 <= k < |cands| ==> 0 <= cands[k] < n && cands[k] !in S
      modifies this`S, this`scCur, D, F, M, this`tabuList, this`notTabuList
      ensures S == S0 && Cores() == cores && Consistent() && Tracked() && scCur == old(scCur)
      ensures Evaluated(ev, cores, S0, cands) && Offered(ev, C, step)
    {
      RadiusOfCores(cores);
      tabuList, notTabuList := [], [];
      C := INFINITY;
      ev := map[];
      assert cands[..0] == [];
      for k := 0 to |cands|
        invariant S == S0 && Cores() == cores && Consistent() && Tracked()
        invariant Evaluated(ev, cores, S0, cands[..k]) && Offered(ev, C, step)
      {
        ghost var prev := ev;
        NotYetEvaluated(ev, cores, S0, cands, k);
        C, ev := EvaluateCandidate(cands[k], step, C, cores, ev);
        EvaluatedStep(prev, ev, cores, S0, cands, k);
      }
      EvaluatedAll(ev, cores, S0, cands);
      RadiusOfCores(cores);
    }

    /** Once every candidate is done, the record covers the whole list. */
    lemma EvaluatedAll(ev: map<(int, int), int>, cores: seq<Core>, centers: seq<int>, cands: seq<int>)
      requires Valid() && |cores| == n && Evaluated(ev, cores, centers, cands[..|cands|])
      ensures Evaluated(ev, cores, centers, cands)
    {
      assert cands[..|cands|] == cands;
    }

    /**
     * The state the main loop keeps between iterations: at least two
     * centers S0, entries consistent with them and cores as given, and the
     * best radius no worse than the current one.
     */
    ghost predicate Steady(S0: seq<int>, cores: seq<Core>)
      reads this`S, this`scCur, this`scBest, G, D, F
    {
      && Valid() && GraphOk() && Consistent() && Tracked()
      && |S| >= 2 && S == S0 && cores == Cores() && scBest <= scCur
    }

    /** The radius is determined by the cores alone. */
    lemma RadiusOfCores(cores: seq<Core>)
      requires Valid() && Tracked() && Cores() == cores
      ensures scCur == MaxOf(D0s(cores))
    {
      assert Row0() == D0s(cores);
    }

    /** ev holds exactly the swaps (f, i) with f in centers and i in done, each at its score. */
    ghost predicate Evaluated(ev: map<(int, int), int>, cores: seq<Core>, centers: seq<int>, done: seq<int>)
      reads G
      requires Valid() && |cores| == n
    {
      && (forall m :: m in ev ==> m.0 in centers && m.1 in done && 0 <= m.1 < n && ev[m] == Score(cores, m.0, m.1))
      && (forall f, i :: f in centers && i in done ==> (f, i) in ev)
    }

    /** The next candidate has no swap recorded yet. */
    lemma NotYetEvaluated(ev: map<(int, int), int>, cores: seq<Core>, centers: seq<int>, cands: seq<int>, k: int)
      requires Valid() && |cores| == n && 0 <= k < |cands| && NoRepeats(cands)
      requires Evaluated(ev, cores, centers, cands[..k])
      ensures forall m :: m in ev ==> m.1 != cands[k]
    {
      assert cands[k] !in cands[..k];
    }

    /** Evaluating the next candidate extends the record by its swaps. */
    lemma EvaluatedStep(ev: map<(int, int), int>, next: map<(int, int), int>, cores: seq<Core>, centers: seq<int>, cands: seq<int>, k: int)
      requires Valid() && |cores| == n && 0 <= k < |cands| && 0 <= cands[k] < n
      requires Evaluated(ev, cores, centers, cands[..k])
      requires Recorded(ev, next, cands[k], centers, ScoresAgainst(cores, centers, cands[k]))
      ensures Evaluated(next, cores, centers, cands[..k + 1])
    {
      var i := cands[k];
      assert cands[..k + 1] == cands[..k] + [i];
      var R := ScoresAgainst(cores, centers, i);
      forall f, j | f in centers && j in cands[..k + 1]
        ensures (f, j) in next
      {
        if j != i {
          assert (f, j) in ev;
        }
      }
    }

    /**
     * One candidate of findPair: i is opened, every other center f is
     * scored against it, and i is closed again. Each swap (f, i) is
     * recorded with its score, and the centers and their cores come back
     * as they were.
     */
    method EvaluateCandidate(i: int, step: int, C0: int, ghost cores: seq<Core>, ghost ev: map<(int, int), int>)
      returns (C: int, ghost ev': map<(int, int), int>)
      requires Valid() && GraphOk() && Consistent() && |S| >= 2
      requires 0 <= i < n && i !in S && cores == Cores()
      requires forall m :: m in ev ==> m.1 != i
      requires Offered(ev, C0, step)
      modifies this`S, this`scCur, D, F, M, this`tabuList, this`notTabuList
      ensures S == old(S) && Cores() == cores && Consistent() && Tracked()
      ensures Recorded(ev, ev', i, S, ScoresAgainst(cores, S, i))
      ensures Offered(ev', C, step)
    {
      ghost var S0 := S;
      ghost var A0 := Assigns();
      ElemsCard(S0);
      OpenCandidate(i, cores);
      C, ev' := ScoreAndClose(i, step, C0, S0, A0, cores, ev);
    }

    /** The rest of findPair's candidate i once i is open: score every other center against it, then close it. */
    method ScoreAndClose(i: int, step: int, C0: int, ghost S0: seq<int>, ghost A0: seq<Assign>, ghost cores: seq<Core>, ghost ev: map<(int, int), int>)
      returns (C: int, ghost ev': map<(int, int), int>)
      requires Valid() && GraphOk() && Consistent() && Tracked() && 0 <= i < n && scCur < INFINITY
      requires S == S0 + [i] && i !in S0 && NoRepeats(S0) && InRange(Elems(S0), n) && |S0| >= 2
      requires |A0| == n && |cores| == n && Cores() == AddAll(cores, GRow(i), i)
      requires forall v :: 0 <= v < n ==> EntryOk(G, Elems(S0), n, INFINITY, v, A0[v]) && cores[v] == CoreOf(A0[v])
      requires forall v :: 0 <= v < n ==> At(v) == AddAt(G[i, v], i, A0[v])
      requires forall f :: f in S0 ==> RemovalRadius(Cores(), f) < INFINITY
      requires forall m :: m in ev ==> m.1 != i
      requires Offered(ev, C0, step)
      modifies this`S, this`scCur, D, F, M, this`tabuList, this`notTabuList
      ensures S == S0 && Cores() == cores && Consistent() && Tracked()
      ensures Recorded(ev, ev', i, S0, ScoresAgainst(cores, S0, i))
      ensures Offered(ev', C, step)
    {
      label Opened:
      var S1, R := CentersBesides(i, S0, cores);
      C, ev' := ScoreCenters(i, S1, step, C0, Cores(), R, ev);
      assert Recorded(ev, ev', i, S0, ScoresAgainst(cores, S0, i));
      assert unchanged@Opened(this`S, D, F, G);
      label Scored:
      CloseCandidate(i, S0, A0, cores);
      assert unchanged@Scored(this`tabuList, this`notTabuList, T);
    }

    /** S1 = S without i (findPair's copy of S with i removed), with the score of each swap (f, i) for f in S1. */
    method CentersBesides(i: int, ghost S0: seq<int>, ghost cores: seq<Core>) returns (S1: seq<int>, ghost R: map<int, int>)
      requires Valid() && Consistent() && Tracked() && 0 <= i < n && |cores| == n
      requires S == S0 + [i] && i !in S0
      requires Cores() == AddAll(cores, GRow(i), i) && scCur < INFINITY
      requires forall f :: f in S0 ==> RemovalRadius(Cores(), f) < INFINITY
      ensures S1 == S0 && NoRepeats(S1) && R == ScoresAgainst(cores, S1, i)
      ensures forall f :: f in S1 ==> 0 <= f < n && f in R && R[f] == Max(scCur, RemovalRadius(Cores(), f)) < INFINITY
    {
      RemoveFirstMembers(S, i);
      S1 := RemoveFirst(S, i);
      RemoveAppended(S0, i);
      R := ScoresAgainst(cores, S1, i);
      ScoresReadOff(i, S1, cores);
      forall f | f in S1
        ensures 0 <= f < n
      {
        assert f in Elems(S);
      }
    }

    /** The score of every swap (f, i) for f in centers. */
    ghost function ScoresAgainst(cores: seq<Core>, centers: seq<int>, i: int): (R: map<int, int>)
      reads G
      requires Valid() && |cores| == n && 0 <= i < n
      ensures forall f :: f in centers <==> f in R
      ensures forall f :: f in R ==> R[f] == Score(cores, f, i)
    {
      map f | f in centers :: Score(cores, f, i)
    }

    /** While i is open, the score of each (f, i) is max(Sc_cur, M[f]) with M[f] up to date, a finite distance. */
    lemma ScoresReadOff(i: int, S1: seq<int>, cores: seq<Core>)
      requires Valid() && Tracked() && 0 <= i < n && |cores| == n
      requires Cores() == AddAll(cores, GRow(i), i) && scCur < INFINITY
      requires forall f :: f in S1 ==> RemovalRadius(Cores(), f) < INFINITY
      ensures forall f :: f in S1 ==> Score(cores, f, i) == Max(scCur, RemovalRadius(Cores(), f)) < INFINITY
    {
      forall f | f in S1
        ensures Score(cores, f, i) == Max(scCur, RemovalRadius(Cores(), f))
      {
        ScoreFromEntries(i, f, cores);
      }
    }

    /** removeFacility(i) at the end of findPair's candidate: S and the cores as before i opened. */
    method CloseCandidate(i: int, ghost S0: seq<int>, ghost A0: seq<Assign>, ghost cores: seq<Core>)
      requires Valid() && GraphOk() && Consistent() && |S0| >= 2 && 0 <= i < n
      requires S == S0 + [i] && i !in S0 && NoRepeats(S0) && InRange(Elems(S0), n)
      requires |A0| == n && |cores| == n
      requires forall v :: 0 <= v < n ==> EntryOk(G, Elems(S0), n, INFINITY, v, A0[v]) && cores[v] == CoreOf(A0[v])
      requires forall v :: 0 <= v < n ==> At(v) == AddAt(G[i, v], i, A0[v])
      modifies this`S, this`scCur, D, F
      ensures S == S0 && Cores() == cores && Consistent() && Tracked()
    {
      ElemsCard(S0);
      Appended(S0, i);
      var raised := RemoveFacility(i, Assigns());
      assert !raised;
      RemoveAppended(S0, i);
      RoundTripAll(i, Elems(S0), A0, Assigns());
      assert Cores() == cores;
    }

    /** The loop body of ScoreCenters: M[f] := max(dists), then the offer of (f, i) at max(Sc_cur, M[f]). */
    method ScoreOne(i: int, f: int, step: int, C0: int, ghost cores: seq<Core>, ghost score: int, ghost ev: map<(int, int), int>)
      returns (C: int, ghost ev': map<(int, int), int>)
      requires Valid() && 0 <= i < n && 0 <= f < n && (f, i) !in ev && cores == Cores()
      requires score == Max(scCur, RemovalRadius(cores, f)) < INFINITY
      requires Offered(ev, C0, step)
      modifies M, this`tabuList, this`notTabuList
      ensures ev' == ev[(f, i) := score] && cores == Cores()
      ensures Offered(ev', C, step)
    {
      ServedMax(f);
      var newSc := if scCur < M[f] then M[f] else scCur;
      C := Offer(f, i, newSc, step, C0, ev);
      ev' := ev[(f, i) := newSc];
    }
  }
}
