/**
 * The solver's tabu search for the p-center problem: choose p of the n
 * nodes as centers so that the largest distance from a node to its nearest
 * center (the coverage radius) is as small as possible.  The search keeps,
 * for every node, its nearest and second-nearest open center, and repeatedly
 * swaps one closed node in for one open center.
 */
module PCenterSolver {
  import opened Assignment
  import opened Moves
  import Floyd
  import PairSort
  import Preprocess

  class Solver {
    /** Number of nodes. */
    const n: int
    /** Number of centers to open. */
    const p: int
    /** The sentinel distance, above every finite distance. */
    const maxDistance: int
    /** Distance matrix: G[i, j] is the distance from node i to node j. */
    const G: array2<int>
    /** Row i lists every node in ascending (G[i, j], j) order. */
    const sortedG: array2<int>
    /** Row 0: distance to the nearest open center; row 1: to the second nearest. */
    const D: array2<int>
    /** Row 0: the nearest open center; row 1: the second nearest. */
    const F: array2<int>
    /** Tabu matrix: the swap (c, f) is tabu while T[c, f] exceeds the iteration. */
    const T: array2<int>
    /** M[f]: radius after closing f, over the nodes f serves. */
    const M: array<int>
    var S: set<int>
    var bestS: set<int>
    var scCur: int
    var scBest: int
    var tt: int
    var candidates: seq<int>
    var tabuMv: seq<(int, int)>
    var noTabuMv: seq<(int, int)>

    ghost predicate Valid()
    {
      && 0 < n && 0 < maxDistance
      && G.Length0 == n && G.Length1 == n
      && sortedG.Length0 == n && sortedG.Length1 == n
      && D.Length0 == 2 && D.Length1 == n
      && F.Length0 == 2 && F.Length1 == n
      && T.Length0 == n && T.Length1 == n
      && M.Length == n
      && G != sortedG && G != D && G != F && G != T
      && sortedG != D && sortedG != F && sortedG != T
      && D != F && D != T && F != T
    }

    /**
     * What the search assumes of the instance: a symmetric matrix with a zero
     * diagonal whose other entries are positive and finite (a connected graph).
     */
    ghost predicate GraphOk()
      reads G
      requires Valid()
    {
      && Below(G, n, maxDistance)
      && (forall i, j :: 0 <= i < n && 0 <= j < n ==> G[i, j] == G[j, i])
      && (forall i :: 0 <= i < n ==> G[i, i] == 0)
      && (forall i, j :: 0 <= i < n && 0 <= j < n && i != j ==> 0 < G[i, j])
    }

    /** Node v's entries of D and F. */
    function At(v: int): Assign
      reads D, F
      requires Valid() && 0 <= v < n
    {
      Assign(D[0, v], F[0, v], D[1, v], F[1, v])
    }

    /** D and F agree with the open set s at every node. */
    ghost predicate Agrees(s: set<int>)
      reads G, D, F
      requires Valid()
    {
      && InRange(s, n)
      && forall v :: 0 <= v < n ==> EntryOk(G, s, n, maxDistance, v, At(v))
    }

    /** D and F agree with the open set S. */
    ghost predicate Consistent()
      reads this`S, G, D, F
    {
      Valid() && Agrees(S)
    }

    /** The nearest distances, node by node. */
    function Row0(): (r: seq<int>)
      reads D
      requires Valid()
      ensures |r| == n && forall v :: 0 <= v < n ==> r[v] == D[0, v]
    {
      seq(n, v requires 0 <= v < n reads D => D[0, v])
    }

    /** scCur is the coverage radius of the current entries. */
    ghost predicate Tracked()
      reads this`scCur, D
    {
      Valid() && scCur == MaxOf(Row0())
    }

    /** The per-node cores, node by node. */
    ghost function Cores(): (r: seq<Core>)
      reads D, F
      requires Valid()
      ensures |r| == n && forall v :: 0 <= v < n ==> r[v] == CoreOf(At(v))
    {
      seq(n, v requires 0 <= v < n reads D, F => CoreOf(At(v)))
    }

    /** Row c of the distance matrix. */
    ghost function GRow(c: int): (r: seq<int>)
      reads G
      requires Valid() && 0 <= c < n
      ensures |r| == n && forall v :: 0 <= v < n ==> r[v] == G[c, v]
    {
      seq(n, v requires 0 <= v < n reads G => G[c, v])
    }

    /** max_element over row 0 of D. */
    method ComputeRadius() returns (m: int)
      requires Valid()
      ensures m == MaxOf(Row0())
    {
      ghost var row := Row0();
      m := D[0, 0];
      assert row[..1] == [row[0]];
      for v := 1 to n
        invariant m == MaxOf(row[..v])
      {
        assert row[..v + 1][..v] == row[..v];
        if D[0, v] > m {
          m := D[0, v];
        }
      }
      assert row[..n] == row;
    }

    /**
     * Opens f: each node moves its nearest entry down to second place when f
     * is strictly nearer, or takes f as second nearest when f is strictly
     * nearer than that; the radius is recomputed.
     */
    method AddFacility(f: int)
      requires Valid() && GraphOk() && Consistent() && 0 <= f < n && f !in S
      modifies this`S, this`scCur, D, F
      ensures S == old(S) + {f}
      ensures forall v :: 0 <= v < n ==> At(v) == AddAt(G[f, v], f, old(At(v)))
      ensures Consistent() && Tracked()
    {
      ghost var A0 := Assigns();
      ghost var S0 := S;
      AgreesAssigns(S0, A0);
      S := S + {f};
      for v := 0 to n
        invariant S == S0 + {f}
        invariant forall u :: 0 <= u < v ==> At(u) == AddAt(G[f, u], f, A0[u])
        invariant forall u :: v <= u < n ==> At(u) == A0[u]
      {
        AddAtNode(v, f);
      }
      scCur := ComputeRadius();
      AddKeepsAgrees(S0, f, A0);
    }

    /** Agreement with s, read off the snapshot A of the entries. */
    lemma AgreesAssigns(s: set<int>, A: seq<Assign>)
      requires Valid() && Agrees(s) && A == Assigns()
      ensures forall v :: 0 <= v < n ==> EntryOk(G, s, n, maxDistance, v, A[v])
    {
    }

    /** Opening f at every node keeps the entries consistent with the grown open set. */
    lemma AddKeepsAgrees(S0: set<int>, f: int, A0: seq<Assign>)
      requires Valid() && GraphOk() && InRange(S0, n) && 0 <= f < n && f !in S0 && |A0| == n
      requires forall v :: 0 <= v < n ==> EntryOk(G, S0, n, maxDistance, v, A0[v])
      requires forall v :: 0 <= v < n ==> At(v) == AddAt(G[f, v], f, A0[v])
      ensures Agrees(S0 + {f})
    {
      forall v | 0 <= v < n
        ensures EntryOk(G, S0 + {f}, n, maxDistance, v, At(v))
      {
        AddKeepsEntryOk(G, S0, n, maxDistance, v, f, A0[v]);
      }
    }

    /** The loop body of AddFacility for node v. */
    method AddAtNode(v: int, f: int)
      requires Valid() && 0 <= f < n && 0 <= v < n
      modifies D, F
      ensures At(v) == AddAt(G[f, v], f, old(At(v)))
      ensures forall u :: 0 <= u < n && u != v ==> At(u) == old(At(u))
    {
      if G[f, v] < D[0, v] {
        D[1, v] := D[0, v];
        F[1, v] := F[0, v];
        D[0, v] := G[f, v];
        F[0, v] := f;
      } else if G[f, v] < D[1, v] {
        D[1, v] := G[f, v];
        F[1, v] := f;
      }
    }

    /**
     * Recomputes node v's second nearest center as a nearest member of S
     * other than f, choosing among equally near ones at random.
     */
    method FindNext(v: int, f: int)
      requires Valid() && GraphOk() && InRange(S, n) && 0 <= v < n
      requires S - {f} != {}
      modifies D, F
      ensures IsSecond(G, S, v, f, D[1, v], F[1, v])
      ensures D[0, v] == old(D[0, v]) && F[0, v] == old(F[0, v])
      ensures forall u :: 0 <= u < n && u != v ==> At(u) == old(At(u))
    {
      var ties: seq<int> := [];
      var tmpDist := maxDistance;
      for s := 0 to n
        invariant tmpDist <= maxDistance
        invariant forall t :: 0 <= t < s && t in S && t != f ==> tmpDist <= G[v, t]
        invariant forall k :: 0 <= k < |ties| ==> ties[k] in S && ties[k] != f && G[v, ties[k]] == tmpDist
        invariant tmpDist < maxDistance ==> ties != []
      {
        if s in S && s != f {
          if G[v, s] < tmpDist {
            tmpDist := G[v, s];
            ties := [s];
          } else if G[v, s] == tmpDist {
            ties := ties + [s];
          }
        }
      }
      var t := OtherMember(S, f);
      assert tmpDist <= G[v, t] < maxDistance;
      assert ties[0] in ties;
      var ds :| ds in ties;
      D[1, v] := tmpDist;
      F[1, v] := ds;
    }

    /** The loop body of RemoveFacility for node v, after f has left S. */
    method RepairNode(v: int, f: int)
      requires Valid() && GraphOk() && InRange(S, n) && 0 <= v < n
      requires |S| >= 2
      modifies D, F
      ensures RemovedAt(G, S, n, v, f, old(At(v)), At(v))
      ensures forall u :: 0 <= u < n && u != v ==> At(u) == old(At(u))
    {
      if f == F[0, v] {
        D[0, v] := D[1, v];
        F[0, v] := F[1, v];
        TwoLeft(S, F[0, v]);
        FindNext(v, F[0, v]);
      } else if f == F[1, v] {
        TwoLeft(S, F[0, v]);
        FindNext(v, F[0, v]);
      }
    }

    /**
     * Closes f: nodes served by f promote their second nearest center, and
     * those nodes and the nodes whose second nearest was f look up a new
     * second nearest; the radius is recomputed.
     */
    method RemoveFacility(f: int)
      requires Valid() && GraphOk() && Consistent()
      requires f in S && |S| >= 3
      modifies this`S, this`scCur, D, F
      ensures S == old(S) - {f}
      ensures forall v :: 0 <= v < n ==> RemovedAt(G, S, n, v, f, old(At(v)), At(v))
      ensures Consistent() && Tracked()
    {
      ghost var A0 := Assigns();
      ghost var S0 := S;
      AgreesAssigns(S0, A0);
      S := S - {f};
      CardRemove(S0, f);
      for v := 0 to n
        invariant S == S0 - {f}
        invariant forall u :: 0 <= u < v ==> RemovedAt(G, S, n, u, f, A0[u], At(u))
        invariant forall u :: v <= u < n ==> At(u) == A0[u]
      {
        RepairNode(v, f);
      }
      scCur := ComputeRadius();
      RemoveKeepsAgrees(S0, f, A0);
    }

    /** Closing f at every node keeps the entries consistent with the shrunk open set. */
    lemma RemoveKeepsAgrees(S0: set<int>, f: int, A0: seq<Assign>)
      requires Valid() && GraphOk() && InRange(S0, n) && f in S0 && |S0| >= 3 && |A0| == n
      requires forall v :: 0 <= v < n ==> EntryOk(G, S0, n, maxDistance, v, A0[v])
      requires forall v :: 0 <= v < n ==> RemovedAt(G, S0 - {f}, n, v, f, A0[v], At(v))
      ensures Agrees(S0 - {f})
    {
      forall v | 0 <= v < n
        ensures EntryOk(G, S0 - {f}, n, maxDistance, v, At(v))
      {
        RemoveKeepsEntryOk(G, S0, n, maxDistance, v, f, A0[v], At(v));
      }
    }

    /** Node u comes before node w in row r of the sorted index. */
    ghost predicate Before(r: int, u: int, w: int)
      reads G
      requires Valid() && 0 <= r < n && 0 <= u < n && 0 <= w < n
    {
      PairSort.Less((G[r, u], u), (G[r, w], w))
    }

    /** Node u occurs in row r of the sorted index. */
    ghost predicate InRow(r: int, u: int)
      reads sortedG
      requires Valid() && 0 <= r < n
    {
      exists k :: 0 <= k < n && sortedG[r, k] == u
    }

    /** Every row of sortedG lists every node once, in ascending (G[r, u], u) order. */
    ghost predicate IndexOk()
      reads G, sortedG
      requires Valid()
    {
      && (forall r, k :: 0 <= r < n && 0 <= k < n ==> 0 <= sortedG[r, k] < n)
      && (forall r, k1, k2 :: 0 <= r < n && 0 <= k1 < k2 < n ==> Before(r, sortedG[r, k1], sortedG[r, k2]))
      && (forall r, u :: 0 <= r < n && 0 <= u < n ==> InRow(r, u))
    }

    /** A sorted index built row by row satisfies IndexOk. */
    lemma IndexFromRows()
      requires Valid()
      requires forall r :: 0 <= r < n ==> Preprocess.SortedRow(G, Preprocess.Row(sortedG, r), n, r)
      ensures IndexOk()
    {
      forall r, k1, k2 | 0 <= r < n && 0 <= k1 < k2 < n
        ensures 0 <= sortedG[r, k1] < n && 0 <= sortedG[r, k2] < n && Before(r, sortedG[r, k1], sortedG[r, k2])
      {
        var row := Preprocess.Row(sortedG, r);
        assert row[k1] == sortedG[r, k1] && row[k2] == sortedG[r, k2];
      }
      forall r, k | 0 <= r < n && 0 <= k < n
        ensures 0 <= sortedG[r, k] < n
      {
        var row := Preprocess.Row(sortedG, r);
        assert row[k] == sortedG[r, k];
      }
      forall r, u | 0 <= r < n && 0 <= u < n
        ensures InRow(r, u)
      {
        var row := Preprocess.Row(sortedG, r);
        assert u in row;
        var k :| 0 <= k < n && row[k] == u;
      }
    }

    /**
     * init on a topological instance: the direct-edge matrix closed under
     * Floyd-Warshall, the sorted index, the empty assignment (every node's
     * nearest and second-nearest center the sentinel n at distance
     * maxDistance), a zero tabu matrix and a tabu tenure base 2n + r with r
     * drawn from [0, p).
     */
    constructor Init(nodeNum: int, centerNum: int, inf: int, edges: seq<Preprocess.Edge>)
      requires 1 <= centerNum <= nodeNum && 0 < inf && Preprocess.EdgesOk(edges, nodeNum)
      ensures n == nodeNum && p == centerNum && maxDistance == inf
      ensures Valid() && IndexOk() && S == {} && bestS == {} && Consistent() && Tracked()
      ensures Preprocess.ShortestBelow(G, n, inf, edges)
      ensures forall c, f :: 0 <= c < n && 0 <= f < n ==> T[c, f] == 0
      ensures 2 * n <= tt < 2 * n + p
    {
      var g := Preprocess.Distances(nodeNum, inf, edges);
      var sg := Preprocess.SortedIndex(g, nodeNum);
      n, p, maxDistance := nodeNum, centerNum, inf;
      G, sortedG := g, sg;
      D := new int[2, nodeNum]((i, j) => inf);
      F := new int[2, nodeNum]((i, j) => nodeNum);
      T := new int[nodeNum, nodeNum]((i, j) => 0);
      M := new int[nodeNum];
      var r :| 0 <= r < centerNum;
      tt := 2 * nodeNum + r;
      S, bestS := {}, {};
      scCur, scBest := inf, inf;
      candidates, tabuMv, noTabuMv := [], [], [];
      new;
      IndexFromRows();
      Unassigned();
    }

    /**
     * The prototype's readData on the same state: the folded matrix of
     * 1-based edges (the shortest of duplicate edges kept) closed under
     * Floyd-Warshall, the empty assignment, a zero tabu matrix and zero M.
     * The prototype keeps no sorted index; sortedG is left a zero matrix.
     */
    constructor Load(nodeNum: int, centerNum: int, inf: int, edges: seq<Preprocess.Edge>)
      requires 1 <= nodeNum && 0 < inf && Preprocess.EdgesOk1(edges, nodeNum)
      ensures n == nodeNum && p == centerNum && maxDistance == inf
      ensures Valid() && S == {} && Consistent() && Tracked()
      ensures forall i, j :: 0 <= i < n && 0 <= j < n ==>
        0 <= G[i, j] <= Preprocess.MinDirect(Preprocess.Shift(edges), inf, i, j) && G[i, j] == G[j, i]
      ensures forall i :: 0 <= i < n ==> G[i, i] == 0
      ensures Floyd.TriangleBelow(G, n)
      ensures Floyd.ShortestPaths(G, Preprocess.MinDirectSeq(n, inf, Preprocess.Shift(edges)))
      ensures forall c, f :: 0 <= c < n && 0 <= f < n ==> T[c, f] == 0
      ensures forall f :: 0 <= f < n ==> M[f] == 0
    {
      var g := Preprocess.MinDistances(nodeNum, inf, edges);
      n, p, maxDistance := nodeNum, centerNum, inf;
      G := g;
      sortedG := new int[nodeNum, nodeNum];
      D := new int[2, nodeNum]((i, j) => inf);
      F := new int[2, nodeNum]((i, j) => nodeNum);
      T := new int[nodeNum, nodeNum]((i, j) => 0);
      M := new int[nodeNum](i => 0);
      S, bestS := {}, {};
      scCur := inf;
      candidates, tabuMv, noTabuMv := [], [], [];
      new;
      Unassigned();
    }

    /** With no center open, entries all at the sentinel agree with S and give radius maxDistance. */
    lemma Unassigned()
      requires Valid() && S == {} && scCur == maxDistance
      requires forall i, v :: 0 <= i < 2 && 0 <= v < n ==> D[i, v] == maxDistance && F[i, v] == n
      ensures Consistent() && Tracked()
    {
      MaxOfIsMax(Row0());
    }

    /** Some node whose nearest distance is the radius, picked at random among all such nodes. */
    method PickBottleneck() returns (vertex: int)
      requires Valid() && Tracked()
      ensures 0 <= vertex < n && D[0, vertex] == scCur
    {
      var ties: seq<int> := [];
      for i := 0 to n
        invariant forall k :: 0 <= k < |ties| ==> 0 <= ties[k] < n && D[0, ties[k]] == scCur
        invariant (exists u :: 0 <= u < i && D[0, u] == scCur) ==> ties != []
      {
        if D[0, i] == scCur {
          ties := ties + [i];
        }
      }
      MaxOfIsMax(Row0());
      assert scCur in Row0();
      assert ties[0] in ties;
      vertex :| vertex in ties;
    }

    /** The position of node x in row r of sortedG (std::find). */
    method FindInRow(r: int, x: int) returns (index: int)
      requires Valid() && 0 <= r < n && InRow(r, x)
      ensures 0 <= index < n && sortedG[r, index] == x
      ensures forall k :: 0 <= k < index ==> sortedG[r, k] != x
    {
      index := 0;
      while index < n && sortedG[r, index] != x
        invariant 0 <= index <= n
        invariant forall k :: 0 <= k < index ==> sortedG[r, k] != x
        decreases n - index
      {
        index := index + 1;
      }
    }

    /** The closed nodes among the first `index` entries of row r of sortedG, in row order. */
    method CollectClosed(r: int, index: int)
      requires Valid() && IndexOk() && 0 <= r < n && 0 <= index <= n
      modifies this`candidates
      ensures forall k :: 0 <= k < |candidates| ==> 0 <= candidates[k] < n && candidates[k] !in S
      ensures forall u :: u in candidates <==> (exists j :: 0 <= j < index && sortedG[r, j] == u) && u !in S
      ensures forall i, j :: 0 <= i < j < |candidates| ==> Before(r, candidates[i], candidates[j])
    {
      candidates := [];
      ghost var pos: seq<int> := [];
      for k := 0 to index
        invariant |pos| == |candidates|
        invariant forall i :: 0 <= i < |pos| ==> 0 <= pos[i] < k && candidates[i] == sortedG[r, pos[i]]
        invariant forall i, j :: 0 <= i < j < |pos| ==> pos[i] < pos[j]
        invariant forall i :: 0 <= i < |candidates| ==> candidates[i] !in S
        invariant forall u :: u in candidates <==> (exists j :: 0 <= j < k && sortedG[r, j] == u) && u !in S
      {
        if sortedG[r, k] !in S {
          candidates := candidates + [sortedG[r, k]];
          pos := pos + [k];
        }
      }
    }

    /** The entries before x's position in row r are exactly the nodes before x in (G[r, u], u) order. */
    lemma PrefixIsBefore(r: int, x: int, index: int)
      requires Valid() && IndexOk() && 0 <= r < n && 0 <= x < n
      requires 0 <= index < n && sortedG[r, index] == x
      ensures forall u :: 0 <= u < n ==>
        ((exists j :: 0 <= j < index && sortedG[r, j] == u) <==> Before(r, u, x))
    {
      forall u | 0 <= u < n
        ensures (exists j :: 0 <= j < index && sortedG[r, j] == u) <==> Before(r, u, x)
      {
        assert InRow(r, u);
        var j :| 0 <= j < n && sortedG[r, j] == u;
        if Before(r, u, x) {
          assert j < index;
        }
      }
    }

    /** While some node is closed, a bottleneck node is closed and is its own candidate. */
    lemma BottleneckIsCandidate(vertex: int)
      requires Valid() && GraphOk() && Consistent() && Tracked() && S != {} && |S| < n
      requires 0 <= vertex < n && D[0, vertex] == scCur
      ensures vertex !in S && 0 <= F[0, vertex] < n && Before(vertex, vertex, F[0, vertex])
    {
      var w := ClosedNode(S, n);
      MaxOfIsMax(Row0());
      assert Row0()[w] in Row0();
      assert EntryOk(G, S, n, maxDistance, w, At(w));
      assert 0 < D[0, w];
      assert EntryOk(G, S, n, maxDistance, vertex, At(vertex));
      assert vertex !in S;
    }

    /**
     * Picks at random a bottleneck node (one whose nearest distance is the
     * radius) and lists, in sortedG order, the closed nodes that come before
     * its nearest center in its row of sortedG.
     */
    method Candidate() returns (vertex: int)
      requires Valid() && GraphOk() && IndexOk() && Consistent() && Tracked() && S != {}
      modifies this`candidates
      ensures 0 <= vertex < n && D[0, vertex] == scCur && 0 <= F[0, vertex] < n
      ensures forall k :: 0 <= k < |candidates| ==> 0 <= candidates[k] < n && candidates[k] !in S
      ensures forall u :: u in candidates <==> 0 <= u < n && u !in S && Before(vertex, u, F[0, vertex])
      ensures forall i, j :: 0 <= i < j < |candidates| ==> Before(vertex, candidates[i], candidates[j])
      ensures |S| < n ==> candidates != []
    {
      vertex := PickBottleneck();
      var server := F[0, vertex];
      assert EntryOk(G, S, n, maxDistance, vertex, At(vertex));
      assert InRow(vertex, server);
      var index := FindInRow(vertex, server);
      CollectClosed(vertex, index);
      PrefixIsBefore(vertex, server, index);
      if |S| < n {
        BottleneckIsCandidate(vertex);
        assert vertex in candidates;
      }
    }

    /** Opens a random node, then p - 1 times a random candidate; the radius reached is the best so far. */
    method InitialSol()
      requires Valid() && GraphOk() && IndexOk() && Consistent() && S == {} && 1 <= p <= n
      modifies this`S, this`scCur, this`scBest, this`candidates, D, F
      ensures |S| == p && Consistent() && Tracked() && scBest == scCur
    {
      var server :| 0 <= server < n;
      AddFacility(server);
      for i := 1 to p
        invariant |S| == i && Consistent() && Tracked()
      {
        var _ := Candidate();
        assert candidates[0] in candidates;
        server :| server in candidates;
        CardAdd(S, server);
        AddFacility(server);
      }
      scBest := scCur;
    }

    /** Every node's entries, node by node. */
    ghost function Assigns(): (r: seq<Assign>)
      reads D, F
      requires Valid()
      ensures |r| == n && forall v :: 0 <= v < n ==> r[v] == At(v)
    {
      seq(n, v requires 0 <= v < n reads D, F => At(v))
    }

    /** The swap m = (c, f) is tabu at iteration `step`. */
    predicate IsTabu(m: (int, int), step: int)
      reads T
      requires Valid() && 0 <= m.0 < n && 0 <= m.1 < n
    {
      T[m.0, m.1] > step
    }

    /** The score of the swap m = (c, f) from the cores before c opens. */
    ghost function Score(cores: seq<Core>, m: (int, int)): int
      reads G
      requires Valid() && |cores| == n && 0 <= m.0 < n
    {
      SwapScore(cores, GRow(m.0), m.0, m.1)
    }

    /**
     * One class (tabu or not) of the evaluated swaps, the keys of sc, each
     * mapped to its score: best is the smallest score in the class, or
     * maxDistance when the class is empty, and mv lists swaps of the class
     * that reach it.
     */
    ghost predicate ClassOk(sc: map<(int, int), int>, mv: seq<(int, int)>, best: int, tabu: bool, step: int)
      reads T
      requires Valid()
    {
      && (forall m :: m in sc ==> 0 <= m.0 < n && 0 <= m.1 < n)
      && best <= maxDistance
      && (forall m :: m in sc && IsTabu(m, step) == tabu ==> best <= sc[m] && best < maxDistance)
      && (forall k :: 0 <= k < |mv| ==> mv[k] in sc && IsTabu(mv[k], step) == tabu && sc[mv[k]] == best)
      && (best < maxDistance ==> mv != [])
    }

    /** Offering a new swap of the class to the running minimum keeps the class description. */
    lemma OfferKeeps(sc: map<(int, int), int>, mv: seq<(int, int)>, best: int, tabu: bool, step: int,
                     m: (int, int), score: int, mv': seq<(int, int)>, best': int)
      requires Valid() && 0 <= m.0 < n && 0 <= m.1 < n && m !in sc
      requires ClassOk(sc, mv, best, tabu, step)
      requires IsTabu(m, step) == tabu && score < maxDistance
      requires || (score < best && best' == score && mv' == [m])
               || (score == best && best' == best && mv' == mv + [m])
               || (score > best && best' == best && mv' == mv)
      ensures ClassOk(sc[m := score], mv', best', tabu, step)
    {
    }

    /** A new swap of the other class leaves this class's description true. */
    lemma OtherClassKeeps(sc: map<(int, int), int>, mv: seq<(int, int)>, best: int, tabu: bool, step: int,
                          m: (int, int), score: int)
      requires Valid() && 0 <= m.0 < n && 0 <= m.1 < n && m !in sc
      requires ClassOk(sc, mv, best, tabu, step)
      requires IsTabu(m, step) != tabu
      ensures ClassOk(sc[m := score], mv, best, tabu, step)
    {
    }

    /** M[f] for every open f: the largest second-nearest distance among the nodes f serves, or 0. */
    method UpdateM()
      requires Valid() && Agrees(S) && S != {}
      modifies M
      ensures forall f :: f in S ==> M[f] == RemovalRadius(Cores(), f)
    {
      for f := 0 to n
        invariant forall g :: g in S && g < f ==> M[g] == 0
      {
        if f in S {
          M[f] := 0;
        }
      }
      ghost var cores := Cores();
      for v := 0 to n
        invariant forall g :: g in S ==> M[g] == RemovalRadius(cores[..v], g)
      {
        assert EntryOk(G, S, n, maxDistance, v, At(v));
        assert cores[..v + 1][..v] == cores[..v];
        if D[1, v] > M[F[0, v]] {
          M[F[0, v]] := D[1, v];
        }
      }
      assert cores[..n] == cores;
    }

    /** Records the swap m with score newf in its class (tabu or not), keeping each class's minimal swaps. */
    method Offer(m: (int, int), newf: int, step: int, tabuf0: int, noTabuf0: int, ghost sc: map<(int, int), int>)
      returns (tabuf: int, noTabuf: int)
      requires Valid() && 0 <= m.0 < n && 0 <= m.1 < n && m !in sc && newf < maxDistance
      requires ClassOk(sc, tabuMv, tabuf0, true, step) && ClassOk(sc, noTabuMv, noTabuf0, false, step)
      modifies this`tabuMv, this`noTabuMv
      ensures ClassOk(sc[m := newf], tabuMv, tabuf, true, step) && ClassOk(sc[m := newf], noTabuMv, noTabuf, false, step)
    {
      tabuf, noTabuf := tabuf0, noTabuf0;
      ghost var (tMv, nMv) := (tabuMv, noTabuMv);
      if T[m.0, m.1] > step {
        if newf < tabuf {
          tabuf := newf;
          tabuMv := [m];
        } else if newf == tabuf {
          tabuMv := tabuMv + [m];
        }
        OfferKeeps(sc, tMv, tabuf0, true, step, m, newf, tabuMv, tabuf);
        OtherClassKeeps(sc, nMv, noTabuf0, false, step, m, newf);
      } else {
        if newf < noTabuf {
          noTabuf := newf;
          noTabuMv := [m];
        } else if newf == noTabuf {
          noTabuMv := noTabuMv + [m];
        }
        OfferKeeps(sc, nMv, noTabuf0, false, step, m, newf, noTabuMv, noTabuf);
        OtherClassKeeps(sc, tMv, tabuf0, true, step, m, newf);
      }
    }

    /** Scores every swap (c, f) with f open and sorts it into the tabu or the non-tabu class. */
    method ScoreMoves(c: int, step: int, tabuf0: int, noTabuf0: int, ghost S0: set<int>, ghost sc: map<(int, int), int>)
      returns (tabuf: int, noTabuf: int, ghost sc': map<(int, int), int>)
      requires Valid() && 0 <= c < n && InRange(S0, n) && c !in S0 && S == S0 + {c}
      requires forall f :: f in S0 ==> Max(scCur, M[f]) < maxDistance
      requires forall m :: m in sc ==> m.0 != c
      requires ClassOk(sc, tabuMv, tabuf0, true, step) && ClassOk(sc, noTabuMv, noTabuf0, false, step)
      modifies this`tabuMv, this`noTabuMv
      ensures forall m :: m in sc ==> m in sc' && sc'[m] == sc[m]
      ensures forall g :: g in S0 ==> (c, g) in sc' && sc'[(c, g)] == Max(scCur, M[g])
      ensures forall m :: m in sc' ==> m in sc || (m.0 == c && m.1 in S0)
      ensures ClassOk(sc', tabuMv, tabuf, true, step) && ClassOk(sc', noTabuMv, noTabuf, false, step)
    {
      tabuf, noTabuf, sc' := tabuf0, noTabuf0, sc;
      for f := 0 to n
        invariant forall m :: m in sc ==> m in sc' && sc'[m] == sc[m]
        invariant forall g :: g in S0 && g < f ==> (c, g) in sc' && sc'[(c, g)] == Max(scCur, M[g])
        invariant forall m :: m in sc' ==> m in sc || (m.0 == c && m.1 in S0 && m.1 < f)
        invariant ClassOk(sc', tabuMv, tabuf, true, step) && ClassOk(sc', noTabuMv, noTabuf, false, step)
      {
        if f in S && f != c {
          var newf := if scCur < M[f] then M[f] else scCur;
          var m := (c, f);
          tabuf, noTabuf := Offer(m, newf, step, tabuf, noTabuf, sc');
          sc' := sc'[m := newf];
          assert forall g :: g in S0 && g < f + 1 ==> (c, g) in sc' && sc'[(c, g)] == Max(scCur, M[g]);
          assert ClassOk(sc', tabuMv, tabuf, true, step) && ClassOk(sc', noTabuMv, noTabuf, false, step);
        }
      }
    }

    /** With some center open, the radius is a finite distance. */
    lemma RadiusBelow()
      requires Valid() && GraphOk() && Consistent() && Tracked() && S != {}
      ensures scCur < maxDistance
    {
      MaxOfIsMax(Row0());
      var v :| 0 <= v < n && Row0()[v] == scCur;
      assert EntryOk(G, S, n, maxDistance, v, At(v));
    }

    /** With at least two centers open, M[g] is a finite distance. */
    lemma RemovalBelow(g: int)
      requires Valid() && GraphOk() && Consistent() && |S| >= 2
      ensures RemovalRadius(Cores(), g) < maxDistance
    {
      var r := RemovalRadius(Cores(), g);
      RemovalRadiusIsMax(Cores(), g);
      if r != 0 {
        var u :| 0 <= u < n && Cores()[u].f0 == g && Cores()[u].d1 == r;
        assert EntryOk(G, S, n, maxDistance, u, At(u));
        TwoLeft(S, At(u).f0);
      }
    }

    /** Once c is open, the score of (c, g) reads off the entries: max(radius, M[g]). */
    lemma ScoreFromEntries(c: int, g: int, cores: seq<Core>)
      requires Valid() && 0 <= c < n && |cores| == n && Cores() == AddAll(cores, GRow(c), c)
      ensures Score(cores, (c, g)) == Max(MaxOf(Row0()), RemovalRadius(Cores(), g))
    {
      assert Row0() == D0s(Cores());
    }

    /** The scores, after opening c, of the swaps (c, g): max(radius, M[g]), each below maxDistance. */
    lemma ScoresAfterAdd(c: int, S0: set<int>, cores: seq<Core>)
      requires Valid() && GraphOk() && Consistent() && Tracked() && S == S0 + {c} && c !in S0 && |S0| >= 2
      requires 0 <= c < n && |cores| == n && Cores() == AddAll(cores, GRow(c), c)
      requires forall f :: f in S ==> M[f] == RemovalRadius(Cores(), f)
      ensures forall g :: g in S0 ==> Score(cores, (c, g)) == Max(scCur, M[g]) && Max(scCur, M[g]) < maxDistance
    {
      CardAdd(S0, c);
      RadiusBelow();
      forall g | g in S0
        ensures Score(cores, (c, g)) == Max(scCur, M[g]) && Max(scCur, M[g]) < maxDistance
      {
        ScoreFromEntries(c, g, cores);
        RemovalBelow(g);
      }
    }

    /** The cores read off D and F are the given ones when they agree node by node. */
    lemma CoresAre(cores: seq<Core>)
      requires Valid() && |cores| == n
      requires forall v :: 0 <= v < n ==> CoreOf(Assigns()[v]) == cores[v]
      ensures Cores() == cores
    {
    }

    /** Opening c and closing it again gives every node back its core entries. */
    lemma RoundTripAll(c: int, S0: set<int>, A0: seq<Assign>, A1: seq<Assign>, A2: seq<Assign>)
      requires Valid() && GraphOk() && InRange(S0, n) && 0 <= c < n && c !in S0 && |S0| >= 2
      requires |A0| == n && |A1| == n && |A2| == n
      requires forall v :: 0 <= v < n ==> EntryOk(G, S0, n, maxDistance, v, A0[v])
      requires forall v :: 0 <= v < n ==> A1[v] == AddAt(G[c, v], c, A0[v])
      requires forall v :: 0 <= v < n ==> RemovedAt(G, S0, n, v, c, A1[v], A2[v])
      ensures forall v :: 0 <= v < n ==> CoreOf(A2[v]) == CoreOf(A0[v])
    {
      forall v | 0 <= v < n
        ensures CoreOf(A2[v]) == CoreOf(A0[v])
      {
        AddRemoveRoundTrip(G, S0, n, maxDistance, v, c, A0[v], A2[v]);
      }
    }

    /** The cores after opening c are those AddAll computes from the cores before. */
    lemma CoresAfterAdd(c: int, A0: seq<Assign>, cores: seq<Core>)
      requires Valid() && 0 <= c < n && |A0| == n && |cores| == n
      requires forall v :: 0 <= v < n ==> CoreOf(A0[v]) == cores[v]
      requires forall v :: 0 <= v < n ==> At(v) == AddAt(G[c, v], c, A0[v])
      ensures Cores() == AddAll(cores, GRow(c), c)
    {
      forall v | 0 <= v < n
        ensures Cores()[v] == AddCore(G[c, v], c, cores[v])
      {
        AddAtCore(G[c, v], c, A0[v]);
      }
    }

    /** Opens c and brings M up to date, so that max(radius, M[g]) is the score of the swap (c, g). */
    method OpenCandidate(c: int, ghost S0: set<int>, ghost cores: seq<Core>)
      requires Valid() && GraphOk() && Consistent()
      requires S == S0 && |S0| >= 2 && 0 <= c < n && c !in S0 && Cores() == cores
      modifies this`S, this`scCur, D, F, M
      ensures S == S0 + {c} && Consistent() && Tracked()
      ensures forall v :: 0 <= v < n ==> At(v) == AddAt(G[c, v], c, old(At(v)))
      ensures forall g :: g in S0 ==> Score(cores, (c, g)) == Max(scCur, M[g]) && Max(scCur, M[g]) < maxDistance
    {
      ghost var A0 := Assigns();
      AddFacility(c);
      UpdateM();
      CoresAfterAdd(c, A0, cores);
      ScoresAfterAdd(c, S0, cores);
    }

    /** Opens c, scores every swap (c, g) with g open before, and sorts each into its class. */
    method OpenAndScore(c: int, step: int, tabuf0: int, noTabuf0: int,
                        ghost S0: set<int>, ghost cores: seq<Core>, ghost sc: map<(int, int), int>)
      returns (tabuf: int, noTabuf: int, ghost sc': map<(int, int), int>)
      requires Valid() && GraphOk() && Consistent()
      requires S == S0 && |S0| >= 2 && 0 <= c < n && c !in S0 && Cores() == cores
      requires forall m :: m in sc ==> m.0 != c
      requires ClassOk(sc, tabuMv, tabuf0, true, step) && ClassOk(sc, noTabuMv, noTabuf0, false, step)
      modifies this`S, this`scCur, D, F, M, this`tabuMv, this`noTabuMv
      ensures S == S0 + {c} && Consistent()
      ensures forall v :: 0 <= v < n ==> At(v) == AddAt(G[c, v], c, old(At(v)))
      ensures forall m :: m in sc ==> m in sc' && sc'[m] == sc[m]
      ensures forall g :: g in S0 ==> (c, g) in sc' && sc'[(c, g)] == Score(cores, (c, g))
      ensures forall m :: m in sc' ==> m in sc || (m.0 == c && m.1 in S0)
      ensures ClassOk(sc', tabuMv, tabuf, true, step) && ClassOk(sc', noTabuMv, noTabuf, false, step)
    {
      OpenCandidate(c, S0, cores);
      tabuf, noTabuf, sc' := ScoreMoves(c, step, tabuf0, noTabuf0, S0, sc);
    }

    /**
     * Closes c again: every node gets back the core entries it had before c
     * opened, and the two classes of evaluated swaps are left as they are.
     */
    method CloseCandidate(c: int, step: int, tabuf: int, noTabuf: int,
                          ghost S0: set<int>, ghost A0: seq<Assign>, ghost cores: seq<Core>, ghost sc: map<(int, int), int>)
      requires Valid() && GraphOk() && Consistent()
      requires S == S0 + {c} && |S0| >= 2 && 0 <= c < n && c !in S0 && |A0| == n && |cores| == n
      requires forall v :: 0 <= v < n ==> EntryOk(G, S0, n, maxDistance, v, A0[v]) && CoreOf(A0[v]) == cores[v]
      requires forall v :: 0 <= v < n ==> At(v) == AddAt(G[c, v], c, A0[v])
      requires ClassOk(sc, tabuMv, tabuf, true, step) && ClassOk(sc, noTabuMv, noTabuf, false, step)
      modifies this`S, this`scCur, D, F
      ensures S == S0 && Cores() == cores && Consistent() && Tracked()
      ensures ClassOk(sc, tabuMv, tabuf, true, step) && ClassOk(sc, noTabuMv, noTabuf, false, step)
    {
      RestoreCores(c, S0, A0, cores);
    }

    /** Closes c, opened on top of S0, and proves the cores are back to what they were. */
    method RestoreCores(c: int, ghost S0: set<int>, ghost A0: seq<Assign>, ghost cores: seq<Core>)
      requires Valid() && GraphOk() && Consistent()
      requires S == S0 + {c} && |S0| >= 2 && 0 <= c < n && c !in S0 && |A0| == n && |cores| == n
      requires forall v :: 0 <= v < n ==> EntryOk(G, S0, n, maxDistance, v, A0[v]) && CoreOf(A0[v]) == cores[v]
      requires forall v :: 0 <= v < n ==> At(v) == AddAt(G[c, v], c, A0[v])
      modifies this`S, this`scCur, D, F
      ensures S == S0 && Cores() == cores && Consistent() && Tracked()
    {
      ghost var A1 := Assigns();
      CardAdd(S0, c);
      assert S - {c} == S0;
      RemoveFacility(c);
      RoundTripAll(c, S0, A0, A1, Assigns());
      CoresAre(cores);
    }

    /**
     * Evaluates every swap that opens c: opens c, recomputes M, scores the
     * swaps (c, f) for every other open f, and closes c again.
     */
    method EvaluateCandidate(c: int, step: int, tabuf0: int, noTabuf0: int,
                             ghost S0: set<int>, ghost cores: seq<Core>, ghost sc: map<(int, int), int>)
      returns (tabuf: int, noTabuf: int, ghost sc': map<(int, int), int>)
      requires Valid() && GraphOk() && Consistent()
      requires S == S0 && |S0| >= 2 && 0 <= c < n && c !in S0 && Cores() == cores
      requires forall m :: m in sc ==> m.0 != c
      requires ClassOk(sc, tabuMv, tabuf0, true, step) && ClassOk(sc, noTabuMv, noTabuf0, false, step)
      modifies this`S, this`scCur, D, F, M, this`tabuMv, this`noTabuMv
      ensures S == S0 && Cores() == cores && Consistent() && Tracked()
      ensures forall m :: m in sc ==> m in sc' && sc'[m] == sc[m]
      ensures forall g :: g in S0 ==> (c, g) in sc' && sc'[(c, g)] == Score(cores, (c, g))
      ensures forall m :: m in sc' ==> m in sc || (m.0 == c && m.1 in S0)
      ensures ClassOk(sc', tabuMv, tabuf, true, step) && ClassOk(sc', noTabuMv, noTabuf, false, step)
    {
      ghost var A0 := Assigns();
      assert forall v :: 0 <= v < n ==> EntryOk(G, S0, n, maxDistance, v, A0[v]) && CoreOf(A0[v]) == cores[v];
      tabuf, noTabuf, sc' := OpenAndScore(c, step, tabuf0, noTabuf0, S0, cores, sc);
      CloseCandidate(c, step, tabuf, noTabuf, S0, A0, cores, sc');
    }

    /**
     * The evaluated swaps sc are exactly the pairs (c, g) with c in cs and g
     * in s0, each mapped to its score from the cores.
     */
    ghost predicate Evaluated(sc: map<(int, int), int>, cores: seq<Core>, cs: seq<int>, s0: set<int>)
      reads G
      requires Valid() && |cores| == n
    {
      && (forall m :: m in sc ==> 0 <= m.0 < n && m.0 in cs && m.1 in s0 && sc[m] == Score(cores, m))
      && (forall c, g {:trigger (c, g) in sc} :: c in cs && g in s0 ==> (c, g) in sc)
    }

    /** The rows of the distance matrix, as a value. */
    ghost function Rows(): (rows: seq<seq<int>>)
      reads G
      requires Valid()
      ensures |rows| == n && forall c :: 0 <= c < n ==> rows[c] == GRow(c)
    {
      seq(n, c requires 0 <= c < n reads G => GRow(c))
    }

    /** Evaluated, stated on the rows of the distance matrix as a value. */
    ghost predicate Scored(sc: map<(int, int), int>, cores: seq<Core>, rows: seq<seq<int>>, cs: seq<int>, s0: set<int>)
      requires |rows| == n
    {
      && 0 < n && |cores| == n && (forall c :: 0 <= c < n ==> |rows[c]| == n)
      && (forall m {:trigger m in sc} :: m in sc ==> 0 <= m.0 < n && m.0 in cs && m.1 in s0)
      && (forall m {:trigger SwapScore(cores, rows[m.0], m.0, m.1)} :: m in sc && 0 <= m.0 < n ==> sc[m] == SwapScore(cores, rows[m.0], m.0, m.1))
      && (forall c, g {:trigger (c, g) in sc} :: c in cs && g in s0 ==> (c, g) in sc)
    }

    /**
     * The swaps of a candidate in cs and an open node of s0 were scored as
     * sc, and mv was picked from them by the selection rule.
     */
    ghost predicate Decided(sc: map<(int, int), int>, mv: (int, int), cores: seq<Core>, rows: seq<seq<int>>,
                            cs: seq<int>, s0: set<int>, tabu: set<(int, int)>, best: int)
      requires |rows| == n
    {
      Scored(sc, cores, rows, cs, s0) && Rule(sc, mv, tabu, best)
    }

    /** Evaluated swaps are scored by the rows of G. */
    lemma EvaluatedIsScored(sc: map<(int, int), int>, cores: seq<Core>, cs: seq<int>, s0: set<int>)
      requires Valid() && |cores| == n && Evaluated(sc, cores, cs, s0)
      ensures Scored(sc, cores, Rows(), cs, s0)
    {
    }

    /** No node is listed twice among the candidates. */
    ghost predicate CandidatesDistinct()
      reads this
    {
      forall i, j :: 0 <= i < j < |candidates| ==> candidates[i] != candidates[j]
    }

    /** The swaps of the i-th candidate are not among those of the candidates before it. */
    lemma NotYetEvaluated(sc: map<(int, int), int>, cores: seq<Core>, s0: set<int>, i: int)
      requires Valid() && |cores| == n && CandidatesDistinct() && 0 <= i < |candidates|
      requires Evaluated(sc, cores, candidates[..i], s0)
      ensures forall m :: m in sc ==> m.0 != candidates[i]
    {
      forall m | m in sc
        ensures m.0 != candidates[i]
      {
        var j :| 0 <= j < i && candidates[..i][j] == m.0;
      }
    }

    /** Adding the swaps of one more candidate c extends the evaluated pairs by c's row. */
    lemma EvaluatedStep(sc0: map<(int, int), int>, sc: map<(int, int), int>, cores: seq<Core>,
                        cs: seq<int>, c: int, s0: set<int>)
      requires Valid() && |cores| == n && 0 <= c < n
      requires Evaluated(sc0, cores, cs, s0)
      requires forall m :: m in sc0 ==> m in sc && sc[m] == sc0[m]
      requires forall g :: g in s0 ==> (c, g) in sc && sc[(c, g)] == Score(cores, (c, g))
      requires forall m :: m in sc ==> m in sc0 || (m.0 == c && m.1 in s0)
      ensures Evaluated(sc, cores, cs + [c], s0)
    {
    }

    /**
     * Scores every swap that opens a candidate and closes an open node,
     * starting both classes empty; D, F and S end as they began.
     */
    method EvaluateAll(step: int) returns (tabuf: int, noTabuf: int, ghost sc: map<(int, int), int>)
      requires Valid() && GraphOk() && Consistent() && Tracked() && |S| >= 2
      requires forall k :: 0 <= k < |candidates| ==> 0 <= candidates[k] < n && candidates[k] !in S
      requires CandidatesDistinct()
      modifies this`S, this`scCur, D, F, M, this`tabuMv, this`noTabuMv
      ensures S == old(S) && Cores() == old(Cores()) && Consistent() && Tracked()
      ensures Evaluated(sc, old(Cores()), candidates, S)
      ensures ClassOk(sc, tabuMv, tabuf, true, step) && ClassOk(sc, noTabuMv, noTabuf, false, step)
    {
      tabuf, noTabuf := maxDistance, maxDistance;
      tabuMv, noTabuMv := [], [];
      sc := map[];
      ghost var S0 := S;
      ghost var cores := Cores();
      ghost var cs := candidates;
      for i := 0 to |candidates|
        invariant S == S0 && Cores() == cores && Consistent() && Tracked()
        invariant Evaluated(sc, cores, cs[..i], S0)
        invariant ClassOk(sc, tabuMv, tabuf, true, step) && ClassOk(sc, noTabuMv, noTabuf, false, step)
      {
        var c := candidates[i];
        assert cs[..i + 1] == cs[..i] + [c];
        NotYetEvaluated(sc, cores, S0, i);
        ghost var sc0 := sc;
        tabuf, noTabuf, sc := EvaluateCandidate(c, step, tabuf, noTabuf, S0, cores, sc);
        EvaluatedStep(sc0, sc, cores, cs[..i], c, S0);
      }
      assert cs[..|cs|] == cs;
    }

    /**
     * The selection rule: mv is an evaluated swap with the smallest score of
     * its class.  A tabu swap is chosen only when it beats both the best
     * radius so far and every non-tabu swap (aspiration), or when there is no
     * non-tabu swap; a non-tabu swap is chosen only when no tabu swap beats
     * both the best radius so far and it.
     */
    ghost predicate Chosen(sc: map<(int, int), int>, mv: (int, int), step: int)
      reads this`scBest, T
      requires Valid() && forall m :: m in sc ==> 0 <= m.0 < n && 0 <= m.1 < n
    {
      && mv in sc
      && (IsTabu(mv, step) ==>
            && (forall m :: m in sc && IsTabu(m, step) ==> sc[mv] <= sc[m])
            && ((sc[mv] < scBest && forall m :: m in sc && !IsTabu(m, step) ==> sc[mv] < sc[m])
                || forall m :: m in sc ==> IsTabu(m, step)))
      && (!IsTabu(mv, step) ==>
            && (forall m :: m in sc && !IsTabu(m, step) ==> sc[mv] <= sc[m])
            && forall m :: m in sc && IsTabu(m, step) ==> !(sc[m] < scBest && sc[m] < sc[mv]))
    }

    /**
     * The selection rule on values, where tabu holds the evaluated swaps that
     * are tabu and best is the best radius so far.
     */
    ghost predicate Rule(sc: map<(int, int), int>, mv: (int, int), tabu: set<(int, int)>, best: int)
    {
      && mv in sc
      && (mv in tabu ==>
            && (forall m :: m in sc && m in tabu ==> sc[mv] <= sc[m])
            && ((sc[mv] < best && forall m :: m in sc && m !in tabu ==> sc[mv] < sc[m])
                || forall m :: m in sc ==> m in tabu))
      && (mv !in tabu ==>
            && (forall m :: m in sc && m !in tabu ==> sc[mv] <= sc[m])
            && forall m :: m in sc && m in tabu ==> !(sc[m] < best && sc[m] < sc[mv]))
    }

    /** The evaluated swaps that are tabu at iteration `step`. */
    ghost function TabuAmong(sc: map<(int, int), int>, step: int): (tabu: set<(int, int)>)
      reads T
      requires Valid() && forall m :: m in sc ==> 0 <= m.0 < n && 0 <= m.1 < n
      ensures forall m :: m in sc ==> (m in tabu <==> IsTabu(m, step))
    {
      set m | m in sc && IsTabu(m, step)
    }

    /** Chosen is the rule on values, with the tabu swaps and best radius of the current state. */
    lemma ChosenIsRule(sc: map<(int, int), int>, mv: (int, int), step: int)
      requires Valid() && forall m :: m in sc ==> 0 <= m.0 < n && 0 <= m.1 < n
      requires Chosen(sc, mv, step)
      ensures Rule(sc, mv, TabuAmong(sc, step), scBest)
    {
    }

    /**
     * Evaluates every swap (c, f) of a listed candidate c and an open f, and
     * picks one by the selection rule; D, F and S end as they began.
     */
    method EvaluateAndSelect(step: int, pick: nat, ghost cores: seq<Core>) returns (mv: (int, int), ghost sc: map<(int, int), int>)
      requires Valid() && GraphOk() && Consistent() && Tracked() && 2 <= |S| && cores == Cores()
      requires forall k :: 0 <= k < |candidates| ==> 0 <= candidates[k] < n && candidates[k] !in S
      requires CandidatesDistinct() && candidates != []
      modifies this`S, this`scCur, D, F, M, this`tabuMv, this`noTabuMv
      ensures S == old(S) && Cores() == cores && Consistent() && Tracked()
      ensures 0 <= mv.0 < n && mv.0 in candidates && mv.0 !in S && mv.1 in S
      ensures Evaluated(sc, cores, candidates, S) && Chosen(sc, mv, step)
    {
      TwoLeft(S, n);
      ghost var g := OtherMember(S, n);
      ghost var c := candidates[0];
      var tabuf, noTabuf;
      tabuf, noTabuf, sc := EvaluateAll(step);
      assert (c, g) in sc;
      mv := Select(step, tabuf, noTabuf, pick, sc);
    }

    /**
     * The candidate list of a state with cores `cores`, open set s0 and
     * radius `radius`: vertex is a bottleneck node (its nearest distance is
     * the radius), and cs lists, in sortedG order, exactly the closed nodes
     * that come before vertex's nearest center in vertex's row of sortedG.
     */
    ghost predicate Neighbourhood(cores: seq<Core>, s0: set<int>, radius: int, vertex: int, cs: seq<int>)
      reads G
      requires Valid() && |cores| == n
    {
      && 0 <= vertex < n && cores[vertex].d0 == radius && 0 <= cores[vertex].f0 < n
      && (forall k :: 0 <= k < |cs| ==> 0 <= cs[k] < n)
      && (forall u :: u in cs <==> 0 <= u < n && u !in s0 && Before(vertex, u, cores[vertex].f0))
      && (forall i, j :: 0 <= i < j < |cs| ==> Before(vertex, cs[i], cs[j]))
    }

    /** findPair: lists the candidates around a bottleneck node, then evaluates and selects. */
    method FindPair(step: int, pick: nat, ghost cores: seq<Core>, ghost cur: int)
      returns (mv: (int, int), ghost sc: map<(int, int), int>, ghost vertex: int)
      requires Valid() && GraphOk() && IndexOk() && Consistent() && Tracked() && 2 <= |S| < n
      requires cores == Cores() && cur == scCur
      modifies this`S, this`scCur, D, F, M, this`tabuMv, this`noTabuMv, this`candidates
      ensures S == old(S) && Cores() == cores && Consistent() && Tracked()
      ensures Neighbourhood(cores, S, cur, vertex, candidates)
      ensures 0 <= mv.0 < n && mv.0 in candidates && mv.0 !in S && mv.1 in S
      ensures Evaluated(sc, cores, candidates, S) && Chosen(sc, mv, step)
    {
      vertex := Candidate();
      assert Cores() == cores && CandidatesDistinct();
      assert Neighbourhood(cores, S, scCur, vertex, candidates);
      mv, sc := EvaluateAndSelect(step, pick, cores);
    }

    /**
     * The swap the rule selects: a tabu swap of least score when it beats
     * both the best radius so far and the best non-tabu score, or when there
     * is no non-tabu swap; otherwise a non-tabu swap of least score.  Among
     * equals, `pick` stands for the random draw.
     */
    function Select(step: int, tabuf: int, noTabuf: int, pick: nat, ghost sc: map<(int, int), int>): (mv: (int, int))
      reads this, T
      requires Valid() && |sc| > 0
      requires ClassOk(sc, tabuMv, tabuf, true, step) && ClassOk(sc, noTabuMv, noTabuf, false, step)
      ensures Chosen(sc, mv, step)
    {
      var picks := if (tabuf < scBest && tabuf < noTabuf) || noTabuMv == [] then tabuMv else noTabuMv;
      SelectionWellDefined(sc, tabuf, noTabuf, step, picks);
      var mv := picks[pick % |picks|];
      SelectionRule(sc, tabuf, noTabuf, step, picks, mv);
      mv
    }

    /** The class the rule picks from is never empty once some swap was evaluated. */
    lemma SelectionWellDefined(sc: map<(int, int), int>, tabuf: int, noTabuf: int, step: int, picks: seq<(int, int)>)
      requires Valid() && |sc| > 0
      requires ClassOk(sc, tabuMv, tabuf, true, step) && ClassOk(sc, noTabuMv, noTabuf, false, step)
      requires picks == if (tabuf < scBest && tabuf < noTabuf) || noTabuMv == [] then tabuMv else noTabuMv
      ensures |picks| > 0 && picks[0] in picks
    {
      var m :| m in sc;
    }

    /** A swap picked from the class the rule names satisfies the selection rule. */
    lemma SelectionRule(sc: map<(int, int), int>, tabuf: int, noTabuf: int, step: int,
                        picks: seq<(int, int)>, mv: (int, int))
      requires Valid() && |sc| > 0
      requires ClassOk(sc, tabuMv, tabuf, true, step) && ClassOk(sc, noTabuMv, noTabuf, false, step)
      requires picks == if (tabuf < scBest && tabuf < noTabuf) || noTabuMv == [] then tabuMv else noTabuMv
      requires mv in picks
      ensures Chosen(sc, mv, step)
    {
    }

    /**
     * Opens c and closes f, keeping the number of open centers; the new
     * radius is the score of the swap computed from the cores before it.
     */
    method SwapCenters(c: int, f: int, ghost cores: seq<Core>)
      requires Valid() && GraphOk() && Consistent() && |S| >= 2 && cores == Cores()
      requires 0 <= c < n && c !in S && f in S
      modifies this`S, this`scCur, D, F
      ensures S == old(S) + {c} - {f} && |S| == old(|S|) && Consistent() && Tracked()
      ensures scCur == Score(cores, (c, f))
    {
      ghost var S0 := S;
      ghost var A1 := OpenForSwap(c, cores);
      CloseForSwap(c, f, cores, S0, A1);
    }

    /** addFacility(c) ahead of a swap: the entries are then those AddAll computes, in order. */
    method OpenForSwap(c: int, ghost cores: seq<Core>) returns (ghost A1: seq<Assign>)
      requires Valid() && GraphOk() && Consistent() && |S| >= 2 && cores == Cores()
      requires 0 <= c < n && c !in S
      modifies this`S, this`scCur, D, F
      ensures S == old(S) + {c} && Consistent() && A1 == Assigns()
      ensures forall v :: 0 <= v < n ==> CoreOf(A1[v]) == AddAll(cores, GRow(c), c)[v] && 0 <= A1[v].d0 <= A1[v].d1
    {
      ghost var A0 := Assigns();
      AddFacility(c);
      CoresAfterAdd(c, A0, cores);
      EntriesOrdered();
      A1 := Assigns();
    }

    /** removeFacility(f) to complete a swap that opened c: the radius becomes the swap's score. */
    method CloseForSwap(c: int, f: int, ghost cores: seq<Core>, ghost S0: set<int>, ghost A1: seq<Assign>)
      requires Valid() && GraphOk() && Consistent() && |S0| >= 2 && 0 <= c < n && |cores| == n
      requires S == S0 + {c} && f in S0 && c !in S0 && A1 == Assigns()
      requires forall v :: 0 <= v < n ==> CoreOf(A1[v]) == AddAll(cores, GRow(c), c)[v] && 0 <= A1[v].d0 <= A1[v].d1
      modifies this`S, this`scCur, D, F
      ensures S == S0 + {c} - {f} && |S| == |S0| && Consistent() && Tracked()
      ensures scCur == Score(cores, (c, f))
    {
      CardAdd(S0, c);
      RemoveFacility(f);
      CardRemove(S0 + {c}, f);
      RadiusIsScore(c, f, cores, A1);
    }

    /** With a center open, every node's nearest distance is at most its second nearest. */
    lemma EntriesOrdered()
      requires Consistent() && GraphOk() && S != {}
      ensures forall v :: 0 <= v < n ==> 0 <= D[0, v] <= D[1, v]
    {
      forall v | 0 <= v < n
        ensures 0 <= D[0, v] <= D[1, v]
      {
        assert EntryOk(G, S, n, maxDistance, v, At(v));
        NearestNotFarther(G, S, n, maxDistance, v, At(v));
      }
    }

    /**
     * Once f has closed after c opened, the radius is the score the swap
     * (c, f) was given: max(radius with c open, M[f]).
     */
    lemma RadiusIsScore(c: int, f: int, cores: seq<Core>, A1: seq<Assign>)
      requires Valid() && Tracked() && 0 <= c < n && |cores| == n && |A1| == n
      requires forall v :: 0 <= v < n ==> CoreOf(A1[v]) == AddAll(cores, GRow(c), c)[v] && 0 <= A1[v].d0 <= A1[v].d1
      requires InRange(S, n) && forall v :: 0 <= v < n ==> RemovedAt(G, S, n, v, f, A1[v], At(v))
      ensures scCur == Score(cores, (c, f))
    {
      var a := AddAll(cores, GRow(c), c);
      forall v | 0 <= v < n
        ensures Row0()[v] == ClosedD0s(a, f)[v]
      {
        assert RemovedAt(G, S, n, v, f, A1[v], At(v));
      }
      assert Row0() == ClosedD0s(a, f);
      ScoreIsRadiusAfterClose(a, f);
    }

    /** T[c, f] = T[f, c] = until, and no other entry of T changes. */
    method MakeTabu(c: int, f: int, until: int)
      requires Valid() && 0 <= c < n && 0 <= f < n
      modifies T
      ensures forall i, j :: 0 <= i < n && 0 <= j < n ==>
        T[i, j] == if (i == c && j == f) || (i == f && j == c) then until else old(T[i, j])
    {
      T[c, f] := until;
      T[f, c] := until;
    }

    /**
     * One iteration of the search: opens c, closes f, makes the swap and its
     * reverse tabu until iteration tt + iterTime, and records S as the best
     * set when the radius strictly improves on the best so far.
     */
    method ApplySwap(c: int, f: int, iterTime: int, ghost cores: seq<Core>)
      requires Valid() && GraphOk() && Consistent() && |S| >= 2 && cores == Cores()
      requires 0 <= c < n && c !in S && f in S
      modifies this`S, this`scCur, this`scBest, this`bestS, D, F, T
      ensures S == old(S) + {c} - {f} && |S| == old(|S|) && Consistent() && Tracked()
      ensures scCur == Score(cores, (c, f))
      ensures forall i, j :: 0 <= i < n && 0 <= j < n ==>
        T[i, j] == if (i == c && j == f) || (i == f && j == c) then tt + iterTime else old(T[i, j])
      ensures scBest == (if scCur < old(scBest) then scCur else old(scBest))
      ensures bestS == (if scCur < old(scBest) then S else old(bestS))
    {
      SwapCenters(c, f, cores);
      MakeTabu(c, f, tt + iterTime);
      KeepBest();
    }

    /** Lowers scBest to scCur and records S as bestS when the radius strictly improves on the best so far. */
    method KeepBest()
      modifies this`scBest, this`bestS
      ensures scBest == (if scCur < old(scBest) then scCur else old(scBest))
      ensures bestS == (if scCur < old(scBest) then S else old(bestS))
    {
      if scCur < scBest {
        scBest := scCur;
        bestS := S;
      }
    }

    /**
     * findPair as the search loop uses it: a swap of a closed node for an
     * open one, picked by the selection rule among all evaluated swaps; the
     * open set is unchanged.
     */
    method PickSwap(step: int, pick: nat, ghost cores: seq<Core>, ghost cur: int)
      returns (mv: (int, int), ghost sc: map<(int, int), int>, ghost tabu: set<(int, int)>, ghost vertex: int)
      requires Valid() && GraphOk() && IndexOk() && Consistent() && Tracked() && 2 <= |S| < n
      requires cores == Cores() && cur == scCur
      modifies this`S, this`scCur, D, F, M, this`tabuMv, this`noTabuMv, this`candidates
      ensures S == old(S) && Cores() == cores && Consistent() && Tracked()
      ensures forall m :: m in sc ==> 0 <= m.0 < n && 0 <= m.1 < n && (m in tabu <==> T[m.0, m.1] > step)
      ensures Picked(sc, mv, cores, Rows(), candidates, S, cur, tabu, scBest, vertex)
    {
      mv, sc, vertex := FindPair(step, pick, cores, cur);
      PickedBy(sc, mv, cores, Rows(), candidates, S, cur, vertex, step);
      tabu := TabuAmong(sc, step);
    }

    /** What FindPair ensures, stated on values as Picked. */
    lemma PickedBy(sc: map<(int, int), int>, mv: (int, int), cores: seq<Core>, rows: seq<seq<int>>, cs: seq<int>,
                   s0: set<int>, cur: int, vertex: int, step: int)
      requires Valid() && |cores| == n && rows == Rows()
      requires Neighbourhood(cores, s0, cur, vertex, cs)
      requires 0 <= mv.0 < n && mv.0 !in s0 && mv.1 in s0 && InRange(s0, n)
      requires Evaluated(sc, cores, cs, s0) && Chosen(sc, mv, step)
      ensures Picked(sc, mv, cores, rows, cs, s0, cur, TabuAmong(sc, step), scBest, vertex)
    {
      EvaluatedIsScored(sc, cores, cs, s0);
      ChosenIsRule(sc, mv, step);
    }

    /**
     * How findPair picked mv in a state with open set s0, radius cur and best
     * radius best: vertex is a bottleneck node and cs its candidate list, and
     * mv, which opens a closed node and closes an open one, was picked by the
     * selection rule among the scored swaps sc.
     */
    ghost predicate Picked(sc: map<(int, int), int>, mv: (int, int), cores: seq<Core>, rows: seq<seq<int>>, cs: seq<int>,
                           s0: set<int>, cur: int, tabu: set<(int, int)>, best: int, vertex: int)
      reads G
      requires Valid() && |cores| == n && |rows| == n
    {
      && 0 <= mv.0 < n && mv.0 !in s0 && mv.1 in s0
      && Neighbourhood(cores, s0, cur, vertex, cs)
      && Decided(sc, mv, cores, rows, cs, s0, tabu, best)
    }

    /**
     * One iteration from open set s0: mv was picked as Picked says, and it
     * leads to the open set s1, whose radius r is the score mv was picked with.
     */
    ghost predicate Stepped(sc: map<(int, int), int>, mv: (int, int), cores: seq<Core>, rows: seq<seq<int>>, cs: seq<int>,
                            s0: set<int>, cur: int, tabu: set<(int, int)>, best: int, vertex: int, s1: set<int>, r: int)
      reads G
      requires Valid() && |cores| == n && |rows| == n
    {
      && Picked(sc, mv, cores, rows, cs, s0, cur, tabu, best, vertex)
      && s1 == s0 + {mv.0} - {mv.1} && mv in sc && r == sc[mv]
    }

    /**
     * ApplySwap, carrying the facts about how the swap was picked: the new
     * radius is the score the swap was picked with.
     */
    method Commit(mv: (int, int), iterTime: int, ghost sc: map<(int, int), int>, ghost cores: seq<Core>,
                  ghost rows: seq<seq<int>>, ghost cs: seq<int>, ghost cur: int, ghost vertex: int,
                  ghost tabu: set<(int, int)>, ghost best: int)
      requires Valid() && GraphOk() && Consistent() && |S| >= 2 && cores == Cores() && rows == Rows()
      requires Picked(sc, mv, cores, rows, cs, S, cur, tabu, best, vertex)
      modifies this`S, this`scCur, this`scBest, this`bestS, D, F, T
      ensures |S| == old(|S|) && Consistent() && Tracked()
      ensures Stepped(sc, mv, cores, rows, cs, old(S), cur, tabu, best, vertex, S, scCur)
      ensures forall i, j :: 0 <= i < n && 0 <= j < n ==>
        T[i, j] == if (i == mv.0 && j == mv.1) || (i == mv.1 && j == mv.0) then tt + iterTime else old(T[i, j])
      ensures scBest == (if scCur < old(scBest) then scCur else old(scBest))
      ensures bestS == (if scCur < old(scBest) then S else old(bestS))
    {
      assert sc[mv] == SwapScore(cores, rows[mv.0], mv.0, mv.1);
      ApplySwap(mv.0, mv.1, iterTime, cores);
    }

    /**
     * The body of the search loop: finds a swap by the selection rule,
     * applies it, makes it and its reverse tabu until iteration
     * tt + iterTime, and records S as the best set when the radius strictly
     * improves on the best so far.
     */
    method Iterate(iterTime: int, pick: nat)
      returns (ghost mv: (int, int), ghost sc: map<(int, int), int>, ghost cores: seq<Core>, ghost rows: seq<seq<int>>,
               ghost tabu: set<(int, int)>, ghost vertex: int)
      requires Valid() && GraphOk() && IndexOk() && Consistent() && Tracked() && 2 <= |S| < n
      modifies this, D, F, M, T
      ensures |S| == old(|S|) && Consistent() && Tracked() && GraphOk() && IndexOk()
      ensures cores == old(Cores()) && rows == Rows()
      ensures Stepped(sc, mv, cores, rows, candidates, old(S), old(scCur), tabu, old(scBest), vertex, S, scCur)
      ensures forall m :: m in sc ==> 0 <= m.0 < n && 0 <= m.1 < n && (m in tabu <==> old(T[m.0, m.1]) > iterTime)
      ensures forall i, j :: 0 <= i < n && 0 <= j < n ==>
        T[i, j] == if (i == mv.0 && j == mv.1) || (i == mv.1 && j == mv.0) then tt + iterTime else old(T[i, j])
      ensures scBest == (if scCur < old(scBest) then scCur else old(scBest))
      ensures bestS == (if scCur < old(scBest) then S else old(bestS))
    {
      cores := Cores();
      ghost var cur := scCur;
      var m;
      m, sc, tabu, vertex := PickSwap(iterTime, pick, cores, cur);
      rows := Rows();
      Commit(m, iterTime, sc, cores, rows, candidates, cur, vertex, tabu, scBest);
      mv := m;
    }

    /**
     * After a step, the score the swap was picked with is the coverage
     * radius of the open set the swap leads to.
     */
    lemma StepIsCover(sc: map<(int, int), int>, mv: (int, int), cores: seq<Core>, rows: seq<seq<int>>, cs: seq<int>,
                      s0: set<int>, cur: int, tabu: set<(int, int)>, best: int, vertex: int)
      requires Consistent() && Tracked() && |cores| == n && |rows| == n
      requires Stepped(sc, mv, cores, rows, cs, s0, cur, tabu, best, vertex, S, scCur)
      ensures mv in sc && S == s0 + {mv.0} - {mv.1} && S != {} && sc[mv] == CoverRadius(G, S, n)
    {
      assert mv.0 in S;
      RadiusIsCover();
    }

    /** With a center open, scCur is the coverage radius of S. */
    lemma RadiusIsCover()
      requires Consistent() && Tracked() && S != {}
      ensures scCur == CoverRadius(G, S, n)
    {
      forall v | 0 <= v < n
        ensures Row0()[v] == NearestRow(G, S, n)[v]
      {
        assert EntryOk(G, S, n, maxDistance, v, At(v));
        NearestIsNearestDist(G, S, v, D[0, v], F[0, v]);
      }
      MaxOfSame(Row0(), NearestRow(G, S, n));
    }

    /**
     * A search path: trail[k] is the open set after k swaps, each of p
     * nodes, radii[k] its coverage radius, and moves[k] the swap that leads
     * from trail[k] to trail[k + 1], opening a closed node and closing an
     * open one.
     */
    ghost predicate Path(trail: seq<set<int>>, moves: seq<(int, int)>, radii: seq<int>)
      reads G
      requires Valid() && 0 < p
      decreases |moves|
    {
      && |trail| == |radii| == |moves| + 1
      && var last := trail[|trail| - 1];
      && |last| == p && InRange(last, n) && radii[|radii| - 1] == CoverRadius(G, last, n)
      && (|moves| > 0 ==>
            var k := |moves| - 1;
            && moves[k].0 !in trail[k] && moves[k].1 in trail[k] && last == trail[k] + {moves[k].0} - {moves[k].1}
            && Path(trail[..k + 1], moves[..k], radii[..k + 1]))
    }

    /** Every open set of a path, every radius on it and every move along it. */
    lemma {:induction false} PathSteps(trail: seq<set<int>>, moves: seq<(int, int)>, radii: seq<int>)
      requires Valid() && 0 < p && Path(trail, moves, radii)
      ensures forall k :: 0 <= k < |trail| ==>
        |trail[k]| == p && InRange(trail[k], n) && radii[k] == CoverRadius(G, trail[k], n)
      ensures forall k :: 0 <= k < |moves| ==>
        moves[k].0 !in trail[k] && moves[k].1 in trail[k] && trail[k + 1] == trail[k] + {moves[k].0} - {moves[k].1}
      decreases |moves|
    {
      if |moves| > 0 {
        var k := |moves| - 1;
        var trail0, moves0, radii0 := trail[..k + 1], moves[..k], radii[..k + 1];
        PathSteps(trail0, moves0, radii0);
        forall i | 0 <= i < |trail|
          ensures |trail[i]| == p && InRange(trail[i], n) && radii[i] == CoverRadius(G, trail[i], n)
        {
          if i <= k {
            assert trail[i] == trail0[i] && radii[i] == radii0[i];
          }
        }
        forall i | 0 <= i < |moves|
          ensures moves[i].0 !in trail[i] && moves[i].1 in trail[i] && trail[i + 1] == trail[i] + {moves[i].0} - {moves[i].1}
        {
          if i < k {
            assert moves[i] == moves0[i] && trail[i] == trail0[i] && trail[i + 1] == trail0[i + 1];
          }
        }
      }
    }

    /** A swap from the last open set of a path extends the path. */
    lemma PathStep(trail: seq<set<int>>, moves: seq<(int, int)>, radii: seq<int>, s: set<int>, mv: (int, int), r: int)
      requires Valid() && 0 < p && Path(trail, moves, radii)
      requires mv.0 !in trail[|trail| - 1] && mv.1 in trail[|trail| - 1] && s == trail[|trail| - 1] + {mv.0} - {mv.1}
      requires |s| == p && InRange(s, n) && r == CoverRadius(G, s, n)
      ensures Path(trail + [s], moves + [mv], radii + [r])
    {
      assert (trail + [s])[..|trail|] == trail && (moves + [mv])[..|moves|] == moves && (radii + [r])[..|radii|] == radii;
    }

    /**
     * One more swap, to s at radius r, extends the record: the best radius
     * drops to r only when r is strictly smaller, and then s becomes the
     * best set.
     */
    lemma Extend(trail: seq<set<int>>, moves: seq<(int, int)>, radii: seq<int>, cur: int, best: int, bs: set<int>,
                 s: set<int>, mv: (int, int), r: int)
      requires Valid() && 0 < p && |trail| > 0 && Recorded(trail, moves, radii, trail[|trail| - 1], cur, best, bs)
      requires mv.0 !in trail[|trail| - 1] && mv.1 in trail[|trail| - 1] && s == trail[|trail| - 1] + {mv.0} - {mv.1}
      requires |s| == p && InRange(s, n) && r == CoverRadius(G, s, n)
      ensures Recorded(trail + [s], moves + [mv], radii + [r], s, r, if r < best then r else best, if r < best then s else bs)
    {
      PathStep(trail, moves, radii, s, mv, r);
    }

    /**
     * The record of a search: s is the last open set of the path and cur its
     * radius, best is the least radius on the path, and bs, once set, is an
     * open set of the path whose radius is best.
     */
    ghost predicate Recorded(trail: seq<set<int>>, moves: seq<(int, int)>, radii: seq<int>, s: set<int>, cur: int, best: int, bs: set<int>)
      reads G
      requires Valid() && 0 < p
    {
      && Path(trail, moves, radii) && trail[|trail| - 1] == s && radii[|radii| - 1] == cur
      && best in radii && (forall r :: r in radii ==> best <= r) && best <= cur
      && (bs != {} ==> bs in trail && InRange(bs, n) && CoverRadius(G, bs, n) == best)
      && (bs == {} || |bs| == p)
    }

    /** What the search loop keeps: the solver's state is consistent, and the path records S, scCur, scBest and bestS. */
    ghost predicate Searching(trail: seq<set<int>>, moves: seq<(int, int)>, radii: seq<int>)
      reads this, G, sortedG, D, F
      requires Valid() && 0 < p
    {
      && GraphOk() && IndexOk() && Consistent() && Tracked() && |S| == p && p < n
      && Recorded(trail, moves, radii, S, scCur, scBest, bestS)
    }

    /** One iteration of the search loop, recorded on the path. */
    method Advance(iterTime: int, pick: nat, ghost trail: seq<set<int>>, ghost moves: seq<(int, int)>, ghost radii: seq<int>)
      returns (ghost trail': seq<set<int>>, ghost moves': seq<(int, int)>, ghost radii': seq<int>)
      requires Valid() && 2 <= p && Searching(trail, moves, radii)
      modifies this, D, F, M, T
      ensures Searching(trail', moves', radii') && |radii'| == |radii| + 1
    {
      ghost var cur, best, bs := scCur, scBest, bestS;
      ghost var mv, sc, cores, rows, tabu, vertex := Iterate(iterTime, pick);
      RadiusIsCover();
      Extend(trail, moves, radii, cur, best, bs, S, mv, scCur);
      trail', moves', radii' := trail + [S], moves + [mv], radii + [scCur];
    }

    /**
     * The output list of centers: p slots filled with invalidId, then the
     * members of bestS written from the front in the set's iteration order.
     */
    method Centers(invalidId: int) returns (centers: seq<int>)
      requires |bestS| <= p
      ensures |centers| == p
      ensures forall x :: x in bestS <==> x in centers[..|bestS|]
      ensures forall i, j :: 0 <= i < j < |bestS| ==> centers[i] != centers[j]
      ensures forall k :: |bestS| <= k < p ==> centers[k] == invalidId
    {
      centers := seq(p, _ => invalidId);
      var rest := bestS;
      var c := 0;
      while rest != {}
        invariant rest <= bestS
        invariant c + |rest| == |bestS|
        invariant |centers| == p
        invariant forall x :: x in bestS <==> x in centers[..c] || x in rest
        invariant forall i :: 0 <= i < c ==> centers[i] !in rest
        invariant forall i, j :: 0 <= i < j < c ==> centers[i] != centers[j]
        invariant forall k :: c <= k < p ==> centers[k] == invalidId
        decreases |rest|
      {
        ghost var y := Member(rest);
        var x :| x in rest;
        CardRemove(rest, x);
        ghost var before := centers[..c];
        centers := centers[c := x];
        assert centers[..c + 1] == before + [x];
        rest := rest - {x};
        c := c + 1;
      }
    }

    /**
     * The search: an initial solution, then swaps until the best radius
     * reaches optValue or the time budget (here a number of iterations)
     * runs out; returns the best set's centers and the best radius.  The
     * ghost trail lists the open sets visited, each one swap from the one
     * before, with radii their coverage radii.
     */
    method Search(budget: nat, optValue: int) returns (ghost trail: seq<set<int>>, ghost moves: seq<(int, int)>, ghost radii: seq<int>)
      requires Valid() && GraphOk() && IndexOk() && Consistent() && S == {} && bestS == {} && 2 <= p < n
      modifies this, D, F, M, T
      ensures Valid() && Searching(trail, moves, radii)
      ensures scBest <= optValue || |radii| == budget + 1
    {
      InitialSol();
      RadiusIsCover();
      trail, moves, radii := [S], [], [scCur];
      var iterTime := 0;
      while iterTime < budget
        invariant Valid() && Searching(trail, moves, radii)
        invariant 0 <= iterTime <= budget && |radii| == iterTime + 1
        decreases budget - iterTime
      {
        var pick: nat :| true;
        trail, moves, radii := Advance(iterTime, pick, trail, moves, radii);
        if scBest <= optValue {
          break;
        }
        iterTime := iterTime + 1;
      }
    }

    /**
     * optimize: the search, then the best open set written out as the list
     * of centers, with its radius.
     */
    method Optimize(budget: nat, optValue: int, invalidId: int)
      returns (centers: seq<int>, coverRadius: int, ghost trail: seq<set<int>>, ghost moves: seq<(int, int)>, ghost radii: seq<int>)
      requires Valid() && GraphOk() && IndexOk() && Consistent() && S == {} && bestS == {} && 2 <= p < n
      modifies this, D, F, M, T
      ensures |S| == p && Path(trail, moves, radii) && trail[|trail| - 1] == S && radii[|radii| - 1] == scCur
      ensures coverRadius == scBest && scBest in radii && (forall r :: r in radii ==> scBest <= r) && scBest <= scCur
      ensures bestS != {} ==> bestS in trail && InRange(bestS, n) && CoverRadius(G, bestS, n) == scBest
      ensures bestS == {} || |bestS| == p
      ensures scBest <= optValue || |radii| == budget + 1
      ensures |centers| == p && forall x :: x in bestS <==> x in centers[..|bestS|]
      ensures forall i, j :: 0 <= i < j < |bestS| ==> centers[i] != centers[j]
      ensures forall k :: |bestS| <= k < p ==> centers[k] == invalidId
    {
      trail, moves, radii := Search(budget, optValue);
      centers := Centers(invalidId);
      coverRadius := scBest;
    }
  }

  /**
   * solve's reduction over the workers' results: among the workers that
   * succeeded with a cover radius below the sentinel inf, the one with the
   * smallest radius, the lowest index among equals; -1 when there is none.
   */
  method BestWorker(success: seq<bool>, radius: seq<int>, inf: int) returns (bestIndex: int)
    requires |success| == |radius|
    ensures -1 <= bestIndex < |success|
    ensures bestIndex == -1 <==> forall i :: 0 <= i < |success| && success[i] ==> inf <= radius[i]
    ensures bestIndex >= 0 ==> success[bestIndex] && radius[bestIndex] < inf
    ensures bestIndex >= 0 ==> forall i :: 0 <= i < |success| && success[i] ==> radius[bestIndex] <= radius[i]
    ensures bestIndex >= 0 ==> forall i :: 0 <= i < bestIndex && success[i] ==> radius[bestIndex] < radius[i]
  {
    bestIndex := -1;
    var bestValue := inf;
    for i := 0 to |success|
      invariant -1 <= bestIndex < i
      invariant bestIndex == -1 ==> bestValue == inf
      invariant bestIndex >= 0 ==> success[bestIndex] && bestValue == radius[bestIndex] < inf
      invariant forall k :: 0 <= k < i && success[k] ==> bestValue <= radius[k]
      invariant bestIndex >= 0 ==> forall k :: 0 <= k < bestIndex && success[k] ==> bestValue < radius[k]
    {
      if !success[i] {
        continue;
      }
      if radius[i] >= bestValue {
        continue;
      }
      bestIndex := i;
      bestValue := radius[i];
    }
  }
}
