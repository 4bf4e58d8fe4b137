/**
 * The preprocessing the solver's init performs on a topological instance:
 * the direct-edge matrix (sentinel everywhere, zero diagonal, then every
 * edge written in both directions, a later edge overwriting an earlier one
 * between the same two nodes), and the sorted index that lists, for every
 * row, all nodes in ascending (distance, id) order.
 */
module Preprocess {
  import PairSort
  import Floyd

  /** An input edge: source, target, length. */
  type Edge = (int, int, int)

  /** The edge e joins i and j, in either direction. */
  predicate Joins(e: Edge, i: int, j: int)
  {
    (e.0 == i && e.1 == j) || (e.0 == j && e.1 == i)
  }

  /**
   * The entry (i, j) after writing the edges in order onto a matrix holding
   * `inf` off the diagonal and 0 on it: the last edge joining i and j wins.
   */
  function Direct(edges: seq<Edge>, inf: int, i: int, j: int): int
  {
    if edges == [] then (if i == j then 0 else inf)
    else if Joins(edges[|edges| - 1], i, j) then edges[|edges| - 1].2
    else Direct(edges[..|edges| - 1], inf, i, j)
  }

  /** The direct-edge matrix is symmetric, whatever the edges. */
  lemma {:induction false} DirectSymmetric(edges: seq<Edge>, inf: int, i: int, j: int)
    ensures Direct(edges, inf, i, j) == Direct(edges, inf, j, i)
  {
    if edges != [] {
      DirectSymmetric(edges[..|edges| - 1], inf, i, j);
    }
  }

  /** Without an edge joining i and j the entry is the initial one. */
  lemma {:induction false} DirectUnjoined(edges: seq<Edge>, inf: int, i: int, j: int)
    requires forall k :: 0 <= k < |edges| ==> !Joins(edges[k], i, j)
    ensures Direct(edges, inf, i, j) == if i == j then 0 else inf
  {
    if edges != [] {
      DirectUnjoined(edges[..|edges| - 1], inf, i, j);
    }
  }

  /** Some edge's length, or the initial entry. */
  lemma {:induction false} DirectIsLength(edges: seq<Edge>, inf: int, i: int, j: int)
    ensures Direct(edges, inf, i, j) == (if i == j then 0 else inf)
      || exists k :: 0 <= k < |edges| && Joins(edges[k], i, j) && Direct(edges, inf, i, j) == edges[k].2
  {
    if edges != [] && !Joins(edges[|edges| - 1], i, j) {
      var init := edges[..|edges| - 1];
      DirectIsLength(init, inf, i, j);
      if Direct(init, inf, i, j) != (if i == j then 0 else inf) {
        var k :| 0 <= k < |init| && Joins(init[k], i, j) && Direct(init, inf, i, j) == init[k].2;
        assert edges[k] == init[k];
      }
    }
  }

  /** The edge endpoints are nodes and the lengths are not negative. */
  predicate EdgesOk(edges: seq<Edge>, n: int)
  {
    forall k :: 0 <= k < |edges| ==> 0 <= edges[k].0 < n && 0 <= edges[k].1 < n && 0 <= edges[k].2
  }

  /** Writes one edge in both directions. */
  method WriteEdge(G: array2<int>, e: Edge)
    requires 0 <= e.0 < G.Length0 && 0 <= e.1 < G.Length0 && G.Length0 == G.Length1
    modifies G
    ensures forall i, j :: 0 <= i < G.Length0 && 0 <= j < G.Length0 ==>
      G[i, j] == if Joins(e, i, j) then e.2 else old(G[i, j])
  {
    G[e.0, e.1] := e.2;
    G[e.1, e.0] := e.2;
  }

  /** The n-by-n matrix filled with inf, its diagonal then zeroed. */
  method InitialMatrix(n: nat, inf: int) returns (G: array2<int>)
    ensures fresh(G) && G.Length0 == n && G.Length1 == n
    ensures forall i, j :: 0 <= i < n && 0 <= j < n ==> G[i, j] == if i == j then 0 else inf
  {
    G := new int[n, n]((i, j) => inf);
    for v := 0 to n
      invariant forall i, j :: 0 <= i < n && 0 <= j < n ==> G[i, j] == if i == j && i < v then 0 else inf
    {
      G[v, v] := 0;
    }
  }

  /** The initial matrix with every edge written in both directions, in order. */
  method DirectMatrix(n: nat, inf: int, edges: seq<Edge>) returns (G: array2<int>)
    requires 0 <= inf && EdgesOk(edges, n)
    ensures fresh(G) && G.Length0 == n && G.Length1 == n
    ensures forall i, j :: 0 <= i < n && 0 <= j < n ==> G[i, j] == Direct(edges, inf, i, j)
  {
    G := InitialMatrix(n, inf);
    for k := 0 to |edges|
      invariant forall i, j :: 0 <= i < n && 0 <= j < n ==> G[i, j] == Direct(edges[..k], inf, i, j)
    {
      assert edges[..k + 1][..k] == edges[..k];
      WriteEdge(G, edges[k]);
    }
    assert edges[..|edges|] == edges;
  }

  /** The direct-edge matrix as a value: the graph whose walks the distances measure. */
  ghost function DirectSeq(n: nat, inf: int, edges: seq<Edge>): (a: seq<seq<int>>)
    ensures |a| == n && Floyd.Square(a)
    ensures forall i, j :: 0 <= i < n && 0 <= j < n ==> a[i][j] == Direct(edges, inf, i, j)
  {
    seq(n, i requires 0 <= i < n => seq(n, j requires 0 <= j < n => Direct(edges, inf, i, j)))
  }

  /** The direct-edge matrix of valid edges has no negative entry. */
  lemma {:induction false} DirectNonNegative(edges: seq<Edge>, n: int, inf: int, i: int, j: int)
    requires 0 <= inf && EdgesOk(edges, n)
    ensures 0 <= Direct(edges, inf, i, j)
  {
    DirectIsLength(edges, inf, i, j);
  }

  /** The edges with their 1-based endpoints made 0-based. */
  function Shift(edges: seq<Edge>): (r: seq<Edge>)
    ensures |r| == |edges|
    ensures forall k :: 0 <= k < |edges| ==> r[k] == (edges[k].0 - 1, edges[k].1 - 1, edges[k].2)
  {
    seq(|edges|, k requires 0 <= k < |edges| => (edges[k].0 - 1, edges[k].1 - 1, edges[k].2))
  }

  /** The folded matrix as a value: the graph whose walks the distances measure. */
  ghost function MinDirectSeq(n: nat, inf: int, edges: seq<Edge>): (a: seq<seq<int>>)
    ensures |a| == n && Floyd.Square(a)
    ensures forall i, j :: 0 <= i < n && 0 <= j < n ==> a[i][j] == MinDirect(edges, inf, i, j)
  {
    seq(n, i requires 0 <= i < n => seq(n, j requires 0 <= j < n => MinDirect(edges, inf, i, j)))
  }

  /**
   * The entry (i, j) when each edge is written in both directions only if
   * it is shorter than the entry it would replace.
   */
  function MinDirect(edges: seq<Edge>, inf: int, i: int, j: int): int
  {
    if edges == [] then (if i == j then 0 else inf)
    else
      var prev := MinDirect(edges[..|edges| - 1], inf, i, j);
      if Joins(edges[|edges| - 1], i, j) && edges[|edges| - 1].2 < prev then edges[|edges| - 1].2 else prev
  }

  lemma {:induction false} MinDirectSymmetric(edges: seq<Edge>, inf: int, i: int, j: int)
    ensures MinDirect(edges, inf, i, j) == MinDirect(edges, inf, j, i)
  {
    if edges != [] {
      MinDirectSymmetric(edges[..|edges| - 1], inf, i, j);
    }
  }

  /**
   * The folded entry is the least of the initial entry and the lengths of
   * all edges joining i and j.
   */
  lemma {:induction false} MinDirectIsLeast(edges: seq<Edge>, inf: int, i: int, j: int)
    ensures MinDirect(edges, inf, i, j) <= (if i == j then 0 else inf)
    ensures forall k :: 0 <= k < |edges| && Joins(edges[k], i, j) ==> MinDirect(edges, inf, i, j) <= edges[k].2
    ensures MinDirect(edges, inf, i, j) == (if i == j then 0 else inf)
      || exists k :: 0 <= k < |edges| && Joins(edges[k], i, j) && MinDirect(edges, inf, i, j) == edges[k].2
  {
    if edges != [] {
      var init := edges[..|edges| - 1];
      MinDirectIsLeast(init, inf, i, j);
      forall k | 0 <= k < |edges| - 1 && Joins(edges[k], i, j)
        ensures MinDirect(edges, inf, i, j) <= edges[k].2
      {
        assert init[k] == edges[k];
      }
      if MinDirect(edges, inf, i, j) == MinDirect(init, inf, i, j) && MinDirect(init, inf, i, j) != (if i == j then 0 else inf) {
        var k :| 0 <= k < |init| && Joins(init[k], i, j) && MinDirect(init, inf, i, j) == init[k].2;
        assert edges[k] == init[k];
      }
    }
  }

  /** The 1-based edges name nodes below n and have non-negative lengths. */
  predicate EdgesOk1(edges: seq<Edge>, n: int)
  {
    forall k :: 0 <= k < |edges| ==> 1 <= edges[k].0 <= n && 1 <= edges[k].1 <= n && 0 <= edges[k].2
  }

  /** Folds one more 0-based edge in: written in both directions when shorter than its entry. */
  method FoldEdge(G: array2<int>, inf: int, ghost done: seq<Edge>, e: Edge)
    requires G.Length0 == G.Length1 && 0 <= e.0 < G.Length0 && 0 <= e.1 < G.Length0
    requires forall i, j :: 0 <= i < G.Length0 && 0 <= j < G.Length0 ==> G[i, j] == MinDirect(done, inf, i, j)
    modifies G
    ensures forall i, j :: 0 <= i < G.Length0 && 0 <= j < G.Length0 ==> G[i, j] == MinDirect(done + [e], inf, i, j)
  {
    assert (done + [e])[..|done|] == done;
    MinDirectSymmetric(done, inf, e.0, e.1);
    if e.2 < G[e.0, e.1] {
      WriteEdge(G, e);
    }
  }

  /**
   * The edge loop of the prototype reader: sentinel everywhere, zero
   * diagonal, then each 1-based edge kept when shorter than the entry.
   */
  method MinMatrix(n: nat, inf: int, edges: seq<Edge>) returns (G: array2<int>)
    requires 0 <= inf && EdgesOk1(edges, n)
    ensures fresh(G) && G.Length0 == n && G.Length1 == n
    ensures forall i, j :: 0 <= i < n && 0 <= j < n ==> G[i, j] == MinDirect(Shift(edges), inf, i, j)
  {
    G := InitialMatrix(n, inf);
    ghost var shifted := Shift(edges);
    for k := 0 to |edges|
      invariant forall i, j :: 0 <= i < n && 0 <= j < n ==> G[i, j] == MinDirect(shifted[..k], inf, i, j)
    {
      assert shifted[..k + 1] == shifted[..k] + [shifted[k]];
      FoldEdge(G, inf, shifted[..k], (edges[k].0 - 1, edges[k].1 - 1, edges[k].2));
    }
    assert shifted[..|edges|] == shifted;
  }

  /** The folded matrix of 1-based edges closed under Floyd-Warshall. */
  method MinDistances(n: nat, inf: int, edges: seq<Edge>) returns (G: array2<int>)
    requires 0 <= inf && EdgesOk1(edges, n)
    ensures fresh(G) && G.Length0 == n && G.Length1 == n
    ensures forall i, j :: 0 <= i < n && 0 <= j < n ==>
      0 <= G[i, j] <= MinDirect(Shift(edges), inf, i, j) && G[i, j] == G[j, i]
    ensures forall i :: 0 <= i < n ==> G[i, i] == 0
    ensures Floyd.TriangleBelow(G, n)
    ensures Floyd.ShortestPaths(G, MinDirectSeq(n, inf, Shift(edges)))
  {
    G := MinMatrix(n, inf, edges);
    Floyd.SameMatrix(G, MinDirectSeq(n, inf, Shift(edges)));
    forall i, j | 0 <= i < n && 0 <= j < n
      ensures 0 <= G[i, j] && G[i, j] == G[j, i] && (i == j ==> G[i, j] == 0)
    {
      MinDirectSymmetric(Shift(edges), inf, i, j);
      MinDirectIsLeast(Shift(edges), inf, i, j);
      if MinDirect(Shift(edges), inf, i, j) != (if i == j then 0 else inf) {
        var k :| 0 <= k < |edges| && Joins(Shift(edges)[k], i, j) && MinDirect(Shift(edges), inf, i, j) == Shift(edges)[k].2;
      }
    }
    Floyd.FloydWarshall(G);
  }

  /**
   * G is symmetric, no entry is negative or above the direct edge, a zero
   * direct diagonal entry stays zero, the triangle inequality holds through
   * every node, and every entry is the length of a shortest walk of the
   * direct-edge matrix.
   */
  ghost predicate ShortestBelow(G: array2<int>, n: int, inf: int, edges: seq<Edge>)
    reads G
    requires G.Length0 == n && G.Length1 == n
  {
    && (forall i, j :: 0 <= i < n && 0 <= j < n ==> 0 <= G[i, j] <= Direct(edges, inf, i, j) && G[i, j] == G[j, i])
    && (forall i :: 0 <= i < n && Direct(edges, inf, i, i) == 0 ==> G[i, i] == 0)
    && Floyd.TriangleBelow(G, n)
    && Floyd.ShortestPaths(G, DirectSeq(n, inf, edges))
  }

  /** The direct-edge matrix closed under Floyd-Warshall. */
  method Distances(n: nat, inf: int, edges: seq<Edge>) returns (G: array2<int>)
    requires 0 <= inf && EdgesOk(edges, n)
    ensures fresh(G) && G.Length0 == n && G.Length1 == n
    ensures ShortestBelow(G, n, inf, edges)
  {
    G := DirectMatrix(n, inf, edges);
    Floyd.SameMatrix(G, DirectSeq(n, inf, edges));
    forall i, j | 0 <= i < n && 0 <= j < n
      ensures 0 <= G[i, j] && G[i, j] == G[j, i]
    {
      DirectNonNegative(edges, n, inf, i, j);
      DirectSymmetric(edges, inf, i, j);
    }
    Floyd.FloydWarshall(G);
  }

  /** Row r of the array S as a sequence. */
  ghost function Row(S: array2<int>, r: int): (row: seq<int>)
    reads S
    requires 0 <= r < S.Length0
    ensures |row| == S.Length1 && forall k :: 0 <= k < S.Length1 ==> row[k] == S[r, k]
  {
    seq(S.Length1, k requires 0 <= k < S.Length1 reads S => S[r, k])
  }

  /** The row lists every node once, ascending by (G[r, u], u). */
  ghost predicate SortedRow(G: array2<int>, row: seq<int>, n: int, r: int)
    reads G
    requires G.Length0 == n && G.Length1 == n && |row| == n && 0 <= r < n
  {
    && (forall k :: 0 <= k < n ==> 0 <= row[k] < n)
    && (forall k1, k2 :: 0 <= k1 < k2 < n ==> PairSort.Less((G[r, row[k1]], row[k1]), (G[r, row[k2]], row[k2])))
    && (forall u :: 0 <= u < n ==> u in row)
  }

  /** The (G[r, j], j) pairs of row r, in node order. */
  method RowPairs(G: array2<int>, r: int) returns (dv: seq<PairSort.Pair>)
    requires 0 <= r < G.Length0
    ensures |dv| == G.Length1 && forall j :: 0 <= j < |dv| ==> dv[j] == (G[r, j], j)
  {
    dv := [];
    for j := 0 to G.Length1
      invariant |dv| == j && forall k :: 0 <= k < j ==> dv[k] == (G[r, k], k)
    {
      dv := dv + [(G[r, j], j)];
    }
  }

  /** The second components of the pairs. */
  function Ids(xs: seq<PairSort.Pair>): (ids: seq<int>)
    ensures |ids| == |xs| && forall k :: 0 <= k < |xs| ==> ids[k] == xs[k].1
  {
    seq(|xs|, k requires 0 <= k < |xs| => xs[k].1)
  }

  /** Every pair of row r is (G[r, u], u) for a node u. */
  ghost predicate RowPairsOf(G: array2<int>, n: int, r: int, xs: seq<PairSort.Pair>)
    reads G
    requires G.Length0 == n && G.Length1 == n && 0 <= r < n
  {
    forall k :: 0 <= k < |xs| ==> 0 <= xs[k].1 < n && xs[k] == (G[r, xs[k].1], xs[k].1)
  }

  /** Sorting pairs with distinct ids: a strictly ascending rearrangement of them. */
  lemma SortFacts(dv: seq<PairSort.Pair>, sorted: seq<PairSort.Pair>)
    requires forall i, j :: 0 <= i < j < |dv| ==> dv[i].1 != dv[j].1
    requires sorted == PairSort.Sort(dv)
    ensures |sorted| == |dv| && PairSort.StrictlySorted(sorted)
    ensures forall e :: e in sorted <==> e in dv
  {
    PairSort.DistinctByIds(dv);
    assert |multiset(sorted)| == |multiset(dv)|;
  }

  /** The ids of a strictly ascending arrangement of the pairs of row r form a SortedRow. */
  lemma SortedIds(G: array2<int>, n: int, r: int, dv: seq<PairSort.Pair>, sorted: seq<PairSort.Pair>)
    requires G.Length0 == n && G.Length1 == n && 0 <= r < n
    requires |dv| == n && forall j :: 0 <= j < n ==> dv[j] == (G[r, j], j)
    requires |sorted| == n && PairSort.StrictlySorted(sorted)
    requires forall e :: e in sorted <==> e in dv
    ensures SortedRow(G, Ids(sorted), n, r)
  {
    var ids := Ids(sorted);
    assert RowPairsOf(G, n, r, sorted) by {
      forall k | 0 <= k < n
        ensures 0 <= sorted[k].1 < n && sorted[k] == (G[r, sorted[k].1], sorted[k].1)
      {
        assert sorted[k] in dv;
      }
    }
    forall k1, k2 | 0 <= k1 < k2 < n
      ensures PairSort.Less((G[r, ids[k1]], ids[k1]), (G[r, ids[k2]], ids[k2]))
    {
      assert PairSort.Less(sorted[k1], sorted[k2]);
    }
    forall u | 0 <= u < n
      ensures u in ids
    {
      assert dv[u] in sorted;
      var k :| 0 <= k < n && sorted[k] == dv[u];
      assert ids[k] == u;
    }
  }

  /** Writes ids into row r of S. */
  method WriteRow(S: array2<int>, r: int, ids: seq<int>)
    requires 0 <= r < S.Length0 && |ids| == S.Length1
    modifies S
    ensures forall i, k :: 0 <= i < S.Length0 && 0 <= k < S.Length1 ==> S[i, k] == if i == r then ids[k] else old(S[i, k])
  {
    for k := 0 to S.Length1
      invariant forall i, k' :: 0 <= i < S.Length0 && 0 <= k' < S.Length1 ==>
        S[i, k'] == if i == r && k' < k then ids[k'] else old(S[i, k'])
    {
      S[r, k] := ids[k];
    }
  }

  /** Fills row r of S with the node ids of row r of G sorted by (distance, id). */
  method SortRow(G: array2<int>, S: array2<int>, n: int, r: int)
    requires G.Length0 == n && G.Length1 == n && S.Length0 == n && S.Length1 == n && 0 <= r < n && G != S
    modifies S
    ensures SortedRow(G, Row(S, r), n, r)
    ensures forall i :: 0 <= i < n && i != r ==> Row(S, i) == old(Row(S, i))
  {
    var dv := RowPairs(G, r);
    var sorted := PairSort.Sort(dv);
    SortFacts(dv, sorted);
    SortedIds(G, n, r, dv, sorted);
    var ids := Ids(sorted);
    WriteRow(S, r, ids);
    assert Row(S, r) == ids;
    forall i | 0 <= i < n && i != r
      ensures Row(S, i) == old(Row(S, i))
    {
      assert Row(S, i) == old(Row(S, i));
    }
  }

  /** The sorted index of G: every row is a SortedRow. */
  method SortedIndex(G: array2<int>, n: int) returns (S: array2<int>)
    requires G.Length0 == n && G.Length1 == n && 0 <= n
    ensures fresh(S) && S.Length0 == n && S.Length1 == n
    ensures forall r :: 0 <= r < n ==> SortedRow(G, Row(S, r), n, r)
  {
    S := new int[n, n];
    for r := 0 to n
      invariant forall i :: 0 <= i < r ==> SortedRow(G, Row(S, i), n, i)
    {
      SortRow(G, S, n, r);
    }
  }
}
