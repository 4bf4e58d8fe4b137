/**
 * How a swap move (open c, close f) is scored.  All three engines open c
 * tentatively, then for every open f compute M[f], the largest second-nearest
 * distance among the nodes that f serves, and score the swap as
 * max(radius after opening c, M[f]).  The functions here state that score on
 * values: a sequence of per-node cores (D0, F0, D1) and the row of distances
 * from c.
 */
module Moves {
  import opened Assignment

  function Max(a: int, b: int): int
  {
    if a < b then b else a
  }

  /** The largest element of a non-empty sequence (max_element, Python's max). */
  function MaxOf(xs: seq<int>): int
    requires |xs| > 0
  {
    if |xs| == 1 then xs[0] else Max(MaxOf(xs[..|xs| - 1]), xs[|xs| - 1])
  }

  /** MaxOf is an element of the sequence and no element exceeds it. */
  lemma {:induction false} MaxOfIsMax(xs: seq<int>)
    requires |xs| > 0
    ensures MaxOf(xs) in xs
    ensures forall x :: x in xs ==> x <= MaxOf(xs)
  {
    if |xs| > 1 {
      var init := xs[..|xs| - 1];
      MaxOfIsMax(init);
      assert xs == init + [xs[|xs| - 1]];
    }
  }

  /** Two sequences that agree element by element have the same maximum. */
  lemma MaxOfSame(xs: seq<int>, ys: seq<int>)
    requires |xs| > 0 && |xs| == |ys|
    requires forall k :: 0 <= k < |xs| ==> xs[k] == ys[k]
    ensures MaxOf(xs) == MaxOf(ys)
  {
    assert xs == ys;
  }

  /** Node by node, the distance to the nearest member of S. */
  ghost function NearestRow(G: array2<int>, S: set<int>, n: int): (row: seq<int>)
    reads G
    requires Square(G, n) && InRange(S, n) && S != {}
    ensures |row| == n && forall v :: 0 <= v < n ==> row[v] == NearestDist(G, S, v)
  {
    seq(n, v requires 0 <= v < n reads G => NearestDist(G, S, v))
  }

  /**
   * The coverage radius of the open set S: the largest distance from a node
   * to its nearest member of S.
   */
  ghost function CoverRadius(G: array2<int>, S: set<int>, n: int): (r: int)
    reads G
    requires Square(G, n) && 0 < n && InRange(S, n) && S != {}
    ensures forall v :: 0 <= v < n ==> NearestDist(G, S, v) <= r
    ensures exists v :: 0 <= v < n && r == NearestDist(G, S, v)
  {
    var row := NearestRow(G, S, n);
    MaxOfIsMax(row);
    assert forall v :: 0 <= v < n ==> row[v] in row;
    MaxOf(row)
  }

  /** The nearest distances of a sequence of cores. */
  function D0s(cores: seq<Core>): seq<int>
  {
    seq(|cores|, k requires 0 <= k < |cores| => cores[k].d0)
  }

  /** The core part of the per-node update performed when facility c opens at distance g. */
  function AddCore(g: int, c: int, k: Core): Core
  {
    if g < k.d0 then Core(g, c, k.d0)
    else if g < k.d1 then Core(k.d0, k.f0, g)
    else k
  }

  /** Opening changes only what the core records of a node the way AddCore says. */
  lemma AddAtCore(g: int, c: int, a: Assign)
    ensures CoreOf(AddAt(g, c, a)) == AddCore(g, c, CoreOf(a))
  {
  }

  /** Every node's core after opening c, where grow[v] is the distance from c to v. */
  function AddAll(cores: seq<Core>, grow: seq<int>, c: int): seq<Core>
    requires |grow| == |cores|
  {
    seq(|cores|, k requires 0 <= k < |cores| => AddCore(grow[k], c, cores[k]))
  }

  /**
   * M[f]: the largest second-nearest distance over the nodes whose nearest
   * facility is f, starting from 0 and raised node by node in index order.
   */
  function RemovalRadius(cores: seq<Core>, f: int): int
  {
    if cores == [] then 0
    else
      var r := RemovalRadius(cores[..|cores| - 1], f);
      var last := cores[|cores| - 1];
      if last.f0 == f && last.d1 > r then last.d1 else r
  }

  /**
   * M[f] bounds the second-nearest distance of every node f serves, and it
   * is 0 or the second-nearest distance of one of them.
   */
  lemma {:induction false} RemovalRadiusIsMax(cores: seq<Core>, f: int)
    ensures 0 <= RemovalRadius(cores, f)
    ensures forall k :: 0 <= k < |cores| && cores[k].f0 == f ==> cores[k].d1 <= RemovalRadius(cores, f)
    ensures RemovalRadius(cores, f) == 0 ||
      exists k :: 0 <= k < |cores| && cores[k].f0 == f && cores[k].d1 == RemovalRadius(cores, f)
  {
    if cores != [] {
      var init := cores[..|cores| - 1];
      RemovalRadiusIsMax(init, f);
      var r := RemovalRadius(init, f);
      if r != 0 && RemovalRadius(cores, f) == r {
        var k :| 0 <= k < |init| && init[k].f0 == f && init[k].d1 == r;
        assert cores[k] == init[k];
      }
      forall k | 0 <= k < |cores| && cores[k].f0 == f
        ensures cores[k].d1 <= RemovalRadius(cores, f)
      {
        if k < |init| {
          assert cores[k] == init[k];
        }
      }
    }
  }

  /** Every node's nearest distance once f closes: nodes served by f fall back on their second nearest. */
  function ClosedD0s(cores: seq<Core>, f: int): seq<int>
  {
    seq(|cores|, k requires 0 <= k < |cores| => if cores[k].f0 == f then cores[k].d1 else cores[k].d0)
  }

  /** The score of the swap (open c, close f). */
  function SwapScore(cores: seq<Core>, grow: seq<int>, c: int, f: int): int
    requires 0 < |cores| == |grow|
  {
    var a := AddAll(cores, grow, c);
    Max(MaxOf(D0s(a)), RemovalRadius(a, f))
  }

  /**
   * The score is exact: when every node's nearest distance is non-negative
   * and at most its second-nearest distance, max(radius, M[f]) equals the
   * coverage radius after f closes.
   */
  lemma ScoreIsRadiusAfterClose(cores: seq<Core>, f: int)
    requires |cores| > 0
    requires forall k :: 0 <= k < |cores| ==> 0 <= cores[k].d0 <= cores[k].d1
    ensures MaxOf(ClosedD0s(cores, f)) == Max(MaxOf(D0s(cores)), RemovalRadius(cores, f))
  {
    var closed := ClosedD0s(cores, f);
    MaxOfIsMax(closed);
    MaxOfIsMax(D0s(cores));
    RemovalRadiusIsMax(cores, f);
    var l := MaxOf(closed);
    var a := MaxOf(D0s(cores));
    var r := RemovalRadius(cores, f);
    forall k | 0 <= k < |cores|
      ensures closed[k] <= Max(a, r)
    {
      assert D0s(cores)[k] in D0s(cores);
    }
    var i :| 0 <= i < |closed| && closed[i] == l;
    assert l <= Max(a, r);
    var j :| 0 <= j < |cores| && D0s(cores)[j] == a;
    assert closed[j] in closed;
    if r != 0 {
      var k :| 0 <= k < |cores| && cores[k].f0 == f && cores[k].d1 == r;
      assert closed[k] in closed;
    } else {
      assert closed[0] in closed;
    }
  }
}
