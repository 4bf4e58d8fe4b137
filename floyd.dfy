/**
 * The in-place all-pairs shortest-path relaxation (Floyd-Warshall) run on the
 * dense distance matrix before the search starts.  The C++ prototype and the
 * Python prototype carry the same triple loop; with non-negative entries it
 * only ever lowers entries, keeps a zero diagonal and a symmetric matrix
 * symmetric, and leaves the triangle inequality holding for every triple.
 * Its result is the shortest-walk matrix of its input: every entry is the
 * length of some walk between its ends, and no walk between them is shorter.
 */
module Floyd {

  function Min(a: int, b: int): int
  {
    if a <= b then a else b
  }

  ghost predicate NonNegative(G: array2<int>)
    reads G
  {
    forall i, j :: 0 <= i < G.Length0 && 0 <= j < G.Length1 ==> 0 <= G[i, j]
  }

  ghost predicate Symmetric(G: array2<int>)
    reads G
    requires G.Length0 == G.Length1
  {
    forall i, j :: 0 <= i < G.Length0 && 0 <= j < G.Length0 ==> G[i, j] == G[j, i]
  }

  /** G[i, j] <= G[i, k] + G[k, j] for every i, j and every intermediate node k below bound. */
  ghost predicate TriangleBelow(G: array2<int>, bound: int)
    reads G
    requires G.Length0 == G.Length1 && bound <= G.Length0
  {
    forall i, j, k :: 0 <= i < G.Length0 && 0 <= j < G.Length0 && 0 <= k < bound ==>
      G[i, j] <= G[i, k] + G[k, j]
  }

  /** The matrix as a sequence of rows. */
  ghost function Snapshot(G: array2<int>): (m: seq<seq<int>>)
    reads G
    ensures |m| == G.Length0
    ensures forall i :: 0 <= i < G.Length0 ==> |m[i]| == G.Length1
    ensures forall i, j :: 0 <= i < G.Length0 && 0 <= j < G.Length1 ==> m[i][j] == G[i, j]
  {
    seq(G.Length0, i requires 0 <= i < G.Length0 reads G =>
      seq(G.Length1, j requires 0 <= j < G.Length1 reads G => G[i, j]))
  }

  /**
   * One relaxation through node K turns a matrix with the triangle inequality
   * through every node below K into one with it through K as well.
   */
  lemma RelaxStep(aij: int, aiK: int, aKj: int, aik: int, akj: int, aKk: int, akK: int)
    requires 0 <= aij && 0 <= aiK && 0 <= aKj && 0 <= aik && 0 <= akj && 0 <= aKk && 0 <= akK
    requires aij <= aik + akj && aKj <= aKk + akj && aiK <= aik + akK
    ensures Min(aij, aiK + aKj) <= Min(aik, aiK + aKk) + Min(akj, akK + aKj)
  {
  }

  /** The matrix after one relaxation phase through node k, as a value. */
  ghost function Phase(a: seq<seq<int>>, k: int): (b: seq<seq<int>>)
    requires Matrix(a, |a|) && 0 <= k < |a|
    ensures |b| == |a| && forall i :: 0 <= i < |a| ==> |b[i]| == |a|
  {
    seq(|a|, i requires 0 <= i < |a| => seq(|a|, j requires 0 <= j < |a| => Min(a[i][j], a[i][k] + a[k][j])))
  }

  /** An array whose entries match a matrix value entry by entry has that value as its snapshot. */
  lemma SameMatrix(G: array2<int>, b: seq<seq<int>>)
    requires |b| == G.Length0 && forall i :: 0 <= i < |b| ==> |b[i]| == G.Length1
    requires forall i, j :: 0 <= i < G.Length0 && 0 <= j < G.Length1 ==> G[i, j] == b[i][j]
    ensures Snapshot(G) == b
  {
    var m := Snapshot(G);
    forall i | 0 <= i < |b|
      ensures m[i] == b[i]
    {
    }
  }

  /**
   * Phase k of the relaxation: G[i, j] := min(G[i, j], G[i, k] + G[k, j]) for
   * every i, j in row-major order, where a holds the entries before the phase.
   */
  method RelaxThrough(G: array2<int>, k: int, ghost a: seq<seq<int>>)
    requires G.Length0 == G.Length1 && 0 <= k < G.Length0 && Matrix(a, G.Length0)
    requires forall i, j :: 0 <= i < G.Length0 && 0 <= j < G.Length0 ==> G[i, j] == a[i][j]
    modifies G
    ensures Snapshot(G) == Phase(a, k)
  {
    var n := G.Length0;
    for i := 0 to n
      invariant forall r, c :: 0 <= r < i && 0 <= c < n ==> G[r, c] == Min(a[r][c], a[r][k] + a[k][c])
      invariant forall r, c :: i <= r < n && 0 <= c < n ==> G[r, c] == a[r][c]
    {
      for j := 0 to n
        invariant forall r, c :: 0 <= r < i && 0 <= c < n ==> G[r, c] == Min(a[r][c], a[r][k] + a[k][c])
        invariant forall c :: 0 <= c < j ==> G[i, c] == Min(a[i][c], a[i][k] + a[k][c])
        invariant forall c :: j <= c < n ==> G[i, c] == a[i][c]
        invariant forall r, c :: i < r < n && 0 <= c < n ==> G[r, c] == a[r][c]
      {
        assert G[i, k] == a[i][k] && G[k, j] == a[k][j] by {
          assert 0 <= a[k][k];
        }
        if G[i, j] > G[i, k] + G[k, j] {
          G[i, j] := G[i, k] + G[k, j];
        }
      }
    }
    SameMatrix(G, Phase(a, k));
  }

  /** a is an n by n matrix of non-negative entries. */
  ghost predicate Matrix(a: seq<seq<int>>, n: int)
  {
    |a| == n && Square(a) &&
    forall i, j :: 0 <= i < n && 0 <= j < n ==> 0 <= a[i][j]
  }

  /** Every row of a is as long as a. */
  ghost predicate Square(a: seq<seq<int>>)
  {
    forall i :: 0 <= i < |a| ==> |a[i]| == |a|
  }

  /** Every node of w is below n. */
  ghost predicate InNodes(w: seq<int>, n: int)
  {
    forall t :: 0 <= t < |w| ==> 0 <= w[t] < n
  }

  /** A walk of at least one edge through the nodes below n. */
  ghost predicate Walk(w: seq<int>, n: int)
  {
    |w| >= 2 && InNodes(w, n)
  }

  /** The length of w in the matrix a: the sum of the entries of its edges. */
  ghost function WalkLen(a: seq<seq<int>>, w: seq<int>): int
    requires Square(a) && |w| >= 1 && InNodes(w, |a|)
    decreases |w|
  {
    if |w| == 1 then 0 else a[w[0]][w[1]] + WalkLen(a, w[1..])
  }

  /** Joining a walk ending at x to one starting at x adds their lengths. */
  lemma {:induction false} WalkJoin(a: seq<seq<int>>, w1: seq<int>, w2: seq<int>)
    requires Square(a) && |w1| >= 1 && |w2| >= 1 && InNodes(w1, |a|) && InNodes(w2, |a|)
    requires w1[|w1| - 1] == w2[0]
    ensures InNodes(w1 + w2[1..], |a|)
    ensures WalkLen(a, w1 + w2[1..]) == WalkLen(a, w1) + WalkLen(a, w2)
    decreases |w1|
  {
    if |w1| == 1 {
      assert w1 + w2[1..] == w2;
    } else {
      WalkJoin(a, w1[1..], w2);
      assert (w1 + w2[1..])[1..] == w1[1..] + w2[1..];
    }
  }

  /**
   * W[i][j] is a walk from i to j whose length in orig is a[i][j]: every
   * entry of a is attained by some walk of the original matrix.
   */
  ghost predicate Witnessed(orig: seq<seq<int>>, a: seq<seq<int>>, W: seq<seq<seq<int>>>)
    requires Matrix(orig, |orig|) && Matrix(a, |orig|)
  {
    && |W| == |a| && (forall i :: 0 <= i < |a| ==> |W[i]| == |a|)
    && forall i, j :: 0 <= i < |a| && 0 <= j < |a| ==>
         && Walk(W[i][j], |a|) && W[i][j][0] == i && W[i][j][|W[i][j]| - 1] == j
         && WalkLen(orig, W[i][j]) == a[i][j]
  }

  /** Before any phase, the one-edge walk [i, j] attains entry (i, j). */
  lemma OneEdgeWitness(orig: seq<seq<int>>) returns (W: seq<seq<seq<int>>>)
    requires Matrix(orig, |orig|)
    ensures Witnessed(orig, orig, W)
  {
    var n := |orig|;
    W := seq(n, i requires 0 <= i < n => seq(n, j requires 0 <= j < n => [i, j]));
    forall i, j | 0 <= i < n && 0 <= j < n
      ensures Walk(W[i][j], n) && WalkLen(orig, W[i][j]) == orig[i][j]
    {
      assert W[i][j] == [i, j] && W[i][j][1..] == [j];
    }
  }

  /** A phase keeps every entry attained: a lowered entry is the join of the walks through k. */
  lemma PhaseWitness(orig: seq<seq<int>>, a: seq<seq<int>>, W: seq<seq<seq<int>>>, k: int) returns (W': seq<seq<seq<int>>>)
    requires Matrix(orig, |orig|) && Matrix(a, |orig|) && 0 <= k < |a|
    requires Witnessed(orig, a, W) && Matrix(Phase(a, k), |a|)
    ensures Witnessed(orig, Phase(a, k), W')
  {
    var n := |a|;
    W' := seq(n, i requires 0 <= i < n =>
            seq(n, j requires 0 <= j < n =>
              if a[i][j] <= a[i][k] + a[k][j] then W[i][j] else W[i][k] + W[k][j][1..]));
    forall i, j | 0 <= i < n && 0 <= j < n
      ensures Walk(W'[i][j], n) && W'[i][j][0] == i && W'[i][j][|W'[i][j]| - 1] == j
      ensures WalkLen(orig, W'[i][j]) == Phase(a, k)[i][j]
    {
      if a[i][j] > a[i][k] + a[k][j] {
        WalkJoin(orig, W[i][k], W[k][j]);
      }
    }
  }

  /** In a triangle-closed matrix below orig, no walk of orig is shorter than the entry for its ends. */
  lemma {:induction false} LeastWalk(orig: seq<seq<int>>, c: seq<seq<int>>, w: seq<int>)
    requires Matrix(orig, |orig|) && Matrix(c, |orig|) && Lower(c, orig) && TriangleBelowSeq(c, |c|)
    requires Walk(w, |c|)
    ensures c[w[0]][w[|w| - 1]] <= WalkLen(orig, w)
    decreases |w|
  {
    if |w| > 2 {
      LeastWalk(orig, c, w[1..]);
      assert c[w[0]][w[|w| - 1]] <= c[w[0]][w[1]] + c[w[1]][w[|w| - 1]];
    } else {
      assert w[1..][1..] == [];
    }
  }

  /**
   * G is the shortest-walk matrix of orig: every entry is the length of a
   * walk of orig between its ends, and no walk between them is shorter.
   */
  ghost predicate ShortestPaths(G: array2<int>, orig: seq<seq<int>>)
    reads G
    requires G.Length0 == |orig| && G.Length1 == |orig| && Square(orig)
  {
    Attains(G, orig) && NoShorter(G, orig)
  }

  /** Every entry of G is the length in orig of some walk between its ends. */
  ghost predicate Attains(G: array2<int>, orig: seq<seq<int>>)
    reads G
    requires G.Length0 == |orig| && G.Length1 == |orig| && Square(orig)
  {
    forall i, j :: 0 <= i < |orig| && 0 <= j < |orig| ==>
      exists w :: Walk(w, |orig|) && w[0] == i && w[|w| - 1] == j && WalkLen(orig, w) == G[i, j]
  }

  /** No walk of orig is shorter than the entry of G for its ends. */
  ghost predicate NoShorter(G: array2<int>, orig: seq<seq<int>>)
    reads G
    requires G.Length0 == |orig| && G.Length1 == |orig| && Square(orig)
  {
    forall w {:trigger Walk(w, |orig|)} :: Walk(w, |orig|) ==> G[w[0], w[|w| - 1]] <= WalkLen(orig, w)
  }

  /** The final value, with its walks, read back as the shortest-walk matrix. */
  lemma ConcludePaths(G: array2<int>, orig: seq<seq<int>>, cur: seq<seq<int>>, W: seq<seq<seq<int>>>)
    requires G.Length0 == G.Length1 && Matrix(orig, G.Length0) && Matrix(cur, G.Length0)
    requires cur == Snapshot(G) && Lower(cur, orig) && TriangleBelowSeq(cur, G.Length0)
    requires Witnessed(orig, cur, W)
    ensures ShortestPaths(G, orig)
  {
    Attained(G, orig, cur, W);
    Least(G, orig, cur);
  }

  /** Every entry of G is the length of its witness walk. */
  lemma Attained(G: array2<int>, orig: seq<seq<int>>, cur: seq<seq<int>>, W: seq<seq<seq<int>>>)
    requires G.Length0 == G.Length1 && Matrix(orig, G.Length0) && Matrix(cur, G.Length0)
    requires forall i, j :: 0 <= i < G.Length0 && 0 <= j < G.Length0 ==> cur[i][j] == G[i, j]
    requires Witnessed(orig, cur, W)
    ensures Attains(G, orig)
  {
    var n := G.Length0;
    forall i, j | 0 <= i < n && 0 <= j < n
      ensures exists w :: Walk(w, n) && w[0] == i && w[|w| - 1] == j && WalkLen(orig, w) == G[i, j]
    {
      var w := W[i][j];
      assert Walk(w, n) && w[0] == i && w[|w| - 1] == j && WalkLen(orig, w) == G[i, j];
    }
  }

  /** No walk of orig is shorter than the entry of G for its ends. */
  lemma Least(G: array2<int>, orig: seq<seq<int>>, cur: seq<seq<int>>)
    requires G.Length0 == G.Length1 && Matrix(orig, G.Length0) && Matrix(cur, G.Length0)
    requires forall i, j :: 0 <= i < G.Length0 && 0 <= j < G.Length0 ==> cur[i][j] == G[i, j]
    requires Lower(cur, orig) && TriangleBelowSeq(cur, G.Length0)
    ensures NoShorter(G, orig)
  {
    forall w | Walk(w, |orig|)
      ensures G[w[0], w[|w| - 1]] <= WalkLen(orig, w)
    {
      LeastWalk(orig, cur, w);
    }
  }

  /** The triangle inequality through every intermediate node below k, on a matrix value. */
  ghost predicate TriangleBelowSeq(a: seq<seq<int>>, k: int)
    requires Matrix(a, |a|)
  {
    forall i, j, k' :: 0 <= i < |a| && 0 <= j < |a| && 0 <= k' < k && k' < |a| ==> a[i][j] <= a[i][k'] + a[k'][j]
  }

  ghost predicate SymmetricSeq(a: seq<seq<int>>)
    requires Matrix(a, |a|)
  {
    forall i, j :: 0 <= i < |a| && 0 <= j < |a| ==> a[i][j] == a[j][i]
  }

  /** Entry by entry, a is at most b. */
  ghost predicate Lower(a: seq<seq<int>>, b: seq<seq<int>>)
    requires Matrix(a, |a|) && Matrix(b, |a|)
  {
    forall i, j :: 0 <= i < |a| && 0 <= j < |a| ==> a[i][j] <= b[i][j]
  }

  /** One phase through node k keeps the entries non-negative, below the original ones, and symmetric. */
  lemma PhaseBounds(a: seq<seq<int>>, orig: seq<seq<int>>, b: seq<seq<int>>, k: int)
    requires Matrix(a, |a|) && Matrix(orig, |a|) && |b| == |a| && 0 <= k < |a|
    requires forall i :: 0 <= i < |a| ==> |b[i]| == |a|
    requires Lower(a, orig) && (SymmetricSeq(orig) ==> SymmetricSeq(a))
    requires forall i, j :: 0 <= i < |a| && 0 <= j < |a| ==> b[i][j] == Min(a[i][j], a[i][k] + a[k][j])
    ensures Matrix(b, |a|) && Lower(b, orig) && (SymmetricSeq(orig) ==> SymmetricSeq(b))
  {
    var n := |a|;
    forall i, j | 0 <= i < n && 0 <= j < n
      ensures 0 <= b[i][j] <= orig[i][j]
    {
      assert b[i][j] == Min(a[i][j], a[i][k] + a[k][j]);
      assert 0 <= a[i][j] && 0 <= a[i][k] && 0 <= a[k][j];
      assert a[i][j] <= orig[i][j];
    }
    if SymmetricSeq(orig) {
      forall i, j | 0 <= i < n && 0 <= j < n
        ensures b[i][j] == b[j][i]
      {
        assert a[i][j] == a[j][i] && a[i][k] == a[k][i] && a[k][j] == a[j][k];
      }
    }
  }

  /** One phase through node k extends the triangle inequality to intermediate node k. */
  lemma PhaseTriangle(a: seq<seq<int>>, b: seq<seq<int>>, k: int)
    requires Matrix(a, |a|) && Matrix(b, |a|) && 0 <= k < |a|
    requires TriangleBelowSeq(a, k)
    requires forall i, j :: 0 <= i < |a| && 0 <= j < |a| ==> b[i][j] == Min(a[i][j], a[i][k] + a[k][j])
    ensures TriangleBelowSeq(b, k + 1)
  {
    var n := |a|;
    forall i, j, k' | 0 <= i < n && 0 <= j < n && 0 <= k' < k + 1
      ensures b[i][j] <= b[i][k'] + b[k'][j]
    {
      if k' < k {
        RelaxStep(a[i][j], a[i][k], a[k][j], a[i][k'], a[k'][j], a[k][k'], a[k'][k]);
      } else {
        assert b[i][k] == a[i][k] && b[k][j] == a[k][j];
      }
    }
  }

  /** What one phase through node k does to a matrix whose earlier phases are done. */
  lemma PhaseKeeps(a: seq<seq<int>>, orig: seq<seq<int>>, k: int)
    requires Matrix(a, |a|) && Matrix(orig, |a|) && 0 <= k < |a|
    requires Lower(a, orig) && (SymmetricSeq(orig) ==> SymmetricSeq(a)) && TriangleBelowSeq(a, k)
    ensures Matrix(Phase(a, k), |a|) && Lower(Phase(a, k), orig) && (SymmetricSeq(orig) ==> SymmetricSeq(Phase(a, k)))
    ensures TriangleBelowSeq(Phase(a, k), k + 1)
  {
    var b := Phase(a, k);
    PhaseBounds(a, orig, b, k);
    PhaseTriangle(a, b, k);
  }

  /** The matrix on entry, as a value. */
  lemma Origin(G: array2<int>, orig: seq<seq<int>>)
    requires G.Length0 == G.Length1 && NonNegative(G) && orig == Snapshot(G)
    ensures Matrix(orig, G.Length0)
    ensures forall i, j :: 0 <= i < G.Length0 && 0 <= j < G.Length0 ==> orig[i][j] == G[i, j]
    ensures Symmetric(G) ==> SymmetricSeq(orig)
  {
  }

  /** Reads the final matrix value back as facts about the array. */
  lemma Conclude(G: array2<int>, orig: seq<seq<int>>, cur: seq<seq<int>>)
    requires G.Length0 == G.Length1 && Matrix(orig, G.Length0) && Matrix(cur, G.Length0)
    requires cur == Snapshot(G) && Lower(cur, orig) && (SymmetricSeq(orig) ==> SymmetricSeq(cur))
    requires TriangleBelowSeq(cur, G.Length0)
    ensures NonNegative(G)
    ensures forall i, j :: 0 <= i < G.Length0 && 0 <= j < G.Length0 ==> G[i, j] <= orig[i][j]
    ensures forall i :: 0 <= i < G.Length0 && orig[i][i] == 0 ==> G[i, i] == 0
    ensures SymmetricSeq(orig) ==> Symmetric(G)
    ensures TriangleBelow(G, G.Length0)
  {
    forall i, j, k | 0 <= i < G.Length0 && 0 <= j < G.Length0 && 0 <= k < G.Length0
      ensures G[i, j] <= G[i, k] + G[k, j]
    {
      assert cur[i][j] <= cur[i][k] + cur[k][j];
    }
  }

  /** The in-place triple loop: k outermost, then i, then j. */
  method FloydWarshall(G: array2<int>)
    requires G.Length0 == G.Length1
    requires NonNegative(G)
    modifies G
    ensures NonNegative(G)
    ensures forall i, j :: 0 <= i < G.Length0 && 0 <= j < G.Length0 ==> G[i, j] <= old(G[i, j])
    ensures forall i :: 0 <= i < G.Length0 && old(G[i, i]) == 0 ==> G[i, i] == 0
    ensures old(Symmetric(G)) ==> Symmetric(G)
    ensures TriangleBelow(G, G.Length0)
    ensures ShortestPaths(G, old(Snapshot(G)))
  {
    var n := G.Length0;
    ghost var orig := Snapshot(G);
    Origin(G, orig);
    ghost var cur := orig;
    ghost var W := OneEdgeWitness(orig);
    for k := 0 to n
      invariant cur == Snapshot(G) && Matrix(cur, n)
      invariant Lower(cur, orig) && (SymmetricSeq(orig) ==> SymmetricSeq(cur)) && TriangleBelowSeq(cur, k)
      invariant Witnessed(orig, cur, W)
    {
      RelaxThrough(G, k, cur);
      PhaseKeeps(cur, orig, k);
      W := PhaseWitness(orig, cur, W, k);
      cur := Phase(cur, k);
    }
    Conclude(G, orig, cur);
    ConcludePaths(G, orig, cur, W);
  }
}
