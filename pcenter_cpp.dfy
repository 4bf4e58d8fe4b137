/**
 * The C++ prototype of the tabu search.  It keeps the same state as the
 * solver (distance matrix, open set, nearest and second-nearest centers,
 * radius, best radius, tabu matrix) in globals; the model runs its
 * operations on a Solver object.  Its addFacility, removeFacility and
 * findNext are those of the solver, and so is the evaluation and selection
 * in findPair; what differs is the candidate list (every closed node within
 * the radius of a bottleneck node, in index order), the tabu updates and the
 * loop body, which keeps no best set.
 */
module PCenterCpp {
  import opened Assignment
  import opened Moves
  import opened PCenterSolver

  /**
   * Reservoir sampling: zero (the value-initialised element) for an empty
   * list, otherwise an element of the list, the i-th replacing the sample
   * when a roll in [0, i] comes out 0.
   */
  method ReserSamp<T>(sampList: seq<T>, zero: T) returns (sample: T)
    ensures sampList == [] ==> sample == zero
    ensures sampList != [] ==> sample in sampList
  {
    if sampList == [] {
      return zero;
    }
    sample := sampList[0];
    for i := 1 to |sampList|
      invariant sample in sampList[..i]
    {
      var j :| 0 <= j <= i;
      if j < 1 {
        sample := sampList[i];
      }
    }
  }

  /** Lists, in index order, every closed node u with G[vertex, u] <= maxDist. */
  method CollectWithin(s: Solver, vertex: int, maxDist: int)
    requires s.Valid() && 0 <= vertex < s.n
    modifies s`candidates
    ensures forall k :: 0 <= k < |s.candidates| ==> 0 <= s.candidates[k] < s.n && s.candidates[k] !in s.S
    ensures forall u :: u in s.candidates <==> 0 <= u < s.n && u !in s.S && s.G[vertex, u] <= maxDist
    ensures forall i, j :: 0 <= i < j < |s.candidates| ==> s.candidates[i] < s.candidates[j]
  {
    s.candidates := [];
    for u := 0 to s.n
      invariant forall k :: 0 <= k < |s.candidates| ==> 0 <= s.candidates[k] < u && s.candidates[k] !in s.S
      invariant forall x :: x in s.candidates <==> 0 <= x < u && x !in s.S && s.G[vertex, x] <= maxDist
      invariant forall i, j :: 0 <= i < j < |s.candidates| ==> s.candidates[i] < s.candidates[j]
    {
      if s.G[vertex, u] <= maxDist && u !in s.S {
        s.candidates := s.candidates + [u];
      }
    }
  }

  /**
   * candidate: picks a bottleneck node at random and lists, in index order,
   * every closed node whose distance from it is at most the radius.
   */
  method CandidateByRadius(s: Solver) returns (vertex: int)
    requires s.Valid() && s.GraphOk() && s.Consistent() && s.Tracked() && s.S != {}
    modifies s`candidates
    ensures 0 <= vertex < s.n && s.D[0, vertex] == s.scCur
    ensures forall k :: 0 <= k < |s.candidates| ==> 0 <= s.candidates[k] < s.n && s.candidates[k] !in s.S
    ensures forall u :: u in s.candidates <==> 0 <= u < s.n && u !in s.S && s.G[vertex, u] <= s.scCur
    ensures forall i, j :: 0 <= i < j < |s.candidates| ==> s.candidates[i] < s.candidates[j]
    ensures |s.S| < s.n ==> s.candidates != []
  {
    vertex := s.PickBottleneck();
    if |s.S| < s.n {
      s.BottleneckIsCandidate(vertex);
      assert EntryOk(s.G, s.S, s.n, s.maxDistance, vertex, s.At(vertex));
      assert 0 <= s.scCur && s.G[vertex, vertex] == 0;
    }
    CollectWithin(s, vertex, s.scCur);
    if |s.S| < s.n {
      assert vertex in s.candidates;
    }
  }

  /** initial: opens a random node, then p - 1 times a random candidate; the radius reached is the best so far. */
  method Initial(s: Solver)
    requires s.Valid() && s.GraphOk() && s.Consistent() && s.S == {} && 1 <= s.p <= s.n
    modifies s, s.D, s.F
    ensures |s.S| == s.p && s.Consistent() && s.Tracked() && s.scBest == s.scCur
  {
    var server :| 0 <= server < s.n;
    s.AddFacility(server);
    for i := 1 to s.p
      invariant |s.S| == i && s.Consistent() && s.Tracked()
    {
      var _ := CandidateByRadius(s);
      assert s.candidates[0] in s.candidates;
      server :| server in s.candidates;
      CardAdd(s.S, server);
      s.AddFacility(server);
    }
    s.scBest := s.scCur;
  }

  /** tabuAct(b, step): every entry of row b becomes tabuStep; nothing else changes. */
  method TabuRow(T: array2<int>, b: int, tabuStep: int)
    requires 0 <= b < T.Length0
    modifies T
    ensures forall i, j :: 0 <= i < T.Length0 && 0 <= j < T.Length1 ==>
      T[i, j] == if i == b then tabuStep else old(T[i, j])
  {
    for j := 0 to T.Length1
      invariant forall i, j' :: 0 <= i < T.Length0 && 0 <= j' < T.Length1 ==>
        T[i, j'] == if i == b && j' < j then tabuStep else old(T[i, j'])
    {
      T[b, j] := tabuStep;
    }
  }

  /** tabuAct(a, b, step): every entry of row b and of column a becomes tabuStep; nothing else changes. */
  method TabuRowColumn(T: array2<int>, a: int, b: int, tabuStep: int)
    requires 0 <= b < T.Length0 && 0 <= a < T.Length1
    modifies T
    ensures forall i, j :: 0 <= i < T.Length0 && 0 <= j < T.Length1 ==>
      T[i, j] == if i == b || j == a then tabuStep else old(T[i, j])
  {
    TabuRow(T, b, tabuStep);
    for k := 0 to T.Length0
      invariant forall i, j :: 0 <= i < T.Length0 && 0 <= j < T.Length1 ==>
        T[i, j] == if i == b || (j == a && i < k) then tabuStep else old(T[i, j])
    {
      T[k, a] := tabuStep;
    }
  }

  /**
   * The prototype's candidate list for a state with cores `cores`, open set
   * s0 and radius `radius`: vertex is a bottleneck node (its nearest distance
   * is the radius), and cs lists, in index order, exactly the closed nodes
   * whose distance from vertex is at most the radius.
   */
  ghost predicate WithinRadius(s: Solver, cores: seq<Core>, s0: set<int>, radius: int, vertex: int, cs: seq<int>)
    reads s.G
    requires s.Valid() && |cores| == s.n
  {
    && 0 <= vertex < s.n && cores[vertex].d0 == radius
    && (forall u :: u in cs <==> 0 <= u < s.n && u !in s0 && s.G[vertex, u] <= radius)
    && (forall i, j :: 0 <= i < j < |cs| ==> cs[i] < cs[j])
  }

  /**
   * How candidate() and findPair picked mv in a state with open set s0,
   * radius cur and best radius best: vertex is a bottleneck node and cs its
   * candidate list, and mv, which opens a closed node and closes an open
   * one, was picked by the selection rule among the scored swaps sc.
   */
  ghost predicate Chose(s: Solver, sc: map<(int, int), int>, mv: (int, int), cores: seq<Core>, rows: seq<seq<int>>,
                        cs: seq<int>, s0: set<int>, cur: int, tabu: set<(int, int)>, best: int, vertex: int)
    reads s.G
    requires s.Valid() && |cores| == s.n && |rows| == s.n
  {
    && 0 <= mv.0 < s.n && mv.0 !in s0 && mv.1 in s0
    && WithinRadius(s, cores, s0, cur, vertex, cs)
    && s.Decided(sc, mv, cores, rows, cs, s0, tabu, best)
  }

  /**
   * One pass from open set s0: mv was picked as Chose says, and it leads to
   * the open set s1, whose radius r is the score mv was picked with.
   */
  ghost predicate Swapped(s: Solver, sc: map<(int, int), int>, mv: (int, int), cores: seq<Core>, rows: seq<seq<int>>,
                          cs: seq<int>, s0: set<int>, cur: int, tabu: set<(int, int)>, best: int, vertex: int,
                          s1: set<int>, r: int)
    reads s.G
    requires s.Valid() && |cores| == s.n && |rows| == s.n
  {
    && Chose(s, sc, mv, cores, rows, cs, s0, cur, tabu, best, vertex)
    && s1 == s0 + {mv.0} - {mv.1} && mv in sc && r == sc[mv]
  }

  /** What the candidate list and EvaluateAndSelect ensure, stated on values as Chose. */
  lemma ChoseBy(s: Solver, sc: map<(int, int), int>, mv: (int, int), cores: seq<Core>, rows: seq<seq<int>>,
                cs: seq<int>, s0: set<int>, cur: int, vertex: int, step: int)
    requires s.Valid() && |cores| == s.n && rows == s.Rows()
    requires WithinRadius(s, cores, s0, cur, vertex, cs)
    requires 0 <= mv.0 < s.n && mv.0 !in s0 && mv.1 in s0 && InRange(s0, s.n)
    requires s.Evaluated(sc, cores, cs, s0) && s.Chosen(sc, mv, step)
    ensures Chose(s, sc, mv, cores, rows, cs, s0, cur, s.TabuAmong(sc, step), s.scBest, vertex)
  {
    s.EvaluatedIsScored(sc, cores, cs, s0);
    s.ChosenIsRule(sc, mv, step);
  }

  /**
   * candidate() then findPair(step), as the loop body calls them: the swap
   * chosen by the selection rule among the swaps of a closed node within
   * the radius of a bottleneck node for an open center.
   */
  method CandidateThenPair(s: Solver, step: int, pick: nat, ghost cores: seq<Core>, ghost cur: int)
    returns (mv: (int, int), ghost sc: map<(int, int), int>, ghost tabu: set<(int, int)>, ghost vertex: int)
    requires s.Valid() && s.GraphOk() && s.Consistent() && s.Tracked() && 2 <= |s.S| < s.n
    requires cores == s.Cores() && cur == s.scCur
    modifies s`S, s`scCur, s.D, s.F, s.M, s`tabuMv, s`noTabuMv, s`candidates
    ensures s.S == old(s.S) && s.Cores() == cores && s.Consistent() && s.Tracked()
    ensures mv.0 in s.candidates
    ensures forall m :: m in sc ==> 0 <= m.0 < s.n && 0 <= m.1 < s.n && (m in tabu <==> s.T[m.0, m.1] > step)
    ensures Chose(s, sc, mv, cores, s.Rows(), s.candidates, s.S, cur, tabu, s.scBest, vertex)
  {
    mv, sc, vertex := PairWithinRadius(s, step, pick, cores, cur);
    ChoseBy(s, sc, mv, cores, s.Rows(), s.candidates, s.S, cur, vertex, step);
    tabu := s.TabuAmong(sc, step);
  }

  /** Lists the candidates within the radius of a bottleneck node, then evaluates and selects. */
  method PairWithinRadius(s: Solver, step: int, pick: nat, ghost cores: seq<Core>, ghost cur: int)
    returns (mv: (int, int), ghost sc: map<(int, int), int>, ghost vertex: int)
    requires s.Valid() && s.GraphOk() && s.Consistent() && s.Tracked() && 2 <= |s.S| < s.n
    requires cores == s.Cores() && cur == s.scCur
    modifies s`S, s`scCur, s.D, s.F, s.M, s`tabuMv, s`noTabuMv, s`candidates
    ensures s.S == old(s.S) && s.Cores() == cores && s.Consistent() && s.Tracked()
    ensures WithinRadius(s, cores, s.S, cur, vertex, s.candidates)
    ensures 0 <= mv.0 < s.n && mv.0 in s.candidates && mv.0 !in s.S && mv.1 in s.S
    ensures s.Evaluated(sc, cores, s.candidates, s.S) && s.Chosen(sc, mv, step)
  {
    vertex := CandidateByRadius(s);
    ListedWithinRadius(s, cores, vertex);
    label Listed:
    mv, sc := s.EvaluateAndSelect(step, pick, cores);
    assert unchanged@Listed(s.G);
  }

  /** The list CandidateByRadius leaves is the candidate list of WithinRadius, and no node is listed twice. */
  lemma ListedWithinRadius(s: Solver, cores: seq<Core>, vertex: int)
    requires s.Valid() && cores == s.Cores()
    requires 0 <= vertex < s.n && s.D[0, vertex] == s.scCur
    requires forall u :: u in s.candidates <==> 0 <= u < s.n && u !in s.S && s.G[vertex, u] <= s.scCur
    requires forall i, j :: 0 <= i < j < |s.candidates| ==> s.candidates[i] < s.candidates[j]
    ensures WithinRadius(s, cores, s.S, s.scCur, vertex, s.candidates) && s.CandidatesDistinct()
  {
  }

  /**
   * The rest of the loop body: opens mv.0, closes mv.1, makes the swap and
   * its reverse tabu until tt + iterTime, and lowers the best radius to the
   * current one when that is smaller.  The new radius is the score the swap
   * was picked with.
   */
  method SwapAndMark(s: Solver, mv: (int, int), iterTime: int, tt: int, ghost sc: map<(int, int), int>,
                     ghost cores: seq<Core>, ghost rows: seq<seq<int>>, ghost cs: seq<int>, ghost cur: int,
                     ghost vertex: int, ghost tabu: set<(int, int)>, ghost best: int)
    requires s.Valid() && s.GraphOk() && s.Consistent() && |s.S| >= 2 && cores == s.Cores() && rows == s.Rows()
    requires Chose(s, sc, mv, cores, rows, cs, s.S, cur, tabu, best, vertex)
    modifies s`S, s`scCur, s`scBest, s.D, s.F, s.T
    ensures |s.S| == old(|s.S|) && s.Consistent() && s.Tracked()
    ensures Swapped(s, sc, mv, cores, rows, cs, old(s.S), cur, tabu, best, vertex, s.S, s.scCur)
    ensures forall i, j :: 0 <= i < s.n && 0 <= j < s.n ==>
      s.T[i, j] == if (i == mv.0 && j == mv.1) || (i == mv.1 && j == mv.0) then tt + iterTime else old(s.T[i, j])
    ensures s.scBest == if s.scCur < old(s.scBest) then s.scCur else old(s.scBest)
  {
    assert sc[mv] == SwapScore(cores, rows[mv.0], mv.0, mv.1);
    SwapAndLower(s, mv.0, mv.1, tt + iterTime, cores);
  }

  /**
   * Opens c, closes f, makes (c, f) and (f, c) tabu until `until`, and lowers
   * the best radius to the new radius when that is smaller; the new radius
   * is the score of (c, f).
   */
  method SwapAndLower(s: Solver, c: int, f: int, until: int, ghost cores: seq<Core>)
    requires s.Valid() && s.GraphOk() && s.Consistent() && |s.S| >= 2 && cores == s.Cores()
    requires 0 <= c < s.n && c !in s.S && f in s.S
    modifies s`S, s`scCur, s`scBest, s.D, s.F, s.T
    ensures s.S == old(s.S) + {c} - {f} && |s.S| == old(|s.S|) && s.Consistent() && s.Tracked()
    ensures s.scCur == s.Score(cores, (c, f))
    ensures forall i, j :: 0 <= i < s.n && 0 <= j < s.n ==>
      s.T[i, j] == if (i == c && j == f) || (i == f && j == c) then until else old(s.T[i, j])
    ensures s.scBest == if s.scCur < old(s.scBest) then s.scCur else old(s.scBest)
  {
    s.SwapCenters(c, f, cores);
    s.MakeTabu(c, f, until);
    if s.scCur < s.scBest {
      s.scBest := s.scCur;
    }
  }

  /**
   * One pass of the main loop: finds a swap, opens its candidate, closes its
   * center, makes the swap and its reverse tabu until tt + iterTime, and
   * lowers the best radius to the current one when that is smaller.
   */
  method Round(s: Solver, iterTime: int, tt: int, pick: nat)
    returns (ghost m: (int, int), ghost sc: map<(int, int), int>, ghost cores: seq<Core>, ghost rows: seq<seq<int>>,
             ghost tabu: set<(int, int)>, ghost vertex: int)
    requires s.Valid() && s.GraphOk() && s.Consistent() && s.Tracked() && 2 <= |s.S| < s.n
    modifies s, s.D, s.F, s.M, s.T
    ensures |s.S| == old(|s.S|) && s.Consistent() && s.Tracked()
    ensures cores == old(s.Cores()) && rows == s.Rows()
    ensures Swapped(s, sc, m, cores, rows, s.candidates, old(s.S), old(s.scCur), tabu, old(s.scBest), vertex, s.S, s.scCur)
    ensures forall mv :: mv in sc ==> 0 <= mv.0 < s.n && 0 <= mv.1 < s.n && (mv in tabu <==> old(s.T[mv.0, mv.1]) > iterTime)
    ensures forall i, j :: 0 <= i < s.n && 0 <= j < s.n ==>
      s.T[i, j] == if (i == m.0 && j == m.1) || (i == m.1 && j == m.0) then tt + iterTime else old(s.T[i, j])
    ensures s.scBest == if s.scCur < old(s.scBest) then s.scCur else old(s.scBest)
  {
    cores := s.Cores();
    ghost var cur := s.scCur;
    var mv;
    mv, sc, tabu, vertex := CandidateThenPair(s, iterTime, pick, cores, cur);
    rows := s.Rows();
    SwapAndMark(s, mv, iterTime, tt, sc, cores, rows, s.candidates, cur, vertex, tabu, s.scBest);
    m := mv;
  }

  /**
   * One pass of the main loop, as Round, reporting whether the target value
   * is reached; the new radius is the coverage radius of the new open set.
   */
  method Step(s: Solver, iterTime: int, tt: int, pick: nat, optValue: int)
    returns (done: bool, ghost m: (int, int), ghost sc: map<(int, int), int>, ghost cores: seq<Core>,
             ghost rows: seq<seq<int>>, ghost tabu: set<(int, int)>, ghost vertex: int)
    requires s.Valid() && s.GraphOk() && s.Consistent() && s.Tracked() && 2 <= |s.S| < s.n
    modifies s, s.D, s.F, s.M, s.T
    ensures |s.S| == old(|s.S|) && s.Consistent() && s.Tracked()
    ensures cores == old(s.Cores()) && rows == s.Rows()
    ensures Swapped(s, sc, m, cores, rows, s.candidates, old(s.S), old(s.scCur), tabu, old(s.scBest), vertex, s.S, s.scCur)
    ensures s.scCur == CoverRadius(s.G, s.S, s.n)
    ensures forall mv :: mv in sc ==> 0 <= mv.0 < s.n && 0 <= mv.1 < s.n && (mv in tabu <==> old(s.T[mv.0, mv.1]) > iterTime)
    ensures forall i, j :: 0 <= i < s.n && 0 <= j < s.n ==>
      s.T[i, j] == if (i == m.0 && j == m.1) || (i == m.1 && j == m.0) then tt + iterTime else old(s.T[i, j])
    ensures s.scBest == if s.scCur < old(s.scBest) then s.scCur else old(s.scBest)
    ensures done <==> s.scBest <= optValue
  {
    m, sc, cores, rows, tabu, vertex := Round(s, iterTime, tt, pick);
    s.RadiusIsCover();
    done := s.scBest <= optValue;
  }
}
