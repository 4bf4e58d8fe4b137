# A verified model of the p-center tabu search

The repository solves the p-center problem. Given a weighted undirected graph of `n` nodes, it chooses `p` of them as centers so that the coverage radius is as small as possible. The coverage radius is the largest distance from any node to its nearest center. The same tabu search is written three times:

- the solver class `szx::Solver` (`Solver/Solver.cpp`, `Solver/Solver.h`);
- an earlier C++ program (`BeforeSDK/pcenter.cpp`);
- a Python prototype (`BeforeSDK/PCenter.py`).

All three keep the same state:

- the all-pairs distance matrix `G`;
- the open set `S`;
- for every node, its nearest and second-nearest open center and their distances (`F` and `D`, two rows each);
- the current radius `scCur` and the best radius so far `scBest`;
- `M[f]`, the radius of the nodes served by `f` once `f` closes;
- the tabu matrix `T`.

An iteration works as follows:

1. List candidate nodes near a bottleneck node, that is, a node whose nearest center is at the radius.
2. Score every swap "open a candidate, close an open center". The score is found by opening the candidate, reading `max(radius, M[f])`, and closing it again.
3. Choose a swap by a tabu rule with aspiration.
4. Apply the swap.

## How the model is built

The files and what they model:

- `assignment.dfy` (module `Assignment`): the contract of the nearest / second-nearest tables shared by all three programs. `EntryOk` says what one node's entries must be for a given open set. `AddAt` and `RemovedAt` describe what opening and closing a center does to a node.
- `moves.dfy` (module `Moves`):
  - `MaxOf`, the maximum;
  - `RemovalRadius`, the value of `M[f]`;
  - `SwapScore`, the score of a swap.

  It also proves that the score is exact: it equals the radius that the swap produces (`ScoreIsRadiusAfterClose`). Each search states that the radius after a swap is the score the swap was chosen with: `PCenterSolver.Solver.Iterate` with `StepIsCover`, `PCenterCpp.Step`, and `PCenterPy.PCenter.Iteration`.
- `floyd.dfy` (module `Floyd`): the in-place Floyd–Warshall triple loop on an `array2`. It is proved against a value-level phase function.
- `pairsort.dfy` (module `PairSort`): the sort of `(distance, id)` pairs, standing for `std::sort` on pairs and Python's `sorted` on tuples.
- `preprocess.dfy` (module `Preprocess`): the edge loops that build the direct-edge matrix and the row-by-row construction of `sortedG`.
  - The solver lets the last duplicate edge win.
  - The C++ program keeps the shortest duplicate edge.
- `environment.dfy` (module `SolverEnv`): the string helpers of `Solver.h` and their round trips.
- `solver.dfy` (module `PCenterSolver`): class `Solver`, with the fields of `aux` that the search updates. Its methods are `addFacility`, `findNext`, `removeFacility`, `candidate`, `initialSol`, `findPair`, the body of `optimize` and the reduction of `solve`.
- `pcenter_cpp.dfy` (module `PCenterCpp`): the parts of `BeforeSDK/pcenter.cpp` that differ from the solver. These are the candidate list, `reserSamp`, the two `tabuAct` variants and the loop body. They run on a `Solver` object, because the shared operations are identical.
- `pcenter_py.dfy` (module `PCenterPy`): class `PCenter`, holding the Python globals as fields. In it:
  - `S` is a list;
  - `findNext` breaks ties by the smallest id;
  - `findPair` keeps one running minimum `C` for both move lists;
  - `removeFacility` raises when `f` is absent.

Randomness is a nondeterministic choice (`:|`) or a `pick` parameter. Every contract holds for every outcome of the draw.

Behaviour of the Python prototype that the model states exactly rather than hides (`PCenterPy.PCenter.ListOk`):

- The two move lists share one running minimum.
- When a swap of one class lowers `C`, the list of the other class keeps entries whose score is above the new `C`.
- So a list's head can be stale. Its scores never rise along the list, but its first score can exceed the best score of its class.
- The selection step compares that first score with the best radius.

## Model

| member | source | states |
|---|---|---|
| Assignment.NearestNotFarther | Solver/Solver.cpp:260-276 | entries that agree with the open set never have the nearest distance above the second-nearest one |
| Assignment.AddKeepsEntryOk | Solver/Solver.cpp:263-274 | the strict-less update of one node when f opens leaves its entries agreeing with S + {f} |
| Assignment.RemoveKeepsEntryOk | Solver/Solver.cpp:301-311 | the promotion and second-nearest lookup of one node when f closes (with at least two other centers left) leaves its entries agreeing with S - {f} |
| Assignment.AddRemoveRoundTrip | Solver/Solver.cpp:355-392 | opening a closed c and closing it again restores the node's nearest center, nearest distance and second-nearest distance; only the second-nearest id may move among ties |
| Assignment.EntryDistancesUnique | Solver/Solver.cpp:278-297 | two entries that both agree with the same open set have the same two distances, so the random tie-break in findNext only affects ids |
| Assignment.NearestDist | Solver/Solver.cpp:263-274 | the distance from v to its nearest member of S: attained by a member and at most the distance to every member |
| Assignment.NearestIsNearestDist | Solver/Solver.cpp:263-274 | a nearest entry that agrees with S holds NearestDist |
| Moves.MaxOfIsMax | Solver/Solver.cpp:275 | the maximum of a non-empty sequence is one of its elements and bounds all of them |
| Moves.MaxOfSame | Solver/Solver.cpp:312 | sequences equal element by element have the same maximum |
| Moves.NearestRow | Solver/Solver.cpp:263-274 | the nearest distance of every node to S |
| Moves.CoverRadius | Solver/Solver.cpp:275 | the coverage radius of S: no node is farther from its nearest center, and some node is exactly that far |
| Moves.AddAtCore | Solver/Solver.cpp:263-274 | the core entries (nearest center and both distances) after opening c depend only on the core entries before it |
| Moves.RemovalRadiusIsMax | Solver/Solver.cpp:356-361 | M[f] is non-negative, bounds the second-nearest distance of every node that f serves, and is 0 or one of those distances |
| Moves.ScoreIsRadiusAfterClose | Solver/Solver.cpp:362-365 | when every node's nearest distance is between 0 and its second-nearest distance, max(radius, M[f]) is exactly the radius after f closes |
| PairSort.Insert | Solver/Solver.cpp:445 | the result is the list plus the element as a multiset, with the same members, and strictly ascending when the list was and did not hold the element |
| PairSort.InsertSorted | Solver/Solver.cpp:445 | the head of a sorted list stays in front of everything inserted after it |
| PairSort.Sort | Solver/Solver.cpp:445 | the sort returns a permutation of its input, strictly ascending when the pairs are distinct |
| PairSort.DistinctByIds | Solver/Solver.cpp:441-444 | pairs with distinct node ids are distinct |
| Floyd.Snapshot | BeforeSDK/pcenter.cpp:36-47 | the matrix as a sequence of rows, entry by entry |
| Floyd.RelaxStep | BeforeSDK/pcenter.cpp:41-43 | relaxing through K preserves the triangle inequality through an earlier intermediate node k |
| Floyd.Phase | BeforeSDK/pcenter.cpp:39-45 | one relaxation phase keeps the matrix square |
| Floyd.SameMatrix | BeforeSDK/pcenter.cpp:36-47 | an array equal entry by entry to a matrix value has that value as its snapshot |
| Floyd.RelaxThrough | BeforeSDK/pcenter.cpp:39-45 | the i, j loops for one k leave the array equal to the value-level phase through k, even though the phase reads entries it has already updated |
| Floyd.PhaseBounds | BeforeSDK/pcenter.cpp:41-43 | a phase keeps entries non-negative, never raises one, and keeps the matrix symmetric |
| Floyd.PhaseTriangle | BeforeSDK/pcenter.cpp:38-46 | after the phase through k the triangle inequality holds through every intermediate node up to k |
| Floyd.PhaseKeeps | BeforeSDK/pcenter.cpp:38-46 | the invariant of the outer loop is preserved by one phase |
| Floyd.Origin | BeforeSDK/pcenter.cpp:36-47 | the input array as a value, with its symmetry |
| Floyd.Conclude | BeforeSDK/pcenter.cpp:36-47 | the final value read back as facts about the array |
| Floyd.FloydWarshall | BeforeSDK/pcenter.cpp:36-47 | for non-negative lengths: entries never rise, stay non-negative, a zero diagonal stays zero, symmetry is kept, the triangle inequality holds through every node, and the result is the shortest-walk matrix of the input: each entry is the length of some walk between its ends and no walk between them is shorter |
| Floyd.WalkJoin | BeforeSDK/pcenter.cpp:42-43 | joining a walk ending at k to one starting at k gives a walk whose length is the sum of the two |
| Floyd.OneEdgeWitness | BeforeSDK/pcenter.cpp:36-38 | before the first phase every entry is the length of the one-edge walk between its ends |
| Floyd.PhaseWitness | BeforeSDK/pcenter.cpp:39-45 | after a phase every entry is still the length of some walk of the input between its ends: a lowered entry is the walk through k |
| Floyd.LeastWalk | BeforeSDK/pcenter.cpp:36-47 | in a triangle-closed matrix at or below the input, no walk of the input is shorter than the entry for its ends |
| Floyd.ConcludePaths | BeforeSDK/pcenter.cpp:36-47 | the final matrix, with its witness walks, is the shortest-walk matrix of the input |
| Floyd.Attained | BeforeSDK/pcenter.cpp:36-47 | every final entry is the length of a walk of the input between its ends |
| Floyd.Least | BeforeSDK/pcenter.cpp:36-47 | no walk of the input is shorter than the final entry for its ends |
| Preprocess.DirectSymmetric | Solver/Solver.cpp:415-419 | the matrix from writing each edge both ways is symmetric |
| Preprocess.DirectUnjoined | Solver/Solver.cpp:409-419 | a pair joined by no edge keeps its initial entry: 0 on the diagonal, the sentinel elsewhere |
| Preprocess.DirectIsLength | Solver/Solver.cpp:415-419 | each entry is the initial one or the length of an edge joining the pair (the last one written) |
| Preprocess.WriteEdge | Solver/Solver.cpp:417-418 | writing one edge sets exactly the two entries it joins |
| Preprocess.InitialMatrix | Solver/Solver.cpp:409-411 | an n by n matrix at the sentinel with a zero diagonal |
| Preprocess.DirectMatrix | Solver/Solver.cpp:409-419 | after the edge loop every entry is the direct-edge value, last duplicate winning |
| Preprocess.DirectSeq | Solver/Solver.cpp:409-419 | the direct-edge matrix as a value, entry by entry |
| Preprocess.DirectNonNegative | Solver/Solver.cpp:415-419 | with non-negative lengths and sentinel, no direct entry is negative |
| Preprocess.Shift | BeforeSDK/pcenter.cpp:76-77 | 1-based edge endpoints turned 0-based, lengths kept |
| Preprocess.MinDirectSymmetric | BeforeSDK/pcenter.cpp:76-77 | the folded matrix of the C++ reader is symmetric |
| Preprocess.MinDirectIsLeast | BeforeSDK/pcenter.cpp:75-79 | each folded entry is the least of its initial value and every joining edge's length, and equals one of them |
| Preprocess.FoldEdge | BeforeSDK/pcenter.cpp:76-78 | one edge is written both ways exactly when it is shorter than the current entry |
| Preprocess.MinMatrix | BeforeSDK/pcenter.cpp:70-79 | the matrix after the reader's edge loop is the folded minimum over the 1-based edges |
| Preprocess.MinDirectSeq | BeforeSDK/pcenter.cpp:70-79 | the folded matrix as a value, entry by entry |
| Preprocess.MinDistances | BeforeSDK/pcenter.cpp:70-80 | the folded matrix after Floyd–Warshall is symmetric, non-negative, at most the direct edge, zero on the diagonal and triangle-closed, and it is the shortest-walk matrix of the folded edges |
| Preprocess.Distances | Solver/Solver.cpp:409-424 | the solver's matrix after Floyd–Warshall is symmetric, non-negative, at most the direct edge, zero where the direct diagonal is zero, triangle-closed, and the shortest-walk matrix of the direct edges |
| Preprocess.Row | Solver/Solver.cpp:446-448 | a row of a 2D array as a sequence |
| Preprocess.RowPairs | Solver/Solver.cpp:441-444 | the pairs (G[r][j], j) in node order |
| Preprocess.Ids | Solver/Solver.cpp:446-448 | the ids of a list of pairs, in order |
| Preprocess.SortFacts | Solver/Solver.cpp:445 | sorting pairs with distinct ids gives a strictly ascending rearrangement of the same pairs |
| Preprocess.SortedIds | Solver/Solver.cpp:445-448 | the ids of the sorted pairs list every node once, ascending by (distance, id) |
| Preprocess.WriteRow | Solver/Solver.cpp:446-448 | writing row r changes row r only |
| Preprocess.SortRow | Solver/Solver.cpp:440-448 | row r of sortedG lists every node once, ascending by (G[r][u], u), and the other rows are unchanged |
| Preprocess.SortedIndex | Solver/Solver.cpp:439-449 | every row of sortedG is a permutation of the nodes ascending by (distance, id) |
| SolverEnv.Ordinal | Solver/Solver.h:90 | an algorithm streams as its position among the enumerators, a number below six |
| SolverEnv.FromOrdinal | Solver/Solver.h:90 | every position below six names an enumerator, which prints as that position |
| SolverEnv.FindLastOf | Solver/Solver.h:151 | npos exactly when the character is absent, otherwise a position holding it with none after it |
| SolverEnv.FriendlyInstName | Solver/Solver.h:150-153 | the result has no '/', is the path itself when it has none, and is otherwise the suffix after the last '/' |
| SolverEnv.FriendlyNameOfPath | Solver/Solver.h:150-153 | for any directory prefix ending in '/', the friendly name of dir + name is name |
| SolverEnv.Substr | Solver/Solver.h:155-156 | substr(pos, len) is the slice from pos, clipped at the end of the string |
| SolverEnv.FriendlyLocalTime | Solver/Solver.h:154-157 | a 14-character stamp becomes 19 characters with '-', '-', '_', ':', ':' at offsets 4, 7, 10, 13, 16 |
| SolverEnv.FriendlyLocalTimeRoundTrip | Solver/Solver.h:154-157 | dropping the five separators gives back the 14 stamp characters |
| SolverEnv.SolutionPathWithTime | Solver/Solver.h:145 | the solution path, a '.', then the stamp |
| SolverEnv.SolutionPathExtension | Solver/Solver.h:145 | with a stamp free of '.', the last '.' of the tagged path is the one after the solution path |
| SolverEnv.VisualizPath | Solver/Solver.h:147 | the path starts with "Visualization/" and ends with ".html" |
| SolverEnv.VisualizPathWithMsg | Solver/Solver.h:148-149 | the tagged path starts with "Visualization/" and ends with ".html"; VisualizPathWithMsgInDir and VisualizMsgRecoverable pin the name and the message |
| SolverEnv.VisualizPathInDir | Solver/Solver.h:147-153 | with a stamp free of '/', the file name of the visualization path is the instance name, the stamp and ".html" |
| SolverEnv.NumeralChars | Solver/Solver.h:149 | to_string writes only digits and a leading '-', so no '/' and no '.' |
| SolverEnv.VisualizPathWithMsgInDir | Solver/Solver.h:148-153 | with a stamp free of '/', the file name of the tagged path is the instance name, the stamp, to_string(msg) and ".html" |
| SolverEnv.VisualizMsgRecoverable | Solver/Solver.h:148-149 | the text between the last '.' and ".html" of the tagged path parses back to msg |
| SolverEnv.NatToDecimal | Solver/Solver.h:100 | a non-empty numeral of digits with no leading zero except for 0 itself |
| SolverEnv.DecimalRoundTrip | Solver/Solver.h:100 | reading the numeral of n back gives n |
| SolverEnv.IntToString | Solver/Solver.h:100 | to_string never produces ';' |
| SolverEnv.IntRoundTrip | Solver/Solver.h:100 | parsing to_string(i) gives back i, negative numbers included |
| SolverEnv.ToBriefStr | Solver/Solver.h:99-105 | "alg=", the algorithm's number, then ";job=" |
| SolverEnv.BriefStrRoundTrip | Solver/Solver.h:99-105 | the brief string determines the configuration it came from |
| PCenterSolver.Solver.Row0 | Solver/Solver.cpp:275 | the D row of nearest distances as a sequence |
| PCenterSolver.Solver.Cores | Solver/Solver.cpp:263-274 | each node's core entries, node by node |
| PCenterSolver.Solver.GRow | Solver/Solver.cpp:264 | row c of G as a sequence |
| PCenterSolver.Solver.ComputeRadius | Solver/Solver.cpp:275 | the loop computes max_element over row 0 of D |
| PCenterSolver.Solver.AddFacility | Solver/Solver.cpp:260-276 | f joins S, every node gets the strict-less update for f, the tables agree with the grown S, and scCur is the new radius |
| PCenterSolver.Solver.AgreesAssigns | Solver/Solver.cpp:260-276 | agreement read off a snapshot of the tables |
| PCenterSolver.Solver.AddKeepsAgrees | Solver/Solver.cpp:263-274 | the per-node update for f at every node makes the tables agree with S + {f} |
| PCenterSolver.Solver.AddAtNode | Solver/Solver.cpp:264-273 | one node gets the strict-less update and no other node changes |
| PCenterSolver.Solver.FindNext | Solver/Solver.cpp:278-297 | for an open set with a center other than f, node v's second entry becomes a nearest center of S other than f (any of the tied ones); its first entry and every other node are kept |
| PCenterSolver.Solver.RepairNode | Solver/Solver.cpp:303-310 | a node served by f promotes its second entry and looks up a new one, a node with f second looks up a new one, and any other node is untouched |
| PCenterSolver.Solver.RemoveFacility | Solver/Solver.cpp:299-313 | f leaves S, every node is repaired as RemovedAt says, the tables agree with the shrunk S, and scCur is the new radius |
| PCenterSolver.Solver.RemoveKeepsAgrees | Solver/Solver.cpp:301-311 | repairing every node after f closes makes the tables agree with S - {f} |
| PCenterSolver.Solver.IndexFromRows | Solver/Solver.cpp:439-449 | sortedG built row by row is a sorted index |
| PCenterSolver.Solver.Init | Solver/Solver.cpp:405-463 | the matrix is non-negative, symmetric, at most the direct (last-written) edge, triangle-closed and the shortest-walk matrix of the edges; sortedG is the sorted index; S and bestS are empty and the sentinel tables agree with that; T is zero; and 2n <= tt < 2n + p |
| PCenterSolver.Solver.Load | BeforeSDK/pcenter.cpp:65-95 | the matrix is non-negative, symmetric, at most the shortest duplicate edge, zero on the diagonal, triangle-closed and the shortest-walk matrix of the folded edges; S is empty and the sentinel tables agree with that; T and M are zero |
| PCenterSolver.Solver.Unassigned | Solver/Solver.cpp:451-454 | tables all at the sentinels agree with the empty set, and the radius is the sentinel |
| PCenterSolver.Solver.PickBottleneck | Solver/Solver.cpp:317-323 | the chosen vertex has its nearest distance equal to the radius |
| PCenterSolver.Solver.FindInRow | Solver/Solver.cpp:326-327 | std::find returns the first position of x in row r |
| PCenterSolver.Solver.CollectClosed | Solver/Solver.cpp:328-332 | the candidates are exactly the closed nodes before position index in row r, in row order |
| PCenterSolver.Solver.PrefixIsBefore | Solver/Solver.cpp:327-331 | the entries before x in row r are exactly the nodes ordered before x by (G[r][u], u) |
| PCenterSolver.Solver.BottleneckIsCandidate | Solver/Solver.cpp:323-332 | while some node is closed, the bottleneck vertex is closed and comes before its own nearest center, so the list is not empty |
| PCenterSolver.Solver.Candidate | Solver/Solver.cpp:315-333 | the candidates are exactly the closed nodes ordered before F0[vertex] in the vertex's row, in that order, for a vertex at the radius; the list is non-empty while a node is closed |
| PCenterSolver.Solver.InitialSol | Solver/Solver.cpp:335-345 | p centers open, the tables agree with S, and scBest is the current radius |
| PCenterSolver.Solver.Assigns | Solver/Solver.cpp:263-274 | every node's table entries, node by node |
| PCenterSolver.Solver.OfferKeeps | Solver/Solver.cpp:366-389 | an offer of a swap to its own class keeps that class's minimum and its list of minimal swaps |
| PCenterSolver.Solver.OtherClassKeeps | Solver/Solver.cpp:366-389 | an offer of a swap of the other class leaves the class description true |
| PCenterSolver.Solver.UpdateM | Solver/Solver.cpp:356-361 | M[f] for every open f is the removal radius of f |
| PCenterSolver.Solver.Offer | Solver/Solver.cpp:366-389 | after the offer, each class's best is the least score of its swaps and its list holds only swaps reaching it, and is non-empty when the class is |
| PCenterSolver.Solver.ScoreMoves | Solver/Solver.cpp:362-391 | every swap (c, g) with g open is recorded with score max(scCur, M[g]), earlier records are kept, nothing else is added, and both class descriptions hold |
| PCenterSolver.Solver.RadiusBelow | Solver/Solver.cpp:275 | with a center open on a connected instance, the radius is below the sentinel |
| PCenterSolver.Solver.RemovalBelow | Solver/Solver.cpp:356-361 | with two centers open, M[g] is below the sentinel |
| PCenterSolver.Solver.ScoreFromEntries | Solver/Solver.cpp:365 | once c is open, the score of (c, g) is max(radius, removal radius of g) |
| PCenterSolver.Solver.ScoresAfterAdd | Solver/Solver.cpp:355-365 | once c is open and M is updated, max(scCur, M[g]) is the exact score of (c, g) and is below the sentinel |
| PCenterSolver.Solver.CoresAre | Solver/Solver.cpp:263-274 | the cores read off D and F are the given ones when they agree node by node |
| PCenterSolver.Solver.RoundTripAll | Solver/Solver.cpp:355-392 | opening c and closing it again gives every node back its core entries |
| PCenterSolver.Solver.CoresAfterAdd | Solver/Solver.cpp:355 | the cores after opening c are those AddAll computes from the cores before |
| PCenterSolver.Solver.OpenCandidate | Solver/Solver.cpp:355-361 | c joins S, the tables agree, and max(scCur, M[g]) is the exact score of each swap (c, g) |
| PCenterSolver.Solver.OpenAndScore | Solver/Solver.cpp:355-391 | c is opened and every swap (c, g) is recorded with its exact score in the right class |
| PCenterSolver.Solver.CloseCandidate | Solver/Solver.cpp:392 | closing c restores S and the cores, and the class descriptions survive |
| PCenterSolver.Solver.RestoreCores | Solver/Solver.cpp:392 | removeFacility(c) after addFacility(c) gives back S and every node's cores |
| PCenterSolver.Solver.EvaluateCandidate | Solver/Solver.cpp:354-393 | one candidate scores all its swaps exactly, and S and the cores end as they began |
| PCenterSolver.Solver.NotYetEvaluated | Solver/Solver.cpp:354 | with distinct candidates, the next one has no swap recorded yet |
| PCenterSolver.Solver.EvaluatedStep | Solver/Solver.cpp:354-393 | one more candidate's swaps extend the record of evaluated swaps |
| PCenterSolver.Solver.EvaluateAll | Solver/Solver.cpp:350-393 | every swap (candidate, open center) is recorded with its exact score, both classes are described, and S and the cores are unchanged |
| PCenterSolver.Solver.EvaluateAndSelect | Solver/Solver.cpp:350-402 | the returned swap opens a closed candidate, closes an open center, and obeys the selection rule over all evaluated swaps |
| PCenterSolver.Solver.FindPair | Solver/Solver.cpp:315-403 | candidate() then the evaluation and the selection (Neighbourhood): vertex has its nearest distance at the radius, and the candidate list holds exactly the closed nodes ordered before F0[vertex] in vertex's sortedG row, in that order; every swap (candidate, open center), and no other, is recorded with its exact score; the returned swap opens a listed closed candidate, closes an open center and obeys the selection rule; S and the cores are unchanged |
| PCenterSolver.Solver.Select | Solver/Solver.cpp:395-402 | the selected swap is least in its class; a tabu swap only when it beats scBest and every non-tabu score, or when every swap is tabu; a non-tabu swap only when no tabu swap aspires |
| PCenterSolver.Solver.TabuAmong | Solver/Solver.cpp:366 | an evaluated swap is in the set exactly when T marks it tabu at the step |
| PCenterSolver.Solver.ChosenIsRule | Solver/Solver.cpp:395-402 | the selection rule over the state is the rule over values, with the tabu set and the best radius of that state |
| PCenterSolver.Solver.EvaluatedIsScored | Solver/Solver.cpp:350-393 | the evaluated swaps are scored by the rows of G, as values |
| PCenterSolver.Solver.Rows | Solver/Solver.cpp:264 | the rows of G as a value, each row the sequence GRow(c) |
| PCenterSolver.Solver.SelectionWellDefined | Solver/Solver.cpp:395-402 | the list the rule draws from is never empty once a swap was evaluated |
| PCenterSolver.Solver.SelectionRule | Solver/Solver.cpp:395-402 | any swap drawn from the list the rule names satisfies the selection rule |
| PCenterSolver.Solver.SwapCenters | Solver/Solver.cpp:479-480 | S becomes S + {c} - {f} with its size kept, and the tables and radius are up to date |
| PCenterSolver.Solver.OpenForSwap | Solver/Solver.cpp:479 | c joins S and every node's cores are those AddAll computes from the cores before, with the nearest distance between 0 and the second-nearest one |
| PCenterSolver.Solver.CloseForSwap | Solver/Solver.cpp:480 | closing f after c opened completes the swap with \|S\| kept, and the radius is the score of (c, f) |
| PCenterSolver.Solver.EntriesOrdered | Solver/Solver.cpp:263-274 | with a center open, every nearest distance is between 0 and the second-nearest one |
| PCenterSolver.Solver.RadiusIsScore | Solver/Solver.cpp:479-480 | after opening c and closing f, the radius is the score findPair gave the swap (c, f) |
| PCenterSolver.Solver.MakeTabu | Solver/Solver.cpp:481 | T[c][f] and T[f][c] become the given value and nothing else in T changes |
| PCenterSolver.Solver.ApplySwap | Solver/Solver.cpp:479-488 | the swap, both tabu entries, scBest lowered to scCur when that is smaller, and bestS := S only on a strict improvement |
| PCenterSolver.Solver.KeepBest | Solver/Solver.cpp:484-487 | scBest drops to scCur and bestS becomes S exactly when scCur is strictly below scBest; otherwise both are kept |
| PCenterSolver.Solver.Commit | Solver/Solver.cpp:479-488 | the swap of ApplySwap on a swap picked as Picked says (Stepped): S becomes S + {c} - {f} and the new scCur equals sc[mv], the score the swap was picked with; the tabu entries, scBest and bestS as in ApplySwap |
| PCenterSolver.Solver.PickSwap | Solver/Solver.cpp:315-403 | findPair(iterTime) stated on values (Picked): vertex is at the radius and the candidates are exactly the closed nodes before F0[vertex] in vertex's sortedG row, in that order; every (candidate, open center) swap, and no other, is scored by SwapScore from the cores and the rows of G; the tabu set is the scored swaps whose T entry is above the step; the swap opens a closed candidate, closes an open center and obeys the selection rule against scBest; the open set is unchanged. That the chosen score becomes the radius is stated by Commit and Iterate |
| PCenterSolver.Solver.PickedBy | Solver/Solver.cpp:347-403 | what FindPair ensures implies Picked, with the tabu set of the step and the current scBest |
| PCenterSolver.Solver.Iterate | Solver/Solver.cpp:477-488 | one loop body (Stepped): vertex is at the old radius; the candidates are exactly the closed nodes before F0[vertex] in its sortedG row; every (candidate, open center) swap, and no other, is scored; tabu is judged by T before the body; the swap is picked by the selection rule against the old scBest; S becomes old S + {c} - {f} with \|S\| kept, and the new scCur equals sc[mv], the score the swap was picked with; both tabu entries become tt + iterTime and nothing else in T changes; scBest drops to the new radius when smaller, and bestS becomes S only on a strict improvement |
| PCenterSolver.Solver.StepIsCover | Solver/Solver.cpp:477-480 | after a step as Stepped says, S is s0 + {c} - {f} and the score sc[mv] the swap was picked with is the coverage radius of S |
| PCenterSolver.Solver.RadiusIsCover | Solver/Solver.cpp:275 | with a center open, scCur is the coverage radius of S |
| PCenterSolver.Solver.PathSteps | Solver/Solver.cpp:477-488 | along a search path every open set has p nodes, every radius is its set's coverage radius, and every move swaps a closed node for an open one |
| PCenterSolver.Solver.PathStep | Solver/Solver.cpp:477-488 | one more swap extends a search path |
| PCenterSolver.Solver.Extend | Solver/Solver.cpp:484-487 | one more swap extends the record: scBest stays the least radius on the path, and bestS, when set, is a set on the path with that radius |
| PCenterSolver.Solver.Advance | Solver/Solver.cpp:477-491 | one pass of the loop extends the search path and the record by one set |
| PCenterSolver.Solver.Search | Solver/Solver.cpp:474-491 | initialSol, then the loop until scBest reaches optValue or the budget runs out; the path of open sets and radii from the initial solution is recorded, scBest is the least radius on it and bestS, when set, a set on it with that radius |
| PCenterSolver.Solver.Centers | Solver/Solver.cpp:493-496 | p slots; the first \|bestS\| are the members of bestS once each, and the rest are invalidId |
| PCenterSolver.Solver.Optimize | Solver/Solver.cpp:465-502 | the search path runs from the initial solution through swaps of a closed node for an open one, each radius on it the coverage radius of its set; the reported radius is scBest, the least radius on the path; bestS, when set, is a p-set on the path with that radius; the loop stops at optValue or after the budget; the centers list bestS once each and are padded with invalidId |
| PCenterSolver.BestWorker | Solver/Solver.cpp:174-187 | -1 exactly when no worker succeeded below the sentinel; otherwise a successful worker with the least radius, and the lowest index among equals |
| PCenterCpp.ReserSamp | BeforeSDK/pcenter.cpp:49-63 | T() for an empty list, otherwise an element of the list |
| PCenterCpp.CollectWithin | BeforeSDK/pcenter.cpp:172-178 | the list is exactly the closed nodes u with G[vertex][u] <= maxDist, in index order |
| PCenterCpp.CandidateByRadius | BeforeSDK/pcenter.cpp:162-179 | for a vertex at the radius, the list is the closed nodes within the radius of it, in index order, non-empty while a node is closed |
| PCenterCpp.Initial | BeforeSDK/pcenter.cpp:181-195 | p centers open, the tables agree, and scBest is the current radius |
| PCenterCpp.TabuRow | BeforeSDK/pcenter.cpp:263-268 | row b of T becomes tabuStep and nothing else changes |
| PCenterCpp.TabuRowColumn | BeforeSDK/pcenter.cpp:253-261 | row b and column a of T become tabuStep and nothing else changes |
| PCenterCpp.ChoseBy | BeforeSDK/pcenter.cpp:316-317 | the candidate list within the radius, every swap scored exactly and the selection rule over the state imply Chose on values |
| PCenterCpp.PairWithinRadius | BeforeSDK/pcenter.cpp:162-179 | vertex at the radius, the list exactly the closed nodes within the radius of it in index order, every (candidate, open center) swap recorded with its exact score, and the swap chosen by the rule; S and the cores unchanged |
| PCenterCpp.ListedWithinRadius | BeforeSDK/pcenter.cpp:172-178 | the list of closed nodes within the radius of a bottleneck node, in index order, is WithinRadius and has no repeats |
| PCenterCpp.CandidateThenPair | BeforeSDK/pcenter.cpp:316-317 | candidate() (lines 162-179) then findPair(step), stated as Chose: vertex is at the radius; the candidate list is exactly the closed nodes u with G[vertex][u] <= radius, in index order; every (candidate, open center) swap, and no other, is scored by SwapScore from the cores and the rows of G; tabu is judged by T at the step; the swap opens a listed closed candidate, closes an open center and obeys the selection rule against scBest; the open set is unchanged |
| PCenterCpp.SwapAndMark | BeforeSDK/pcenter.cpp:318-327 | on a swap picked as Chose says: S becomes S + {c} - {f} and the new radius equals sc[mv], the score the swap was picked with (Swapped); both tabu entries become tt + iterTime and nothing else in T changes; scBest drops to the new radius when smaller |
| PCenterCpp.SwapAndLower | BeforeSDK/pcenter.cpp:318-327 | S becomes S + {c} - {f} with \|S\| kept, the radius is the score of (c, f), both tabu entries become until and nothing else in T changes, and scBest drops to the radius when smaller |
| PCenterCpp.Round | BeforeSDK/pcenter.cpp:316-327 | one pass without the stop test: Swapped from the state before the pass, the tabu set judged by T before it, both tabu entries set and nothing else in T changed, and scBest lowered to the new radius when smaller |
| PCenterCpp.Step | BeforeSDK/pcenter.cpp:307-332 | one pass (Swapped): the candidate list and the swaps as CandidateThenPair, with tabu judged against T and scBest before the pass; S becomes S + {c} - {f} with \|S\| kept; the new radius equals sc[mv], the score the swap was picked with, and is the coverage radius of the new S; both tabu entries become tt + iterTime and nothing else in T changes; scBest drops to the new radius when smaller; the stop flag is set exactly when scBest reaches opt |
| PCenterPy.ReservoirSamp | BeforeSDK/PCenter.py:19-27 | None for None, IndexError for an empty list, otherwise an element of the list |
| PCenterPy.MaxEndpoint | BeforeSDK/PCenter.py:39-43 | N is 0 or the largest endpoint named by an edge |
| PCenterPy.NodeCount | BeforeSDK/PCenter.py:39-43 | the scan of the edges computes MaxEndpoint |
| PCenterPy.ReadGraph | BeforeSDK/PCenter.py:39-52 | N is the largest endpoint, and G is the shortest-walk matrix of the 0-based direct edges (last duplicate winning), with the bounds of Distances |
| PCenterPy.RemoveFirst | BeforeSDK/PCenter.py:92 | list.remove: unchanged when x is absent, otherwise one element shorter |
| PCenterPy.RemoveFirstAt | BeforeSDK/PCenter.py:92 | list.remove deletes exactly the first position holding x |
| PCenterPy.RemoveFirstMembers | BeforeSDK/PCenter.py:92 | on a list without repeats, list.remove leaves exactly the other ids, each once |
| PCenterPy.DropNoRepeats | BeforeSDK/PCenter.py:92 | dropping a position keeps a list free of repeats |
| PCenterPy.DropMembers | BeforeSDK/PCenter.py:92 | dropping a position of a list without repeats removes exactly that value |
| PCenterPy.RemoveAppended | BeforeSDK/PCenter.py:124-145 | removing the id just appended gives the list back, so S ends each candidate as it began |
| PCenterPy.Elems | BeforeSDK/PCenter.py:65 | the members of a list |
| PCenterPy.Appended | BeforeSDK/PCenter.py:65 | appending a new id keeps the list free of repeats and adds exactly that id |
| PCenterPy.ElemsCard | BeforeSDK/PCenter.py:112-115 | a list without repeats has as many members as entries |
| PCenterPy.NodesCard | BeforeSDK/PCenter.py:110 | the node ids below k, k of them |
| PCenterPy.NodesCover | BeforeSDK/PCenter.py:112-115 | a set of node ids has n members exactly when it holds every node, and otherwise misses one |
| PCenterPy.IncreasingNoRepeats | BeforeSDK/PCenter.py:106 | a strictly increasing list has no repeats |
| PCenterPy.FirstOther | BeforeSDK/PCenter.py:80-85 | the first sorted pair whose id is not f is the least such pair |
| PCenterPy.PCenter.Row0 | BeforeSDK/PCenter.py:75 | D[0] as a sequence |
| PCenterPy.PCenter.Assigns | BeforeSDK/PCenter.py:67-74 | every node's table entries, node by node |
| PCenterPy.PCenter.Cores | BeforeSDK/PCenter.py:67-74 | every node's core entries, node by node |
| PCenterPy.PCenter.GRow | BeforeSDK/PCenter.py:67 | row i of G as a sequence |
| PCenterPy.PCenter.Load | BeforeSDK/PCenter.py:29-61 | the shortest-walk matrix of ReadGraph, F at N, D at INFINITY, T and M at zero, and S empty, which agree |
| PCenterPy.PCenter.Unassigned | BeforeSDK/PCenter.py:54-60 | tables at their sentinels agree with the empty list |
| PCenterPy.PCenter.ComputeRadius | BeforeSDK/PCenter.py:75 | max(D[0]) |
| PCenterPy.PCenter.AddAtNode | BeforeSDK/PCenter.py:67-74 | one node gets the strict-less update and no other node changes |
| PCenterPy.PCenter.AddKeepsAgrees | BeforeSDK/PCenter.py:66-74 | the update at every node makes the tables agree with S + {f} |
| PCenterPy.PCenter.AddFacility | BeforeSDK/PCenter.py:63-75 | f is appended, every node gets the strict-less update, the tables agree, and Sc_cur is the new radius |
| PCenterPy.PCenter.OpenAll | BeforeSDK/PCenter.py:66-74 | the node loop applies the update for f at every node |
| PCenterPy.PCenter.FindNext | BeforeSDK/PCenter.py:77-87 | with another center present, the second entry is the (distance, id)-least center other than f; with none, node v is untouched; the first entry is always kept |
| PCenterPy.PCenter.RepairNode | BeforeSDK/PCenter.py:94-99 | a node served by f promotes and looks up, a node with f second looks up, and any other node is untouched |
| PCenterPy.PCenter.RemoveKeepsAgrees | BeforeSDK/PCenter.py:93-99 | repairing every node after f closes makes the tables agree with S - {f} |
| PCenterPy.PCenter.RemoveFacility | BeforeSDK/PCenter.py:90-100 | raises and changes nothing exactly when f is not in S; otherwise S loses its first f, every node is repaired, the tables agree, and Sc_cur is the new radius |
| PCenterPy.PCenter.CloseCenter | BeforeSDK/PCenter.py:90-100 | removeFacility of an open f: S loses f, every node is repaired, and the tables agree |
| PCenterPy.PCenter.RepairAll | BeforeSDK/PCenter.py:93-99 | the node loop repairs every node as RemovedAt says |
| PCenterPy.PCenter.SortedDistances | BeforeSDK/PCenter.py:78-80 | sorted(zip(dists, S)) holds exactly the pairs (G[v][s], s) for s in S, strictly ascending |
| PCenterPy.PCenter.LeastStep | BeforeSDK/PCenter.py:134-135 | C stays the least score of the swaps seen |
| PCenterPy.PCenter.ListReset | BeforeSDK/PCenter.py:134-139 | a swap below C becomes its class's whole list |
| PCenterPy.PCenter.ListAppend | BeforeSDK/PCenter.py:140-144 | a swap at C is appended to its class's list |
| PCenterPy.PCenter.ListKeep | BeforeSDK/PCenter.py:134-144 | a swap above C, or a swap of the other class, leaves a list valid |
| PCenterPy.PCenter.Offer | BeforeSDK/PCenter.py:134-144 | C becomes the least score so far, and each list holds swaps of its class with their scores, non-increasing, none below C, including every swap of the class at C |
| PCenterPy.PCenter.ServedMax | BeforeSDK/PCenter.py:128-131 | M[f] becomes the removal radius of f and no other entry of M changes |
| PCenterPy.PCenter.RemovalIsServedMax | BeforeSDK/PCenter.py:128-131 | for an open f the removal radius is the largest second-nearest distance over the nodes f serves, so max(dists) never sees an empty list |
| PCenterPy.PCenter.ServesItself | BeforeSDK/PCenter.py:128-130 | an open center is its own nearest center |
| PCenterPy.PCenter.RadiusBelow | BeforeSDK/PCenter.py:75 | with a center open, the radius is below INFINITY |
| PCenterPy.PCenter.RadiusIsCover | BeforeSDK/PCenter.py:75 | with a center open, Sc_cur is the coverage radius of the members of S |
| PCenterPy.PCenter.RemovalBelow | BeforeSDK/PCenter.py:131 | with two centers open, M[g] is below INFINITY |
| PCenterPy.PCenter.ScoreFromEntries | BeforeSDK/PCenter.py:132 | once i is open, the score of (f, i) is max(radius, removal radius of f) |
| PCenterPy.PCenter.CoresAfterAdd | BeforeSDK/PCenter.py:124 | the cores after opening i are those AddAll computes from the cores before |
| PCenterPy.PCenter.RoundTripAll | BeforeSDK/PCenter.py:124-145 | opening i and closing it again gives every node back its core entries |
| PCenterPy.PCenter.OpenCandidate | BeforeSDK/PCenter.py:124 | i is appended, the tables agree, and the radius and every removal radius are finite |
| PCenterPy.PCenter.ScoreCenters | BeforeSDK/PCenter.py:127-144 | every f in S1 is offered with score R[f], earlier swaps are kept, nothing else is added, and C and the lists stay valid |
| PCenterPy.PCenter.NotYetScored | BeforeSDK/PCenter.py:127 | the next center of S1 has not been scored against i |
| PCenterPy.PCenter.ScoredStep | BeforeSDK/PCenter.py:127-144 | scoring one more center extends the record by one |
| PCenterPy.PCenter.Candidate | BeforeSDK/PCenter.py:102-106 | for a vertex at max(D[0]), the list is exactly the nodes strictly closer to it than that radius, in increasing order |
| PCenterPy.PCenter.CandidatesAreClosed | BeforeSDK/PCenter.py:102-106 | no open center is a candidate, and while a node is closed the vertex itself is one |
| PCenterPy.PCenter.Initial | BeforeSDK/PCenter.py:108-116 | IndexError exactly when p > n, after all n nodes have opened and the candidate list runs dry; otherwise max(p, 1) centers open, the tables agree, and Sc_best is the radius |
| PCenterPy.PCenter.OpenSampled | BeforeSDK/PCenter.py:113-115 | sampling raises exactly when every node is open; otherwise one more center opens |
| PCenterPy.PCenter.EntriesOrdered | BeforeSDK/PCenter.py:67-74 | with a center open, every nearest distance is between 0 and the second-nearest one |
| PCenterPy.PCenter.RadiusIsScore | BeforeSDK/PCenter.py:175-176 | after opening i and closing f, the radius is the score findPair gave the swap (f, i) |
| PCenterPy.PCenter.SwapCenters | BeforeSDK/PCenter.py:175-176 | S's members become S - {f} + {i}, its length is kept, the tables agree, and Sc_cur is the swap's score |
| PCenterPy.PCenter.OpenForSwap | BeforeSDK/PCenter.py:175 | i is appended, and every node's cores are those AddAll computes, in order |
| PCenterPy.PCenter.CloseForSwap | BeforeSDK/PCenter.py:176 | closing f completes the swap, and the radius is the swap's score |
| PCenterPy.PCenter.SwappedMembers | BeforeSDK/PCenter.py:175-176 | opening i and closing f != i takes f out and puts i in |
| PCenterPy.PCenter.Run | BeforeSDK/PCenter.py:158-181 | IndexError exactly when p > n; otherwise first is the initial p-center list and start its coverage radius; the trace of lists held starts at first and ends at S, each with its true coverage radius, and Sc_best is one of those radii and the least of them; at the end p centers, iter below iterTimes, and stopping early only once Sc_best <= opt |
| PCenterPy.PCenter.Begin | BeforeSDK/PCenter.py:160 | initial() gives IndexError exactly when p > n; otherwise p distinct centers whose tables agree, and a one-entry trace at the initial radius |
| PCenterPy.PCenter.TraceStep | BeforeSDK/PCenter.py:178-179 | appending the current list and its coverage radius extends the trace, and Sc_best lowered to Sc_cur stays the least radius on it |
| PCenterPy.PCenter.TraceBegins | BeforeSDK/PCenter.py:160 | the one-entry trace of the initial list at its radius, with Sc_best at that radius, is a trace |
| PCenterPy.PCenter.TraceStart | BeforeSDK/PCenter.py:160 | the trace starts at a p-center list whose coverage radius is start, and Sc_best is at most start |
| PCenterPy.PCenter.TracedIteration | BeforeSDK/PCenter.py:163-181 | one iteration appends the new list and its radius to the trace, keeping Sc_best the least radius on it |
| PCenterPy.PCenter.SteadyIteration | BeforeSDK/PCenter.py:163-181 | one iteration keeps the state steady and the number of centers, lowers Sc_best to the new radius when smaller, and stops exactly when Sc_best <= opt |
| PCenterPy.PCenter.Iteration | BeforeSDK/PCenter.py:163-181 | tt in [p/5 + 6, p/5 + p/10 + 10]; Searched: vertex is at the radius and the candidates are exactly the nodes strictly closer to it; ev holds exactly the swaps (f, i) of a center and a candidate, each at SwapScore from the cores and the rows of G; C is their least score; each list holds only swaps of its class at their scores, never rising, none below C, and every swap of the class at C; the move is None exactly when the non-tabu list is empty and no tabu head beats Sc_best, otherwise an evaluated swap drawn from the list Pool names, tabu only when it beats Sc_best, and non-tabu and improving whenever the non-tabu head improves; Moved: no move leaves S, the radii and T alone; a move swaps f for i, makes the radius its score, sets both tabu entries to tt + step and no other entry of T, and lowers Sc_best; stop exactly when Sc_best <= opt |
| PCenterPy.PCenter.Survey | BeforeSDK/PCenter.py:166 | findPair(candidate(), i) leaves S, the cores and the radius as they were, and Surveyed holds: the candidate list around a node at the radius, every swap of a center for a candidate at its score, C the least score, and both lists as Listed says |
| PCenterPy.PCenter.Rows | BeforeSDK/PCenter.py:67 | the rows of G as a value, each row the sequence GRow(c) |
| PCenterPy.PCenter.EvaluatedIsScored | BeforeSDK/PCenter.py:123-145 | the evaluated swaps are scored by the rows of G, as values |
| PCenterPy.PCenter.TabuSet | BeforeSDK/PCenter.py:136 | a swap of ev is in the set exactly when T[f][i] > step |
| PCenterPy.PCenter.ListedFrom | BeforeSDK/PCenter.py:134-144 | a list valid at the step is Listed against the tabu swaps of that step |
| PCenterPy.PCenter.Draw | BeforeSDK/PCenter.py:167-173 | the move, if any, is drawn as Drawn says, and is a swap of an open f for a closed i at its exact score; S, the lists, Sc_best and T are unchanged |
| PCenterPy.PCenter.ClosedCandidates | BeforeSDK/PCenter.py:102-106 | vertex has D[0][vertex] == max(D[0]); a node j is listed exactly when G[vertex][j] < max(D[0]); the list is strictly increasing, so without repeats, holds no open center, and is non-empty while a node is closed |
| PCenterPy.PCenter.TakeMove | BeforeSDK/PCenter.py:167-179 | after a survey as Surveyed says, the move is drawn as Drawn says and applied as Moved says, and no other entry of T changes; with no move nothing changes |
| PCenterPy.PCenter.ApplyChosen | BeforeSDK/PCenter.py:174-179 | Moved: ApplyMove when there is a move, with the rest of T kept; otherwise S, the radii and T unchanged; the two lists are untouched either way |
| PCenterPy.PCenter.Choose | BeforeSDK/PCenter.py:167-173 | no move exactly when notTabuList is empty and tabuList is empty or its head does not beat Sc_best; a move is drawn from the list Pool names and is an evaluated swap with its score; a tabu move beats Sc_best; an improving non-tabu head yields an improving non-tabu move; with no move every least-score swap is tabu |
| PCenterPy.PCenter.Pool | BeforeSDK/PCenter.py:168-173 | the list drawn from is one of the two, and the tabu list only when the non-tabu head does not beat the best radius |
| PCenterPy.PCenter.ListHead | BeforeSDK/PCenter.py:168-173 | a list entry is an evaluated swap of the list's class with its score, no better than the head |
| PCenterPy.PCenter.SetTabu | BeforeSDK/PCenter.py:177 | T[f][i] and T[i][f] are set and nothing else in T changes |
| PCenterPy.PCenter.ApplyMove | BeforeSDK/PCenter.py:174-179 | the swap, its score as the new radius, both tabu entries set to tt + step, the rest of T kept, and Sc_best lowered to Sc_cur when that is smaller |
| PCenterPy.PCenter.FindPair | BeforeSDK/PCenter.py:119-145 | every swap (f, i) of an open f and a candidate i is recorded with its exact score, C and the lists describe them, and S, the tables and the radius end as they began |
| PCenterPy.PCenter.EvaluateAll | BeforeSDK/PCenter.py:121-145 | the candidate loop from empty lists and C = INFINITY records every swap with its exact score |
| PCenterPy.PCenter.EvaluatedAll | BeforeSDK/PCenter.py:123 | the record of the whole prefix is the record of the whole list |
| PCenterPy.PCenter.RadiusOfCores | BeforeSDK/PCenter.py:75 | the radius is determined by the cores |
| PCenterPy.PCenter.NotYetEvaluated | BeforeSDK/PCenter.py:123 | with distinct candidates, the next one has no swap recorded yet |
| PCenterPy.PCenter.EvaluatedStep | BeforeSDK/PCenter.py:123-145 | one more candidate's swaps extend the record |
| PCenterPy.PCenter.EvaluateCandidate | BeforeSDK/PCenter.py:124-145 | candidate i scores every other center exactly, and S and the cores end as they began |
| PCenterPy.PCenter.ScoreAndClose | BeforeSDK/PCenter.py:125-145 | once i is open, every other center is scored exactly, then i closes and S and the cores are restored |
| PCenterPy.PCenter.CentersBesides | BeforeSDK/PCenter.py:125-126 | S1 is S without i, and each of its members has its exact score as max(Sc_cur, M[f]) |
| PCenterPy.PCenter.ScoresAgainst | BeforeSDK/PCenter.py:127-132 | the map of the exact score of (f, i) for every f listed |
| PCenterPy.PCenter.ScoresReadOff | BeforeSDK/PCenter.py:131-132 | while i is open, max(Sc_cur, removal radius of f) is the exact score of (f, i) and is finite |
| PCenterPy.PCenter.CloseCandidate | BeforeSDK/PCenter.py:145 | removeFacility(i) restores S and every node's cores |
| PCenterPy.PCenter.ScoreOne | BeforeSDK/PCenter.py:128-144 | M[f] is updated and the swap (f, i) is offered with its score, keeping C and the lists valid |

## Left out

- Command-line parsing, environment and configuration loading, `record`, `check`, logging, file output, the help text and the `Simulator` are I/O and are not modelled. So are the Python JSON reading, the text-file reading in `pcenter.cpp`, time stamps and clocks.
- Threads in `solve` are not modelled. Only the reduction over the workers' results is (`PCenterSolver.BestWorker`).
- The geometric instances of `init` use floating-point `hypot` and `lround` and are not modelled. The model covers topological instances.
- The library routine `Floyd::findAllPairsPaths_symmetric` is not part of this model. The solver's matrix is closed with the same triple loop as the prototypes.
- The timer becomes an iteration budget (`Optimize`), `iterTimes` (`Run`), or an external stop. The `KEY_DOWN` interrupt of `pcenter.cpp` is left out.
- `aux.optValue`, read from the instance name at line 462 of `Solver/Solver.cpp`, and the `opt` tables of the prototypes are taken as a parameter.
- Random draws are nondeterministic choices or a `pick` parameter. The exact tie-breaking and the set iteration order of `std::set` are not modelled. `PCenterSolver.Solver.Centers` writes `bestS` in an arbitrary order.
- `tt` in `pcenter.cpp` (`0.6*N + rand() % (int)(0.8*P)`) uses floating point and is a parameter of `PCenterCpp.Step`.
- Integers are unbounded. The prototypes' `unsigned int` and numpy `int32` never overflow for distances below 64000 and are not modelled.
- PCenterSolver.Solver.RemoveFacility and PCenterPy.PCenter.RemoveFacility require at least three open centers when f is open. With two, findNext has nothing to pick from (division by zero in C++) or leaves stale second-nearest entries (Python), and the tables no longer agree with S.
- PCenterSolver.Solver.Optimize, PCenterCpp.Step and PCenterPy.PCenter.Run require at least two centers (`2 <= p`), and the C++ versions require p < n, so that a swap exists. With p = 1 the programs hit the same findNext problem.
- PCenterSolver.Solver.Optimize takes an iteration budget in place of the timer. Its search path records the open sets and radii, not the tabu state at each step; that is stated one step at a time by `Iterate`.
- PCenterSolver.Solver.Optimize models the source as written: `initialSol` sets `scBest` but not `bestS` (line 344 of `Solver/Solver.cpp`), and `bestS` is set only on a strict improvement (lines 484-486). When no swap improves on the initial radius, the centers are all `invalidId` while the radius reported is the initial one.
- `GraphOk` requires a connected instance with no zero-length edge between distinct nodes and no self-loop of non-zero length (the diagonal of the distance matrix is zero). The search's claims are about such instances.
- PCenterPy.PCenter.FindPair requires a candidate list without repeats and without open centers, which `candidate()` always produces (`ClosedCandidates`).
- PCenterPy.PCenter.Iteration does not state which element of the list the reservoir sample returns.
- SolverEnv.FriendlyLocalTime requires a stamp of at least 12 characters. `substr` on a shorter string throws `out_of_range` (or yields a shorter result), which is not modelled.
- PCenterSolver.Solver.InitialSol and PCenterCpp.Initial require 1 <= p <= n. With p <= 0 the source still opens one center; with p > n it calls `rand.pick(0)` or `rand() % 0`, which is undefined.
- SolverEnv.VisualizPathWithMsg takes an integer message. The source takes a template argument `T` passed to `std::to_string`, so any arithmetic type; floating-point messages are not modelled.
- `Sc_cur` before the first `addFacility` and `M` entries of closed nodes are not read by the search and are not tracked.
