# Mission criticality analysis — a verified model

The service receives a mission model as JSON. The model has four parts:

- missions;
- operational data assets;
- `MissionHierarchy` links (child mission, parent mission);
- `Mission_OperationalData` links (data asset, mission).

It offers three analyses over that model, and this project models their computational core in Dafny.

**Bottom-up usage (`/bottom_up_process`).**
- The mission graph `M` has missions as vertices and child -> parent edges.
- Missions are visited in a topological order of `M`.
- A leaf mission (one with no children) gets 100 in the column of every data asset linked to it.
- Every other mission gets the element-wise mean of its children's rows. The code also has a branch that writes a row of zeros when no child is a declared mission (app.py:103-105). A run without errors never takes it: every vertex of `M` is then a declared mission, so a mission that is not a leaf has a declared child (`BottomUp.NonLeafHasMissionChild`).

The result is a mission x data matrix.

**Depth/breadth criticality (`/bfs_dfs_analysis`).**
- The usage graph `G` has hierarchy edges child -> parent and usage edges data -> mission.
- Every data asset gets the raw score `breadth + 1/(depth + 1)`.
  - `breadth` is its number of successors.
  - `depth` comes from a depth-first walk over predecessors. That walk keeps one visited set, which is never reset.
- The raw scores are then rescaled linearly to the range [1, 4].

**Importance (`/pagerank_analysis`).**
- The influence graph has edges parent -> child and mission -> data.
- For every mission, each operational data asset reachable from it gets its PageRank divided by the number of vertices on a shortest path from the mission.
- One mission's weights are divided by their total (by 1 when the total is not positive).
- The maps are padded with zeros and laid out as a mission x data matrix.

## Modules

- **Graphs** (`graph.dfy`) holds:
  - a directed graph with vertices and edges kept in first-insertion order without repeats, as a networkx `DiGraph` keeps them;
  - successors and predecessors;
  - paths and reachability;
  - topological orders.
- **Model** (`model.dfy`) holds the payload and the three graphs built from it.
- **BottomUp** (`bottom_up.dfy`) holds the bottom-up matrix.
  - The imperative fill over an `array2<real>` is proved against `Cell`, a specification function defined by recursion along the topological order.
- **Criticality** (`criticality.dfy`) holds depth, breadth, raw scores and the rescaling.
- **ShortestPaths** (`shortest_path.dfy`) holds the breadth-first search over a queue of paths. It is proved to return a shortest path.
- **Sums** (`sums.dfy`) holds sums of real-valued maps over finite key sets.
- **Importance** (`importance.dfy`) holds dependencies, weights, per-mission normalisation, zero padding and the matrix.

Two external results are parameters of the model rather than computed:

- the topological sort of `M`. Bottom-up receives it as `Some(order)`, or `None` when `M` has a cycle;
- PageRank, which importance receives as a map from vertex to a non-negative real.

`BottomUp.CellOrderIndependent` shows that the bottom-up matrix does not depend on which topological order the sort returns.

## Intended behaviour the code does not have

The model follows the code.

- **Unknown ids in links.** A link naming an id that is not declared should be rejected. The code instead adds the id as a new vertex, as networkx does for edge endpoints.
  - The bottom-up loop then fails on the dictionary lookup at `app.py:85`. This happens only for a hierarchy link that names a non-mission, and the model returns `UnknownMission` for it.
  - The other analyses silently include such vertices.
- **The visited set of the depth walk.** Each walk should start from a fresh visited set, and a cycle should be reported as an error.
  - The code uses a mutable default argument, so the set is shared by all data assets of a request and by later requests.
  - A vertex seen before simply has depth 0.
  - The model threads the set through and takes its starting value `visited0` as a parameter.
- **The dependency closure.** The closure should be memoised and bounded in size. The code recurses without memo, visited set or bound.
  - The model computes the same set.
  - It requires that no mission reaches a cycle, which is exactly when the recursion ends (see Left out).
- **A cycle in the mission hierarchy.** Such a cycle should be rejected. The code only prints a message, the processing order then stays unset, and the loop at `app.py:83` fails.
  - The model reports `CyclicHierarchy`.

## Model

| member | source | states |
|---|---|---|
| Graphs.NewGraph | app.py:55-57 | the vertices are the given ones plus every edge endpoint, without repeats and with the given vertices first; the edges are exactly the given ones |
| Graphs.Pred | app.py:144 | `predecessors(n)`: exactly the vertices with an edge into `n`, each once |
| Graphs.Succ | app.py:299 | `successors(n)`: exactly the vertices `n` has an edge to, each once |
| Graphs.IndexMap | app.py:79-80 | `{uuid: i for i, uuid in enumerate(...)}`: every id maps to its own position |
| Graphs.CycleHasNoTopologicalOrder | app.py:69-73 | a mission graph with a cycle has no topological order, so the sort can only fail |
| Model.MissionIds | app.py:41 | the keys of the missions dict: exactly the declared missions, without repeats |
| Model.DataIds | app.py:42 | the keys of the operational data dict: exactly the declared data assets, without repeats |
| Model.ChildToParent | app.py:48 | a hierarchy link becomes exactly one child -> parent edge |
| Model.DataToMission | app.py:49 | a usage link becomes exactly one data -> mission edge |
| Model.UsageGraph | app.py:55-57 | `G` holds every mission and data asset, and its edges are exactly the hierarchy and usage links |
| Model.MissionGraph | app.py:60-62 | `M` holds every mission, and its edges are exactly the hierarchy links |
| Model.MissionGraphNodes | app.py:60-62 | a vertex of `M` is a declared mission or an id named by some hierarchy link, and nothing else |
| Model.ParentToChild | app.py:278 | a hierarchy link becomes exactly one parent -> child edge |
| Model.MissionToData | app.py:279 | a usage link becomes exactly one mission -> data edge |
| Model.InfluenceGraph | app.py:273-280 | the importance graph holds every mission and data asset, and its edges are exactly the links turned around |
| Model.InfluenceIsReversedUsage | app.py:270-280 | the influence graph has the usage graph's vertices and exactly its edges reversed |
| BottomUp.LeafNodes | app.py:65-66 | exactly the vertices of the graph with in-degree 0 |
| Graphs.KeepIn | app.py:89-94 | the list comprehension's filter: keeps exactly the members of the list that are in the given set, in order; a list with no repeats stays free of repeats |
| BottomUp.Children | app.py:94 | exactly the declared missions with an edge into `m`, each once |
| BottomUp.MissionChildren | app.py:94 | in `M`, `c` is a child of `m` iff some hierarchy link says so and `c` is a declared mission |
| BottomUp.ChildrenEarlier | app.py:83-97 | every child comes before its parent in the processing order, so its row is final when the parent reads it |
| BottomUp.LinkedColumns | app.py:89-91 | the columns marked for a leaf are exactly those of the data assets with a link to `m` |
| BottomUp.Columns | app.py:97 | the row index of each child, in order, and no other rows |
| BottomUp.Cell | app.py:83-105 | the specification of one matrix entry, by recursion on the processing order: for a leaf, 100 or 0 by the usage link; otherwise the mean of the children's entries, or 0 without children; its properties are the lemmas below |
| BottomUp.ChildSum | app.py:100 | the specification of `np.sum` over the children's rows in one column: the sum of `Cell` over a list of children that all come earlier in the order |
| BottomUp.LeafRow | app.py:87-91 | a leaf's entry is 100 if the data asset is linked to it by a usage link, else 0 |
| BottomUp.CellInRange | app.py:87-105 | every matrix entry lies in [0, 100] |
| BottomUp.CellOrderIndependent | app.py:70 | the result is the same for any two topological orders of `M` |
| BottomUp.MarkUsed | app.py:90-91 | the given columns of the row become 100; nothing else changes |
| BottomUp.AverageRows | app.py:97-102 | the row becomes the column-wise sum of the children's rows divided by their number; nothing else changes |
| BottomUp.ClearRow | app.py:103-105 | the row becomes all zeros; nothing else changes |
| BottomUp.FillLeafRow | app.py:87-91 | a leaf's row, starting from zeros, ends equal to its specification row; other rows are unchanged |
| BottomUp.ChildRowsSum | app.py:97-101 | the column sums over the children's finished rows equal the specification's sum over the children |
| BottomUp.FillParentRow | app.py:92-105 | a parent's row ends equal to its specification row: the mean of its children's rows, or zeros; other rows are unchanged |
| BottomUp.FillRow | app.py:83-105 | one loop iteration extends "the first k missions of the order hold their final rows, the rest are zero" to k + 1 |
| BottomUp.FillAlong | app.py:83-85 | the loop stops at the end of the order or at the first id that is not a declared mission, with every earlier row final |
| BottomUp.BottomUpProcess | app.py:52-105 | a cycle gives `CyclicHierarchy`, and only a cycle does; an id in `M` that is not a mission gives `UnknownMission`; otherwise every entry equals `Cell`, and the shape is missions x data |
| BottomUp.NonLeafHasMissionChild | app.py:83-97 | when every vertex of the mission graph is a declared mission (the lookup at app.py:85 succeeds for all of them), a mission that is not a leaf has at least one declared child, so the zero-row branch at app.py:103-105 is unreachable |
| BottomUp.RowIsMeanOfChildren | app.py:93-102 | in the finished matrix of a run without errors, each non-leaf row has at least one child row and is the column-wise mean of its children's rows |
| Criticality.Depth | app.py:140-145 | 0 for a visited vertex; the walk adds the vertex to the visited set and only vertices of the graph; the depth is bounded by the number of unvisited vertices |
| Criticality.DepthList | app.py:144 | one depth per predecessor, with the visited set only growing |
| Criticality.MaxOf | app.py:145 | the largest element, which occurs in the list |
| Criticality.DepthWitnessed | app.py:140-145 | every depth returned is the number of edges of some path in the graph ending at the vertex |
| Criticality.DepthListWitnessed | app.py:144 | the same holds for every predecessor's depth |
| Criticality.Breadth | app.py:148-149 | the number of distinct successors |
| Criticality.RawScore | app.py:184 | the score lies in (breadth, breadth + 1], and it equals breadth + 1 exactly when the depth is 0 |
| Criticality.RawScoreAntitone | app.py:184 | for equal breadth, a deeper vertex never scores higher |
| Criticality.Scores | app.py:179-184 | one raw score per data id, keyed by exactly the data ids |
| Criticality.ScoresVisit | app.py:180-181 | after the loop the shared visited set holds its starting contents and every data id |
| Criticality.ScoresNearBreadth | app.py:179-184 | every raw score lies in (breadth, breadth + 1] |
| Criticality.ScoreLoop | app.py:179-184 | the loop yields the scores and the final visited set of the specification `Scores` |
| Criticality.CriticalityScores | app.py:162-184 | over `G`, scores are keyed by exactly the data ids and lie within one above their breadth |
| Criticality.MaxOr | app.py:187 | `max(..., default=1)`: the default for no values, else the largest value |
| Criticality.MinOr | app.py:188 | `min(..., default=0)`: the default for no values, else the smallest value |
| Criticality.Values | app.py:187-188 | exactly the values of the score map |
| Criticality.Rescale | app.py:189 | the result lies in [1, 4]; it is 1 exactly at the minimum or when all scores are equal, and 4 exactly at a maximum above the minimum |
| Criticality.RescaleMonotone | app.py:189 | rescaling keeps order, and keeps strict order when max > min |
| Criticality.Normalize | app.py:187-189 | the same keys, every value in [1, 4] |
| Criticality.NormalizeOrder | app.py:187-189 | normalised scores keep the order of the raw scores, strict order included |
| Criticality.NormalizeLowest | app.py:187-189 | some data id gets exactly 1 |
| Criticality.NormalizeHighest | app.py:187-189 | when two raw scores differ, some data id gets exactly 4 |
| Criticality.NormalizeAllEqual | app.py:189 | when all raw scores are equal, every normalised score is 1 |
| Criticality.BfsDfsAnalysis | app.py:159-189 | raw and normalised maps are keyed by the data ids; normalised is the rescaling of raw and lies in [1, 4] |
| ShortestPaths.Distance | app.py:341 | the number of vertices on a shortest path, or 0 when there is none |
| ShortestPaths.DistanceOfSelf | app.py:341 | a reachable target is at distance at least 1, and at distance 1 exactly when it is the start |
| ShortestPaths.Enqueue | app.py:299-301 | the loop that appends `path + [neighbor]` for every successor leaves the queue followed by exactly `Extensions` of the path over the successors, in order |
| ShortestPaths.Extensions | app.py:299-301 | each successor gives the current path extended by that successor, in successor order |
| ShortestPaths.ShortestPath | app.py:289-302 | a path from start to end that no other path is shorter than, or `[]` exactly when the end is unreachable |
| Importance.AdjustScore | app.py:307-310 | score / length for a positive length, else 0; for a non-negative score the result lies between 0 and the score |
| Importance.Dependencies | app.py:315-324 | defined for every vertex that reaches no cycle, the recursion's own domain; the dependency set consists of vertices of the graph |
| Importance.DependenciesOfAll | app.py:321-322 | the union of the recursive calls over the direct successors, defined under the same closed order; it consists of vertices of the graph |
| Importance.DependenciesAreReachable | app.py:315-324 | a vertex is a dependency of `n` iff a path of at least one edge leads from `n` to it |
| Importance.DependenciesOfAllReachable | app.py:321-322 | everything gathered from the direct successors is reachable from the parent |
| Importance.DependenciesOfAllCovers | app.py:321-322 | everything reachable from a direct successor is gathered |
| Importance.Ancestors | app.py:253-260 | defined for every vertex that no cycle reaches; the closure over predecessors consists of vertices of the graph |
| Importance.AncestorsReachThis | app.py:253-260 | a vertex is in the predecessor closure of `n` iff a path of at least one edge leads from it to `n` |
| Graphs.SuccOfReverse | app.py:254 | the predecessors of a vertex are its successors in the reversed graph, in the same order |
| Model.DataSet | app.py:273-275 | the ids whose vertex type is OperationalData, as tested at app.py:339: exactly the declared data ids, an id also declared as a mission included (its data attributes are written last), and no id that only a link names; all of them are vertices of the importance graph |
| Importance.DataDependencies | app.py:337-339 | only vertices of the graph whose type is operational data (exactly which: `ScoresKeys`) |
| Importance.Weight | app.py:341-343 | the adjusted score of one data id: its rank times the shortest-path vertex count gives back the rank when the mission reaches it, the whole rank for the mission itself, 0 when unreachable, and between 0 and the rank for a non-negative rank |
| Importance.Weights | app.py:337-345 | one adjusted score per handled data id, keyed by exactly those ids |
| Importance.Divisor | app.py:349 | what the total is replaced by before dividing: always positive, and the total itself when the total is positive |
| Importance.Normalized | app.py:348-349 | the same keys, each value divided by the total, or by 1 when the total is not positive |
| Importance.NormalizedSumsToOne | app.py:347-349 | with a positive total, the normalised scores sum to 1 |
| Importance.NormalizedRange | app.py:347-349 | normalised scores lie in [0, 1], and are all 0 when the total is not positive |
| Importance.MissionWeights | app.py:329-346 | one non-negative weight per data dependency of `m` |
| Importance.MissionScores | app.py:329-351 | one score per data dependency of `m` |
| Importance.ScoresKeys | app.py:331-339 | `d` is scored for `m` iff `d` is operational data reachable from `m` |
| Importance.WeightAtMostHalf | app.py:341-343 | a dependency lies at least 2 vertices away, so its weight is at most half its PageRank |
| Importance.ScoresSumToOne | app.py:347-349 | a mission's scores sum to 1 when its weights have a positive total |
| Importance.ScoresInUnitRange | app.py:347-349 | every score lies in [0, 1], and all are 0 when the total is not positive |
| Importance.ScoreMission | app.py:331-351 | the loop's result equals the specification `MissionScores` |
| Importance.Accumulate | app.py:334-346 | after the loop over unique dependencies, `adjusted_scores` holds the weight of every data dependency and `total_adjusted_score` their sum |
| Importance.AddWeight | app.py:339-346 | one iteration adds one weight to the map and to the total |
| Importance.AccumulateStep | app.py:345-346 | adding a key adds its weight to the sum |
| Importance.DivideAll | app.py:348-349 | every value divided by the divisor, with the same keys |
| Importance.ScoreMissions | app.py:328-351 | one entry per mission, each equal to `MissionScores` |
| Importance.Padded | app.py:366-367 | the map gains every missing key with value 0 and keeps its own values |
| Importance.PaddedTwice | app.py:362-367 | padding with one key set after another equals padding with their union |
| Importance.PadRow | app.py:364-367 | one mission's map is padded with every data id; the other missions are unchanged |
| Importance.ZeroFill | app.py:361-367 | every listed mission's map is padded with every data id; other entries are unchanged |
| Importance.FillMatrix | app.py:369-375 | a missions x data matrix whose entry (i, j) is the padded score of data j for mission i |
| Graphs.PathGoesForward | app.py:315-324 | everything a listed vertex reaches is listed later in a closed order, so the recursion only moves forward |
| Graphs.NoSelfReach | app.py:315-324 | a vertex listed in a closed order lies on no cycle; with `PathGoesForward`, neither does anything it reaches |
| Graphs.TopologicalIsClosed | app.py:69-73 | a topological order of the whole graph is also a closed order |
| Importance.CycleUnreachedByMissionsAllowed | app.py:315-331 | a cycle that no mission reaches still lets the analysis run: the mission list is a closed order of a graph with a cycle |
| Importance.PageRankAnalysis | app.py:270-375 | entry (i, j) is mission i's normalised score for data j, or 0 when j is not its dependency |

## Left out

- Flask routing and JSON decoding of the request; names and labels, which are used only for output; the `print` calls, heatmaps, CSV and JSON files, `generate_filename` and the response dicts. These are I/O around the computations.
- `nx.topological_sort` is not modelled. The sort's result is a parameter: any valid order of `M`, or `None` when `M` has a cycle. Which order networkx returns is not fixed; `BottomUp.CellOrderIndependent` shows that it does not matter.
- `nx.pagerank` (app.py:282) is not modelled. PageRank is a parameter map that covers every vertex with a non-negative value.
- Floating point. Scores, means and divisions are exact reals; float64 rounding and NaN are not modelled.
- BottomUp.BottomUpProcess says nothing about the matrix contents on its two error paths, because the request aborts there and the matrix is discarded.
- The module-level `find_shortest_path` (app.py:218-246) is not modelled separately. It does what the nested one at app.py:289-302 does, and `ShortestPaths.ShortestPath` models that one.
- The module-level `get_all_dependencies` (app.py:253-260) walks predecessors and is not called by any route. `Importance.Ancestors` models it.
- Importance.Dependencies requires that `n` reaches no cycle. This is stated by a ghost closed order that lists `n`: every successor of a listed vertex is listed later. From a vertex that reaches a cycle the source recurses until Python's recursion limit raises an error, and that failure is not modelled. Cycles that `n` does not reach are allowed.
- Importance.PageRankAnalysis requires that no declared mission reaches a cycle, for the same reason. Cycles that no mission reaches are allowed; `Importance.CycleUnreachedByMissionsAllowed` shows one.
- Python's recursion limit is not modelled. `calculate_depth` and `get_all_dependencies` can exceed it on deep graphs; the model has no depth limit.
- Criticality.BfsDfsAnalysis takes the starting contents of the process-wide default visited set as the parameter `visited0`. The persistence of that set between requests is state outside one call. `Criticality.CriticalityScores` returns the set left behind.
- Set iteration order in the importance loop (app.py:337) is not modelled. The model accumulates over the set in an unspecified order, and with exact reals the result does not depend on it.
- The numeric type of the fallback values is not modelled. The integer `0` of `adjust_score_for_path_length` and of the padding is the real 0. The integer `1` of `max(..., default=1)` (app.py:187) and of `else 1` (app.py:189) is the real 1.
