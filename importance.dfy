/**
 * The importance analysis of `pagerank_analysis`: for every mission, each
 * data asset it depends on (directly or through sub-missions) gets its
 * PageRank divided by the number of vertices on a shortest path from the
 * mission; the weights of one mission are then divided by their total. The
 * per-mission maps are padded with zeros for the other data assets and laid
 * out as a mission x data matrix.
 *
 * PageRank itself is an input: a map from every vertex to a non-negative
 * real.
 */
module Importance {
  import opened Graphs
  import opened Model
  import opened Sums
  import opened ShortestPaths

  // ------------------------------------------------ dependencies

  /**
   * `get_all_dependencies` inside `pagerank_analysis`: the successors of `n`
   * together with everything their own calls return. There is no visited
   * set, so the recursion ends exactly when `n` reaches no cycle; the ghost
   * closed order `ord`, which lists `n`, states that and bounds the recursion.
   */
  function Dependencies(g: Graph, ghost ord: seq<Id>, n: Id): (r: set<Id>)
    requires Wf(g) && IsClosedOrder(g, ord) && n in ord
    ensures r <= NodeSet(g)
    decreases |ord| - IndexOf(ord, n), 1, 0
  {
    var direct := Succ(g, n);
    SetOf(direct) + DependenciesOfAll(g, ord, n, direct)
  }

  /** The union of the calls on the direct dependencies `ds` of `parent`. */
  function DependenciesOfAll(g: Graph, ghost ord: seq<Id>, ghost parent: Id, ds: seq<Id>): (r: set<Id>)
    requires Wf(g) && IsClosedOrder(g, ord) && parent in ord
    requires forall d :: d in ds ==> HasEdge(g, parent, d)
    ensures r <= NodeSet(g)
    decreases |ord| - IndexOf(ord, parent), 0, |ds|
  {
    if ds == [] then {}
    else
      assert ds[0] in ds && HasEdge(g, parent, ds[0]);
      assert Edge(parent, ds[0]) in g.edges;
      ClosedEdgeForward(g, ord, parent, ds[0]);
      Dependencies(g, ord, ds[0]) + DependenciesOfAll(g, ord, parent, ds[1..])
  }

  /** The dependencies of `n` are exactly the vertices reachable from `n` along one or more edges. */
  lemma {:induction false} DependenciesAreReachable(g: Graph, ord: seq<Id>, n: Id, v: Id)
    requires Wf(g) && IsClosedOrder(g, ord) && n in ord
    ensures v in Dependencies(g, ord, n) <==> ReachesByEdges(g, n, v)
    decreases |ord| - IndexOf(ord, n), 1, 0
  {
    var direct := Succ(g, n);
    if v in Dependencies(g, ord, n) {
      if v in direct {
        OneVertexPath(g, v, v);
        PathPrepend(g, n, v, v, 1);
      } else {
        DependenciesOfAllReachable(g, ord, n, direct, v);
      }
    }
    if ReachesByEdges(g, n, v) {
      var k :| k >= 2 && HasPath(g, n, v, k);
      PathFirstStep(g, n, v, k);
      var w :| HasEdge(g, n, w) && HasPath(g, w, v, k - 1);
      if k == 2 {
        OneVertexPath(g, w, v);
      } else {
        DependenciesOfAllCovers(g, ord, n, direct, w, v);
      }
    }
  }

  lemma {:induction false} DependenciesOfAllReachable(g: Graph, ord: seq<Id>, parent: Id, ds: seq<Id>, v: Id)
    requires Wf(g) && IsClosedOrder(g, ord) && parent in ord
    requires forall d :: d in ds ==> HasEdge(g, parent, d)
    requires v in DependenciesOfAll(g, ord, parent, ds)
    ensures ReachesByEdges(g, parent, v)
    decreases |ord| - IndexOf(ord, parent), 0, |ds|
  {
    assert ds[0] in ds && HasEdge(g, parent, ds[0]);
    assert Edge(parent, ds[0]) in g.edges;
    ClosedEdgeForward(g, ord, parent, ds[0]);
    if v in Dependencies(g, ord, ds[0]) {
      DependenciesAreReachable(g, ord, ds[0], v);
      var k :| k >= 2 && HasPath(g, ds[0], v, k);
      PathPrepend(g, parent, ds[0], v, k);
    } else {
      DependenciesOfAllReachable(g, ord, parent, ds[1..], v);
    }
  }

  lemma {:induction false} DependenciesOfAllCovers(g: Graph, ord: seq<Id>, parent: Id, ds: seq<Id>, w: Id, v: Id)
    requires Wf(g) && IsClosedOrder(g, ord) && parent in ord
    requires forall d :: d in ds ==> HasEdge(g, parent, d)
    requires w in ds && ReachesByEdges(g, w, v)
    ensures v in DependenciesOfAll(g, ord, parent, ds)
    decreases |ord| - IndexOf(ord, parent), 0, |ds|
  {
    assert ds[0] in ds && HasEdge(g, parent, ds[0]);
    assert Edge(parent, ds[0]) in g.edges;
    ClosedEdgeForward(g, ord, parent, ds[0]);
    if w == ds[0] {
      DependenciesAreReachable(g, ord, w, v);
    } else {
      DependenciesOfAllCovers(g, ord, parent, ds[1..], w, v);
    }
  }

  /**
   * The module-level `get_all_dependencies` walks predecessors instead of
   * successors: the same closure on the reversed graph, whose successors are
   * the predecessors of `g` (`SuccOfReverse`). Its recursion ends exactly
   * when no cycle reaches `n`; `ord` is then a closed order of the reversed
   * graph that lists `n`.
   */
  function Ancestors(g: Graph, ghost ord: seq<Id>, n: Id): (r: set<Id>)
    requires Wf(g) && IsClosedOrder(Reverse(g), ord) && n in ord
    ensures r <= NodeSet(g)
  {
    Dependencies(Reverse(g), ord, n)
  }

  /** The ancestors of `n` are exactly the vertices from which `n` is reachable along one or more edges. */
  lemma AncestorsReachThis(g: Graph, ord: seq<Id>, n: Id, v: Id)
    requires Wf(g) && IsClosedOrder(Reverse(g), ord) && n in ord
    ensures v in Ancestors(g, ord, n) <==> ReachesByEdges(g, v, n)
  {
    DependenciesAreReachable(Reverse(g), ord, n, v);
    if ReachesByEdges(g, v, n) {
      var k :| k >= 2 && HasPath(g, v, n, k);
      PathOfReverse(g, v, n, k);
    }
    if ReachesByEdges(Reverse(g), n, v) {
      var k :| k >= 2 && HasPath(Reverse(g), n, v, k);
      PathFromReverse(g, v, n, k);
    }
  }

  // ------------------------------------------------ weights

  /** `adjust_score_for_path_length`: the score divided by the path length, or 0 for an empty path. */
  function AdjustScore(score: real, pathLength: nat): (r: real)
    ensures pathLength > 0 ==> r * pathLength as real == score
    ensures pathLength == 0 ==> r == 0.0
    ensures score >= 0.0 ==> 0.0 <= r <= score
  {
    if pathLength > 0 then
      var r := score / pathLength as real;
      assert r * pathLength as real == score;
      r
    else 0.0
  }

  /** PageRank is known for every vertex and never negative. */
  ghost predicate RankOk(g: Graph, pr: map<Id, real>) {
    NodeSet(g) <= pr.Keys && forall v :: v in pr ==> pr[v] >= 0.0
  }

  /** The data dependencies of `m`: dependencies whose vertex type is operational data. */
  function DataDependencies(g: Graph, ghost ord: seq<Id>, dataSet: set<Id>, m: Id): (r: set<Id>)
    requires Wf(g) && IsClosedOrder(g, ord) && m in ord
    ensures r <= NodeSet(g) && r <= dataSet
  {
    Dependencies(g, ord, m) * dataSet
  }

  /**
   * The adjusted score of data vertex `d` for mission `m`: its rank shared out
   * over the vertices of a shortest path from `m`, the whole rank for `m`
   * itself, and nothing when `m` does not reach `d`.
   */
  ghost function Weight(g: Graph, pr: map<Id, real>, m: Id, d: Id): (r: real)
    requires d in pr
    ensures Reachable(g, m, d) ==> Distance(g, m, d) >= 1 && r * Distance(g, m, d) as real == pr[d]
    ensures !Reachable(g, m, d) ==> r == 0.0
    ensures m == d ==> r == pr[d]
    ensures pr[d] >= 0.0 ==> 0.0 <= r <= pr[d]
  {
    DistanceOfSelf(g, m, d);
    AdjustScore(pr[d], Distance(g, m, d))
  }

  /** `adjusted_scores` once every key in `keys` has been handled. */
  ghost function Weights(g: Graph, pr: map<Id, real>, m: Id, keys: set<Id>): (r: map<Id, real>)
    requires keys <= pr.Keys
    ensures r.Keys == keys
  {
    map d | d in keys :: Weight(g, pr, m, d)
  }

  /** What `total_adjusted_score` is divided into: the total, or 1 when the total is not positive. */
  function Divisor(total: real): (r: real)
    ensures r > 0.0
    ensures total > 0.0 ==> r == total
  {
    if total > 0.0 then total else 1.0
  }

  /** Every value divided by the total, or by 1 when the total is not positive. */
  function Normalized(w: map<Id, real>, total: real): (r: map<Id, real>)
    ensures r.Keys == w.Keys
    ensures forall d :: d in r ==> r[d] == w[d] / Divisor(total)
  {
    map d | d in w :: w[d] / Divisor(total)
  }

  /** With non-negative values and a positive total, the normalised values sum to 1. */
  lemma NormalizedSumsToOne(w: map<Id, real>)
    requires SumOver(w.Keys, w) > 0.0
    ensures var r := Normalized(w, SumOver(w.Keys, w)); SumOver(r.Keys, r) == 1.0
  {
    var total := SumOver(w.Keys, w);
    var r := Normalized(w, total);
    SumScale(w.Keys, w, r, total);
    assert total / total == 1.0;
  }

  /** With non-negative values every normalised value lies in [0, 1], and all are 0 when the total is 0. */
  lemma NormalizedRange(w: map<Id, real>)
    requires forall d :: d in w ==> w[d] >= 0.0
    ensures var r := Normalized(w, SumOver(w.Keys, w));
      forall d :: d in r ==> 0.0 <= r[d] <= 1.0
    ensures SumOver(w.Keys, w) <= 0.0 ==>
      var r := Normalized(w, SumOver(w.Keys, w)); forall d :: d in r ==> r[d] == 0.0
  {
    var total := SumOver(w.Keys, w);
    SumBoundsTerm(w.Keys, w);
    forall d | d in w
      ensures 0.0 <= w[d] / Divisor(total) <= 1.0
    {
      if total > 0.0 {
        var q := w[d] / total;
        assert q * total == w[d];
      }
    }
  }

  /** The raw weights of mission `m`, over its data dependencies. */
  ghost function MissionWeights(g: Graph, ord: seq<Id>, pr: map<Id, real>, dataSet: set<Id>, m: Id): (w: map<Id, real>)
    requires Wf(g) && IsClosedOrder(g, ord) && m in ord && RankOk(g, pr)
    ensures w.Keys == DataDependencies(g, ord, dataSet, m)
    ensures forall d :: d in w ==> w[d] >= 0.0
  {
    Weights(g, pr, m, DataDependencies(g, ord, dataSet, m))
  }

  /** The normalised importance scores of mission `m`. */
  ghost function MissionScores(g: Graph, ord: seq<Id>, pr: map<Id, real>, dataSet: set<Id>, m: Id): (r: map<Id, real>)
    requires Wf(g) && IsClosedOrder(g, ord) && m in ord && RankOk(g, pr)
    ensures r.Keys == DataDependencies(g, ord, dataSet, m)
  {
    var w := MissionWeights(g, ord, pr, dataSet, m);
    Normalized(w, SumOver(w.Keys, w))
  }

  /** A mission's score map has exactly the data vertices reachable from it as keys. */
  lemma ScoresKeys(g: Graph, ord: seq<Id>, pr: map<Id, real>, dataSet: set<Id>, m: Id, d: Id)
    requires Wf(g) && IsClosedOrder(g, ord) && m in ord && RankOk(g, pr)
    ensures d in MissionScores(g, ord, pr, dataSet, m) <==> d in dataSet && ReachesByEdges(g, m, d)
  {
    DependenciesAreReachable(g, ord, m, d);
  }

  /**
   * A mission that reaches no cycle is not its own dependency, so a shortest
   * path to a vertex it reaches has at least two vertices and the weight is
   * at most half the PageRank.
   */
  lemma WeightAtMostHalf(g: Graph, ord: seq<Id>, pr: map<Id, real>, m: Id, d: Id)
    requires Wf(g) && IsClosedOrder(g, ord) && m in ord && RankOk(g, pr)
    requires ReachesByEdges(g, m, d) && d in pr
    ensures Distance(g, m, d) >= 2 && Weight(g, pr, m, d) <= pr[d] / 2.0
  {
    NoSelfReach(g, ord, m);
    DistanceOfSelf(g, m, d);
    var n := Distance(g, m, d);
    HalfBound(Weight(g, pr, m, d), n as real, pr[d]);
  }

  lemma HalfBound(w: real, n: real, p: real)
    requires w >= 0.0 && n >= 2.0 && w * n == p
    ensures w <= p / 2.0
  {
    assert w * 2.0 <= w * n;
  }

  /** With a positive total, a mission's scores sum to 1. */
  lemma ScoresSumToOne(g: Graph, ord: seq<Id>, pr: map<Id, real>, dataSet: set<Id>, m: Id)
    requires Wf(g) && IsClosedOrder(g, ord) && m in ord && RankOk(g, pr)
    requires var w := MissionWeights(g, ord, pr, dataSet, m); SumOver(w.Keys, w) > 0.0
    ensures var r := MissionScores(g, ord, pr, dataSet, m); SumOver(r.Keys, r) == 1.0
  {
    NormalizedSumsToOne(MissionWeights(g, ord, pr, dataSet, m));
  }

  /**
   * Every score lies in [0, 1]; with a total of 0 (nothing reachable, or
   * PageRank 0 on everything reachable) every score is 0.
   */
  lemma ScoresInUnitRange(g: Graph, ord: seq<Id>, pr: map<Id, real>, dataSet: set<Id>, m: Id)
    requires Wf(g) && IsClosedOrder(g, ord) && m in ord && RankOk(g, pr)
    ensures forall d :: d in MissionScores(g, ord, pr, dataSet, m) ==>
      0.0 <= MissionScores(g, ord, pr, dataSet, m)[d] <= 1.0
    ensures (var w := MissionWeights(g, ord, pr, dataSet, m); SumOver(w.Keys, w) <= 0.0) ==>
      forall d :: d in MissionScores(g, ord, pr, dataSet, m) ==> MissionScores(g, ord, pr, dataSet, m)[d] == 0.0
  {
    var w := MissionWeights(g, ord, pr, dataSet, m);
    assert MissionScores(g, ord, pr, dataSet, m) == Normalized(w, SumOver(w.Keys, w));
    NormalizedRange(w);
  }

  // ------------------------------------------------ the per-mission loops

  /**
   * The scoring of one mission: the loop over its unique dependencies
   * (in whatever order the set yields them) and the normalising loop.
   */
  method ScoreMission(g: Graph, ghost ord: seq<Id>, pr: map<Id, real>, dataSet: set<Id>, m: Id)
    returns (scores: map<Id, real>)
    requires Wf(g) && IsClosedOrder(g, ord) && m in ord && RankOk(g, pr)
    ensures scores == MissionScores(g, ord, pr, dataSet, m)
  {
    var unique := Dependencies(g, ord, m);
    var adjusted, total := Accumulate(g, pr, dataSet, m, unique);
    scores := DivideAll(adjusted, Divisor(total));
  }

  /** Handling one more data key adds its weight. */
  lemma WeightsAdd(g: Graph, pr: map<Id, real>, m: Id, keys: set<Id>, d: Id)
    requires keys <= pr.Keys && d in pr
    ensures Weights(g, pr, m, keys + {d}) == Weights(g, pr, m, keys)[d := Weight(g, pr, m, d)]
  {
  }

  /** The first loop: `adjusted_scores` and `total_adjusted_score` over the data dependencies. */
  method Accumulate(g: Graph, pr: map<Id, real>, dataSet: set<Id>, m: Id, unique: set<Id>)
    returns (adjusted: map<Id, real>, total: real)
    requires Wf(g) && m in g.nodes && RankOk(g, pr) && unique <= NodeSet(g)
    ensures adjusted == Weights(g, pr, m, unique * dataSet)
    ensures total == SumOver(adjusted.Keys, adjusted)
  {
    adjusted, total := map[], 0.0;
    var todo := unique;
    while todo != {}
      invariant todo <= unique <= NodeSet(g)
      invariant adjusted == Weights(g, pr, m, (unique - todo) * dataSet)
      invariant total == SumOver(adjusted.Keys, adjusted)
      decreases |todo|
    {
      var d :| d in todo;
      DoneStep(unique, todo, dataSet, d);
      if d in dataSet {
        adjusted, total := AddWeight(g, pr, m, d, adjusted, total);
      }
      todo := todo - {d};
    }
    assert unique - todo == unique;
  }

  /** One data dependency: its shortest path, its adjusted score, and the running total. */
  method AddWeight(g: Graph, pr: map<Id, real>, m: Id, d: Id, adjusted: map<Id, real>, total: real)
    returns (adjusted': map<Id, real>, total': real)
    requires Wf(g) && m in g.nodes && RankOk(g, pr) && d in g.nodes && d !in adjusted
    requires adjusted.Keys <= pr.Keys && adjusted == Weights(g, pr, m, adjusted.Keys)
    requires total == SumOver(adjusted.Keys, adjusted)
    ensures adjusted' == Weights(g, pr, m, adjusted.Keys + {d})
    ensures total' == SumOver(adjusted'.Keys, adjusted')
  {
    var path := ShortestPath(g, m, d);
    var a := AdjustScore(pr[d], |path|);
    adjusted' := adjusted[d := a];
    total' := total + a;
    AccumulateStep(g, pr, m, adjusted.Keys, d, adjusted, adjusted');
  }

  lemma DoneStep(unique: set<Id>, todo: set<Id>, dataSet: set<Id>, d: Id)
    requires d in todo && todo <= unique
    ensures (unique - (todo - {d})) * dataSet ==
      if d in dataSet then (unique - todo) * dataSet + {d} else (unique - todo) * dataSet
    ensures d !in (unique - todo) * dataSet
  {
  }

  lemma AccumulateStep(g: Graph, pr: map<Id, real>, m: Id, done: set<Id>, d: Id,
                       before: map<Id, real>, after: map<Id, real>)
    requires done <= pr.Keys && d in pr && d !in done
    requires before == Weights(g, pr, m, done) && after == before[d := Weight(g, pr, m, d)]
    ensures after == Weights(g, pr, m, done + {d})
    ensures SumOver(after.Keys, after) == SumOver(before.Keys, before) + after[d]
  {
    WeightsAdd(g, pr, m, done, d);
    SumAdd(before.Keys, after, d);
    SumAgree(before.Keys, before, after);
  }

  /** The second loop: every value divided by `divisor`, key by key. */
  method DivideAll(adjusted: map<Id, real>, divisor: real) returns (scores: map<Id, real>)
    requires divisor > 0.0
    ensures scores.Keys == adjusted.Keys
    ensures forall k :: k in scores ==> scores[k] == adjusted[k] / divisor
  {
    scores := adjusted;
    var rest := adjusted.Keys;
    while rest != {}
      invariant rest <= adjusted.Keys && scores.Keys == adjusted.Keys
      invariant forall k :: k in scores ==> scores[k] == if k in rest then adjusted[k] else adjusted[k] / divisor
      decreases |rest|
    {
      var k :| k in rest;
      scores := scores[k := scores[k] / divisor];
      rest := rest - {k};
    }
  }

  // ------------------------------------------------ all missions, padding and the matrix

  /** Every mission of the list mapped to its scores (`missions_importance_scores`). */
  method ScoreMissions(g: Graph, ghost ord: seq<Id>, pr: map<Id, real>, dataSet: set<Id>, missions: seq<Id>)
    returns (all: map<Id, map<Id, real>>)
    requires Wf(g) && IsClosedOrder(g, ord) && RankOk(g, pr)
    requires forall m :: m in missions ==> m in ord
    ensures all.Keys == SetOf(missions)
    ensures forall m :: m in all ==> all[m] == MissionScores(g, ord, pr, dataSet, m)
  {
    all := map[];
    var k := 0;
    while k < |missions|
      invariant 0 <= k <= |missions|
      invariant all.Keys == SetOf(missions[..k])
      invariant forall m :: m in all ==> m in ord && all[m] == MissionScores(g, ord, pr, dataSet, m)
    {
      var scores := ScoreMission(g, ord, pr, dataSet, missions[k]);
      all := all[missions[k] := scores];
      assert missions[..k + 1] == missions[..k] + [missions[k]];
      k := k + 1;
    }
    assert missions[..k] == missions;
  }

  /** `f` with a 0 added for every key of `keys` it lacks. */
  function Padded(f: map<Id, real>, keys: set<Id>): (r: map<Id, real>)
    ensures r.Keys == f.Keys + keys
    ensures forall k :: k in r ==> r[k] == if k in f then f[k] else 0.0
  {
    map k | k in f.Keys + keys :: if k in f then f[k] else 0.0
  }

  /** Padding twice pads with both key sets; in particular padding is idempotent. */
  lemma PaddedTwice(f: map<Id, real>, a: set<Id>, b: set<Id>)
    ensures Padded(Padded(f, a), b) == Padded(f, a + b)
  {
  }

  /**
   * The zero-fill loop: every listed mission's map gets a 0 for each listed
   * data id it lacks; entries already present are left as they are.
   */
  method ZeroFill(all: map<Id, map<Id, real>>, missions: seq<Id>, data: seq<Id>)
    returns (filled: map<Id, map<Id, real>>)
    requires forall m :: m in missions ==> m in all
    ensures filled.Keys == all.Keys
    ensures forall m :: m in filled ==>
      filled[m] == if m in missions then Padded(all[m], SetOf(data)) else all[m]
  {
    filled := all;
    var i := 0;
    while i < |missions|
      invariant 0 <= i <= |missions|
      invariant filled.Keys == all.Keys
      invariant forall m :: m in filled ==>
        filled[m] == if m in missions[..i] then Padded(all[m], SetOf(data)) else all[m]
    {
      var m := missions[i];
      filled := PadRow(filled, m, data);
      PaddedTwice(all[m], SetOf(data), SetOf(data));
      assert SetOf(data) + SetOf(data) == SetOf(data);
      assert missions[..i + 1] == missions[..i] + [m];
      i := i + 1;
    }
    assert missions[..i] == missions;
  }

  /** The inner loop for one mission `m`: a 0 for every data id its row lacks. */
  method PadRow(rows: map<Id, map<Id, real>>, m: Id, data: seq<Id>) returns (filled: map<Id, map<Id, real>>)
    requires m in rows
    ensures filled.Keys == rows.Keys
    ensures filled[m] == Padded(rows[m], SetOf(data))
    ensures forall x :: x in filled && x != m ==> filled[x] == rows[x]
  {
    filled := rows;
    var j := 0;
    while j < |data|
      invariant 0 <= j <= |data|
      invariant filled.Keys == rows.Keys
      invariant filled[m] == Padded(rows[m], SetOf(data[..j]))
      invariant forall x :: x in filled && x != m ==> filled[x] == rows[x]
    {
      if data[j] !in filled[m] {
        filled := filled[m := filled[m][data[j] := 0.0]];
      }
      assert SetOf(data[..j + 1]) == SetOf(data[..j]) + {data[j]};
      j := j + 1;
    }
    assert data[..j] == data;
  }


  /** The matrix loop: `matrix[i, j]` is the score of data `data[j]` for mission `missions[i]`. */
  method FillMatrix(filled: map<Id, map<Id, real>>, missions: seq<Id>, data: seq<Id>)
    returns (matrix: array2<real>)
    requires forall m :: m in missions ==> m in filled && forall d :: d in data ==> d in filled[m]
    ensures fresh(matrix)
    ensures matrix.Length0 == |missions| && matrix.Length1 == |data|
    ensures forall i, j :: 0 <= i < |missions| && 0 <= j < |data| ==> matrix[i, j] == filled[missions[i]][data[j]]
  {
    matrix := new real[|missions|, |data|]((i, j) => 0.0);
    var i := 0;
    while i < |missions|
      invariant 0 <= i <= |missions|
      invariant forall r, c :: 0 <= r < |missions| && 0 <= c < |data| ==>
        matrix[r, c] == if r < i then filled[missions[r]][data[c]] else 0.0
    {
      var j := 0;
      while j < |data|
        invariant 0 <= j <= |data|
        invariant forall r, c :: 0 <= r < |missions| && 0 <= c < |data| ==>
          matrix[r, c] == (if r < i || (r == i && c < j) then filled[missions[r]][data[c]] else 0.0)
      {
        matrix[i, j] := filled[missions[i]][data[j]];
        j := j + 1;
      }
      i := i + 1;
    }
  }

  /** The value the matrix holds for mission `m` and data `d`: its score, or 0 when `d` is not a dependency. */
  ghost function MatrixValue(g: Graph, ord: seq<Id>, pr: map<Id, real>, dataSet: set<Id>, m: Id, d: Id): real
    requires Wf(g) && IsClosedOrder(g, ord) && m in ord && RankOk(g, pr)
  {
    var f := MissionScores(g, ord, pr, dataSet, m);
    if d in f then f[d] else 0.0
  }

  /**
   * A cycle that no mission reaches does not stop the analysis: mission `A`
   * reaches nothing while the data ids `D1` and `D2` are linked both ways,
   * and the order `[A]` still meets the requirement of `PageRankAnalysis`.
   */
  lemma CycleUnreachedByMissionsAllowed()
    ensures var inp := Input(["A"], ["D1", "D2"], [HierarchyLink("D1", "D2"), HierarchyLink("D2", "D1")], []);
      && HasCycle(InfluenceGraph(inp))
      && IsClosedOrder(InfluenceGraph(inp), ["A"])
      && forall m :: m in inp.missions ==> m in ["A"]
  {
    var inp := Input(["A"], ["D1", "D2"], [HierarchyLink("D1", "D2"), HierarchyLink("D2", "D1")], []);
    var g := InfluenceGraph(inp);
    assert HasEdge(g, "D1", "D2") && HasEdge(g, "D2", "D1");
    assert forall b :: !HasEdge(g, "A", b);
    assert PathFromTo(g, ["D1", "D2", "D1"], "D1", "D1");
    assert HasPath(g, "D1", "D1", 3);
    assert ReachesByEdges(g, "D1", "D1");
  }

  /**
   * The body of `pagerank_analysis` without PageRank itself and the file
   * output: the mission x data importance matrix over the influence graph.
   */
  method PageRankAnalysis(inp: Input, pr: map<Id, real>, ghost ord: seq<Id>) returns (matrix: array2<real>)
    requires IsClosedOrder(InfluenceGraph(inp), ord) && RankOk(InfluenceGraph(inp), pr)
    requires forall m :: m in inp.missions ==> m in ord
    ensures fresh(matrix)
    ensures matrix.Length0 == |inp.missions| && matrix.Length1 == |inp.data|
    ensures forall m :: m in inp.missions ==> m in InfluenceGraph(inp).nodes
    ensures forall i, j :: 0 <= i < |inp.missions| && 0 <= j < |inp.data| ==>
      matrix[i, j] == MatrixValue(InfluenceGraph(inp), ord, pr, DataSet(inp), inp.missions[i], inp.data[j])
  {
    var g := InfluenceGraph(inp);
    assert forall m :: m in inp.missions ==> m in Dedup(inp.missions + inp.data);
    var all := ScoreMissions(g, ord, pr, DataSet(inp), inp.missions);
    var filled := ZeroFill(all, inp.missions, inp.data);
    matrix := FillMatrix(filled, inp.missions, inp.data);
  }
}
