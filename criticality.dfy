/**
 * The depth/breadth criticality analysis: every data asset gets the raw
 * score breadth + 1/(depth + 1), where breadth is its number of successors
 * and depth comes from a depth-first walk over predecessors that shares one
 * visited set, and the raw scores are then rescaled to the range [1, 4].
 */
module Criticality {
  import opened Graphs
  import opened Model

  /** Some path with `d` edges ends at `n`: the depth `d` is witnessed in the graph. */
  ghost predicate Witnessed(g: Graph, n: Id, d: nat) {
    var k := d + 1;
    exists x :: HasPath(g, x, n, k)
  }

  /**
   * `calculate_depth`: 0 for a vertex already visited; otherwise the vertex
   * is marked, its predecessors are walked left to right with the visited
   * set threaded through, and the result is 1 + the largest of their depths
   * (0 when there are none). Returns the depth and the visited set after
   * the call. It is total: on a cycle the walk stops at visited vertices.
   */
  function Depth(g: Graph, n: Id, visited: set<Id>): (r: (nat, set<Id>))
    requires Wf(g) && n in g.nodes
    ensures visited + {n} <= r.1 <= visited + NodeSet(g)
    ensures n in visited ==> r == (0, visited)
    ensures r.0 <= |NodeSet(g) - visited|
    decreases |NodeSet(g) - visited|, 0, 0
  {
    if n in visited then (0, visited)
    else
      var marked := visited + {n};
      SubsetDifference(NodeSet(g), visited, marked);
      var (ds, v) := DepthList(g, Pred(g, n), marked);
      (if ds == [] then 0 else 1 + MaxOf(ds), v)
  }

  /** The list comprehension over the predecessors `ps`, left to right. */
  function DepthList(g: Graph, ps: seq<Id>, visited: set<Id>): (r: (seq<nat>, set<Id>))
    requires Wf(g) && forall p :: p in ps ==> p in g.nodes
    ensures visited <= r.1 <= visited + NodeSet(g)
    ensures |r.0| == |ps|
    ensures forall i :: 0 <= i < |ps| ==> r.0[i] <= |NodeSet(g) - visited|
    decreases |NodeSet(g) - visited|, 1, |ps|
  {
    if ps == [] then ([], visited)
    else
      var first := Depth(g, ps[0], visited);
      SubsetDifference(NodeSet(g), visited, first.1);
      var rest := DepthList(g, ps[1..], first.1);
      ([first.0] + rest.0, rest.1)
  }

  /** `max` of a non-empty list of depths. */
  function MaxOf(s: seq<nat>): (r: nat)
    requires |s| > 0
    ensures r in s && forall x :: x in s ==> x <= r
  {
    if |s| == 1 then s[0]
    else
      var m := MaxOf(s[1..]);
      assert forall x :: x in s ==> x == s[0] || x in s[1..];
      if s[0] >= m then s[0] else m
  }

  lemma WitnessedStep(g: Graph, p: Id, n: Id, d: nat)
    requires Witnessed(g, p, d) && HasEdge(g, p, n)
    ensures Witnessed(g, n, d + 1)
  {
    var x :| HasPath(g, x, p, d + 1);
    PathExtend(g, x, p, n, d + 1);
  }

  /** Every depth the walk reports is the number of edges of some path ending at the vertex. */
  lemma {:induction false} DepthWitnessed(g: Graph, n: Id, visited: set<Id>)
    requires Wf(g) && n in g.nodes
    ensures Witnessed(g, n, Depth(g, n, visited).0)
    decreases |NodeSet(g) - visited|, 0, 0
  {
    var d := Depth(g, n, visited).0;
    if d == 0 {
      OneVertexPath(g, n, n);
    } else {
      var marked := visited + {n};
      SubsetDifference(NodeSet(g), visited, marked);
      var ps := Pred(g, n);
      var ds := DepthList(g, ps, marked).0;
      assert ds != [] && d == 1 + MaxOf(ds);
      DepthListWitnessed(g, ps, marked);
      var i :| 0 <= i < |ds| && ds[i] == MaxOf(ds);
      WitnessedStep(g, ps[i], n, ds[i]);
    }
  }

  lemma {:induction false} DepthListWitnessed(g: Graph, ps: seq<Id>, visited: set<Id>)
    requires Wf(g) && forall p :: p in ps ==> p in g.nodes
    ensures forall i :: 0 <= i < |ps| ==> Witnessed(g, ps[i], DepthList(g, ps, visited).0[i])
    decreases |NodeSet(g) - visited|, 1, |ps|
  {
    if ps != [] {
      var v := Depth(g, ps[0], visited).1;
      DepthWitnessed(g, ps[0], visited);
      SubsetDifference(NodeSet(g), visited, v);
      DepthListWitnessed(g, ps[1..], v);
    }
  }

  /** `calculate_breadth`: the number of successors. */
  function Breadth(g: Graph, n: Id): (r: nat)
    requires Wf(g)
    ensures r == |set x | x in g.nodes && HasEdge(g, n, x)|
  {
    var s := Succ(g, n);
    DistinctCard(s);
    assert SetOf(s) == set x | x in g.nodes && HasEdge(g, n, x);
    |s|
  }

  /** `breadth + 1 / (depth + 1)`: above the breadth by at most one. */
  function RawScore(breadth: nat, depth: nat): (r: real)
    ensures breadth as real < r <= breadth as real + 1.0
    ensures r == breadth as real + 1.0 <==> depth == 0
  {
    breadth as real + 1.0 / (depth + 1) as real
  }

  /** A shallower vertex with the same breadth scores at least as high. */
  lemma RawScoreAntitone(b: nat, d1: nat, d2: nat)
    requires d1 <= d2
    ensures RawScore(b, d2) <= RawScore(b, d1)
  {
    var x, y := (d1 + 1) as real, (d2 + 1) as real;
    assert 1.0 / y <= 1.0 / x by {
      assert x * (1.0 / x) == 1.0 && y * (1.0 / y) == 1.0;
      assert x <= y;
    }
  }

  /**
   * The scores after handling the data ids `ids` in order, starting from
   * the visited set `visited0`, and the visited set left behind.
   */
  function Scores(g: Graph, ids: seq<Id>, visited0: set<Id>): (r: (map<Id, real>, set<Id>))
    requires Wf(g) && forall x :: x in ids ==> x in g.nodes
    ensures r.0.Keys == SetOf(ids)
  {
    if ids == [] then (map[], visited0)
    else
      var last := ids[|ids| - 1];
      var prev := Scores(g, ids[..|ids| - 1], visited0);
      LastSplit(ids);
      var next := Depth(g, last, prev.1);
      (prev.0[last := RawScore(Breadth(g, last), next.0)], next.1)
  }

  /** Every handled id ends up visited, and nothing visited before is forgotten. */
  lemma {:induction false} ScoresVisit(g: Graph, ids: seq<Id>, visited0: set<Id>)
    requires Wf(g) && forall x :: x in ids ==> x in g.nodes
    ensures visited0 + SetOf(ids) <= Scores(g, ids, visited0).1
  {
    if ids != [] {
      ScoresVisit(g, ids[..|ids| - 1], visited0);
      LastSplit(ids);
    }
  }

  /** Every raw score lies above the breadth by at most one. */
  lemma {:induction false} ScoresNearBreadth(g: Graph, ids: seq<Id>, visited0: set<Id>)
    requires Wf(g) && forall x :: x in ids ==> x in g.nodes
    ensures forall x :: x in Scores(g, ids, visited0).0 ==>
      Breadth(g, x) as real < Scores(g, ids, visited0).0[x] <= Breadth(g, x) as real + 1.0
  {
    if ids != [] {
      ScoresNearBreadth(g, ids[..|ids| - 1], visited0);
    }
  }

  /** Handling one more id extends the scores of the prefix before it. */
  lemma ScoresStep(g: Graph, ids: seq<Id>, k: nat, visited0: set<Id>)
    requires Wf(g) && forall x :: x in ids ==> x in g.nodes
    requires k < |ids|
    ensures forall x :: x in ids[..k] ==> x in g.nodes
    ensures Scores(g, ids[..k + 1], visited0) ==
      var prev := Scores(g, ids[..k], visited0);
      var walk := Depth(g, ids[k], prev.1);
      (prev.0[ids[k] := RawScore(Breadth(g, ids[k]), walk.0)], walk.1)
  {
    assert ids[..k + 1][..k] == ids[..k];
  }

  lemma LastSplit(ids: seq<Id>)
    requires ids != []
    ensures SetOf(ids) == SetOf(ids[..|ids| - 1]) + {ids[|ids| - 1]}
  {
    assert ids == ids[..|ids| - 1] + [ids[|ids| - 1]];
  }

  /**
   * The loop over the data ids of `bfs_dfs_analysis`: depth and breadth of
   * every id in `ids`, with the visited set shared by all depth walks and
   * starting out as `visited0`.
   */
  method ScoreLoop(g: Graph, ids: seq<Id>, visited0: set<Id>) returns (scores: map<Id, real>, visited: set<Id>)
    requires Wf(g) && forall x :: x in ids ==> x in g.nodes
    ensures (scores, visited) == Scores(g, ids, visited0)
  {
    scores, visited := map[], visited0;
    var k := 0;
    while k < |ids|
      invariant 0 <= k <= |ids|
      invariant (scores, visited) == Scores(g, ids[..k], visited0)
    {
      ScoresStep(g, ids, k, visited0);
      var walk := Depth(g, ids[k], visited);
      var breadth := Breadth(g, ids[k]);
      scores, visited := scores[ids[k] := RawScore(breadth, walk.0)], walk.1;
      k := k + 1;
    }
    assert ids[..k] == ids;
  }

  /** The scores of the data ids in the usage graph. */
  method CriticalityScores(inp: Input, visited0: set<Id>) returns (scores: map<Id, real>, visited: set<Id>)
    ensures forall x :: x in DataIds(inp) ==> x in UsageGraph(inp).nodes
    ensures (scores, visited) == Scores(UsageGraph(inp), DataIds(inp), visited0)
    ensures scores.Keys == SetOf(inp.data)
    ensures forall x :: x in scores ==> Breadth(UsageGraph(inp), x) as real < scores[x] <= Breadth(UsageGraph(inp), x) as real + 1.0
  {
    var g := UsageGraph(inp);
    var ids := DataIds(inp);
    assert forall x :: x in ids ==> x in Dedup(inp.missions + inp.data);
    scores, visited := ScoreLoop(g, ids, visited0);
    ScoresNearBreadth(g, ids, visited0);
  }

  /** `max(values, default=...)`. */
  function MaxOr(vals: seq<real>, default: real): (r: real)
    ensures vals == [] ==> r == default
    ensures vals != [] ==> r in vals && forall v :: v in vals ==> v <= r
  {
    if vals == [] then default
    else
      var m := MaxOr(vals[1..], vals[0]);
      assert forall v :: v in vals ==> v == vals[0] || v in vals[1..];
      if vals[0] >= m then vals[0] else m
  }

  /** `min(values, default=...)`. */
  function MinOr(vals: seq<real>, default: real): (r: real)
    ensures vals == [] ==> r == default
    ensures vals != [] ==> r in vals && forall v :: v in vals ==> r <= v
  {
    if vals == [] then default
    else
      var m := MinOr(vals[1..], vals[0]);
      assert forall v :: v in vals ==> v == vals[0] || v in vals[1..];
      if vals[0] <= m then vals[0] else m
  }

  /** The scores of `ids`, in order: `criticality_scores.values()`. */
  function Values(scores: map<Id, real>, ids: seq<Id>): (r: seq<real>)
    requires scores.Keys == SetOf(ids)
    ensures forall v :: v in r <==> exists x :: x in scores && scores[x] == v
    ensures forall x :: x in scores ==> scores[x] in r
  {
    var r := seq(|ids|, i requires 0 <= i < |ids| => scores[ids[i]]);
    assert forall x :: x in scores ==> scores[x] in r by {
      forall x | x in scores ensures scores[x] in r {
        var i :| 0 <= i < |ids| && ids[i] == x;
        assert r[i] == scores[x];
      }
    }
    r
  }

  /** The rescaling of one score: `1 + 3 * (score - lo) / (hi - lo)`, or 1 when all scores are equal. */
  function Rescale(score: real, lo: real, hi: real): (r: real)
    requires lo <= score <= hi
    ensures 1.0 <= r <= 4.0
    ensures r == 1.0 <==> hi <= lo || score == lo
    ensures r == 4.0 <==> hi > lo && score == hi
  {
    if hi > lo then
      var q := (score - lo) / (hi - lo);
      assert q * (hi - lo) == score - lo;
      1.0 + 3.0 * q
    else 1.0
  }

  lemma RescaleMonotone(s1: real, s2: real, lo: real, hi: real)
    requires lo <= s1 <= s2 <= hi
    ensures Rescale(s1, lo, hi) <= Rescale(s2, lo, hi)
    ensures hi > lo && s1 < s2 ==> Rescale(s1, lo, hi) < Rescale(s2, lo, hi)
  {
    if hi > lo {
      DivideMonotone(s1 - lo, s2 - lo, hi - lo);
    }
  }

  lemma DivideMonotone(a: real, b: real, c: real)
    requires c > 0.0 && a <= b
    ensures a / c <= b / c
    ensures a < b ==> a / c < b / c
  {
    var qa, qb := a / c, b / c;
    assert qa * c == a && qb * c == b;
    assert (qb - qa) * c == b - a;
  }

  /** The normalisation comprehension: every score rescaled between the smallest and the largest. */
  function Normalize(scores: map<Id, real>, ids: seq<Id>): (r: map<Id, real>)
    requires scores.Keys == SetOf(ids)
    ensures r.Keys == scores.Keys
    ensures forall x :: x in r ==> 1.0 <= r[x] <= 4.0
  {
    var vals := Values(scores, ids);
    var hi, lo := MaxOr(vals, 1.0), MinOr(vals, 0.0);
    map x | x in scores :: Rescale(scores[x], lo, hi)
  }

  /** The normalised scores keep the order of the raw scores, strict order included. */
  lemma NormalizeOrder(scores: map<Id, real>, ids: seq<Id>, x: Id, y: Id)
    requires scores.Keys == SetOf(ids) && x in scores && y in scores
    ensures scores[x] <= scores[y] ==> Normalize(scores, ids)[x] <= Normalize(scores, ids)[y]
    ensures scores[x] < scores[y] ==> Normalize(scores, ids)[x] < Normalize(scores, ids)[y]
  {
    var vals := Values(scores, ids);
    var hi, lo := MaxOr(vals, 1.0), MinOr(vals, 0.0);
    assert scores[x] in vals && scores[y] in vals;
    if scores[x] <= scores[y] {
      RescaleMonotone(scores[x], scores[y], lo, hi);
    }
  }

  /** Some score is rescaled to 1: the lowest. */
  lemma NormalizeLowest(scores: map<Id, real>, ids: seq<Id>)
    requires scores.Keys == SetOf(ids) && |scores| > 0
    ensures exists x :: x in scores && Normalize(scores, ids)[x] == 1.0
  {
    var vals := Values(scores, ids);
    var z :| z in scores;
    assert scores[z] in vals;
    var lo := MinOr(vals, 0.0);
    var x :| x in scores && scores[x] == lo;
    assert Normalize(scores, ids)[x] == 1.0;
  }

  /** When two raw scores differ, some score is rescaled to 4: the highest. */
  lemma NormalizeHighest(scores: map<Id, real>, ids: seq<Id>, x: Id, y: Id)
    requires scores.Keys == SetOf(ids) && x in scores && y in scores && scores[x] != scores[y]
    ensures exists z :: z in scores && Normalize(scores, ids)[z] == 4.0
  {
    var vals := Values(scores, ids);
    var hi, lo := MaxOr(vals, 1.0), MinOr(vals, 0.0);
    assert scores[x] in vals && scores[y] in vals;
    var z :| z in scores && scores[z] == hi;
    assert hi > lo;
    assert Normalize(scores, ids)[z] == 4.0;
  }

  /** When all raw scores are equal, every score is rescaled to 1. */
  lemma NormalizeAllEqual(scores: map<Id, real>, ids: seq<Id>)
    requires scores.Keys == SetOf(ids)
    requires forall x, y :: x in scores && y in scores ==> scores[x] == scores[y]
    ensures forall x :: x in scores ==> Normalize(scores, ids)[x] == 1.0
  {
    var vals := Values(scores, ids);
    if |scores| > 0 {
      var z :| z in scores;
      assert scores[z] in vals;
      var hi, lo := MaxOr(vals, 1.0), MinOr(vals, 0.0);
      var xl :| xl in scores && scores[xl] == lo;
      var xh :| xh in scores && scores[xh] == hi;
      assert hi == lo;
    }
  }


  /**
   * The body of `bfs_dfs_analysis` without its file output: raw scores of
   * every data id and their normalised values.
   */
  method BfsDfsAnalysis(inp: Input, visited0: set<Id>) returns (raw: map<Id, real>, normalized: map<Id, real>)
    ensures raw.Keys == normalized.Keys == SetOf(inp.data)
    ensures raw == Scores(UsageGraph(inp), DataIds(inp), visited0).0
    ensures normalized == Normalize(raw, DataIds(inp))
    ensures forall x :: x in normalized ==> 1.0 <= normalized[x] <= 4.0
  {
    var visited;
    raw, visited := CriticalityScores(inp, visited0);
    normalized := Normalize(raw, DataIds(inp));
  }
}
