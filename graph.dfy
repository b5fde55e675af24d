/** Option type used for the error paths of the analyses. */
module Wrappers {
  datatype Option<+T> = None | Some(value: T)
}

/**
 * Directed graphs as the analyses see them: a networkx-style DiGraph whose
 * vertices and edges are kept in first-insertion order, with successor and
 * predecessor lists in edge-insertion order, paths, reachability and
 * topological orders.
 */
module Graphs {

  type Id = string

  datatype Edge = Edge(src: Id, dst: Id)

  datatype Graph = Graph(nodes: seq<Id>, edges: seq<Edge>)

  predicate Distinct<T(==)>(s: seq<T>) {
    forall i, j :: 0 <= i < j < |s| ==> s[i] != s[j]
  }

  function SetOf<T>(s: seq<T>): set<T> {
    set x | x in s
  }

  /** Keeps the first occurrence of every element, in order: the key order of a Python dict built from `s`. */
  function Dedup<T(==,!new)>(s: seq<T>): (r: seq<T>)
    ensures Distinct(r)
    ensures forall x :: x in r <==> x in s
    ensures |r| <= |s|
    decreases |s|
  {
    if s == [] then []
    else
      var init := s[..|s| - 1];
      assert s == init + [s[|s| - 1]];
      var d := Dedup(init);
      if s[|s| - 1] in d then d else d + [s[|s| - 1]]
  }

  /** Appending elements never reorders what was already there. */
  lemma {:induction false} DedupPrefix<T(!new)>(a: seq<T>, b: seq<T>)
    ensures Dedup(a) <= Dedup(a + b)
    decreases |b|
  {
    if b == [] {
      assert a + b == a;
    } else {
      var b' := b[..|b| - 1];
      DedupPrefix(a, b');
      assert (a + b)[..|a + b| - 1] == a + b';
    }
  }

  /** Position of the first occurrence of `x` in `s`. */
  function IndexOf<T(==)>(s: seq<T>, x: T): (i: nat)
    requires x in s
    ensures i < |s| && s[i] == x && x !in s[..i]
  {
    if s[0] == x then 0
    else
      assert s == [s[0]] + s[1..];
      var k := IndexOf(s[1..], x);
      assert s[..k + 1] == [s[0]] + s[1..][..k];
      k + 1
  }

  lemma IndexOfDistinct<T>(s: seq<T>, i: nat)
    requires Distinct(s) && i < |s|
    ensures IndexOf(s, s[i]) == i
  {
  }

  /** The dense index map `{uuid: i for i, uuid in enumerate(ids)}`. */
  function IndexMap(ids: seq<Id>): (r: map<Id, nat>)
    requires Distinct(ids)
    ensures r.Keys == SetOf(ids)
    ensures forall x :: x in r ==> r[x] < |ids| && ids[r[x]] == x
  {
    map i | 0 <= i < |ids| :: ids[i] := i
  }

  /** A sequence without repeats has as many elements as its set. */
  lemma {:induction false} DistinctCard<T>(s: seq<T>)
    requires Distinct(s)
    ensures |SetOf(s)| == |s|
    decreases |s|
  {
    if s != [] {
      DistinctCard(s[1..]);
      assert SetOf(s) == {s[0]} + SetOf(s[1..]);
      assert s[0] !in SetOf(s[1..]);
    }
  }

  /** A subset is no larger, and a proper subset is smaller. */
  lemma {:induction false} SubsetCard<T>(a: set<T>, b: set<T>)
    requires a <= b
    ensures |a| <= |b|
    ensures a < b ==> |a| < |b|
    decreases |b|
  {
    if a != {} {
      var x :| x in a;
      if a < b {
        var y :| y in b && y !in a;
        assert y in b - {x} && y !in a - {x};
      }
      SubsetCard(a - {x}, b - {x});
    }
  }

  /** Growing `a` to `b` shrinks what is left of `all`, strictly when `b` adds a member of `all`. */
  lemma SubsetDifference(all: set<Id>, a: set<Id>, b: set<Id>)
    requires a <= b
    ensures |all - b| <= |all - a|
    ensures (exists x :: x in all && x in b && x !in a) ==> |all - b| < |all - a|
  {
    SubsetCard(all - b, all - a);
  }

  /** `x` is an endpoint of some edge of `es`. */
  ghost predicate Mentions(es: seq<Edge>, x: Id) {
    exists e :: e in es && (x == e.src || x == e.dst)
  }

  /** Both endpoints of every edge, source first, in edge order. */
  function Endpoints(es: seq<Edge>): (r: seq<Id>)
    ensures forall e :: e in es ==> e.src in r && e.dst in r
  {
    if es == [] then []
    else
      var rest := Endpoints(es[1..]);
      assert forall e :: e in es[1..] ==> e in es;
      [es[0].src, es[0].dst] + rest
  }

  /** The endpoint list holds exactly the vertices some edge mentions. */
  lemma {:induction false} EndpointsMention(es: seq<Edge>, x: Id)
    ensures x in Endpoints(es) <==> Mentions(es, x)
  {
    if es != [] {
      EndpointsMention(es[1..], x);
      if Mentions(es[1..], x) {
        var e :| e in es[1..] && (x == e.src || x == e.dst);
        assert e in es;
      }
      if Mentions(es, x) && x != es[0].src && x != es[0].dst {
        var e :| e in es && (x == e.src || x == e.dst);
        assert e in es[1..];
      }
    }
  }

  /**
   * `G.add_nodes_from(vs); G.add_edges_from(es)` on an empty DiGraph:
   * declared vertices first, then any edge endpoint not yet present, and
   * each edge once.
   */
  function NewGraph(vs: seq<Id>, es: seq<Edge>): (g: Graph)
    ensures Wf(g)
    ensures Dedup(vs) <= g.nodes
    ensures forall x :: x in g.nodes <==> x in vs || x in Endpoints(es)
    ensures forall e :: e in g.edges <==> e in es
  {
    DedupPrefix(vs, Endpoints(es));
    Graph(Dedup(vs + Endpoints(es)), Dedup(es))
  }

  /** Well-formed: vertices and edges are distinct and every endpoint is a vertex. */
  predicate Wf(g: Graph) {
    && Distinct(g.nodes)
    && Distinct(g.edges)
    && forall e :: e in g.edges ==> e.src in g.nodes && e.dst in g.nodes
  }

  predicate HasEdge(g: Graph, a: Id, b: Id) {
    Edge(a, b) in g.edges
  }

  function NodeSet(g: Graph): set<Id> {
    SetOf(g.nodes)
  }

  /** The elements of `s` that belong to `keep`, in order: a filtering list comprehension. */
  function KeepIn(s: seq<Id>, keep: set<Id>): (r: seq<Id>)
    ensures forall x :: x in r <==> x in s && x in keep
    ensures Distinct(s) ==> Distinct(r)
  {
    if s == [] then []
    else
      assert forall x :: x in s <==> x == s[0] || x in s[1..];
      (if s[0] in keep then [s[0]] else []) + KeepIn(s[1..], keep)
  }

  /** Targets of the edges leaving `n`, in edge order. */
  function Targets(es: seq<Edge>, n: Id): (r: seq<Id>)
    ensures forall x :: x in r <==> Edge(n, x) in es
    ensures Distinct(es) ==> Distinct(r)
  {
    if es == [] then []
    else
      var rest := Targets(es[1..], n);
      assert forall e :: e in es <==> e == es[0] || e in es[1..];
      if es[0].src == n then
        assert Distinct(es) ==> es[0] !in es[1..];
        [es[0].dst] + rest
      else rest
  }

  /** Sources of the edges entering `n`, in edge order. */
  function Sources(es: seq<Edge>, n: Id): (r: seq<Id>)
    ensures forall x :: x in r <==> Edge(x, n) in es
    ensures Distinct(es) ==> Distinct(r)
  {
    if es == [] then []
    else
      var rest := Sources(es[1..], n);
      assert forall e :: e in es <==> e == es[0] || e in es[1..];
      if es[0].dst == n then
        assert Distinct(es) ==> es[0] !in es[1..];
        [es[0].src] + rest
      else rest
  }

  /** `graph.successors(n)`. */
  function Succ(g: Graph, n: Id): (r: seq<Id>)
    ensures forall x :: x in r <==> HasEdge(g, n, x)
    ensures Wf(g) ==> Distinct(r) && forall x :: x in r ==> x in g.nodes
  {
    Targets(g.edges, n)
  }

  /** `graph.predecessors(n)`. */
  function Pred(g: Graph, n: Id): (r: seq<Id>)
    ensures forall x :: x in r <==> HasEdge(g, x, n)
    ensures Wf(g) ==> Distinct(r) && forall x :: x in r ==> x in g.nodes
  {
    Sources(g.edges, n)
  }

  /** The same vertices with every edge turned around. */
  function Reverse(g: Graph): (r: Graph)
    ensures r.nodes == g.nodes
    ensures forall a, b :: HasEdge(r, a, b) <==> HasEdge(g, b, a)
    ensures Wf(g) ==> Wf(r)
  {
    Graph(g.nodes, Flip(g.edges))
  }

  function Flip(es: seq<Edge>): (r: seq<Edge>)
    ensures |r| == |es|
    ensures forall i :: 0 <= i < |es| ==> r[i] == Edge(es[i].dst, es[i].src)
    ensures forall a, b :: Edge(a, b) in r <==> Edge(b, a) in es
  {
    seq(|es|, i requires 0 <= i < |es| => Edge(es[i].dst, es[i].src))
  }

  /** The predecessors of `n` in `g` are exactly, and in the same order, its successors in the reversed graph. */
  lemma {:induction false} SuccOfReverse(g: Graph, n: Id)
    ensures Succ(Reverse(g), n) == Pred(g, n)
  {
    TargetsOfFlip(g.edges, n);
  }

  lemma {:induction false} TargetsOfFlip(es: seq<Edge>, n: Id)
    ensures Targets(Flip(es), n) == Sources(es, n)
  {
    if es != [] {
      assert Flip(es)[1..] == Flip(es[1..]);
      TargetsOfFlip(es[1..], n);
    }
  }

  // ---------------------------------------------------------------- paths

  /** A walk of at least one vertex whose consecutive vertices are joined by edges. */
  ghost predicate IsPath(g: Graph, p: seq<Id>) {
    |p| >= 1 && forall i :: 0 <= i < |p| - 1 ==> HasEdge(g, p[i], p[i + 1])
  }

  ghost predicate PathFromTo(g: Graph, p: seq<Id>, a: Id, b: Id) {
    IsPath(g, p) && p[0] == a && p[|p| - 1] == b
  }

  /** Some path from `a` to `b` has exactly `n` vertices. */
  ghost predicate HasPath(g: Graph, a: Id, b: Id, n: nat) {
    exists p :: PathFromTo(g, p, a, b) && |p| == n
  }

  ghost predicate Reachable(g: Graph, a: Id, b: Id) {
    exists n :: HasPath(g, a, b, n)
  }

  /** `b` is reachable from `a` along one or more edges. */
  ghost predicate ReachesByEdges(g: Graph, a: Id, b: Id) {
    exists n :: n >= 2 && HasPath(g, a, b, n)
  }

  ghost predicate HasCycle(g: Graph) {
    exists v :: ReachesByEdges(g, v, v)
  }

  lemma OneVertexPath(g: Graph, a: Id, b: Id)
    ensures HasPath(g, a, b, 1) <==> a == b
  {
    if a == b {
      assert PathFromTo(g, [a], a, b);
    }
  }

  /** A path of n+1 vertices is a path of n vertices followed by one edge. */
  lemma PathSplit(g: Graph, a: Id, u: Id, n: nat)
    requires n >= 1 && HasPath(g, a, u, n + 1)
    ensures exists w :: HasPath(g, a, w, n) && HasEdge(g, w, u)
  {
    var p :| PathFromTo(g, p, a, u) && |p| == n + 1;
    assert PathFromTo(g, p[..n], a, p[n - 1]);
    assert HasEdge(g, p[n - 1], u);
  }

  lemma PathExtend(g: Graph, a: Id, w: Id, u: Id, n: nat)
    requires HasPath(g, a, w, n) && HasEdge(g, w, u)
    ensures HasPath(g, a, u, n + 1)
  {
    var p :| PathFromTo(g, p, a, w) && |p| == n;
    assert PathFromTo(g, p + [u], a, u);
  }

  lemma PathPrepend(g: Graph, a: Id, w: Id, u: Id, n: nat)
    requires HasEdge(g, a, w) && HasPath(g, w, u, n)
    ensures HasPath(g, a, u, n + 1)
  {
    var p :| PathFromTo(g, p, w, u) && |p| == n;
    assert PathFromTo(g, [a] + p, a, u);
  }

  /** A path of two or more vertices starts with an edge to its second vertex. */
  lemma PathFirstStep(g: Graph, a: Id, u: Id, n: nat)
    requires n >= 2 && HasPath(g, a, u, n)
    ensures exists w :: HasEdge(g, a, w) && HasPath(g, w, u, n - 1)
  {
    var p :| PathFromTo(g, p, a, u) && |p| == n;
    assert PathFromTo(g, p[1..], p[1], u);
  }

  /** A vertex set that holds `a` and is closed under edges holds every vertex reachable from `a`. */
  lemma {:induction false} ClosedSetHoldsReachable(g: Graph, a: Id, vs: set<Id>, u: Id, n: nat)
    requires a in vs
    requires forall v, s :: v in vs && HasEdge(g, v, s) ==> s in vs
    requires HasPath(g, a, u, n)
    ensures u in vs
    decreases n
  {
    if n <= 1 {
      var p :| PathFromTo(g, p, a, u) && |p| == n;
    } else {
      PathSplit(g, a, u, n - 1);
      var w :| HasPath(g, a, w, n - 1) && HasEdge(g, w, u);
      ClosedSetHoldsReachable(g, a, vs, w, n - 1);
    }
  }

  /** Every vertex on a path of two or more vertices is an edge endpoint, hence a vertex of a well-formed graph. */
  lemma PathEndsAreNodes(g: Graph, a: Id, b: Id, n: nat)
    requires Wf(g) && n >= 2 && HasPath(g, a, b, n)
    ensures a in g.nodes && b in g.nodes
  {
    var p :| PathFromTo(g, p, a, b) && |p| == n;
    assert HasEdge(g, p[0], p[1]);
    assert HasEdge(g, p[n - 2], p[n - 1]);
  }

  /** Reversing a path gives a path of the reversed graph. */
  lemma PathOfReverse(g: Graph, a: Id, b: Id, n: nat)
    requires HasPath(g, a, b, n)
    ensures HasPath(Reverse(g), b, a, n)
  {
    var p :| PathFromTo(g, p, a, b) && |p| == n;
    var r := Reverse(g);
    var q := seq(n, i requires 0 <= i < n => p[n - 1 - i]);
    forall i | 0 <= i < n - 1
      ensures HasEdge(r, q[i], q[i + 1])
    {
      assert q[i] == p[n - 1 - i] && q[i + 1] == p[n - 2 - i];
      assert HasEdge(g, p[n - 2 - i], p[n - 1 - i]);
    }
    assert IsPath(r, q) && q[0] == b && q[n - 1] == a;
    assert PathFromTo(r, q, b, a);
  }

  /** A path of the reversed graph is a path of `g` read backwards. */
  lemma PathFromReverse(g: Graph, a: Id, b: Id, n: nat)
    requires HasPath(Reverse(g), b, a, n)
    ensures HasPath(g, a, b, n)
  {
    var r := Reverse(g);
    var p :| PathFromTo(r, p, b, a) && |p| == n;
    var q := seq(n, i requires 0 <= i < n => p[n - 1 - i]);
    forall i | 0 <= i < n - 1
      ensures HasEdge(g, q[i], q[i + 1])
    {
      assert q[i] == p[n - 1 - i] && q[i + 1] == p[n - 2 - i];
      assert HasEdge(r, p[n - 2 - i], p[n - 1 - i]);
    }
    assert IsPath(g, q) && q[0] == a && q[n - 1] == b;
    assert PathFromTo(g, q, a, b);
  }

  // ------------------------------------------------------ topological orders

  /** Every vertex exactly once, and every edge goes forward. */
  ghost predicate IsTopologicalOrder(g: Graph, ord: seq<Id>) {
    && Distinct(ord)
    && (forall x :: x in ord <==> x in g.nodes)
    && forall i, j :: 0 <= i < |ord| && 0 <= j < |ord| && HasEdge(g, ord[i], ord[j]) ==> i < j
  }

  lemma EdgeGoesForward(g: Graph, ord: seq<Id>, a: Id, b: Id)
    requires IsTopologicalOrder(g, ord) && a in ord && b in ord && HasEdge(g, a, b)
    ensures IndexOf(ord, a) < IndexOf(ord, b)
  {
    var i, j := IndexOf(ord, a), IndexOf(ord, b);
    assert HasEdge(g, ord[i], ord[j]);
  }

  /**
   * A topological order of the part of `g` that `ord` lists: no repeats,
   * and every successor of a listed vertex is listed, later. Whatever a
   * listed vertex reaches is listed too, so no listed vertex reaches a
   * cycle; vertices outside `ord` are unconstrained.
   */
  ghost predicate IsClosedOrder(g: Graph, ord: seq<Id>) {
    && Distinct(ord)
    && (forall x :: x in ord ==> x in g.nodes)
    && forall i, b :: 0 <= i < |ord| && HasEdge(g, ord[i], b) ==> b in ord && i < IndexOf(ord, b)
  }

  lemma ClosedEdgeForward(g: Graph, ord: seq<Id>, a: Id, b: Id)
    requires IsClosedOrder(g, ord) && a in ord && HasEdge(g, a, b)
    ensures b in ord && IndexOf(ord, a) < IndexOf(ord, b)
  {
    var i := IndexOf(ord, a);
    assert HasEdge(g, ord[i], b);
  }

  /** A topological order of the whole graph is closed. */
  lemma TopologicalIsClosed(g: Graph, ord: seq<Id>)
    requires Wf(g) && IsTopologicalOrder(g, ord)
    ensures IsClosedOrder(g, ord)
  {
    forall i, b | 0 <= i < |ord| && HasEdge(g, ord[i], b)
      ensures b in ord && i < IndexOf(ord, b)
    {
      assert Edge(ord[i], b) in g.edges;
      IndexOfDistinct(ord, i);
      EdgeGoesForward(g, ord, ord[i], b);
    }
  }

  /** Along a path of two or more vertices from a listed vertex, the position in a closed order strictly increases. */
  lemma {:induction false} PathGoesForward(g: Graph, ord: seq<Id>, a: Id, b: Id, n: nat)
    requires IsClosedOrder(g, ord) && a in ord && n >= 2 && HasPath(g, a, b, n)
    ensures b in ord && IndexOf(ord, a) < IndexOf(ord, b)
    decreases n
  {
    PathFirstStep(g, a, b, n);
    var w :| HasEdge(g, a, w) && HasPath(g, w, b, n - 1);
    ClosedEdgeForward(g, ord, a, w);
    if n == 2 {
      OneVertexPath(g, w, b);
    } else {
      PathGoesForward(g, ord, w, b, n - 1);
    }
  }

  /** No vertex listed in a closed order lies on a cycle. */
  lemma NoSelfReach(g: Graph, ord: seq<Id>, v: Id)
    requires IsClosedOrder(g, ord) && v in ord
    ensures !ReachesByEdges(g, v, v)
  {
    if ReachesByEdges(g, v, v) {
      var n :| n >= 2 && HasPath(g, v, v, n);
      PathGoesForward(g, ord, v, v, n);
    }
  }

  /** A graph with a cycle has no topological order. */
  lemma CycleHasNoTopologicalOrder(g: Graph, ord: seq<Id>)
    requires Wf(g) && HasCycle(g)
    ensures !IsTopologicalOrder(g, ord)
  {
    var v :| ReachesByEdges(g, v, v);
    if IsTopologicalOrder(g, ord) {
      var n :| n >= 2 && HasPath(g, v, v, n);
      PathEndsAreNodes(g, v, v, n);
      TopologicalIsClosed(g, ord);
      NoSelfReach(g, ord, v);
    }
  }
}
