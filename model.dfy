/**
 * The request payload and the graphs the three analyses build from it.
 *
 * The bottom-up and depth/breadth analyses draw hierarchy edges from child
 * to parent and usage edges from data to mission (the usage graph); the
 * importance analysis draws them from parent to child and from mission to
 * data (the influence graph). Both conventions are kept, as the program has
 * them, and `InfluenceIsReversedUsage` states how they relate.
 */
module Model {
  import opened Graphs

  /** One `MissionHierarchy` record. */
  datatype HierarchyLink = HierarchyLink(child: Id, parent: Id)

  /** One `Mission_OperationalData` record. */
  datatype UsageLink = UsageLink(data: Id, mission: Id)

  /** The payload: mission and data UUIDs (names are used only for output) and the two link lists. */
  datatype Input = Input(
    missions: seq<Id>,
    data: seq<Id>,
    hierarchy: seq<HierarchyLink>,
    usage: seq<UsageLink>)

  /** The keys of the `missions` dict: mission UUIDs without repeats, first occurrence first. */
  function MissionIds(inp: Input): (r: seq<Id>)
    ensures Distinct(r) && forall x :: x in r <==> x in inp.missions
  {
    Dedup(inp.missions)
  }

  /** The keys of the `operational_data` dict. */
  function DataIds(inp: Input): (r: seq<Id>)
    ensures Distinct(r) && forall x :: x in r <==> x in inp.data
  {
    Dedup(inp.data)
  }

  /** Hierarchy links as child -> parent edges. */
  function ChildToParent(hs: seq<HierarchyLink>): (r: seq<Edge>)
    ensures forall a, b :: Edge(a, b) in r <==> HierarchyLink(a, b) in hs
  {
    var r := seq(|hs|, i requires 0 <= i < |hs| => Edge(hs[i].child, hs[i].parent));
    assert forall a, b :: HierarchyLink(a, b) in hs ==> Edge(a, b) in r by {
      forall a, b | HierarchyLink(a, b) in hs ensures Edge(a, b) in r {
        var i :| 0 <= i < |hs| && hs[i] == HierarchyLink(a, b);
        assert r[i] == Edge(a, b);
      }
    }
    r
  }

  /** Hierarchy links as parent -> child edges. */
  function ParentToChild(hs: seq<HierarchyLink>): (r: seq<Edge>)
    ensures forall a, b :: Edge(a, b) in r <==> HierarchyLink(b, a) in hs
  {
    var r := seq(|hs|, i requires 0 <= i < |hs| => Edge(hs[i].parent, hs[i].child));
    assert forall a, b :: HierarchyLink(b, a) in hs ==> Edge(a, b) in r by {
      forall a, b | HierarchyLink(b, a) in hs ensures Edge(a, b) in r {
        var i :| 0 <= i < |hs| && hs[i] == HierarchyLink(b, a);
        assert r[i] == Edge(a, b);
      }
    }
    r
  }

  /** Usage links as data -> mission edges. */
  function DataToMission(us: seq<UsageLink>): (r: seq<Edge>)
    ensures forall a, b :: Edge(a, b) in r <==> UsageLink(a, b) in us
  {
    var r := seq(|us|, i requires 0 <= i < |us| => Edge(us[i].data, us[i].mission));
    assert forall a, b :: UsageLink(a, b) in us ==> Edge(a, b) in r by {
      forall a, b | UsageLink(a, b) in us ensures Edge(a, b) in r {
        var i :| 0 <= i < |us| && us[i] == UsageLink(a, b);
        assert r[i] == Edge(a, b);
      }
    }
    r
  }

  /** Usage links as mission -> data edges. */
  function MissionToData(us: seq<UsageLink>): (r: seq<Edge>)
    ensures forall a, b :: Edge(a, b) in r <==> UsageLink(b, a) in us
  {
    var r := seq(|us|, i requires 0 <= i < |us| => Edge(us[i].mission, us[i].data));
    assert forall a, b :: UsageLink(b, a) in us ==> Edge(a, b) in r by {
      forall a, b | UsageLink(b, a) in us ensures Edge(a, b) in r {
        var i :| 0 <= i < |us| && us[i] == UsageLink(b, a);
        assert r[i] == Edge(a, b);
      }
    }
    r
  }

  /** The graph `G` of the bottom-up and depth/breadth analyses. */
  function UsageGraph(inp: Input): (g: Graph)
    ensures Wf(g)
    ensures Dedup(inp.missions + inp.data) <= g.nodes
    ensures forall a, b :: HasEdge(g, a, b) <==> HierarchyLink(a, b) in inp.hierarchy || UsageLink(a, b) in inp.usage
  {
    NewGraph(inp.missions + inp.data, ChildToParent(inp.hierarchy) + DataToMission(inp.usage))
  }

  /** The mission-only graph `M`: missions and child -> parent edges. */
  function MissionGraph(inp: Input): (g: Graph)
    ensures Wf(g)
    ensures MissionIds(inp) <= g.nodes
    ensures forall a, b :: HasEdge(g, a, b) <==> HierarchyLink(a, b) in inp.hierarchy
  {
    NewGraph(inp.missions, ChildToParent(inp.hierarchy))
  }

  /** The vertices of `M` are the declared missions and every id a hierarchy link names. */
  lemma MissionGraphNodes(inp: Input, x: Id)
    ensures x in MissionGraph(inp).nodes <==> x in inp.missions || InHierarchy(inp.hierarchy, x)
  {
    var es := ChildToParent(inp.hierarchy);
    EndpointsMention(es, x);
    if Mentions(es, x) {
      var e :| e in es && (x == e.src || x == e.dst);
      assert HierarchyLink(e.src, e.dst) in inp.hierarchy;
    }
    if InHierarchy(inp.hierarchy, x) {
      var h :| h in inp.hierarchy && (x == h.child || x == h.parent);
      assert Edge(h.child, h.parent) in es;
    }
  }

  /** `x` is the child or the parent of some hierarchy link. */
  ghost predicate InHierarchy(hs: seq<HierarchyLink>, x: Id) {
    exists h :: h in hs && (x == h.child || x == h.parent)
  }

  /** The graph `G` of the importance analysis. */
  function InfluenceGraph(inp: Input): (g: Graph)
    ensures Wf(g)
    ensures Dedup(inp.missions + inp.data) <= g.nodes
    ensures forall a, b :: HasEdge(g, a, b) <==> HierarchyLink(b, a) in inp.hierarchy || UsageLink(b, a) in inp.usage
  {
    NewGraph(inp.missions + inp.data, ParentToChild(inp.hierarchy) + MissionToData(inp.usage))
  }

  /**
   * The ids whose vertex type is `OperationalData` in the importance graph.
   * The data attributes are added last, so an id declared both as a mission
   * and as data counts as data; an id that only a link names has no type.
   */
  function DataSet(inp: Input): (r: set<Id>)
    ensures forall x :: x in r <==> x in inp.data
    ensures r <= NodeSet(InfluenceGraph(inp))
  {
    SetOf(inp.data)
  }

  /**
   * The two conventions describe the same relation in opposite directions:
   * the influence graph has the usage graph's vertex set and exactly its
   * edges turned around.
   */
  lemma InfluenceIsReversedUsage(inp: Input)
    ensures NodeSet(InfluenceGraph(inp)) == NodeSet(UsageGraph(inp))
    ensures forall a, b :: HasEdge(InfluenceGraph(inp), a, b) <==> HasEdge(UsageGraph(inp), b, a)
  {
    var es1 := ChildToParent(inp.hierarchy) + DataToMission(inp.usage);
    var es2 := ParentToChild(inp.hierarchy) + MissionToData(inp.usage);
    forall x ensures x in Endpoints(es1) <==> x in Endpoints(es2) {
      EndpointsMention(es1, x);
      EndpointsMention(es2, x);
      if Mentions(es1, x) {
        var e :| e in es1 && (x == e.src || x == e.dst);
        assert Edge(e.dst, e.src) in es2;
      }
      if Mentions(es2, x) {
        var e :| e in es2 && (x == e.src || x == e.dst);
        assert Edge(e.dst, e.src) in es1;
      }
    }
  }
}
