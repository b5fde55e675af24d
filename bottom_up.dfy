/**
 * Bottom-up usage aggregation: missions are visited in a topological order
 * of the mission graph (children before parents); a leaf mission gets 100 in
 * the column of every data asset linked to it, any other mission gets the
 * element-wise mean of its children's rows.
 */
module BottomUp {
  import opened Wrappers
  import opened Graphs
  import opened Model

  datatype Error =
    | CyclicHierarchy        // no topological order: the processing order is never set
    | UnknownMission(id: Id) // a hierarchy link names an id that is not a declared mission

  /** `find_leaf_mission_nodes`: the vertices with in-degree 0, in vertex order. */
  function LeafNodes(g: Graph): (r: seq<Id>)
    ensures forall x :: x in r <==> x in g.nodes && |Pred(g, x)| == 0
  {
    WithoutPredecessors(g, g.nodes)
  }

  function WithoutPredecessors(g: Graph, ns: seq<Id>): (r: seq<Id>)
    ensures forall x :: x in r <==> x in ns && |Pred(g, x)| == 0
  {
    if ns == [] then []
    else
      assert forall x :: x in ns <==> x == ns[0] || x in ns[1..];
      (if |Pred(g, ns[0])| == 0 then [ns[0]] else []) + WithoutPredecessors(g, ns[1..])
  }

  /**
   * The children of `m` in the mission graph `g` that are declared
   * missions, in predecessor order.
   */
  function Children(inp: Input, g: Graph, m: Id): (r: seq<Id>)
    ensures forall c :: c in r <==> HasEdge(g, c, m) && c in inp.missions
    ensures Wf(g) ==> Distinct(r)
  {
    KeepIn(Pred(g, m), SetOf(inp.missions))
  }

  /** The children of `m` in the mission graph are the declared missions linked to `m` as children. */
  lemma MissionChildren(inp: Input, m: Id, c: Id)
    ensures c in Children(inp, MissionGraph(inp), m) <==> HierarchyLink(c, m) in inp.hierarchy && c in inp.missions
  {
  }

  /** `d` is a predecessor of `m` in the usage graph: a hierarchy or usage link from `d` to `m`. */
  predicate LinkedTo(inp: Input, d: Id, m: Id) {
    HierarchyLink(d, m) in inp.hierarchy || UsageLink(d, m) in inp.usage
  }

  /** Every child comes before its parent in a topological order. */
  lemma ChildrenEarlier(inp: Input, g: Graph, ord: seq<Id>, m: Id)
    requires Wf(g) && IsTopologicalOrder(g, ord) && m in ord
    ensures forall c :: c in Children(inp, g, m) ==> c in ord && IndexOf(ord, c) < IndexOf(ord, m)
  {
    forall c | c in Children(inp, g, m)
      ensures c in ord && IndexOf(ord, c) < IndexOf(ord, m)
    {
      assert HasEdge(g, c, m);
      EdgeGoesForward(g, ord, c, m);
    }
  }

  /**
   * When every vertex of the mission graph is a declared mission, which is
   * when the lookups succeed, a mission that is not a leaf has a child among
   * the declared missions: its first predecessor.
   */
  lemma NonLeafHasMissionChild(inp: Input, g: Graph, m: Id)
    requires Wf(g) && forall x :: x in g.nodes ==> x in inp.missions
    requires m in g.nodes && m !in LeafNodes(g)
    ensures |Children(inp, g, m)| > 0
  {
    var c := Pred(g, m)[0];
    assert HasEdge(g, c, m) && c in g.nodes;
    assert c in Children(inp, g, m);
  }

  /**
   * The value the aggregation assigns to mission `m` in the column of data
   * id `d`, defined by recursion along the topological order `ord` of the
   * mission graph `g` (the program's `M`, `MissionGraph(inp)`).
   */
  ghost function Cell(inp: Input, g: Graph, ord: seq<Id>, m: Id, d: Id): real
    requires Wf(g) && IsTopologicalOrder(g, ord) && m in ord
    decreases IndexOf(ord, m), 1, 0
  {
    if m in LeafNodes(g) then
      if LinkedTo(inp, d, m) then 100.0 else 0.0
    else
      var ch := Children(inp, g, m);
      ChildrenEarlier(inp, g, ord, m);
      if ch == [] then 0.0 else ChildSum(inp, g, ord, ch, d, IndexOf(ord, m)) / |ch| as real
  }

  /** The sum of the cells of the missions `ch` in column `d`; all of them come before position `bound`. */
  ghost function ChildSum(inp: Input, g: Graph, ord: seq<Id>, ch: seq<Id>, d: Id, bound: nat): real
    requires Wf(g) && IsTopologicalOrder(g, ord)
    requires forall c :: c in ch ==> c in ord && IndexOf(ord, c) < bound
    decreases bound, 0, |ch|
  {
    if ch == [] then 0.0 else Cell(inp, g, ord, ch[0], d) + ChildSum(inp, g, ord, ch[1..], d, bound)
  }

  /** A leaf row holds 100 exactly in the columns of the data linked to the mission, 0 elsewhere. */
  lemma LeafRow(inp: Input, g: Graph, ord: seq<Id>, m: Id, d: Id)
    requires g == MissionGraph(inp)
    requires IsTopologicalOrder(g, ord) && m in ord
    requires m in LeafNodes(g)
    ensures Cell(inp, g, ord, m, d) == if UsageLink(d, m) in inp.usage then 100.0 else 0.0
  {
    assert !HasEdge(g, d, m);
  }

  /** Every cell lies in [0, 100]. */
  lemma {:induction false} CellInRange(inp: Input, g: Graph, ord: seq<Id>, m: Id, d: Id)
    requires Wf(g) && IsTopologicalOrder(g, ord) && m in ord
    ensures 0.0 <= Cell(inp, g, ord, m, d) <= 100.0
    decreases IndexOf(ord, m), 1, 0
  {
    if m !in LeafNodes(g) {
      var ch := Children(inp, g, m);
      ChildrenEarlier(inp, g, ord, m);
      if ch != [] {
        var s := ChildSum(inp, g, ord, ch, d, IndexOf(ord, m));
        ChildSumInRange(inp, g, ord, ch, d, IndexOf(ord, m));
        MeanInRange(s, |ch|);
      }
    }
  }

  lemma MeanInRange(s: real, n: nat)
    requires n >= 1 && 0.0 <= s <= 100.0 * n as real
    ensures 0.0 <= s / n as real <= 100.0
  {
    var q := s / n as real;
    assert q * n as real == s;
  }

  lemma {:induction false} ChildSumInRange(inp: Input, g: Graph, ord: seq<Id>, ch: seq<Id>, d: Id, bound: nat)
    requires Wf(g) && IsTopologicalOrder(g, ord)
    requires forall c :: c in ch ==> c in ord && IndexOf(ord, c) < bound
    ensures 0.0 <= ChildSum(inp, g, ord, ch, d, bound) <= 100.0 * |ch| as real
    decreases bound, 0, |ch|
  {
    if ch != [] {
      CellInRange(inp, g, ord, ch[0], d);
      ChildSumInRange(inp, g, ord, ch[1..], d, bound);
    }
  }

  /** The aggregation does not depend on which topological order is used. */
  lemma {:induction false} CellOrderIndependent(inp: Input, g: Graph, ord1: seq<Id>, ord2: seq<Id>, m: Id, d: Id)
    requires Wf(g) && IsTopologicalOrder(g, ord1) && IsTopologicalOrder(g, ord2)
    requires m in ord1
    ensures m in ord2 && Cell(inp, g, ord1, m, d) == Cell(inp, g, ord2, m, d)
    decreases IndexOf(ord1, m), 1, 0
  {
    if m !in LeafNodes(g) {
      var ch := Children(inp, g, m);
      ChildrenEarlier(inp, g, ord1, m);
      ChildrenEarlier(inp, g, ord2, m);
      ChildSumOrderIndependent(inp, g, ord1, ord2, ch, d, IndexOf(ord1, m), IndexOf(ord2, m));
    }
  }

  lemma {:induction false} ChildSumOrderIndependent(inp: Input, g: Graph, ord1: seq<Id>, ord2: seq<Id>, ch: seq<Id>, d: Id, b1: nat, b2: nat)
    requires Wf(g) && IsTopologicalOrder(g, ord1) && IsTopologicalOrder(g, ord2)
    requires forall c :: c in ch ==> c in ord1 && IndexOf(ord1, c) < b1
    requires forall c :: c in ch ==> c in ord2 && IndexOf(ord2, c) < b2
    ensures ChildSum(inp, g, ord1, ch, d, b1) == ChildSum(inp, g, ord2, ch, d, b2)
    decreases b1, 0, |ch|
  {
    if ch != [] {
      CellOrderIndependent(inp, g, ord1, ord2, ch[0], d);
      ChildSumOrderIndependent(inp, g, ord1, ord2, ch[1..], d, b1, b2);
    }
  }

  // ------------------------------------------------------------ the matrix

  /** The matrix contents as a value. */
  ghost function Snapshot(a: array2<real>): (s: seq<seq<real>>)
    reads a
    ensures |s| == a.Length0 && forall i :: 0 <= i < |s| ==> |s[i]| == a.Length1
    ensures forall i, j :: 0 <= i < a.Length0 && 0 <= j < a.Length1 ==> s[i][j] == a[i, j]
  {
    seq(a.Length0, i requires 0 <= i < a.Length0 reads a =>
      seq(a.Length1, j requires 0 <= j < a.Length1 reads a => a[i, j]))
  }

  /** The sum of column `j` over the rows `rows` of `m`. */
  ghost function ColumnSum(m: seq<seq<real>>, rows: seq<nat>, j: nat): real
    requires forall t :: 0 <= t < |rows| ==> rows[t] < |m| && j < |m[rows[t]]|
  {
    if rows == [] then 0.0 else m[rows[0]][j] + ColumnSum(m, rows[1..], j)
  }

  /** Once the children's rows hold their cells, their column sum is the specification's child sum. */
  lemma {:induction false} ColumnSumIsChildSum(inp: Input, g: Graph, ord: seq<Id>, m: seq<seq<real>>, rows: seq<nat>,
                                               ch: seq<Id>, j: nat, d: Id, bound: nat)
    requires Wf(g) && IsTopologicalOrder(g, ord)
    requires forall c :: c in ch ==> c in ord && IndexOf(ord, c) < bound
    requires |rows| == |ch|
    requires forall t :: 0 <= t < |rows| ==> rows[t] < |m| && j < |m[rows[t]]| && m[rows[t]][j] == Cell(inp, g, ord, ch[t], d)
    ensures ColumnSum(m, rows, j) == ChildSum(inp, g, ord, ch, d, bound)
  {
    if ch != [] {
      ColumnSumIsChildSum(inp, g, ord, m, rows[1..], ch[1..], j, d, bound);
    }
  }

  /** `matrix[m_index][c] = 100` for every column `c` in `cols`. */
  method MarkUsed(a: array2<real>, row: nat, cols: seq<nat>)
    requires row < a.Length0 && forall t :: 0 <= t < |cols| ==> cols[t] < a.Length1
    modifies a
    ensures forall i, j :: 0 <= i < a.Length0 && 0 <= j < a.Length1 ==>
      a[i, j] == if i == row && j in cols then 100.0 else old(a[i, j])
  {
    var t := 0;
    while t < |cols|
      invariant 0 <= t <= |cols|
      invariant forall i, j :: 0 <= i < a.Length0 && 0 <= j < a.Length1 ==>
        a[i, j] == if i == row && j in cols[..t] then 100.0 else old(a[i, j])
    {
      a[row, cols[t]] := 100.0;
      assert cols[..t + 1] == cols[..t] + [cols[t]];
      t := t + 1;
    }
    assert cols[..t] == cols;
  }

  /** `matrix[m_index] = np.sum(children_rows, axis=0) / len(children_rows)`. */
  method AverageRows(a: array2<real>, row: nat, rows: seq<nat>)
    requires row < a.Length0 && |rows| > 0 && row !in rows
    requires forall t :: 0 <= t < |rows| ==> rows[t] < a.Length0
    modifies a
    ensures forall i, j :: 0 <= i < a.Length0 && 0 <= j < a.Length1 ==>
      a[i, j] == if i == row then ColumnSum(old(Snapshot(a)), rows, j) / |rows| as real else old(a[i, j])
  {
    ghost var before := Snapshot(a);
    var j := 0;
    while j < a.Length1
      invariant 0 <= j <= a.Length1
      invariant forall i, c :: 0 <= i < a.Length0 && 0 <= c < a.Length1 ==>
        a[i, c] == if i == row && c < j then ColumnSum(before, rows, c) / |rows| as real else before[i][c]
    {
      var s := 0.0;
      var t := 0;
      while t < |rows|
        invariant 0 <= t <= |rows|
        invariant s + ColumnSum(before, rows[t..], j) == ColumnSum(before, rows, j)
      {
        assert rows[t..][1..] == rows[t + 1..];
        s := s + a[rows[t], j];
        t := t + 1;
      }
      a[row, j] := s / |rows| as real;
      j := j + 1;
    }
  }

  /** `matrix[m_index] = np.zeros(len(operational_data))`. */
  method ClearRow(a: array2<real>, row: nat)
    requires row < a.Length0
    modifies a
    ensures forall i, j :: 0 <= i < a.Length0 && 0 <= j < a.Length1 ==>
      a[i, j] == if i == row then 0.0 else old(a[i, j])
  {
    var j := 0;
    while j < a.Length1
      invariant 0 <= j <= a.Length1
      invariant forall i, c :: 0 <= i < a.Length0 && 0 <= c < a.Length1 ==>
        a[i, c] == if i == row && c < j then 0.0 else old(a[i, c])
    {
      a[row, j] := 0.0;
      j := j + 1;
    }
  }

  /**
   * `a` has a row per declared mission and a column per data id, and `ord`
   * is a topological order of the well-formed graph `g`, which has every
   * declared mission among its vertices.
   */
  ghost predicate MatrixFor(inp: Input, g: Graph, ord: seq<Id>, a: array2<real>) {
    && Wf(g) && IsTopologicalOrder(g, ord)
    && (forall x :: x in inp.missions ==> x in g.nodes)
    && a.Length0 == |MissionIds(inp)| && a.Length1 == |DataIds(inp)|
  }

  /** Rows of missions before position `k` of `ord` hold their cells, the others are still zero. */
  ghost predicate FilledUpTo(inp: Input, g: Graph, ord: seq<Id>, a: array2<real>, k: nat)
    requires MatrixFor(inp, g, ord, a)
    reads a
  {
    forall i, j :: 0 <= i < a.Length0 && 0 <= j < a.Length1 ==>
      a[i, j] == if IndexOf(ord, MissionIds(inp)[i]) < k then Cell(inp, g, ord, MissionIds(inp)[i], DataIds(inp)[j]) else 0.0
  }

  /** The positions in `ids` of the ids in `picked`, looked up in the index map. */
  function Columns(ids: seq<Id>, index: map<Id, nat>, picked: seq<Id>): (cols: seq<nat>)
    requires Distinct(ids) && index == IndexMap(ids)
    requires forall x :: x in picked ==> x in ids
    ensures |cols| == |picked| && forall t :: 0 <= t < |cols| ==> cols[t] < |ids| && ids[cols[t]] == picked[t]
    ensures forall j :: 0 <= j < |ids| ==> (j in cols <==> ids[j] in picked)
  {
    assert forall x :: x in picked ==> x in index;
    var cols := seq(|picked|, t requires 0 <= t < |picked| => index[picked[t]]);
    forall j | 0 <= j < |ids| && ids[j] in picked
      ensures j in cols
    {
      var t := IndexOf(picked, ids[j]);
      assert ids[cols[t]] == ids[j];
    }
    cols
  }

  /** The columns of the data linked to `m`: `data_to_index[d_uuid]` for every `d_uuid` in `connected_data_nodes`. */
  function LinkedColumns(inp: Input, m: Id, dataIndex: map<Id, nat>): (cols: seq<nat>)
    requires dataIndex == IndexMap(DataIds(inp))
    ensures forall t :: 0 <= t < |cols| ==> cols[t] < |DataIds(inp)|
    ensures forall j :: 0 <= j < |DataIds(inp)| ==> (j in cols <==> LinkedTo(inp, DataIds(inp)[j], m))
  {
    var connected := KeepIn(Pred(UsageGraph(inp), m), SetOf(inp.data));
    Columns(DataIds(inp), dataIndex, connected)
  }

  /** The leaf branch: 100 in the column of every data asset linked to leaf mission `m`. */
  method FillLeafRow(inp: Input, g: Graph, ord: seq<Id>, m: Id, row: nat, matrix: array2<real>, dataIndex: map<Id, nat>)
    requires Wf(g) && IsTopologicalOrder(g, ord) && m in ord
    requires m in LeafNodes(g)
    requires matrix.Length1 == |DataIds(inp)| && row < matrix.Length0
    requires forall j :: 0 <= j < matrix.Length1 ==> matrix[row, j] == 0.0
    requires dataIndex == IndexMap(DataIds(inp))
    modifies matrix
    ensures forall i, j :: 0 <= i < matrix.Length0 && 0 <= j < matrix.Length1 ==>
      matrix[i, j] == if i == row then Cell(inp, g, ord, m, DataIds(inp)[j]) else old(matrix[i, j])
  {
    var cols := LinkedColumns(inp, m, dataIndex);
    MarkUsed(matrix, row, cols);
    forall j | 0 <= j < matrix.Length1
      ensures matrix[row, j] == Cell(inp, g, ord, m, DataIds(inp)[j])
    {
      assert Cell(inp, g, ord, m, DataIds(inp)[j]) == if LinkedTo(inp, DataIds(inp)[j], m) then 100.0 else 0.0;
    }
  }

  /** The other branch: the mean of the children's rows, or zeros when no child is a declared mission. */
  method FillParentRow(inp: Input, g: Graph, ord: seq<Id>, k: nat, row: nat, matrix: array2<real>, missionIndex: map<Id, nat>)
    requires MatrixFor(inp, g, ord, matrix) && k < |ord|
    requires ord[k] !in LeafNodes(g)
    requires row < matrix.Length0 && MissionIds(inp)[row] == ord[k]
    requires missionIndex == IndexMap(MissionIds(inp))
    requires FilledUpTo(inp, g, ord, matrix, k)
    modifies matrix
    ensures forall i, j :: 0 <= i < matrix.Length0 && 0 <= j < matrix.Length1 ==>
      matrix[i, j] == if i == row then Cell(inp, g, ord, ord[k], DataIds(inp)[j]) else old(matrix[i, j])
  {
    var m := ord[k];
    IndexOfDistinct(ord, k);
    var children := Children(inp, g, m);
    ChildrenEarlier(inp, g, ord, m);
    if |children| > 0 {
      var rows := Columns(MissionIds(inp), missionIndex, children);
      ChildRowsFilled(inp, g, ord, matrix, k, children, rows);
      ChildRowsSum(inp, g, ord, matrix, k, children, rows);
      assert row !in rows by {
        forall t | 0 <= t < |rows| ensures rows[t] != row {
          assert IndexOf(ord, children[t]) < k;
        }
      }
      AverageRows(matrix, row, rows);
    } else {
      ClearRow(matrix, row);
    }
  }

  /** Before position `k` of the order every mission's row holds its cells, so in particular the rows of earlier children do. */
  lemma ChildRowsFilled(inp: Input, g: Graph, ord: seq<Id>, a: array2<real>, k: nat, children: seq<Id>, rows: seq<nat>)
    requires MatrixFor(inp, g, ord, a) && FilledUpTo(inp, g, ord, a, k)
    requires forall c :: c in children ==> c in ord && IndexOf(ord, c) < k
    requires |rows| == |children|
    requires forall t :: 0 <= t < |rows| ==> rows[t] < a.Length0 && MissionIds(inp)[rows[t]] == children[t]
    ensures forall t, j :: 0 <= t < |rows| && 0 <= j < a.Length1 ==>
      a[rows[t], j] == Cell(inp, g, ord, children[t], DataIds(inp)[j])
  {
    forall t, j | 0 <= t < |rows| && 0 <= j < a.Length1
      ensures a[rows[t], j] == Cell(inp, g, ord, children[t], DataIds(inp)[j])
    {
      assert children[t] in children;
    }
  }

  /** Once the rows of the children hold their cells, every column of those rows sums to the child sum. */
  lemma ChildRowsSum(inp: Input, g: Graph, ord: seq<Id>, a: array2<real>, k: nat, children: seq<Id>, rows: seq<nat>)
    requires Wf(g) && IsTopologicalOrder(g, ord) && a.Length1 == |DataIds(inp)|
    requires forall c :: c in children ==> c in ord && IndexOf(ord, c) < k
    requires |rows| == |children| && forall t :: 0 <= t < |rows| ==> rows[t] < a.Length0
    requires forall t, j :: 0 <= t < |rows| && 0 <= j < a.Length1 ==>
      a[rows[t], j] == Cell(inp, g, ord, children[t], DataIds(inp)[j])
    ensures forall j :: 0 <= j < a.Length1 ==>
      ColumnSum(Snapshot(a), rows, j) == ChildSum(inp, g, ord, children, DataIds(inp)[j], k)
  {
    var snap := Snapshot(a);
    forall j | 0 <= j < a.Length1
      ensures ColumnSum(snap, rows, j) == ChildSum(inp, g, ord, children, DataIds(inp)[j], k)
    {
      ColumnSumIsChildSum(inp, g, ord, snap, rows, children, j, DataIds(inp)[j], k);
    }
  }

  /** One iteration of the loop: fills the row of the `k`-th mission of the order. */
  method FillRow(inp: Input, g: Graph, ord: seq<Id>, k: nat, matrix: array2<real>,
                 leaves: seq<Id>, missionIndex: map<Id, nat>, dataIndex: map<Id, nat>)
    requires MatrixFor(inp, g, ord, matrix)
    requires leaves == LeafNodes(g)
    requires missionIndex == IndexMap(MissionIds(inp)) && dataIndex == IndexMap(DataIds(inp))
    requires k < |ord| && ord[k] in inp.missions
    requires FilledUpTo(inp, g, ord, matrix, k)
    modifies matrix
    ensures FilledUpTo(inp, g, ord, matrix, k + 1)
  {
    var m := ord[k];
    IndexOfDistinct(ord, k);
    var row := missionIndex[m];
    IndexOfDistinct(MissionIds(inp), row);
    if m in leaves {
      FillLeafRow(inp, g, ord, m, row, matrix, dataIndex);
    } else {
      FillParentRow(inp, g, ord, k, row, matrix, missionIndex);
    }
    RowDone(inp, g, ord, matrix, k, row);
  }

  /** With the row of the `k`-th mission filled in, the rows filled now reach one position further. */
  lemma RowDone(inp: Input, g: Graph, ord: seq<Id>, a: array2<real>, k: nat, row: nat)
    requires MatrixFor(inp, g, ord, a) && k < |ord|
    requires row < a.Length0 && MissionIds(inp)[row] == ord[k]
    requires forall i, j :: 0 <= i < a.Length0 && 0 <= j < a.Length1 ==>
      a[i, j] == if i == row then Cell(inp, g, ord, ord[k], DataIds(inp)[j])
                 else if IndexOf(ord, MissionIds(inp)[i]) < k then Cell(inp, g, ord, MissionIds(inp)[i], DataIds(inp)[j])
                 else 0.0
    ensures FilledUpTo(inp, g, ord, a, k + 1)
  {
    IndexOfDistinct(ord, k);
    forall i, j | 0 <= i < a.Length0 && 0 <= j < a.Length1
      ensures a[i, j] == if IndexOf(ord, MissionIds(inp)[i]) < k + 1 then Cell(inp, g, ord, MissionIds(inp)[i], DataIds(inp)[j]) else 0.0
    {
      if i != row {
        IndexOfDistinct(MissionIds(inp), i);
        IndexOfDistinct(MissionIds(inp), row);
        assert IndexOf(ord, MissionIds(inp)[i]) != k;
      }
    }
  }

  /**
   * The body of the bottom-up endpoint: fills the mission x data matrix
   * row by row along `order`, the result of the topological sort (None when
   * the mission graph has a cycle and the sort raises).
   */
  method BottomUpProcess(inp: Input, order: Option<seq<Id>>) returns (matrix: array2<real>, error: Option<Error>)
    requires order.Some? ==> IsTopologicalOrder(MissionGraph(inp), order.value)
    requires order.None? ==> HasCycle(MissionGraph(inp))
    ensures fresh(matrix)
    ensures matrix.Length0 == |MissionIds(inp)| && matrix.Length1 == |DataIds(inp)|
    ensures order.None? <==> error == Some(CyclicHierarchy)
    ensures order.Some? ==> (error.None? <==> forall x :: x in MissionGraph(inp).nodes ==> x in inp.missions)
    ensures error.Some? && error.value.UnknownMission? ==>
      error.value.id in MissionGraph(inp).nodes && error.value.id !in inp.missions
    ensures error.None? ==> order.Some?
    ensures error.None? && order.Some? ==>
      (forall i, j :: 0 <= i < matrix.Length0 && 0 <= j < matrix.Length1 ==>
         matrix[i, j] == Cell(inp, MissionGraph(inp), order.value, MissionIds(inp)[i], DataIds(inp)[j]))
  {
    matrix := new real[|MissionIds(inp)|, |DataIds(inp)|]((i, j) => 0.0);
    if order.None? {
      error := Some(CyclicHierarchy);
      return;
    }
    var g, ord := MissionGraph(inp), order.value;
    var k := FillAlong(inp, g, ord, matrix);
    // `mission_to_index[m_uuid]` raises KeyError exactly when the id is not a declared mission
    if k < |ord| {
      error := Some(UnknownMission(ord[k]));
    } else {
      error := None;
      forall i, j | 0 <= i < matrix.Length0 && 0 <= j < matrix.Length1
        ensures matrix[i, j] == Cell(inp, g, ord, MissionIds(inp)[i], DataIds(inp)[j])
      {
        assert IndexOf(ord, MissionIds(inp)[i]) < |ord|;
      }
    }
  }

  /**
   * The loop over the processing order `ord` on a zero matrix, up to the
   * first id that is not a declared mission; returns how far it got.
   */
  method FillAlong(inp: Input, g: Graph, ord: seq<Id>, matrix: array2<real>) returns (k: nat)
    requires MatrixFor(inp, g, ord, matrix)
    requires FilledUpTo(inp, g, ord, matrix, 0)
    modifies matrix
    ensures k <= |ord| && FilledUpTo(inp, g, ord, matrix, k)
    ensures forall t :: 0 <= t < k ==> ord[t] in inp.missions
    ensures k < |ord| ==> ord[k] !in inp.missions
  {
    var leaves := LeafNodes(g);
    var missionIndex := IndexMap(MissionIds(inp));
    var dataIndex := IndexMap(DataIds(inp));
    k := 0;
    while k < |ord| && ord[k] in inp.missions
      invariant k <= |ord|
      invariant FilledUpTo(inp, g, ord, matrix, k)
      invariant forall t :: 0 <= t < k ==> ord[t] in inp.missions
    {
      FillRow(inp, g, ord, k, matrix, leaves, missionIndex, dataIndex);
      k := k + 1;
    }
  }

  /**
   * On the finished matrix of a run without errors, every row of a mission
   * that is not a leaf is the element-wise mean of its children's rows, and
   * there is at least one child, so the row of zeros is never written.
   */
  lemma RowIsMeanOfChildren(inp: Input, g: Graph, ord: seq<Id>, a: array2<real>, i: nat, rows: seq<nat>)
    requires Wf(g) && IsTopologicalOrder(g, ord)
    requires forall x :: x in inp.missions ==> x in g.nodes
    requires a.Length0 == |MissionIds(inp)| && a.Length1 == |DataIds(inp)|
    requires forall i, j :: 0 <= i < a.Length0 && 0 <= j < a.Length1 ==>
      a[i, j] == Cell(inp, g, ord, MissionIds(inp)[i], DataIds(inp)[j])
    requires forall x :: x in g.nodes ==> x in inp.missions
    requires i < a.Length0 && MissionIds(inp)[i] !in LeafNodes(g)
    requires |rows| == |Children(inp, g, MissionIds(inp)[i])|
    requires forall t :: 0 <= t < |rows| ==> rows[t] < a.Length0 && MissionIds(inp)[rows[t]] == Children(inp, g, MissionIds(inp)[i])[t]
    ensures |rows| > 0
    ensures forall j :: 0 <= j < a.Length1 ==> a[i, j] == ColumnSum(Snapshot(a), rows, j) / |rows| as real
  {
    var m := MissionIds(inp)[i];
    assert m in g.nodes;
    NonLeafHasMissionChild(inp, g, m);
    ChildrenEarlier(inp, g, ord, m);
    forall j | 0 <= j < a.Length1
      ensures a[i, j] == ColumnSum(Snapshot(a), rows, j) / |rows| as real
    {
      ColumnSumIsChildSum(inp, g, ord, Snapshot(a), rows, Children(inp, g, m), j, DataIds(inp)[j], IndexOf(ord, m));
    }
  }
}
