/**
 * `find_shortest_path`: breadth-first search that keeps whole paths in a
 * first-in first-out queue. The first dequeued path that ends at the target
 * is returned; the empty list means the target is unreachable.
 */
module ShortestPaths {
  import opened Graphs

  function Last(p: seq<Id>): Id
    requires |p| > 0
  {
    p[|p| - 1]
  }

  /** The number of vertices of a shortest path from `a` to `b`, or 0 when there is none. */
  ghost function Distance(g: Graph, a: Id, b: Id): (n: nat)
    ensures Reachable(g, a, b) ==> HasPath(g, a, b, n) && forall m :: HasPath(g, a, b, m) ==> n <= m
    ensures !Reachable(g, a, b) ==> n == 0
  {
    if Reachable(g, a, b) then
      var k: nat :| HasPath(g, a, b, k);
      ShortestExists(g, a, b, k);
      var n: nat :| HasPath(g, a, b, n) && forall m: nat :: HasPath(g, a, b, m) ==> n <= m;
      n
    else 0
  }

  lemma {:induction false} ShortestExists(g: Graph, a: Id, b: Id, k: nat)
    requires HasPath(g, a, b, k)
    ensures exists n: nat :: HasPath(g, a, b, n) && forall m: nat :: HasPath(g, a, b, m) ==> n <= m
    decreases k
  {
    if exists m: nat :: HasPath(g, a, b, m) && m < k {
      var m: nat :| HasPath(g, a, b, m) && m < k;
      ShortestExists(g, a, b, m);
    } else {
      assert forall m: nat :: HasPath(g, a, b, m) ==> k <= m;
    }
  }

  /** A reachable vertex is at distance at least 1, and exactly 1 from itself. */
  lemma DistanceOfSelf(g: Graph, a: Id, b: Id)
    ensures Reachable(g, a, b) ==> Distance(g, a, b) >= 1
    ensures Distance(g, a, b) == 1 <==> a == b
  {
    OneVertexPath(g, a, b);
    if Reachable(g, a, b) {
      var p :| PathFromTo(g, p, a, b) && |p| == Distance(g, a, b);
    }
  }

  // ------------------------------------------------ the search state

  /** `new_path = path + [neighbor]` for every neighbor in `ns`, in order. */
  function Extensions(p: seq<Id>, ns: seq<Id>): (r: seq<seq<Id>>)
    ensures |r| == |ns| && forall i :: 0 <= i < |ns| ==> r[i] == p + [ns[i]]
  {
    seq(|ns|, i requires 0 <= i < |ns| => p + [ns[i]])
  }

  /** Some queued path of `n` vertices ends at `u`. */
  ghost predicate EndsAt(q: seq<seq<Id>>, u: Id, n: nat) {
    exists i :: 0 <= i < |q| && |q[i]| == n && n > 0 && Last(q[i]) == u
  }

  /** Some queued path ends at `u`. */
  ghost predicate EndsIn(q: seq<seq<Id>>, u: Id) {
    exists i :: 0 <= i < |q| && |q[i]| > 0 && Last(q[i]) == u
  }

  /** Some queued path of `n` vertices ends at a vertex with an edge to `u`. */
  ghost predicate StepFrom(g: Graph, q: seq<seq<Id>>, u: Id, n: nat) {
    exists i :: 0 <= i < |q| && |q[i]| == n && n > 0 && HasEdge(g, Last(q[i]), u)
  }

  /**
   * The queue holds paths from `start` to vertices of the graph, in order
   * of length; all lengths are `level` or `level + 1`, and the head has
   * length `level`.
   */
  ghost predicate QueueOk(g: Graph, start: Id, q: seq<seq<Id>>, level: nat) {
    && level >= 1
    && (forall i :: 0 <= i < |q| ==>
          level <= |q[i]| <= level + 1 && PathFromTo(g, q[i], start, Last(q[i])) && Last(q[i]) in g.nodes)
    && (forall i, j :: 0 <= i < j < |q| ==> |q[i]| <= |q[j]|)
    && (q != [] ==> |q[0]| == level)
  }

  /** Every vertex at a distance below `level` is visited. */
  ghost predicate Settled(g: Graph, start: Id, visited: set<Id>, level: nat) {
    forall u, n :: 1 <= n < level && HasPath(g, start, u, n) ==> u in visited
  }

  /** Every vertex with a path of `level` vertices is visited or ends a queued path of that length. */
  ghost predicate Frontier(g: Graph, start: Id, visited: set<Id>, q: seq<seq<Id>>, level: nat) {
    forall u :: HasPath(g, start, u, level) ==> u in visited || EndsAt(q, u, level)
  }

  /** Every vertex with a path of `level + 1` vertices is visited, queued, or one edge past a queued path of length `level`. */
  ghost predicate NextFrontier(g: Graph, start: Id, visited: set<Id>, q: seq<seq<Id>>, level: nat) {
    var next := level + 1;
    forall u :: HasPath(g, start, u, next) ==> u in visited || EndsIn(q, u) || StepFrom(g, q, u, level)
  }

  /** Every successor of a visited vertex is visited or queued. */
  ghost predicate Closed(g: Graph, visited: set<Id>, q: seq<seq<Id>>) {
    forall v, s :: v in visited && HasEdge(g, v, s) ==> s in visited || EndsIn(q, s)
  }

  ghost predicate SearchInv(g: Graph, start: Id, visited: set<Id>, q: seq<seq<Id>>, level: nat) {
    && QueueOk(g, start, q, level)
    && Settled(g, start, visited, level)
    && Frontier(g, start, visited, q, level)
    && NextFrontier(g, start, visited, q, level)
    && Closed(g, visited, q)
  }

  /** What one iteration does: pop the head, mark its last vertex, and queue its extensions unless it was visited. */
  ghost predicate IsStep(g: Graph, q: seq<seq<Id>>, visited: set<Id>, ext: seq<seq<Id>>,
                         q': seq<seq<Id>>, visited': set<Id>)
    requires q != [] && |q[0]| > 0
  {
    && ((Last(q[0]) in visited && ext == []) || ext == Extensions(q[0], Succ(g, Last(q[0]))))
    && q' == q[1..] + ext
    && visited' == visited + {Last(q[0])}
  }

  function NextLevel(q': seq<seq<Id>>, level: nat): nat {
    if q' != [] && |q'[0]| == level then level else level + 1
  }

  // ------------------------------------------------ one step preserves the invariant

  /** A queued path other than the head is still queued after the head is popped. */
  lemma TailKept(q: seq<seq<Id>>, ext: seq<seq<Id>>, i: nat)
    requires 1 <= i < |q|
    ensures (q[1..] + ext)[i - 1] == q[i]
  {
  }

  /** When the level goes up, the head was the only queued path of the old level. */
  lemma OnlyHeadAtLevel(g: Graph, start: Id, q: seq<seq<Id>>, level: nat, visited: set<Id>,
                        ext: seq<seq<Id>>, q': seq<seq<Id>>, visited': set<Id>)
    requires Wf(g) && q != [] && QueueOk(g, start, q, level)
    requires IsStep(g, q, visited, ext, q', visited')
    requires NextLevel(q', level) == level + 1
    ensures forall i :: 1 <= i < |q| ==> |q[i]| == level + 1
  {
    if |q| > 1 {
      assert q'[0] == q[1];
    }
  }

  /** The extensions are paths one vertex longer than the head, ending at its successors. */
  lemma ExtensionsOk(g: Graph, start: Id, q: seq<seq<Id>>, level: nat, visited: set<Id>,
                     ext: seq<seq<Id>>, q': seq<seq<Id>>, visited': set<Id>)
    requires Wf(g) && q != [] && QueueOk(g, start, q, level)
    requires IsStep(g, q, visited, ext, q', visited')
    ensures forall i :: 0 <= i < |ext| ==>
      |ext[i]| == level + 1 && HasEdge(g, Last(q[0]), Last(ext[i])) &&
      PathFromTo(g, ext[i], start, Last(ext[i])) && Last(ext[i]) in g.nodes
  {
    var p, x := q[0], Last(q[0]);
    forall i | 0 <= i < |ext|
      ensures |ext[i]| == level + 1 && HasEdge(g, x, Last(ext[i]))
      ensures PathFromTo(g, ext[i], start, Last(ext[i])) && Last(ext[i]) in g.nodes
    {
      var s := Last(ext[i]);
      assert ext[i] == p + [s];
      assert s in Succ(g, x);
      assert IsPath(g, p);
      forall k | 0 <= k < |ext[i]| - 1 ensures HasEdge(g, ext[i][k], ext[i][k + 1]) {
        if k < |p| - 1 {
          assert ext[i][k] == p[k] && ext[i][k + 1] == p[k + 1];
        }
      }
    }
  }

  lemma StepQueueOk(g: Graph, start: Id, q: seq<seq<Id>>, level: nat, visited: set<Id>,
                    ext: seq<seq<Id>>, q': seq<seq<Id>>, visited': set<Id>)
    requires Wf(g) && q != [] && QueueOk(g, start, q, level)
    requires IsStep(g, q, visited, ext, q', visited')
    ensures QueueOk(g, start, q', NextLevel(q', level))
  {
    ExtensionsOk(g, start, q, level, visited, ext, q', visited');
    var level' := NextLevel(q', level);
    if level' == level + 1 {
      OnlyHeadAtLevel(g, start, q, level, visited, ext, q', visited');
    }
    StepQueueElements(g, start, q, level, level', ext, q');
    StepQueueSorted(g, start, q, level, ext, q');
  }

  lemma StepQueueElements(g: Graph, start: Id, q: seq<seq<Id>>, level: nat, level': nat,
                          ext: seq<seq<Id>>, q': seq<seq<Id>>)
    requires q != [] && QueueOk(g, start, q, level) && q' == q[1..] + ext
    requires level' == level || level' == level + 1
    requires level' == level + 1 ==> forall i :: 1 <= i < |q| ==> |q[i]| == level + 1
    requires forall i :: 0 <= i < |ext| ==>
      |ext[i]| == level + 1 && PathFromTo(g, ext[i], start, Last(ext[i])) && Last(ext[i]) in g.nodes
    ensures forall i :: 0 <= i < |q'| ==>
      level' <= |q'[i]| <= level' + 1 && PathFromTo(g, q'[i], start, Last(q'[i])) && Last(q'[i]) in g.nodes
  {
    forall i | 0 <= i < |q'|
      ensures level' <= |q'[i]| <= level' + 1 && PathFromTo(g, q'[i], start, Last(q'[i])) && Last(q'[i]) in g.nodes
    {
      if i < |q| - 1 {
        TailKept(q, ext, i + 1);
      } else {
        assert q'[i] == ext[i - (|q| - 1)];
      }
    }
  }

  lemma StepQueueSorted(g: Graph, start: Id, q: seq<seq<Id>>, level: nat, ext: seq<seq<Id>>, q': seq<seq<Id>>)
    requires q != [] && QueueOk(g, start, q, level) && q' == q[1..] + ext
    requires forall i :: 0 <= i < |ext| ==> |ext[i]| == level + 1
    ensures forall i, j :: 0 <= i < j < |q'| ==> |q'[i]| <= |q'[j]|
  {
    forall i, j | 0 <= i < j < |q'|
      ensures |q'[i]| <= |q'[j]|
    {
      if j < |q| - 1 {
        TailKept(q, ext, i + 1);
        TailKept(q, ext, j + 1);
      } else {
        assert q'[j] == ext[j - (|q| - 1)];
        if i < |q| - 1 {
          TailKept(q, ext, i + 1);
        } else {
          assert q'[i] == ext[i - (|q| - 1)];
        }
      }
    }
  }

  /** Queued paths other than the head survive the step. */
  lemma EndsKept(g: Graph, q: seq<seq<Id>>, ext: seq<seq<Id>>, u: Id, n: nat)
    requires q != [] && |q[0]| > 0
    ensures EndsAt(q, u, n) ==> u == Last(q[0]) || EndsAt(q[1..] + ext, u, n)
    ensures EndsIn(q, u) ==> u == Last(q[0]) || EndsIn(q[1..] + ext, u)
    ensures StepFrom(g, q, u, n) ==> HasEdge(g, Last(q[0]), u) || StepFrom(g, q[1..] + ext, u, n)
  {
    var q' := q[1..] + ext;
    if EndsAt(q, u, n) {
      var i :| 0 <= i < |q| && |q[i]| == n && n > 0 && Last(q[i]) == u;
      if i > 0 { TailKept(q, ext, i); }
    }
    if EndsIn(q, u) {
      var i :| 0 <= i < |q| && |q[i]| > 0 && Last(q[i]) == u;
      if i > 0 { TailKept(q, ext, i); }
    }
    if StepFrom(g, q, u, n) {
      var i :| 0 <= i < |q| && |q[i]| == n && n > 0 && HasEdge(g, Last(q[i]), u);
      if i > 0 { TailKept(q, ext, i); }
    }
  }

  /** A successor of the head's vertex ends a path of the new queue, or is covered by `Closed`. */
  lemma SuccessorCovered(g: Graph, q: seq<seq<Id>>, visited: set<Id>, ext: seq<seq<Id>>,
                         q': seq<seq<Id>>, visited': set<Id>, u: Id)
    requires q != [] && |q[0]| > 0
    requires IsStep(g, q, visited, ext, q', visited')
    requires Closed(g, visited, q) && HasEdge(g, Last(q[0]), u)
    ensures u in visited' || EndsIn(q', u)
    ensures ext != [] ==> EndsAt(q', u, |q[0]| + 1)
    ensures ext == [] ==> u in visited || EndsIn(q, u)
  {
    var x := Last(q[0]);
    if ext == Extensions(q[0], Succ(g, x)) {
      var succ := Succ(g, x);
      var t :| 0 <= t < |succ| && succ[t] == u;
      assert Last(ext[t]) == u;
      assert q'[|q| - 1 + t] == ext[t];
    } else {
      EndsKept(g, q, ext, u, 0);
    }
  }

  lemma StepClosed(g: Graph, q: seq<seq<Id>>, visited: set<Id>, ext: seq<seq<Id>>,
                   q': seq<seq<Id>>, visited': set<Id>)
    requires q != [] && |q[0]| > 0
    requires IsStep(g, q, visited, ext, q', visited')
    requires Closed(g, visited, q)
    ensures Closed(g, visited', q')
  {
    forall v, s | v in visited' && HasEdge(g, v, s)
      ensures s in visited' || EndsIn(q', s)
    {
      if v == Last(q[0]) {
        SuccessorCovered(g, q, visited, ext, q', visited', s);
      } else {
        EndsKept(g, q, ext, s, 0);
      }
    }
  }

  lemma StepFrontierSame(g: Graph, start: Id, q: seq<seq<Id>>, level: nat, visited: set<Id>,
                         ext: seq<seq<Id>>, q': seq<seq<Id>>, visited': set<Id>)
    requires q != [] && QueueOk(g, start, q, level) && Frontier(g, start, visited, q, level)
    requires IsStep(g, q, visited, ext, q', visited')
    ensures Frontier(g, start, visited', q', level)
  {
    forall u | HasPath(g, start, u, level)
      ensures u in visited' || EndsAt(q', u, level)
    {
      EndsKept(g, q, ext, u, level);
    }
  }

  lemma StepSettledUp(g: Graph, start: Id, q: seq<seq<Id>>, level: nat, visited: set<Id>,
                      ext: seq<seq<Id>>, q': seq<seq<Id>>, visited': set<Id>)
    requires Wf(g) && q != [] && QueueOk(g, start, q, level)
    requires Settled(g, start, visited, level) && Frontier(g, start, visited, q, level)
    requires IsStep(g, q, visited, ext, q', visited')
    requires NextLevel(q', level) == level + 1
    ensures Settled(g, start, visited', level + 1)
  {
    OnlyHeadAtLevel(g, start, q, level, visited, ext, q', visited');
    forall u, n | 1 <= n < level + 1 && HasPath(g, start, u, n)
      ensures u in visited'
    {
      if n == level && u !in visited {
        var i :| 0 <= i < |q| && |q[i]| == level && level > 0 && Last(q[i]) == u;
      }
    }
  }

  lemma StepFrontierUp(g: Graph, start: Id, q: seq<seq<Id>>, level: nat, visited: set<Id>,
                       ext: seq<seq<Id>>, q': seq<seq<Id>>, visited': set<Id>)
    requires Wf(g) && q != [] && QueueOk(g, start, q, level)
    requires NextFrontier(g, start, visited, q, level) && Closed(g, visited, q)
    requires IsStep(g, q, visited, ext, q', visited')
    requires NextLevel(q', level) == level + 1
    ensures Frontier(g, start, visited', q', level + 1)
  {
    OnlyHeadAtLevel(g, start, q, level, visited, ext, q', visited');
    forall u | HasPath(g, start, u, level + 1)
      ensures u in visited' || EndsAt(q', u, level + 1)
    {
      if u !in visited' {
        if EndsIn(q, u) {
          var i :| 0 <= i < |q| && |q[i]| > 0 && Last(q[i]) == u;
          TailKept(q, ext, i);
        } else {
          var i :| 0 <= i < |q| && |q[i]| == level && level > 0 && HasEdge(g, Last(q[i]), u);
          assert i == 0;
          SuccessorCovered(g, q, visited, ext, q', visited', u);
        }
      }
    }
  }

  lemma StepNextSame(g: Graph, start: Id, q: seq<seq<Id>>, level: nat, visited: set<Id>,
                     ext: seq<seq<Id>>, q': seq<seq<Id>>, visited': set<Id>)
    requires q != [] && QueueOk(g, start, q, level)
    requires NextFrontier(g, start, visited, q, level) && Closed(g, visited, q)
    requires IsStep(g, q, visited, ext, q', visited')
    ensures NextFrontier(g, start, visited', q', level)
  {
    forall u | HasPath(g, start, u, level + 1)
      ensures u in visited' || EndsIn(q', u) || StepFrom(g, q', u, level)
    {
      EndsKept(g, q, ext, u, level);
      if HasEdge(g, Last(q[0]), u) {
        SuccessorCovered(g, q, visited, ext, q', visited', u);
        EndsKept(g, q, ext, u, level);
      }
    }
  }

  /** One level further needs only the new frontier and closedness. */
  lemma NextFromFrontier(g: Graph, start: Id, visited: set<Id>, q: seq<seq<Id>>, level: nat)
    requires level >= 1
    requires Frontier(g, start, visited, q, level) && Closed(g, visited, q)
    ensures NextFrontier(g, start, visited, q, level)
  {
    forall u | HasPath(g, start, u, level + 1)
      ensures u in visited || EndsIn(q, u) || StepFrom(g, q, u, level)
    {
      PathSplit(g, start, u, level);
      var w :| HasPath(g, start, w, level) && HasEdge(g, w, u);
      if w !in visited {
        var i :| 0 <= i < |q| && |q[i]| == level && level > 0 && Last(q[i]) == w;
      }
    }
  }

  /** One iteration keeps the search invariant. */
  lemma Step(g: Graph, start: Id, q: seq<seq<Id>>, level: nat, visited: set<Id>,
             ext: seq<seq<Id>>, q': seq<seq<Id>>, visited': set<Id>)
    requires Wf(g) && q != [] && SearchInv(g, start, visited, q, level)
    requires IsStep(g, q, visited, ext, q', visited')
    ensures SearchInv(g, start, visited', q', NextLevel(q', level))
  {
    StepQueueOk(g, start, q, level, visited, ext, q', visited');
    StepClosed(g, q, visited, ext, q', visited');
    if NextLevel(q', level) == level {
      StepFrontierSame(g, start, q, level, visited, ext, q', visited');
      StepNextSame(g, start, q, level, visited, ext, q', visited');
    } else {
      StepSettledUp(g, start, q, level, visited, ext, q', visited');
      StepFrontierUp(g, start, q, level, visited, ext, q', visited');
      NextFromFrontier(g, start, visited', q', level + 1);
    }
  }

  /** Before the first iteration: only `[start]` is queued and nothing is visited. */
  lemma InitialInv(g: Graph, start: Id)
    requires start in g.nodes
    ensures SearchInv(g, start, {}, [[start]], 1)
  {
    var q := [[start]];
    assert |q[0]| == 1 && Last(q[0]) == start;
    assert PathFromTo(g, q[0], start, start);
    forall u | HasPath(g, start, u, 1)
      ensures EndsAt(q, u, 1)
    {
      OneVertexPath(g, start, u);
    }
    forall u | HasPath(g, start, u, 2)
      ensures StepFrom(g, q, u, 1)
    {
      PathFirstStep(g, start, u, 2);
      var w :| HasEdge(g, start, w) && HasPath(g, w, u, 1);
      OneVertexPath(g, w, u);
      assert HasEdge(g, Last(q[0]), u);
    }
  }

  /** The head of the queue, once it ends at the target, is a shortest path. */
  lemma FoundIsShortest(g: Graph, start: Id, end: Id, visited: set<Id>, q: seq<seq<Id>>, level: nat)
    requires q != [] && QueueOk(g, start, q, level) && Settled(g, start, visited, level)
    requires end !in visited && Last(q[0]) == end
    ensures PathFromTo(g, q[0], start, end)
    ensures forall n :: HasPath(g, start, end, n) ==> |q[0]| <= n
    ensures |q[0]| == Distance(g, start, end)
  {
    forall n | HasPath(g, start, end, n)
      ensures |q[0]| <= n
    {
      var r :| PathFromTo(g, r, start, end) && |r| == n;
    }
    assert HasPath(g, start, end, |q[0]|);
  }

  /** Once the queue is empty the visited set is closed, so the target is unreachable. */
  lemma ExhaustedUnreachable(g: Graph, start: Id, end: Id, visited: set<Id>)
    requires Closed(g, visited, []) && start in visited && end !in visited
    ensures !Reachable(g, start, end)
  {
    forall n | HasPath(g, start, end, n)
      ensures false
    {
      ClosedSetHoldsReachable(g, start, visited, end, n);
    }
  }

  // ------------------------------------------------ the search

  /** The inner loop: `queue.append(path + [neighbor])` for every successor, in order. */
  method Enqueue(queue: seq<seq<Id>>, p: seq<Id>, succ: seq<Id>) returns (r: seq<seq<Id>>)
    ensures r == queue + Extensions(p, succ)
  {
    r := queue;
    var t := 0;
    while t < |succ|
      invariant 0 <= t <= |succ|
      invariant r == queue + Extensions(p, succ[..t])
    {
      assert Extensions(p, succ[..t + 1]) == Extensions(p, succ[..t]) + [p + [succ[t]]];
      r := r + [p + [succ[t]]];
      t := t + 1;
    }
    assert succ[..t] == succ;
  }

  /**
   * `find_shortest_path(graph, start, end)`: a shortest path from `start` to
   * `end` as a list of vertices, or `[]` when there is none.
   */
  method ShortestPath(g: Graph, start: Id, end: Id) returns (path: seq<Id>)
    requires Wf(g) && start in g.nodes
    ensures path != [] ==> PathFromTo(g, path, start, end)
    ensures path == [] <==> !Reachable(g, start, end)
    ensures forall n :: HasPath(g, start, end, n) ==> |path| <= n
    ensures |path| == Distance(g, start, end)
  {
    var visited: set<Id> := {};
    var queue: seq<seq<Id>> := [[start]];
    ghost var level: nat := 1;
    InitialInv(g, start);
    while queue != []
      invariant SearchInv(g, start, visited, queue, level)
      invariant end !in visited && visited <= NodeSet(g)
      invariant start in visited || queue == [[start]]
      decreases |NodeSet(g) - visited|, |queue|
    {
      var p := queue[0];
      var x := Last(p);
      if x == end {
        FoundIsShortest(g, start, end, visited, queue, level);
        return p;
      }
      ghost var q0, v0 := queue, visited;
      queue := queue[1..];
      if x !in visited {
        visited := visited + {x};
        var succ := Succ(g, x);
        queue := Enqueue(queue, p, succ);
        Step(g, start, q0, level, v0, Extensions(p, succ), queue, visited);
        SubsetDifference(NodeSet(g), v0, visited);
      } else {
        assert queue == q0[1..] + [];
        Step(g, start, q0, level, v0, [], queue, visited);
      }
      level := NextLevel(queue, level);
    }
    ExhaustedUnreachable(g, start, end, visited);
    path := [];
  }
}
