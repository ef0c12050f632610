/** Building the executable DAG (pkg/graph/dag.go). The graph library is modelled by its documented
    behaviour: `AddEdge` refuses a repeated edge and an edge that closes a cycle (found by a backward
    search), and the topological sort is Kahn's algorithm. Every iteration over a Go map picks its
    next key arbitrarily, so each result below holds for every iteration order. */
module DagBuilder {
  import opened Common
  import opened GraphTypes
  import opened Paths

  datatype Dag = Dag(nodeMap: map<string, Node>, order: seq<string>)

  datatype BuildError =
    | NilGraph
    | Invalid(reason: ValidationError)
    | EdgeExists(source: string, target: string)
    | EdgeCreatesCycle(source: string, target: string)
    | SortFailed

  // ---- the dependency relation ----

  /** Node `id` depends directly on `d`. */
  predicate DependsOn(nodes: map<string, Node>, id: string, d: string) {
    id in nodes && d in nodes[id].dependsOn
  }

  /** One edge per dependency, from the node depended on to its dependent. */
  function DepEdges(nodes: map<string, Node>): Edges {
    set id, d | id in nodes && d in nodes[id].dependsOn :: (d, id)
  }

  lemma DepEdge(nodes: map<string, Node>, d: string, id: string)
    ensures (d, id) in DepEdges(nodes) <==> DependsOn(nodes, id, d)
  {
  }

  ghost predicate DependenciesClosed(nodes: map<string, Node>) {
    forall id, d :: DependsOn(nodes, id, d) ==> d in nodes
  }

  /** What `Execute` relies on: `order` lists every node once, dependencies first. */
  ghost predicate WellFormed(dag: Dag) {
    && Distinct(dag.order)
    && (forall id :: id in dag.order <==> id in dag.nodeMap)
    && (forall i, d :: 0 <= i < |dag.order| && DependsOn(dag.nodeMap, dag.order[i], d) ==> d in dag.order[..i])
  }

  function NodeMap(nodes: seq<Node>): map<string, Node>
  {
    if nodes == [] then map[] else NodeMap(nodes[..|nodes| - 1])[nodes[|nodes| - 1].id := nodes[|nodes| - 1]]
  }

  lemma {:induction false} NodeMapHolds(nodes: seq<Node>)
    requires forall i, j :: 0 <= i < j < |nodes| ==> nodes[i].id != nodes[j].id
    ensures forall i :: 0 <= i < |nodes| ==> nodes[i].id in NodeMap(nodes) && NodeMap(nodes)[nodes[i].id] == nodes[i]
    ensures forall id :: id in NodeMap(nodes) ==> exists i :: 0 <= i < |nodes| && nodes[i].id == id
  {
    if nodes != [] {
      NodeMapHolds(nodes[..|nodes| - 1]);
      var init := nodes[..|nodes| - 1];
      forall id | id in NodeMap(nodes) ensures exists i :: 0 <= i < |nodes| && nodes[i].id == id {
        if id == nodes[|nodes| - 1].id {
          assert nodes[|nodes| - 1].id == id;
        } else {
          assert id in NodeMap(init);
          var i :| 0 <= i < |init| && init[i].id == id;
          assert nodes[i].id == id;
        }
      }
    }
  }

  lemma ValidDependenciesClosed(g: Graph)
    requires Valid(g)
    ensures DependenciesClosed(NodeMap(g.nodes))
  {
    NodeMapHolds(g.nodes);
    var nodes := NodeMap(g.nodes);
    forall id, d | DependsOn(nodes, id, d) ensures d in nodes {
      var i :| 0 <= i < |g.nodes| && g.nodes[i].id == id;
      assert AcceptedNode(g.nodes[i], g);
      var j :| 0 <= j < |g.nodes| && g.nodes[j].id == d;
    }
  }

  ghost predicate ListsEachDependencyOnce(nodes: map<string, Node>) {
    forall id :: id in nodes ==> Distinct(nodes[id].dependsOn)
  }

  // ---- the library's cycle check ----

  /** `graph.CreatesCycle`: does adding `source -> target` close a cycle? A backward search from
      `source` that looks for `target`. */
  method CreatesCycle(edges: Edges, source: string, target: string) returns (creates: bool)
    ensures creates <==> Reaches(edges, target, source)
  {
    var universe := {source} + set e | e in edges :: e.0;
    var frontier, visited := {source}, {};
    ReachesSelf(edges, source);
    while frontier != {}
      invariant frontier !! visited && frontier + visited <= universe
      invariant source in frontier + visited && target !in visited
      invariant forall v :: v in frontier + visited ==> Reaches(edges, v, source)
      invariant forall u, v :: v in visited && (u, v) in edges ==> u in frontier + visited
      decreases universe - visited
    {
      var v :| v in frontier;
      if v == target {
        return true;
      }
      var preds := set e | e in edges && e.1 == v :: e.0;
      forall u | u in preds ensures Reaches(edges, u, source) {
        EdgeThenReaches(edges, u, v, source);
      }
      forall u | (u, v) in edges ensures u in preds && u in universe {
        assert (u, v).0 == u;
      }
      visited := visited + {v};
      frontier := frontier + preds - visited;
    }
    ClosedBackwards(edges, visited, source, target);
    return false;
  }

  /** A set closed under predecessors that misses `target` contains nothing `target` reaches. */
  lemma ClosedBackwards(edges: Edges, visited: set<string>, source: string, target: string)
    requires source in visited && target !in visited
    requires forall u, v :: v in visited && (u, v) in edges ==> u in visited
    ensures !Reaches(edges, target, source)
  {
    forall p | PathFromTo(edges, p, target, source) ensures false {
      EndsInside(edges, visited, p);
    }
  }

  lemma {:induction false} EndsInside(edges: Edges, visited: set<string>, p: seq<string>)
    requires forall u, v :: v in visited && (u, v) in edges ==> u in visited
    requires IsPath(edges, p) && p[|p| - 1] in visited
    ensures p[0] in visited
    decreases |p|
  {
    if |p| > 1 {
      assert (p[|p| - 2], p[|p| - 1]) in edges;
      EndsInside(edges, visited, p[..|p| - 1]);
    }
  }

  // ---- Kahn's algorithm ----

  /** `graph.TopologicalSort`: repeatedly takes a vertex all of whose predecessors were taken. */
  method TopologicalSort(vertices: set<string>, edges: Edges) returns (order: seq<string>, ok: bool)
    requires forall a, b :: (a, b) in edges ==> a in vertices && b in vertices
    ensures ok <==> Acyclic(edges)
    ensures ok ==> Distinct(order) && (forall v :: v in order <==> v in vertices)
    ensures ok ==> forall i, a :: 0 <= i < |order| && (a, order[i]) in edges ==> a in order[..i]
  {
    order := [];
    var remaining := vertices;
    var free := set v | v in remaining && forall u :: u in remaining ==> (u, v) !in edges;
    while free != {}
      invariant free == set v | v in remaining && forall u :: u in remaining ==> (u, v) !in edges
      invariant remaining <= vertices
      invariant forall v :: v in order <==> v in vertices - remaining
      invariant Distinct(order)
      invariant forall i, a :: 0 <= i < |order| && (a, order[i]) in edges ==> a in order[..i]
      decreases remaining
    {
      var v :| v in free;
      assert v !in order;
      var longer := order + [v];
      forall i, a | 0 <= i < |longer| && (a, longer[i]) in edges ensures a in longer[..i] {
        if i < |order| {
          assert longer[..i] == order[..i];
        } else {
          assert longer[..i] == order;
        }
      }
      order, remaining := longer, remaining - {v};
      free := set w | w in remaining && forall u :: u in remaining ==> (u, w) !in edges;
    }
    ok := remaining == {};
    if ok {
      forall a, b | (a, b) in edges
        ensures exists i, j :: 0 <= i < j < |order| && order[i] == a && order[j] == b
      {
        assert b in order;
        var j :| 0 <= j < |order| && order[j] == b;
        var i :| 0 <= i < |order[..j]| && order[..j][i] == a;
        assert order[i] == a;
      }
      ForwardMeansAcyclic(order, edges);
    } else {
      forall v | v in remaining ensures HasPredecessorIn(remaining, edges, v) {
        assert v !in free;
      }
      StuckMeansCyclic(remaining, edges);
    }
  }

  // ---- BuildDAG ----

  /** The edges contributed by the first `k` dependencies of `id`. */
  function EdgesOf(nodes: map<string, Node>, id: string, k: nat): Edges
    requires id in nodes && k <= |nodes[id].dependsOn|
  {
    set i | 0 <= i < k :: (nodes[id].dependsOn[i], id)
  }

  /** The reported edge is a dependency that its node lists twice, or one that closes a cycle. */
  ghost predicate RefusedEdge(nodes: map<string, Node>, e: BuildError) {
    match e
    case EdgeExists(source, target) => target in nodes && ListedTwice(nodes[target].dependsOn, source)
    case EdgeCreatesCycle(source, target) =>
      DependsOn(nodes, target, source) && Reaches(DepEdges(nodes), target, source)
    case _ => false
  }

  ghost predicate ListedTwice(deps: seq<string>, d: string) {
    exists j, k :: 0 <= j < k < |deps| && deps[j] == d && deps[k] == d
  }

  /** Adds one node's edges; stops at the first edge the library refuses. */
  method AddEdges(nodes: map<string, Node>, id: string, before: Edges) returns (edges: Edges, err: Option<BuildError>)
    requires id in nodes
    requires before <= DepEdges(nodes) && forall e :: e in before ==> e.1 != id
    requires Acyclic(before)
    ensures Acyclic(edges)
    ensures err.None? ==> Distinct(nodes[id].dependsOn)
    ensures err.None? ==> edges == before + EdgesOf(nodes, id, |nodes[id].dependsOn|)
    ensures err.Some? ==> !Distinct(nodes[id].dependsOn) || !Acyclic(DepEdges(nodes))
    ensures err.Some? ==> RefusedEdge(nodes, err.value)
  {
    edges := before;
    var deps := nodes[id].dependsOn;
    for k := 0 to |deps|
      invariant edges == before + EdgesOf(nodes, id, k) <= DepEdges(nodes)
      invariant forall i, j :: 0 <= i < j < k ==> deps[i] != deps[j]
      invariant Acyclic(edges)
    {
      var d := deps[k];
      DepEdge(nodes, d, id);
      if (d, id) in edges {
        assert exists j :: 0 <= j < k && deps[j] == d;
        return edges, Some(EdgeExists(d, id));
      }
      var cycle := CreatesCycle(edges, d, id);
      if cycle {
        ReachesInMore(edges, DepEdges(nodes), id, d);
        EdgeThenReaches(DepEdges(nodes), d, id, d);
        return edges, Some(EdgeCreatesCycle(d, id));
      }
      AddEdgeKeepsAcyclic(edges, d, id);
      edges := edges + {(d, id)};
    }
    return edges, None;
  }

  /** The edges of the nodes outside `todo`. */
  ghost function EdgesOutside(nodes: map<string, Node>, todo: set<string>): Edges {
    set id, d | id in nodes && id !in todo && d in nodes[id].dependsOn :: (d, id)
  }

  lemma EdgesOfOneMore(nodes: map<string, Node>, todo: set<string>, id: string)
    requires id in nodes && id in todo
    ensures EdgesOutside(nodes, todo - {id}) == EdgesOutside(nodes, todo) + EdgesOf(nodes, id, |nodes[id].dependsOn|)
  {
  }

  /** Adds all edges, node by node in any order; stops at the first edge the library refuses. */
  method AddAllEdges(nodes: map<string, Node>) returns (edges: Edges, err: Option<BuildError>)
    ensures err.None? ==> ListsEachDependencyOnce(nodes) && edges == DepEdges(nodes) && Acyclic(edges)
    ensures err.Some? ==> !ListsEachDependencyOnce(nodes) || !Acyclic(DepEdges(nodes))
    ensures err.Some? ==> RefusedEdge(nodes, err.value)
  {
    edges := {};
    var todo := nodes.Keys;
    ForwardMeansAcyclic([], edges);
    while todo != {}
      invariant todo <= nodes.Keys
      invariant edges == EdgesOutside(nodes, todo) && Acyclic(edges)
      invariant forall id :: id in nodes && id !in todo ==> Distinct(nodes[id].dependsOn)
      decreases todo
    {
      var id :| id in todo;
      edges, err := AddEdges(nodes, id, edges);
      if err.Some? {
        return;
      }
      EdgesOfOneMore(nodes, todo, id);
      todo := todo - {id};
    }
    return edges, None;
  }

  // ---- what the result means, in terms of the graph artifact ----

  /** Some node lists a dependency twice. */
  ghost predicate RepeatsDependency(g: Graph) {
    exists i, j, k :: 0 <= i < |g.nodes| && 0 <= j < k < |g.nodes[i].dependsOn|
                      && g.nodes[i].dependsOn[j] == g.nodes[i].dependsOn[k]
  }

  /** Some node of the graph has ID `b` and lists `a` as a dependency. */
  ghost predicate Lists(g: Graph, b: string, a: string) {
    exists i :: 0 <= i < |g.nodes| && g.nodes[i].id == b && a in g.nodes[i].dependsOn
  }

  /** `p` starts and ends at the same ID, and each ID on it is a dependency of the next. */
  ghost predicate IsCycle(g: Graph, p: seq<string>) {
    |p| >= 2 && p[0] == p[|p| - 1] && forall k :: 0 <= k < |p| - 1 ==> Lists(g, p[k + 1], p[k])
  }

  ghost predicate HasCycle(g: Graph) {
    exists p :: IsCycle(g, p)
  }

  /** A node with ID `target` lists `source` twice, or `source` is a dependency of `target` on a cycle. Cycles
      are caught when an edge is added, so the final sort does not fail. */
  ghost predicate ReportedEdge(g: Graph, e: BuildError) {
    match e
    case EdgeExists(source, target) => exists n :: n in g.nodes && n.id == target && ListedTwice(n.dependsOn, source)
    case EdgeCreatesCycle(source, target) => exists p :: IsCycle(g, p) && p[0] == source && p[1] == target
    case _ => false
  }

  lemma ReportedMeaning(g: Graph, e: BuildError)
    requires Valid(g) && RefusedEdge(NodeMap(g.nodes), e)
    ensures ReportedEdge(g, e)
  {
    var nodes := NodeMap(g.nodes);
    NodeMapHolds(g.nodes);
    if e.EdgeExists? {
      var i :| 0 <= i < |g.nodes| && g.nodes[i].id == e.target;
      assert g.nodes[i] in g.nodes && nodes[e.target] == g.nodes[i];
    } else {
      var q :| PathFromTo(DepEdges(nodes), q, e.target, e.source);
      var p := [e.source] + q;
      forall k | 0 <= k < |p| - 1 ensures Lists(g, p[k + 1], p[k]) {
        assert k > 0 ==> (q[k - 1], q[k - 1 + 1]) in DepEdges(nodes);
        DepEdge(nodes, p[k], p[k + 1]);
        DependsMeaning(g, p[k + 1], p[k]);
      }
      assert IsCycle(g, p);
    }
  }

  /** The DAG holds the nodes of the graph under their IDs and orders each ID once. */
  ghost predicate HoldsNodes(dag: Dag, g: Graph) {
    && (forall id :: id in dag.nodeMap ==> dag.nodeMap[id].id == id && dag.nodeMap[id] in g.nodes)
    && (forall n :: n in g.nodes ==> n.id in dag.nodeMap && dag.nodeMap[n.id] == n && n.id in dag.order)
    && |dag.order| == |g.nodes|
    && forall i, j :: 0 <= i < j < |dag.order| ==> dag.order[i] != dag.order[j]
  }

  /** Every dependency of a node stands before it in the order. */
  ghost predicate DependenciesFirst(dag: Dag, g: Graph) {
    forall n, d, q :: n in g.nodes && d in n.dependsOn && 0 <= q < |dag.order| && dag.order[q] == n.id ==>
      exists p :: 0 <= p < q && dag.order[p] == d
  }

  lemma DependsMeaning(g: Graph, b: string, a: string)
    requires Valid(g)
    ensures DependsOn(NodeMap(g.nodes), b, a) <==> Lists(g, b, a)
  {
    NodeMapHolds(g.nodes);
  }

  lemma RepeatsMeaning(g: Graph)
    requires Valid(g)
    ensures ListsEachDependencyOnce(NodeMap(g.nodes)) <==> !RepeatsDependency(g)
  {
    NodeMapHolds(g.nodes);
    if RepeatsDependency(g) {
      var i, j, k :| 0 <= i < |g.nodes| && 0 <= j < k < |g.nodes[i].dependsOn|
                     && g.nodes[i].dependsOn[j] == g.nodes[i].dependsOn[k];
      assert !Distinct(NodeMap(g.nodes)[g.nodes[i].id].dependsOn);
    }
  }

  lemma CycleMeaning(g: Graph)
    requires Valid(g)
    ensures Acyclic(DepEdges(NodeMap(g.nodes))) <==> !HasCycle(g)
  {
    var nodes := NodeMap(g.nodes);
    forall a, b ensures (a, b) in DepEdges(nodes) <==> Lists(g, b, a) {
      DepEdge(nodes, a, b);
      DependsMeaning(g, b, a);
    }
    if HasCycle(g) {
      var p :| IsCycle(g, p);
      assert PathFromTo(DepEdges(nodes), p, p[0], p[0]);
      assert Precedes(DepEdges(nodes), p[0], p[0]);
    }
    if !Acyclic(DepEdges(nodes)) {
      var a :| Precedes(DepEdges(nodes), a, a);
      var p :| PathFromTo(DepEdges(nodes), p, a, a) && |p| >= 2;
      assert IsCycle(g, p);
    }
  }

  lemma OrderMeaning(g: Graph, dag: Dag)
    requires Valid(g) && WellFormed(dag) && dag.nodeMap == NodeMap(g.nodes) && |dag.order| == |g.nodes|
    ensures HoldsNodes(dag, g) && DependenciesFirst(dag, g)
  {
    NodeMapHolds(g.nodes);
    forall n, d, q | n in g.nodes && d in n.dependsOn && 0 <= q < |dag.order| && dag.order[q] == n.id
      ensures exists p :: 0 <= p < q && dag.order[p] == d
    {
      assert DependsOn(dag.nodeMap, dag.order[q], d);
      var p :| 0 <= p < |dag.order[..q]| && dag.order[..q][p] == d;
      assert dag.order[p] == d;
    }
  }

  /** `BuildDAG`. It succeeds on exactly the valid graphs that list each dependency once and whose
      dependency relation has no cycle, and then returns all nodes in a dependencies-first order. */
  method BuildDAG(input: Option<Graph>) returns (r: Result<Dag, BuildError>)
    ensures r.Ok? <==>
              input.Some? && Valid(input.value) && !RepeatsDependency(input.value) && !HasCycle(input.value)
    ensures r.Ok? ==> HoldsNodes(r.value, input.value) && DependenciesFirst(r.value, input.value)
    ensures r.Ok? ==> WellFormed(r.value)
    // Which error is returned when.
    ensures r == Err(NilGraph) <==> input.None?
    ensures r.Err? && r.error.Invalid? <==> input.Some? && !Valid(input.value)
    ensures r.Err? && input.Some? && Valid(input.value) ==> ReportedEdge(input.value, r.error)
  {
    if input.None? {
      return Err(NilGraph);
    }
    var invalid := Validate(input.value);
    if invalid.Some? {
      return Err(Invalid(invalid.value));
    }
    var nodes := NodeMap(input.value.nodes);
    var edges, err := AddAllEdges(nodes);
    RepeatsMeaning(input.value);
    CycleMeaning(input.value);
    if err.Some? {
      ReportedMeaning(input.value, err.value);
      return Err(err.value);
    }
    ValidEdgesInside(input.value);
    var order, sorted := TopologicalSort(nodes.Keys, edges);
    if !sorted {
      return Err(SortFailed);
    }
    SortedIsWellFormed(nodes, order);
    OrderCountsNodes(input.value.nodes, order);
    OrderMeaning(input.value, Dag(nodes, order));
    return Ok(Dag(nodes, order));
  }

  lemma ValidEdgesInside(g: Graph)
    requires Valid(g)
    ensures forall a, b :: (a, b) in DepEdges(NodeMap(g.nodes)) ==> a in NodeMap(g.nodes) && b in NodeMap(g.nodes)
  {
    ValidDependenciesClosed(g);
    var nodes := NodeMap(g.nodes);
    forall a, b | (a, b) in DepEdges(nodes) ensures a in nodes && b in nodes {
      DepEdge(nodes, a, b);
    }
  }

  lemma SortedIsWellFormed(nodes: map<string, Node>, order: seq<string>)
    requires Distinct(order) && (forall v :: v in order <==> v in nodes)
    requires forall i, a :: 0 <= i < |order| && (a, order[i]) in DepEdges(nodes) ==> a in order[..i]
    ensures WellFormed(Dag(nodes, order))
  {
  }

  lemma OrderCountsNodes(nodes: seq<Node>, order: seq<string>)
    requires forall i, j :: 0 <= i < j < |nodes| ==> nodes[i].id != nodes[j].id
    requires Distinct(order) && forall v :: v in order <==> v in NodeMap(nodes)
    ensures |order| == |nodes|
  {
    NodeMapHolds(nodes);
    var ids := seq(|nodes|, i requires 0 <= i < |nodes| => nodes[i].id);
    assert Distinct(ids);
    assert forall i :: 0 <= i < |nodes| ==> ids[i] == nodes[i].id && ids[i] in order;
    SameMembersSameLength(ids, order);
  }

  lemma SameMembersSameLength(a: seq<string>, b: seq<string>)
    requires Distinct(a) && Distinct(b) && forall v :: v in a <==> v in b
    ensures |a| == |b|
  {
    DistinctCard(a);
    DistinctCard(b);
    assert (set v | v in a) == (set v | v in b);
  }

  lemma {:induction false} DistinctCard(a: seq<string>)
    requires Distinct(a)
    ensures |set v | v in a| == |a|
  {
    if a != [] {
      var init, last := a[..|a| - 1], a[|a| - 1];
      DistinctCard(init);
      assert (set v | v in a) == (set v | v in init) + {last};
      assert last !in init;
    }
  }
}
