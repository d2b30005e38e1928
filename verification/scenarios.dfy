/** The repository's test scenarios, stated for every order Go's map
    ranges may take, and the edge-key collision shown on a concrete
    request. */
module Scenarios {
  import opened Basics
  import opened Errors
  import opened Graphs
  import opened Paths
  import opened TopoSort
  import opened Jobs
  import opened Builder
  import opened Pipeline

  // ---------------------------------------------------------------------
  // The graph store.

  /** A store holding the vertices "from" and "to", as the edge test sets
      it up. */
  const FromTo := Graph(map["from" := Vertex("from"), "to" := Vertex("to")], map[])

  lemma FromToBuiltThroughStore()
    ensures AddVertex(AddVertex(NewGraph(), "from"), "to") == FromTo
  {
  }

  /** `AddEdge` on that store: a nil endpoint on either side, a registered
      pair, an unregistered pair.

      Here and below a fixture enters a lemma as a parameter equal to its
      constant (`requires g == FromTo`) rather than as the constant itself:
      the solver then meets the map literal once, through the equation,
      instead of unfolding it at every use, which keeps these proofs within
      the resource limit. */
  lemma AddEdgeCases(g: Graph)
    requires g == FromTo
    ensures AddEdge(g, None, Some(Vertex("to"))) == Mutated(g, Some(Bare(VertexIsNotDefined)))
    ensures AddEdge(g, Some(Vertex("from")), None) == Mutated(g, Some(Bare(VertexIsNotDefined)))
    ensures AddEdge(g, Some(Vertex("non")), Some(Vertex("exist"))) == Mutated(g, Some(UnregisteredError("non")))
    ensures var r := AddEdge(g, Some(Vertex("from")), Some(Vertex("to")));
            r.err.None? && r.graph.edges == map["from-to" := Edge(Vertex("from"), Vertex("to"))]
  {
    assert EdgeKey("from", "to") == "from-to";
  }

  /** Adds an edge between two names, registered or not. */
  function Connect(g: Graph, from: string, to: string): Graph
  {
    AddEdge(g, Some(Vertex(from)), Some(Vertex(to))).graph
  }

  /** Connecting two registered names stores their edge under its key. */
  lemma ConnectRegistered(g: Graph, from: string, to: string)
    requires from in g.vertices && to in g.vertices
    ensures Connect(g, from, to) == Graph(g.vertices, g.edges[EdgeKey(from, to) := Edge(Vertex(from), Vertex(to))])
  {
  }

  const V1 := Vertex("v1")
  const V2 := Vertex("v2")
  const V3 := Vertex("v3")
  const V4 := Vertex("v4")

  /** v1 -> v2 -> v3 -> v4, as the sort test builds it. */
  const Chain := Graph(map["v1" := V1, "v2" := V2, "v3" := V3, "v4" := V4],
                       map["v1-v2" := Edge(V1, V2), "v2-v3" := Edge(V2, V3), "v3-v4" := Edge(V3, V4)])

  lemma ChainIsValid()
    ensures Valid(Chain)
    ensures Chain.vertices.Keys == {"v1", "v2", "v3", "v4"}
  {
    assert EdgeKey("v1", "v2") == "v1-v2";
    assert EdgeKey("v2", "v3") == "v2-v3";
    assert EdgeKey("v3", "v4") == "v3-v4";
  }

  lemma ChainVertices()
    ensures AddVertex(AddVertex(AddVertex(AddVertex(NewGraph(), "v1"), "v2"), "v3"), "v4") == Graph(Chain.vertices, map[])
  {
  }

  lemma ChainFirstEdge(g: Graph)
    requires g == Graph(Chain.vertices, map[])
    ensures Connect(g, "v1", "v2") == Graph(Chain.vertices, map["v1-v2" := Edge(V1, V2)])
  {
    assert EdgeKey("v1", "v2") == "v1-v2";
    ConnectRegistered(g, "v1", "v2");
  }

  lemma ChainSecondEdge(g: Graph)
    requires g == Graph(Chain.vertices, map["v1-v2" := Edge(V1, V2)])
    ensures Connect(g, "v2", "v3") == Graph(Chain.vertices, map["v1-v2" := Edge(V1, V2), "v2-v3" := Edge(V2, V3)])
  {
    assert EdgeKey("v2", "v3") == "v2-v3";
    ConnectRegistered(g, "v2", "v3");
  }

  lemma ChainThirdEdge(g: Graph)
    requires g == Graph(Chain.vertices, map["v1-v2" := Edge(V1, V2), "v2-v3" := Edge(V2, V3)])
    ensures Connect(g, "v3", "v4") == Chain
  {
    assert EdgeKey("v3", "v4") == "v3-v4";
    ConnectRegistered(g, "v3", "v4");
  }

  /** Registering v1..v4 and adding the three edges in order gives `Chain`
      without an error. */
  lemma ChainBuiltThroughStore()
    ensures var g := AddVertex(AddVertex(AddVertex(AddVertex(NewGraph(), "v1"), "v2"), "v3"), "v4");
            Connect(Connect(Connect(g, "v1", "v2"), "v2", "v3"), "v3", "v4") == Chain
  {
    var g := AddVertex(AddVertex(AddVertex(AddVertex(NewGraph(), "v1"), "v2"), "v3"), "v4");
    ChainVertices();
    ChainFirstEdge(g);
    var g1 := Connect(g, "v1", "v2");
    ChainSecondEdge(g1);
    var g2 := Connect(g1, "v2", "v3");
    ChainThirdEdge(g2);
  }

  /** The only dependency-first listing of the chain's four vertices. */
  lemma ChainOrderIsUnique(s: seq<string>)
    requires Distinct(s) && Elems(s) == {"v1", "v2", "v3", "v4"}
    requires DependenciesFirst(Chain, s)
    ensures s == ["v4", "v3", "v2", "v1"]
  {
    DistinctCardinality(s);
    assert |s| == 4;
    assert "v1" in Elems(s);
    var i1 :| 0 <= i1 < |s| && s[i1] == "v1";
    assert "v1-v2" in Chain.edges;
    var i2 :| 0 <= i2 < i1 && s[i2] == "v2";
    assert "v2-v3" in Chain.edges;
    var i3 :| 0 <= i3 < i2 && s[i3] == "v3";
    assert "v3-v4" in Chain.edges;
    var i4 :| 0 <= i4 < i3 && s[i4] == "v4";
  }

  /** Each edge of the chain goes down in rank, so it has no cycle. */
  lemma ChainIsAcyclic()
    ensures !HasCycle(Chain)
  {
    var rank := (n: string) => if n == "v1" then 4 else if n == "v2" then 3 else if n == "v3" then 2 else 1;
    RankedGraphIsAcyclic(Chain, rank);
  }

  /** The chain sorts to [v4, v3, v2, v1] whatever order the map ranges
      take. */
  lemma ChainSortsInReverse(vertexOrder: seq<string>, edgeOrder: EdgeOrder, rel: Release)
    requires Enumerates(vertexOrder, Chain.vertices.Keys) && EnumeratesEdges(Chain, edgeOrder)
    ensures TopologicalSort(Chain, vertexOrder, edgeOrder, rel) == Ok(["v4", "v3", "v2", "v1"])
  {
    ChainIsValid();
    ChainIsAcyclic();
    TopologicalSortSucceedsIffAcyclic(Chain, vertexOrder, edgeOrder, rel);
    TopologicalSortOrdersVertices(Chain, vertexOrder, edgeOrder, rel);
    ChainOrderIsUnique(TopologicalSort(Chain, vertexOrder, edgeOrder, rel).value);
  }

  /** A dependency-first listing of the chain that holds v1 holds every
      vertex. */
  lemma ChainListingFromFirst(s: seq<string>)
    requires DependenciesFirst(Chain, s) && "v1" in s
    requires forall i | 0 <= i < |s| :: s[i] in Chain.vertices
    ensures Elems(s) == {"v1", "v2", "v3", "v4"}
  {
    var i1 :| 0 <= i1 < |s| && s[i1] == "v1";
    assert "v1-v2" in Chain.edges;
    var i2 :| 0 <= i2 < i1 && s[i2] == "v2";
    assert "v2-v3" in Chain.edges;
    var i3 :| 0 <= i3 < i2 && s[i3] == "v3";
    assert "v3-v4" in Chain.edges;
    var i4 :| 0 <= i4 < i3 && s[i4] == "v4";
  }

  /** Processing v1 alone succeeds with a dependency-first listing of
      vertices that holds v1. */
  lemma ChainProcessSucceeds(edgeOrder: EdgeOrder, rel: Release)
    requires EnumeratesEdges(Chain, edgeOrder)
    ensures var r := ProcessTask(Chain, edgeOrder, rel, V1, {}, []);
            && r.Ok? && Ordered(Chain, r.value) && "v1" in r.value
            && forall i | 0 <= i < |r.value| :: r.value[i] in Chain.vertices
  {
    ChainIsValid();
    ChainIsAcyclic();
    ProcessTaskFailsOnCycle(Chain, edgeOrder, rel, V1, {}, []);
    ProcessTaskOrdered(Chain, edgeOrder, rel, V1, {}, []);
    ValidNames(Chain);
  }

  /** Processing v1 alone also yields [v4, v3, v2, v1]. */
  lemma ChainProcessedFromFirst(edgeOrder: EdgeOrder, rel: Release)
    requires EnumeratesEdges(Chain, edgeOrder)
    ensures ProcessTask(Chain, edgeOrder, rel, V1, {}, []) == Ok(["v4", "v3", "v2", "v1"])
  {
    ChainProcessSucceeds(edgeOrder, rel);
    var s := ProcessTask(Chain, edgeOrder, rel, V1, {}, []).value;
    ChainListingFromFirst(s);
    ChainOrderIsUnique(s);
  }

  /** v1 -> v2 -> v1. */
  const TwoCycle := Graph(map["v1" := V1, "v2" := V2],
                          map["v1-v2" := Edge(V1, V2), "v2-v1" := Edge(V2, V1)])

  lemma TwoCycleBuiltThroughStore()
    ensures var g := AddVertex(AddVertex(NewGraph(), "v1"), "v2");
            Connect(Connect(g, "v1", "v2"), "v2", "v1") == TwoCycle
  {
    var g := AddVertex(AddVertex(NewGraph(), "v1"), "v2");
    assert g == Graph(TwoCycle.vertices, map[]);
    assert EdgeKey("v1", "v2") == "v1-v2";
    assert EdgeKey("v2", "v1") == "v2-v1";
    ConnectRegistered(g, "v1", "v2");
    ConnectRegistered(Connect(g, "v1", "v2"), "v2", "v1");
  }

  /** The two-vertex cycle fails to sort with the cycle error, whatever the
      map order. */
  lemma TwoCycleFailsToSort(vertexOrder: seq<string>, edgeOrder: EdgeOrder, rel: Release)
    requires Enumerates(vertexOrder, TwoCycle.vertices.Keys) && EnumeratesEdges(TwoCycle, edgeOrder)
    ensures var r := TopologicalSort(TwoCycle, vertexOrder, edgeOrder, rel);
            r.Err? && Is(r.error, GraphCycle)
  {
    assert IsPath(TwoCycle, ["v1-v2"], "v1", "v2");
    BackEdgeClosesCycle(TwoCycle, "v1", "v2", "v2-v1");
    TopologicalSortSucceedsIffAcyclic(TwoCycle, vertexOrder, edgeOrder, rel);
  }

  /** v1 -> v2 -> v3 -> v1. */
  const ThreeCycle := Graph(map["v1" := V1, "v2" := V2, "v3" := V3],
                            map["v1-v2" := Edge(V1, V2), "v2-v3" := Edge(V2, V3), "v3-v1" := Edge(V3, V1)])

  lemma ThreeCycleVertices()
    ensures AddVertex(AddVertex(AddVertex(NewGraph(), "v1"), "v2"), "v3") == Graph(ThreeCycle.vertices, map[])
  {
  }

  lemma ThreeCycleFirstEdges(g: Graph)
    requires g == Graph(ThreeCycle.vertices, map[])
    ensures Connect(Connect(g, "v1", "v2"), "v2", "v3") ==
            Graph(ThreeCycle.vertices, map["v1-v2" := Edge(V1, V2), "v2-v3" := Edge(V2, V3)])
  {
    assert EdgeKey("v1", "v2") == "v1-v2";
    assert EdgeKey("v2", "v3") == "v2-v3";
    ConnectRegistered(g, "v1", "v2");
    ConnectRegistered(Connect(g, "v1", "v2"), "v2", "v3");
  }

  lemma ThreeCycleLastEdge(g: Graph)
    requires g == Graph(ThreeCycle.vertices, map["v1-v2" := Edge(V1, V2), "v2-v3" := Edge(V2, V3)])
    ensures Connect(g, "v3", "v1") == ThreeCycle
  {
    assert EdgeKey("v3", "v1") == "v3-v1";
    ConnectRegistered(g, "v3", "v1");
  }

  lemma ThreeCycleBuiltThroughStore()
    ensures var g := AddVertex(AddVertex(AddVertex(NewGraph(), "v1"), "v2"), "v3");
            Connect(Connect(Connect(g, "v1", "v2"), "v2", "v3"), "v3", "v1") == ThreeCycle
  {
    var g := AddVertex(AddVertex(AddVertex(NewGraph(), "v1"), "v2"), "v3");
    ThreeCycleVertices();
    ThreeCycleFirstEdges(g);
    ThreeCycleLastEdge(Connect(Connect(g, "v1", "v2"), "v2", "v3"));
  }

  /** Processing v1 in the three-vertex cycle fails with the cycle error,
      whatever the edge order. */
  lemma ThreeCycleFailsFromFirst(edgeOrder: EdgeOrder, rel: Release)
    requires EnumeratesEdges(ThreeCycle, edgeOrder)
    ensures var r := ProcessTask(ThreeCycle, edgeOrder, rel, V1, {}, []);
            r.Err? && Is(r.error, GraphCycle)
  {
    assert IsPath(ThreeCycle, ["v1-v2"], "v1", "v2");
    ReachesExtend(ThreeCycle, "v1", "v2", "v2-v3");
    BackEdgeClosesCycle(ThreeCycle, "v1", "v3", "v3-v1");
    ProcessTaskFailsFromCycleVertex(ThreeCycle, edgeOrder, rel, V1, []);
  }

  // ---------------------------------------------------------------------
  // The graph builder.

  /** One pass step: a resolvable pair adds its edge under its key. */
  lemma AddEdgesInOrderStep(g: Graph, ds: seq<Dependency>, rel: Release)
    requires |ds| > 0 && Valid(g) && Resolved(g, ds[0])
    ensures AddEdgesInOrder(g, ds, rel) ==
            AddEdgesInOrder(Graph(g.vertices, g.edges[ds[0].Key() := ds[0].AsEdge()]), ds[1..], rel)
  {
  }

  /** A single task without requirements: one vertex, no edges. */
  lemma SingleTaskBuild()
    ensures PopulateGraph(NewGraph(), [Task("task1", "", [])], Legacy) ==
            Mutated(Graph(map["task1" := Vertex("task1")], map[]), None)
  {
    var tasks := [Task("task1", "", [])];
    assert TaskNames(tasks) == {"task1"};
    assert DependencyList(tasks) == [];
    AddDependencyEdgesInOrder(AddTaskVertices(NewGraph(), tasks), tasks, Legacy);
  }

  /** A task requiring itself builds without error and stores the edge
      "task1-task1". */
  lemma SelfRequirementBuild()
    ensures PopulateGraph(NewGraph(), [Task("task1", "", ["task1"])], Legacy) ==
            Mutated(Graph(map["task1" := Vertex("task1")],
                          map["task1-task1" := Edge(Vertex("task1"), Vertex("task1"))]), None)
  {
    var tasks := [Task("task1", "", ["task1"])];
    assert TaskNames(tasks) == {"task1"};
    assert EdgeKey("task1", "task1") == "task1-task1";
  }

  const ChainTasks := [Task("task1", "", ["task2"]), Task("task2", "", ["task3"]), Task("task3", "", [])]

  const ChainTaskVertices := map["task1" := Vertex("task1"), "task2" := Vertex("task2"), "task3" := Vertex("task3")]

  lemma ChainTasksShape()
    ensures TaskNames(ChainTasks) == {"task1", "task2", "task3"}
    ensures DependencyList(ChainTasks) == [Dependency("task1", "task2"), Dependency("task2", "task3")]
  {
    assert DependencyList(ChainTasks[2..]) == [];
    assert DependencyList(ChainTasks[1..]) == [Dependency("task2", "task3")];
  }

  const ChainTaskEdges := map["task1-task2" := Edge(Vertex("task1"), Vertex("task2")),
                              "task2-task3" := Edge(Vertex("task2"), Vertex("task3"))]

  lemma ChainTaskVerticesAdded()
    ensures AddTaskVertices(NewGraph(), ChainTasks) == Graph(ChainTaskVertices, map[])
  {
    ChainTasksShape();
  }

  lemma ChainTaskGraphsValid(g1: Graph, g2: Graph)
    requires g1 == Graph(ChainTaskVertices, map[])
    requires g2 == Graph(ChainTaskVertices, map["task1-task2" := Edge(Vertex("task1"), Vertex("task2"))])
    ensures Valid(g1) && Valid(g2)
    ensures g2.edges["task2-task3" := Edge(Vertex("task2"), Vertex("task3"))] == ChainTaskEdges
  {
    assert EdgeKey("task1", "task2") == "task1-task2";
  }

  lemma ChainTaskEdgesAdded(g: Graph, ds: seq<Dependency>, rel: Release)
    requires g == Graph(ChainTaskVertices, map[])
    requires ds == [Dependency("task1", "task2"), Dependency("task2", "task3")]
    ensures AddEdgesInOrder(g, ds, rel) == Mutated(Graph(ChainTaskVertices, ChainTaskEdges), None)
  {
    var g2 := Graph(ChainTaskVertices, map["task1-task2" := Edge(Vertex("task1"), Vertex("task2"))]);
    ChainTaskGraphsValid(g, g2);
    assert ds[0].Key() == "task1-task2" && ds[1].Key() == "task2-task3";
    AddEdgesInOrderStep(g, ds, rel);
    AddEdgesInOrderStep(g2, ds[1..], rel);
    assert ds[1..][1..] == [];
  }

  /** task1 requires task2, task2 requires task3: exactly the edges
      "task1-task2" and "task2-task3". */
  lemma ChainBuild()
    ensures PopulateGraph(NewGraph(), ChainTasks, Legacy) == Mutated(Graph(ChainTaskVertices, ChainTaskEdges), None)
  {
    ChainTasksShape();
    ChainTaskVerticesAdded();
    var g1 := AddTaskVertices(NewGraph(), ChainTasks);
    AddDependencyEdgesInOrder(g1, ChainTasks, Legacy);
    ChainTaskEdgesAdded(g1, DependencyList(ChainTasks), Legacy);
  }

  /** A task requiring itself makes the Current release's ordering fail
      with the cycle error naming that task. */
  lemma SelfRequirementNamesTask(vertexOrder: seq<string>, edgeOrder: EdgeOrder)
    requires AnyOrders([Task("task1", "", ["task1"])], vertexOrder, edgeOrder, Current)
    ensures CommandOrder([Task("task1", "", ["task1"])], vertexOrder, edgeOrder, Current) ==
            Err(CycleError(Current, "task1"))
  {
    var tasks := [Task("task1", "", ["task1"])];
    var g := BuiltGraph(tasks, Current);
    BuiltGraphFacts(tasks, Current);
    assert TaskNames(tasks) == {"task1"};
    assert RequiresOnlyTasks(tasks);
    TopologicalSortFailsOnlyOnCycle(g, vertexOrder, edgeOrder, Current);
    var r := TopologicalSort(g, vertexOrder, edgeOrder, Current);
    SelfRequirementFails(tasks, vertexOrder, edgeOrder, Current, 0, 0);
    assert r.Err?;
    var n :| OnCycle(g, n) && r.error == CycleError(Current, n);
    CycleVertexIsRegistered(g, n);
  }

  // ---------------------------------------------------------------------
  // The edge-key collision.

  /** "a-b" requires "c" and "c" requires "a-b": a declared cycle. "a"
      requires "b-c", whose key "a-b-c" is the key of ("a-b", "c"). */
  const CollidingTasks := [Task("a-b", "", ["c"]), Task("c", "", ["a-b"]), Task("a", "", ["b-c"]), Task("b-c", "", [])]

  const CollidingVertices := map["a-b" := Vertex("a-b"), "c" := Vertex("c"), "a" := Vertex("a"), "b-c" := Vertex("b-c")]

  /** What the store holds after the edges of "a-b" and of "c". */
  const DeclaredCycleEdges := map["a-b-c" := Edge(Vertex("a-b"), Vertex("c")),
                                  "c-a-b" := Edge(Vertex("c"), Vertex("a-b"))]

  /** What it holds once "a" -> "b-c" has overwritten "a-b" -> "c". */
  const CollidedEdges := map["a-b-c" := Edge(Vertex("a"), Vertex("b-c")),
                             "c-a-b" := Edge(Vertex("c"), Vertex("a-b"))]

  lemma CollidingTasksShape()
    ensures TaskNames(CollidingTasks) == {"a-b", "c", "a", "b-c"}
    ensures DependencyList(CollidingTasks) ==
            [Dependency("a-b", "c"), Dependency("c", "a-b"), Dependency("a", "b-c")]
  {
    var tasks := CollidingTasks;
    assert DependencyList(tasks[3..]) == [];
    assert DependencyList(tasks[2..]) == [Dependency("a", "b-c")];
    assert DependencyList(tasks[1..]) == [Dependency("c", "a-b"), Dependency("a", "b-c")];
  }

  lemma CollidingVerticesAdded()
    ensures AddTaskVertices(NewGraph(), CollidingTasks) == Graph(CollidingVertices, map[])
  {
    CollidingTasksShape();
  }

  lemma CollidingKeys()
    ensures Dependency("a-b", "c").Key() == "a-b-c"
    ensures Dependency("c", "a-b").Key() == "c-a-b"
    ensures Dependency("a", "b-c").Key() == "a-b-c"
  {
    assert EdgeKey("a-b", "c") == "a-b-c";
    assert EdgeKey("c", "a-b") == "c-a-b";
    assert EdgeKey("a", "b-c") == "a-b-c";
  }

  lemma CollidingGraphsValid(g1: Graph, g2: Graph, g3: Graph)
    requires g1 == Graph(CollidingVertices, map[])
    requires g2 == Graph(CollidingVertices, map["a-b-c" := Edge(Vertex("a-b"), Vertex("c"))])
    requires g3 == Graph(CollidingVertices, DeclaredCycleEdges)
    ensures Valid(g1) && Valid(g2) && Valid(g3)
    ensures g2.edges["c-a-b" := Edge(Vertex("c"), Vertex("a-b"))] == DeclaredCycleEdges
    ensures g3.edges["a-b-c" := Edge(Vertex("a"), Vertex("b-c"))] == CollidedEdges
  {
    CollidingKeys();
  }

  lemma CollidingEdgesAdded(g: Graph, ds: seq<Dependency>, rel: Release)
    requires g == Graph(CollidingVertices, map[])
    requires ds == [Dependency("a-b", "c"), Dependency("c", "a-b"), Dependency("a", "b-c")]
    ensures AddEdgesInOrder(g, ds, rel) == Mutated(Graph(CollidingVertices, CollidedEdges), None)
  {
    var g2 := Graph(CollidingVertices, map["a-b-c" := Edge(Vertex("a-b"), Vertex("c"))]);
    var g3 := Graph(CollidingVertices, DeclaredCycleEdges);
    CollidingGraphsValid(g, g2, g3);
    CollidingKeys();
    AddEdgesInOrderStep(g, ds, rel);
    AddEdgesInOrderStep(g2, ds[1..], rel);
    AddEdgesInOrderStep(g3, ds[2..], rel);
    assert ds[2..][1..] == [];
  }

  /** The later edge overwrites the earlier one under the shared key, so
      the stored graph loses "a-b" -> "c". */
  lemma CollidingBuild(rel: Release)
    ensures PopulateGraph(NewGraph(), CollidingTasks, rel) == Mutated(Graph(CollidingVertices, CollidedEdges), None)
  {
    CollidingTasksShape();
    CollidingVerticesAdded();
    var g1 := AddTaskVertices(NewGraph(), CollidingTasks);
    AddDependencyEdgesInOrder(g1, CollidingTasks, rel);
    CollidingEdgesAdded(g1, DependencyList(CollidingTasks), rel);
  }

  /** The stored edges go down in rank: the collided graph has no cycle. */
  lemma CollidedGraphIsAcyclic()
    ensures !HasCycle(Graph(CollidingVertices, CollidedEdges))
  {
    var rank := (n: string) => if n == "a" then 2 else if n == "a-b" then 0 else 1;
    RankedGraphIsAcyclic(Graph(CollidingVertices, CollidedEdges), rank);
  }

  lemma CollidingRequirementsAreTasks()
    ensures RequiresOnlyTasks(CollidingTasks)
  {
    CollidingTasksShape();
  }

  /** In a dependency-first listing of the collided graph, "c" comes after
      "a-b". */
  lemma CollidedListingPutsRequirementLast(s: seq<string>)
    requires Distinct(s) && DependenciesFirst(Graph(CollidingVertices, CollidedEdges), s)
    ensures forall k | 0 <= k < |s| && s[k] == "a-b" :: "c" !in s[..k]
  {
    var g := Graph(CollidingVertices, CollidedEdges);
    forall k, kc | 0 <= k < |s| && s[k] == "a-b" && 0 <= kc < |s| && s[kc] == "c" ensures k < kc {
      assert "c-a-b" in g.edges && g.edges["c-a-b"].from.name == s[kc];
      var ka :| 0 <= ka < kc && s[ka] == "a-b";
      assert ka == k;
    }
  }

  /** Although the request declares a cycle, the ordering succeeds for
      every map order and lists "a-b" before "c", which "a-b" requires. */
  lemma CollisionHidesDeclaredCycle(vertexOrder: seq<string>, edgeOrder: EdgeOrder, rel: Release)
    requires AnyOrders(CollidingTasks, vertexOrder, edgeOrder, rel)
    ensures var r := CommandOrder(CollidingTasks, vertexOrder, edgeOrder, rel);
            && r.Ok?
            && forall k | 0 <= k < |r.value| && r.value[k].name == "a-b" :: "c" !in CommandNames(r.value)[..k]
  {
    var tasks := CollidingTasks;
    CollidingBuild(rel);
    assert BuiltGraph(tasks, rel) == Graph(CollidingVertices, CollidedEdges);
    CollidedGraphIsAcyclic();
    CollidingRequirementsAreTasks();
    CommandOrderSucceedsIff(tasks, vertexOrder, edgeOrder, rel);
    CommandOrderIsTopological(tasks, vertexOrder, edgeOrder, rel);
    var r := CommandOrder(tasks, vertexOrder, edgeOrder, rel);
    CollidedListingPutsRequirementLast(CommandNames(r.value));
  }

  // ---------------------------------------------------------------------
  // A self-requirement lost to the same collision.

  /** "a-a" requires itself, a declared cycle; "a" requires "a-a-a", whose
      key "a-a-a-a" is the key of ("a-a", "a-a"). */
  const DashedSelfTasks := [Task("a-a", "", ["a-a"]), Task("a", "", ["a-a-a"]), Task("a-a-a", "", [])]

  const DashedSelfVertices := map["a-a" := Vertex("a-a"), "a" := Vertex("a"), "a-a-a" := Vertex("a-a-a")]

  /** What the store holds after the self edge of "a-a". */
  const DashedSelfLoop := map["a-a-a-a" := Edge(Vertex("a-a"), Vertex("a-a"))]

  /** What it holds once "a" -> "a-a-a" has overwritten the self edge. */
  const DashedSelfEdges := map["a-a-a-a" := Edge(Vertex("a"), Vertex("a-a-a"))]

  lemma DashedSelfTasksShape()
    ensures TaskNames(DashedSelfTasks) == {"a-a", "a", "a-a-a"}
    ensures DependencyList(DashedSelfTasks) == [Dependency("a-a", "a-a"), Dependency("a", "a-a-a")]
  {
    var tasks := DashedSelfTasks;
    assert DependencyList(tasks[2..]) == [];
    assert DependencyList(tasks[1..]) == [Dependency("a", "a-a-a")];
  }

  lemma DashedSelfVerticesAdded()
    ensures AddTaskVertices(NewGraph(), DashedSelfTasks) == Graph(DashedSelfVertices, map[])
  {
    DashedSelfTasksShape();
  }

  lemma DashedSelfKeys()
    ensures Dependency("a-a", "a-a").Key() == "a-a-a-a"
    ensures Dependency("a", "a-a-a").Key() == "a-a-a-a"
  {
    assert EdgeKey("a-a", "a-a") == "a-a-a-a";
    assert EdgeKey("a", "a-a-a") == "a-a-a-a";
  }

  lemma DashedSelfGraphsValid(g1: Graph, g2: Graph)
    requires g1 == Graph(DashedSelfVertices, map[])
    requires g2 == Graph(DashedSelfVertices, DashedSelfLoop)
    ensures Valid(g1) && Valid(g2)
    ensures g2.edges["a-a-a-a" := Edge(Vertex("a"), Vertex("a-a-a"))] == DashedSelfEdges
  {
    DashedSelfKeys();
  }

  lemma DashedSelfEdgesAdded(g: Graph, ds: seq<Dependency>, rel: Release)
    requires g == Graph(DashedSelfVertices, map[])
    requires ds == [Dependency("a-a", "a-a"), Dependency("a", "a-a-a")]
    ensures AddEdgesInOrder(g, ds, rel) == Mutated(Graph(DashedSelfVertices, DashedSelfEdges), None)
  {
    var g2 := Graph(DashedSelfVertices, DashedSelfLoop);
    DashedSelfGraphsValid(g, g2);
    DashedSelfKeys();
    AddEdgesInOrderStep(g, ds, rel);
    AddEdgesInOrderStep(g2, ds[1..], rel);
    assert ds[1..][1..] == [];
  }

  /** The edge of "a" overwrites the self edge of "a-a" under the shared
      key, so the stored graph has no self-loop. */
  lemma DashedSelfBuild(rel: Release)
    ensures PopulateGraph(NewGraph(), DashedSelfTasks, rel) == Mutated(Graph(DashedSelfVertices, DashedSelfEdges), None)
  {
    DashedSelfTasksShape();
    DashedSelfVerticesAdded();
    var g1 := AddTaskVertices(NewGraph(), DashedSelfTasks);
    AddDependencyEdgesInOrder(g1, DashedSelfTasks, rel);
    DashedSelfEdgesAdded(g1, DependencyList(DashedSelfTasks), rel);
  }

  /** The stored edge goes down in rank: the graph has no cycle. */
  lemma DashedSelfGraphIsAcyclic()
    ensures !HasCycle(Graph(DashedSelfVertices, DashedSelfEdges))
  {
    var rank := (n: string) => if n == "a" then 1 else 0;
    RankedGraphIsAcyclic(Graph(DashedSelfVertices, DashedSelfEdges), rank);
  }

  lemma DashedSelfRequirementsAreTasks()
    ensures RequiresOnlyTasks(DashedSelfTasks)
    ensures DashedSelfTasks[0].required[0] == DashedSelfTasks[0].name
  {
    DashedSelfTasksShape();
  }

  /** Although "a-a" requires itself, the ordering succeeds for every map
      order: the self-requirement theorem needs its dash-free names. */
  lemma DashedSelfRequirementIsOrdered(vertexOrder: seq<string>, edgeOrder: EdgeOrder, rel: Release)
    requires AnyOrders(DashedSelfTasks, vertexOrder, edgeOrder, rel)
    ensures CommandOrder(DashedSelfTasks, vertexOrder, edgeOrder, rel).Ok?
  {
    var tasks := DashedSelfTasks;
    DashedSelfBuild(rel);
    assert BuiltGraph(tasks, rel) == Graph(DashedSelfVertices, DashedSelfEdges);
    DashedSelfGraphIsAcyclic();
    DashedSelfRequirementsAreTasks();
    CommandOrderSucceedsIff(tasks, vertexOrder, edgeOrder, rel);
  }
}
