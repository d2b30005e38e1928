/** The ordering steps of the job endpoint put together: build the graph
    on a fresh store, sort it, and fill a buffer with one zero-valued slot
    per sorted name. Reading the request and writing the response are left
    out; so is the choice of writer, which does not depend on the order. */
module Pipeline {
  import opened Basics
  import opened Errors
  import opened Graphs
  import opened Paths
  import opened TopoSort
  import opened Jobs
  import opened Builder
  import opened Materialize

  /** The graph `populateGraph` leaves in the fresh store. */
  function BuiltGraph(tasks: seq<Task>, rel: Release): Graph
  {
    PopulateGraph(NewGraph(), tasks, rel).graph
  }

  /** The ordering part of `Handle` (and of `HandleJob`, which logs the
      same errors and exits instead of returning them). */
  function CommandOrder(tasks: seq<Task>, vertexOrder: seq<string>, edgeOrder: EdgeOrder,
                        rel: Release): (r: Result<seq<Command>>)
    ensures r.Err? ==> Is(r.error, VertexNotFound) || Is(r.error, GraphCycle) ||
                       Is(r.error, RequestTaskDoesNotExist)
  {
    var built := PopulateGraph(NewGraph(), tasks, rel);
    if built.err.Some? then Err(built.err.value)
    else
      var sorted := TopologicalSort(built.graph, vertexOrder, edgeOrder, rel);
      if sorted.Err? then Err(sorted.error)
      else
        var filled := GenerateCommandOrder(sorted.value, tasks, ZeroBuffer(|sorted.value|));
        if filled.err.Some? then Err(filled.err.value) else Ok(filled.buffer)
  }

  /** `make([]Command, n)`: `n` zero-valued slots. */
  function ZeroBuffer(n: nat): (b: seq<Command>)
    ensures |b| == n
  {
    seq(n, _ => EmptyCommand)
  }

  /** The names of a command list, in order. */
  function CommandNames(cmds: seq<Command>): (names: seq<string>)
    ensures |names| == |cmds|
    ensures forall k | 0 <= k < |cmds| :: names[k] == cmds[k].name
  {
    seq(|cmds|, k requires 0 <= k < |cmds| => cmds[k].name)
  }

  /** The orders Go's map ranges may take over the built graph. */
  ghost predicate AnyOrders(tasks: seq<Task>, vertexOrder: seq<string>, edgeOrder: EdgeOrder, rel: Release)
  {
    Enumerates(vertexOrder, TaskNames(tasks)) && EnumeratesEdges(BuiltGraph(tasks, rel), edgeOrder)
  }

  /** Every required name is one of the request's task names. */
  predicate RequiresOnlyTasks(tasks: seq<Task>)
  {
    forall i, j | 0 <= i < |tasks| && 0 <= j < |tasks[i].required| ::
      tasks[i].required[j] in TaskNames(tasks)
  }

  /** Facts about the fresh build that the theorems below share. */
  lemma BuiltGraphFacts(tasks: seq<Task>, rel: Release)
    ensures Valid(BuiltGraph(tasks, rel))
    ensures BuiltGraph(tasks, rel).vertices.Keys == TaskNames(tasks)
    ensures PopulateGraph(NewGraph(), tasks, rel).err.None? <==> RequiresOnlyTasks(tasks)
  {
    PopulateFreshGraph(tasks, rel);
    PopulateGraphSucceedsIff(NewGraph(), tasks, rel);
  }

  /** The ordering succeeds exactly when every required name is a task of
      the request and the stored edges form no cycle, whatever order Go's
      map ranges take. An unknown name gives the not-found error, a cycle
      the cycle error; the materialiser's own errors never surface. */
  lemma CommandOrderSucceedsIff(tasks: seq<Task>, vertexOrder: seq<string>, edgeOrder: EdgeOrder, rel: Release)
    requires AnyOrders(tasks, vertexOrder, edgeOrder, rel)
    ensures var r := CommandOrder(tasks, vertexOrder, edgeOrder, rel);
            && (r.Ok? <==> RequiresOnlyTasks(tasks) && !HasCycle(BuiltGraph(tasks, rel)))
            && (r.Err? && !RequiresOnlyTasks(tasks) ==> Is(r.error, VertexNotFound))
            && (r.Err? && RequiresOnlyTasks(tasks) ==> Is(r.error, GraphCycle))
  {
    var g := BuiltGraph(tasks, rel);
    BuiltGraphFacts(tasks, rel);
    if PopulateGraph(NewGraph(), tasks, rel).err.None? {
      var sorted := TopologicalSort(g, vertexOrder, edgeOrder, rel);
      TopologicalSortSucceedsIffAcyclic(g, vertexOrder, edgeOrder, rel);
      if sorted.Ok? {
        TopologicalSortOrdersVertices(g, vertexOrder, edgeOrder, rel);
        GenerateCommandOrderAligns(sorted.value, tasks, ZeroBuffer(|sorted.value|));
      }
    }
  }

  /** A successful ordering is the sort's output, each name replaced by
      the command of the last task of that name. */
  lemma CommandOrderFollowsSort(tasks: seq<Task>, vertexOrder: seq<string>, edgeOrder: EdgeOrder, rel: Release)
    requires AnyOrders(tasks, vertexOrder, edgeOrder, rel)
    ensures var r := CommandOrder(tasks, vertexOrder, edgeOrder, rel);
            var s := TopologicalSort(BuiltGraph(tasks, rel), vertexOrder, edgeOrder, rel);
            r.Ok? ==>
              && s.Ok?
              && CommandNames(r.value) == s.value
              && (forall k | 0 <= k < |s.value| ::
                    s.value[k] in TaskNames(tasks) &&
                    r.value[k] == CommandFor(tasks[LastNamed(tasks, s.value[k])]))
  {
    var r := CommandOrder(tasks, vertexOrder, edgeOrder, rel);
    if r.Ok? {
      var g := BuiltGraph(tasks, rel);
      var sorted := TopologicalSort(g, vertexOrder, edgeOrder, rel);
      assert sorted.Ok?;
      BuiltGraphFacts(tasks, rel);
      TopologicalSortOrdersVertices(g, vertexOrder, edgeOrder, rel);
      var filled := GenerateCommandOrder(sorted.value, tasks, ZeroBuffer(|sorted.value|));
      assert r.value == filled.buffer;
      GenerateCommandOrderAligns(sorted.value, tasks, ZeroBuffer(|sorted.value|));
      assert CommandNames(r.value) == sorted.value;
    }
  }

  /** A successful ordering holds one command per distinct task name, each
      the command of the last task of that name, and lists every stored
      edge's target before its source. */
  lemma CommandOrderIsTopological(tasks: seq<Task>, vertexOrder: seq<string>, edgeOrder: EdgeOrder, rel: Release)
    requires AnyOrders(tasks, vertexOrder, edgeOrder, rel)
    ensures var r := CommandOrder(tasks, vertexOrder, edgeOrder, rel);
            r.Ok? ==>
              && Distinct(CommandNames(r.value))
              && Elems(CommandNames(r.value)) == TaskNames(tasks)
              && |r.value| == |TaskNames(tasks)|
              && (forall k | 0 <= k < |r.value| ::
                    r.value[k].name in TaskNames(tasks) &&
                    r.value[k] == CommandFor(tasks[LastNamed(tasks, r.value[k].name)]))
              && DependenciesFirst(BuiltGraph(tasks, rel), CommandNames(r.value))
  {
    var r := CommandOrder(tasks, vertexOrder, edgeOrder, rel);
    CommandOrderFollowsSort(tasks, vertexOrder, edgeOrder, rel);
    BuiltGraphFacts(tasks, rel);
    TopologicalSortOrdersVertices(BuiltGraph(tasks, rel), vertexOrder, edgeOrder, rel);
  }

  /** A dependency-first listing puts the target of a stored edge before
      its source. */
  lemma StoredEdgeTargetFirst(g: Graph, names: seq<string>, key: string, k: nat)
    requires DependenciesFirst(g, names) && k < |names|
    requires key in g.edges && g.edges[key].from.name == names[k]
    ensures g.edges[key].to.name in names[..k]
  {
  }

  /** When no task name contains '-', a successful ordering lists every
      declared requirement before the task that declares it. */
  lemma CommandOrderRespectsRequirements(tasks: seq<Task>, vertexOrder: seq<string>, edgeOrder: EdgeOrder,
                                         rel: Release)
    requires AnyOrders(tasks, vertexOrder, edgeOrder, rel)
    requires forall i | 0 <= i < |tasks| :: '-' !in tasks[i].name
    ensures var r := CommandOrder(tasks, vertexOrder, edgeOrder, rel);
            r.Ok? ==>
              forall k, i, j | 0 <= k < |r.value| && 0 <= i < |tasks| && 0 <= j < |tasks[i].required| &&
                               tasks[i].name == r.value[k].name ::
                tasks[i].required[j] in CommandNames(r.value)[..k]
  {
    var g := BuiltGraph(tasks, rel);
    var r := CommandOrder(tasks, vertexOrder, edgeOrder, rel);
    if r.Ok? {
      var names := CommandNames(r.value);
      CommandOrderFollowsSort(tasks, vertexOrder, edgeOrder, rel);
      BuiltGraphFacts(tasks, rel);
      TopologicalSortOrdersVertices(g, vertexOrder, edgeOrder, rel);
      assert DependenciesFirst(g, names);
      assert PopulateGraph(NewGraph(), tasks, rel).err.None? by {
        CommandOrderSucceedsIff(tasks, vertexOrder, edgeOrder, rel);
      }
      PopulateFreshGraphWithoutDashes(tasks, rel);
      forall k, i, j | 0 <= k < |r.value| && 0 <= i < |tasks| && 0 <= j < |tasks[i].required| &&
                       tasks[i].name == r.value[k].name
        ensures tasks[i].required[j] in names[..k]
      {
        StoredEdgeTargetFirst(g, names, EdgeKey(tasks[i].name, tasks[i].required[j]), k);
      }
    }
  }

  /** When no task name contains '-', a task that requires itself makes
      the ordering fail with the cycle error. */
  lemma SelfRequirementFails(tasks: seq<Task>, vertexOrder: seq<string>, edgeOrder: EdgeOrder, rel: Release,
                             i: nat, j: nat)
    requires AnyOrders(tasks, vertexOrder, edgeOrder, rel)
    requires forall t | 0 <= t < |tasks| :: '-' !in tasks[t].name
    requires RequiresOnlyTasks(tasks)
    requires i < |tasks| && j < |tasks[i].required| && tasks[i].required[j] == tasks[i].name
    ensures var r := CommandOrder(tasks, vertexOrder, edgeOrder, rel);
            r.Err? && Is(r.error, GraphCycle)
  {
    var g := BuiltGraph(tasks, rel);
    BuiltGraphFacts(tasks, rel);
    PopulateFreshGraphWithoutDashes(tasks, rel);
    assert PopulateGraph(NewGraph(), tasks, rel).err.None?;
    var n := tasks[i].name;
    var key := EdgeKey(n, tasks[i].required[j]);
    assert key in g.edges && g.edges[key] == Edge(Vertex(n), Vertex(n));
    SelfLoopIsCycle(g, key);
    assert HasCycle(g);
    CommandOrderSucceedsIff(tasks, vertexOrder, edgeOrder, rel);
  }
}
