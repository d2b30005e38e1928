/** `populateGraph`: one vertex per task name, then for each task and each
    name it requires, in request order, the lookups of both vertices and
    the edge task -> required.

    The nested loops of the source visit the (task, required) pairs in the
    order `DependencyList` lists them; the model keeps the nested shape and
    proves it equal to one pass over that list. */
module Builder {
  import opened Basics
  import opened Errors
  import opened Graphs
  import opened Jobs

  /** Task `task` requires task `required`. */
  datatype Dependency = Dependency(task: string, required: string)
  {
    function Key(): string
    {
      EdgeKey(task, required)
    }

    function AsEdge(): Edge
    {
      Edge(Vertex(task), Vertex(required))
    }
  }

  /** The dependencies of one task, in the order it lists them. */
  function RequiredList(task: string, required: seq<string>): (ds: seq<Dependency>)
    ensures |ds| == |required|
    ensures forall j | 0 <= j < |required| :: ds[j] == Dependency(task, required[j])
  {
    seq(|required|, j requires 0 <= j < |required| => Dependency(task, required[j]))
  }

  /** All (task, required) pairs in the order the nested loops visit them. */
  function DependencyList(tasks: seq<Task>): seq<Dependency>
  {
    if |tasks| == 0 then []
    else RequiredList(tasks[0].name, tasks[0].required) + DependencyList(tasks[1..])
  }

  /** Every declared requirement is in the list, and nothing else is. */
  lemma {:induction false} DependencyListContents(tasks: seq<Task>, d: Dependency)
    ensures d in DependencyList(tasks) <==>
              exists i, j :: 0 <= i < |tasks| && 0 <= j < |tasks[i].required| &&
                             d == Dependency(tasks[i].name, tasks[i].required[j])
  {
    if |tasks| > 0 {
      DependencyListContents(tasks[1..], d);
      var head := RequiredList(tasks[0].name, tasks[0].required);
      if d in head {
        var j :| 0 <= j < |head| && head[j] == d;
        assert d == Dependency(tasks[0].name, tasks[0].required[j]);
      }
      if exists i, j :: 0 <= i < |tasks| && 0 <= j < |tasks[i].required| &&
                        d == Dependency(tasks[i].name, tasks[i].required[j]) {
        var i, j :| 0 <= i < |tasks| && 0 <= j < |tasks[i].required| &&
                    d == Dependency(tasks[i].name, tasks[i].required[j]);
        if i == 0 {
          assert head[j] == d;
        } else {
          assert tasks[1..][i - 1] == tasks[i];
        }
      }
    }
  }

  function KeysOf(ds: set<Dependency>): set<string>
  {
    set d | d in ds :: d.Key()
  }

  function EdgesOf(ds: set<Dependency>): set<Edge>
  {
    set d | d in ds :: d.AsEdge()
  }

  /** `h` is `g` with one edge of `ds` stored under each key of `ds`, and
      everything else as it was. When keys collide, which pair's edge is
      kept depends on the order they were added in. */
  predicate Overlays(g: Graph, h: Graph, ds: set<Dependency>)
  {
    && h.vertices == g.vertices
    && h.edges.Keys == g.edges.Keys + KeysOf(ds)
    && forall k | k in h.edges ::
         if k in KeysOf(ds) then h.edges[k] in EdgesOf(ds) && KeyOf(h.edges[k]) == k
         else h.edges[k] == g.edges[k]
  }

  lemma OverlaysNothing(g: Graph)
    ensures Overlays(g, g, {})
  {
  }

  lemma OverlaysCompose(g: Graph, h1: Graph, h2: Graph, ds1: set<Dependency>, ds2: set<Dependency>)
    requires Overlays(g, h1, ds1) && Overlays(h1, h2, ds2)
    ensures Overlays(g, h2, ds1 + ds2)
  {
    assert KeysOf(ds1 + ds2) == KeysOf(ds1) + KeysOf(ds2);
    assert EdgesOf(ds1) <= EdgesOf(ds1 + ds2) && EdgesOf(ds2) <= EdgesOf(ds1 + ds2);
  }

  /** Both endpoints of `d` are registered. */
  predicate Resolved(g: Graph, d: Dependency)
  {
    d.task in g.vertices && d.required in g.vertices
  }

  /** The body of the inner loop: look up the task's vertex, then the
      required one, then add the edge; the first error is returned as is. */
  function AddDependency(g: Graph, d: Dependency, rel: Release): (r: Mutated)
    ensures Valid(g) ==> (r.err.None? <==> Resolved(g, d))
    ensures r.err.Some? ==> Is(r.err.value, VertexNotFound)
    ensures d.task !in g.vertices ==> r == Mutated(g, Some(NotFoundError(rel, d.task)))
    ensures d.task in g.vertices && d.required !in g.vertices ==>
              r == Mutated(g, Some(NotFoundError(rel, d.required)))
    ensures Valid(g) && r.err.None? ==> Overlays(g, r.graph, {d})
    ensures Valid(g) ==> Valid(r.graph)
    ensures r.graph.vertices == g.vertices
  {
    match Lookup(g, d.task, rel)
    case Err(e) => Mutated(g, Some(e))
    case Ok(from) =>
      match Lookup(g, d.required, rel)
      case Err(e) => Mutated(g, Some(e))
      case Ok(to) =>
        var r := AddEdge(g, Some(from), Some(to));
        assert Valid(g) && r.err.None? ==> KeysOf({d}) == {d.Key()} && EdgesOf({d}) == {d.AsEdge()};
        r
  }

  /** The inner loop: `for _, r := range t.Required`. */
  function AddRequiredEdges(g: Graph, task: string, required: seq<string>, rel: Release): (r: Mutated)
    ensures r.graph.vertices == g.vertices
    ensures Valid(g) ==> Valid(r.graph)
    ensures r.err.Some? ==> Is(r.err.value, VertexNotFound)
    decreases |required|
  {
    if |required| == 0 then Mutated(g, None)
    else
      var m := AddDependency(g, Dependency(task, required[0]), rel);
      if m.err.Some? then m else AddRequiredEdges(m.graph, task, required[1..], rel)
  }

  /** The outer loop of the second phase: `for _, t := range tasks`. */
  function AddDependencyEdges(g: Graph, tasks: seq<Task>, rel: Release): (r: Mutated)
    ensures r.graph.vertices == g.vertices
    ensures Valid(g) ==> Valid(r.graph)
    ensures r.err.Some? ==> Is(r.err.value, VertexNotFound)
    decreases |tasks|
  {
    if |tasks| == 0 then Mutated(g, None)
    else
      var m := AddRequiredEdges(g, tasks[0].name, tasks[0].required, rel);
      if m.err.Some? then m else AddDependencyEdges(m.graph, tasks[1..], rel)
  }

  /** The first phase: `AddVertex` for every task, in request order. */
  function AddTaskVertices(g: Graph, tasks: seq<Task>): (r: Graph)
    ensures r.vertices.Keys == g.vertices.Keys + TaskNames(tasks)
    ensures forall n | n in TaskNames(tasks) :: r.vertices[n] == Vertex(n)
    ensures forall n | n in g.vertices && n !in TaskNames(tasks) :: r.vertices[n] == g.vertices[n]
    ensures r.edges == g.edges
    ensures Valid(g) ==> Valid(r)
    decreases |tasks|
  {
    if |tasks| == 0 then g
    else
      assert TaskNames(tasks) == {tasks[0].name} + TaskNames(tasks[1..]);
      AddTaskVertices(AddVertex(g, tasks[0].name), tasks[1..])
  }

  /** `populateGraph`: every vertex first, then every edge. The graph is
      returned even on error, partially filled, as Go leaves it. */
  function PopulateGraph(g: Graph, tasks: seq<Task>, rel: Release): (r: Mutated)
    ensures r.graph.vertices.Keys == g.vertices.Keys + TaskNames(tasks)
    ensures forall n | n in TaskNames(tasks) :: r.graph.vertices[n] == Vertex(n)
    ensures Valid(g) ==> Valid(r.graph)
    ensures r.err.Some? ==> Is(r.err.value, VertexNotFound)
  {
    AddDependencyEdges(AddTaskVertices(g, tasks), tasks, rel)
  }

  // ---------------------------------------------------------------------
  // The nested loops are one pass over `DependencyList`.

  /** Add the edges of `ds` one after the other, stopping at the first error. */
  function AddEdgesInOrder(g: Graph, ds: seq<Dependency>, rel: Release): (r: Mutated)
    ensures r.graph.vertices == g.vertices
    ensures Valid(g) ==> Valid(r.graph)
    decreases |ds|
  {
    if |ds| == 0 then Mutated(g, None)
    else
      var m := AddDependency(g, ds[0], rel);
      if m.err.Some? then m else AddEdgesInOrder(m.graph, ds[1..], rel)
  }

  lemma {:induction false} AddEdgesInOrderAppend(g: Graph, ds1: seq<Dependency>, ds2: seq<Dependency>, rel: Release)
    ensures var m := AddEdgesInOrder(g, ds1, rel);
            AddEdgesInOrder(g, ds1 + ds2, rel) ==
              if m.err.Some? then m else AddEdgesInOrder(m.graph, ds2, rel)
    decreases |ds1|
  {
    if |ds1| > 0 {
      assert (ds1 + ds2)[0] == ds1[0] && (ds1 + ds2)[1..] == ds1[1..] + ds2;
      var m := AddDependency(g, ds1[0], rel);
      if m.err.None? {
        AddEdgesInOrderAppend(m.graph, ds1[1..], ds2, rel);
      }
    } else {
      assert ds1 + ds2 == ds2;
    }
  }

  lemma {:induction false} AddRequiredEdgesInOrder(g: Graph, task: string, required: seq<string>, rel: Release)
    ensures AddRequiredEdges(g, task, required, rel) ==
            AddEdgesInOrder(g, RequiredList(task, required), rel)
    decreases |required|
  {
    if |required| > 0 {
      var ds := RequiredList(task, required);
      assert ds[1..] == RequiredList(task, required[1..]);
      var m := AddDependency(g, ds[0], rel);
      if m.err.None? {
        AddRequiredEdgesInOrder(m.graph, task, required[1..], rel);
      }
    }
  }

  /** The source's nested loops add exactly the edges of `DependencyList`,
      in its order, and stop at the same error. */
  lemma {:induction false} AddDependencyEdgesInOrder(g: Graph, tasks: seq<Task>, rel: Release)
    ensures AddDependencyEdges(g, tasks, rel) == AddEdgesInOrder(g, DependencyList(tasks), rel)
    decreases |tasks|
  {
    if |tasks| > 0 {
      var head := RequiredList(tasks[0].name, tasks[0].required);
      AddRequiredEdgesInOrder(g, tasks[0].name, tasks[0].required, rel);
      AddEdgesInOrderAppend(g, head, DependencyList(tasks[1..]), rel);
      var m := AddRequiredEdges(g, tasks[0].name, tasks[0].required, rel);
      if m.err.None? {
        AddDependencyEdgesInOrder(m.graph, tasks[1..], rel);
      }
    }
  }

  // ---------------------------------------------------------------------
  // What one pass over a dependency list does.

  /** `i` is the first pair of `ds` with an unregistered endpoint. */
  predicate FirstUnresolvedAt(g: Graph, ds: seq<Dependency>, i: int)
  {
    && 0 <= i < |ds|
    && !Resolved(g, ds[i])
    && forall j | 0 <= j < i :: Resolved(g, ds[j])
  }

  /** The lookup error for the first unregistered endpoint of `d`. */
  function UnresolvedError(g: Graph, d: Dependency, rel: Release): Error
  {
    if d.task !in g.vertices then NotFoundError(rel, d.task) else NotFoundError(rel, d.required)
  }

  /** A pass over `ds` succeeds exactly when every pair resolves. */
  lemma {:induction false} AddEdgesInOrderSucceedsIff(g: Graph, ds: seq<Dependency>, rel: Release)
    requires Valid(g)
    ensures AddEdgesInOrder(g, ds, rel).err.None? <==> forall j | 0 <= j < |ds| :: Resolved(g, ds[j])
    decreases |ds|
  {
    if |ds| > 0 {
      var m := AddDependency(g, ds[0], rel);
      if m.err.None? {
        AddEdgesInOrderSucceedsIff(m.graph, ds[1..], rel);
        assert forall j | 0 <= j < |ds| - 1 :: ds[1..][j] == ds[j + 1];
      }
    }
  }

  /** A successful pass stores one edge of `ds` under each of their keys
      and leaves every other key alone. */
  lemma {:induction false} AddEdgesInOrderOverlays(g: Graph, ds: seq<Dependency>, rel: Release)
    requires Valid(g)
    ensures var r := AddEdgesInOrder(g, ds, rel);
            r.err.None? ==> Overlays(g, r.graph, Elems(ds))
    decreases |ds|
  {
    var r := AddEdgesInOrder(g, ds, rel);
    if |ds| == 0 {
      OverlaysNothing(g);
      assert Elems(ds) == {};
    } else {
      var m := AddDependency(g, ds[0], rel);
      if m.err.None? && r.err.None? {
        ElemsCons(ds);
        AddEdgesInOrderOverlays(m.graph, ds[1..], rel);
        OverlaysCompose(g, m.graph, r.graph, {ds[0]}, Elems(ds[1..]));
      }
    }
  }

  /** A pass that meets an unresolved pair fails with the lookup error of
      the first one. */
  lemma {:induction false} AddEdgesInOrderFailsAt(g: Graph, ds: seq<Dependency>, rel: Release, i: nat)
    requires Valid(g) && FirstUnresolvedAt(g, ds, i)
    ensures AddEdgesInOrder(g, ds, rel).err == Some(UnresolvedError(g, ds[i], rel))
    decreases i
  {
    if i > 0 {
      var h := AddDependency(g, ds[0], rel).graph;
      assert FirstUnresolvedAt(h, ds[1..], i - 1) by {
        assert forall j | 0 <= j < i - 1 :: ds[1..][j] == ds[j + 1];
      }
      AddEdgesInOrderFailsAt(h, ds[1..], rel, i - 1);
    }
  }

  /** Before failing, the pass has added the edges of the pairs before the
      first unresolved one, as Go leaves the graph it was filling. */
  lemma {:induction false} AddEdgesInOrderPartial(g: Graph, ds: seq<Dependency>, rel: Release, i: nat)
    requires Valid(g) && FirstUnresolvedAt(g, ds, i)
    ensures Overlays(g, AddEdgesInOrder(g, ds, rel).graph, Elems(ds[..i]))
    decreases i
  {
    if i == 0 {
      OverlaysNothing(g);
      assert Elems(ds[..0]) == {};
    } else {
      var h := AddDependency(g, ds[0], rel).graph;
      assert FirstUnresolvedAt(h, ds[1..], i - 1) by {
        assert forall j | 0 <= j < i - 1 :: ds[1..][j] == ds[j + 1];
      }
      AddEdgesInOrderPartial(h, ds[1..], rel, i - 1);
      ElemsPrefixCons(ds, i - 1);
      OverlaysCompose(g, h, AddEdgesInOrder(g, ds, rel).graph, {ds[0]}, Elems(ds[1..][..i - 1]));
    }
  }

  /** Index of the first unresolved pair of `ds`, or `|ds|` when every pair
      resolves. */
  function FindUnresolved(g: Graph, ds: seq<Dependency>): (i: nat)
    ensures i <= |ds|
    ensures i == |ds| <==> forall j | 0 <= j < |ds| :: Resolved(g, ds[j])
    ensures i < |ds| ==> FirstUnresolvedAt(g, ds, i)
    decreases |ds|
  {
    if |ds| == 0 then 0
    else if !Resolved(g, ds[0]) then 0
    else 1 + FindUnresolved(g, ds[1..])
  }

  // ---------------------------------------------------------------------
  // `populateGraph` in terms of the request.

  /** Every name a task requires is a registered vertex or a task of the
      request. */
  predicate RequirementsKnown(g: Graph, tasks: seq<Task>)
  {
    forall i, j | 0 <= i < |tasks| && 0 <= j < |tasks[i].required| ::
      tasks[i].required[j] in g.vertices || tasks[i].required[j] in TaskNames(tasks)
  }

  /** After the first phase, a listed pair resolves exactly when its
      required name is known. */
  lemma ResolvedAfterVertices(g: Graph, tasks: seq<Task>, d: Dependency)
    requires d in DependencyList(tasks)
    ensures Resolved(AddTaskVertices(g, tasks), d) <==>
              d.required in g.vertices || d.required in TaskNames(tasks)
  {
    DependencyListContents(tasks, d);
    var i, j :| 0 <= i < |tasks| && 0 <= j < |tasks[i].required| &&
                d == Dependency(tasks[i].name, tasks[i].required[j]);
    assert d.task in TaskNames(tasks);
  }

  /** `populateGraph` fails exactly when some task requires a name that is
      neither a task of the request nor already registered; in particular
      a task may require one listed after it. */
  lemma PopulateGraphSucceedsIff(g: Graph, tasks: seq<Task>, rel: Release)
    requires Valid(g)
    ensures PopulateGraph(g, tasks, rel).err.None? <==> RequirementsKnown(g, tasks)
  {
    var g1 := AddTaskVertices(g, tasks);
    var ds := DependencyList(tasks);
    AddDependencyEdgesInOrder(g1, tasks, rel);
    AddEdgesInOrderSucceedsIff(g1, ds, rel);
    if forall j | 0 <= j < |ds| :: Resolved(g1, ds[j]) {
      forall i, j | 0 <= i < |tasks| && 0 <= j < |tasks[i].required|
        ensures tasks[i].required[j] in g.vertices || tasks[i].required[j] in TaskNames(tasks)
      {
        var d := Dependency(tasks[i].name, tasks[i].required[j]);
        DependencyListContents(tasks, d);
        ResolvedAfterVertices(g, tasks, d);
      }
    }
    if RequirementsKnown(g, tasks) {
      forall j | 0 <= j < |ds| ensures Resolved(g1, ds[j]) {
        DependencyListContents(tasks, ds[j]);
        ResolvedAfterVertices(g, tasks, ds[j]);
      }
    }
  }

  /** A failed build reports `Vertex`'s not-found error for the first
      unknown required name in request order; every pair before it names
      known tasks. */
  lemma PopulateGraphReportsFirstUnknown(g: Graph, tasks: seq<Task>, rel: Release)
    requires Valid(g)
    ensures var r := PopulateGraph(g, tasks, rel);
            var ds := DependencyList(tasks);
            var i := FindUnresolved(AddTaskVertices(g, tasks), ds);
            r.err.Some? ==>
              && i < |ds|
              && ds[i].required !in g.vertices && ds[i].required !in TaskNames(tasks)
              && (forall j | 0 <= j < i :: ds[j].required in g.vertices || ds[j].required in TaskNames(tasks))
              && r.err.value == NotFoundError(rel, ds[i].required)
  {
    var g1 := AddTaskVertices(g, tasks);
    var ds := DependencyList(tasks);
    var i := FindUnresolved(g1, ds);
    AddDependencyEdgesInOrder(g1, tasks, rel);
    AddEdgesInOrderSucceedsIff(g1, ds, rel);
    if AddEdgesInOrder(g1, ds, rel).err.Some? {
      assert i < |ds|;
      AddEdgesInOrderFailsAt(g1, ds, rel, i);
      ResolvedAfterVertices(g, tasks, ds[i]);
      DependencyListContents(tasks, ds[i]);
      assert ds[i].task in g1.vertices;
      forall j | 0 <= j < i
        ensures ds[j].required in g.vertices || ds[j].required in TaskNames(tasks)
      {
        ResolvedAfterVertices(g, tasks, ds[j]);
      }
    }
  }

  /** A failed build keeps the edges of the pairs before the unknown name. */
  lemma PopulateGraphKeepsEarlierEdges(g: Graph, tasks: seq<Task>, rel: Release)
    requires Valid(g)
    ensures var r := PopulateGraph(g, tasks, rel);
            var ds := DependencyList(tasks);
            var i := FindUnresolved(AddTaskVertices(g, tasks), ds);
            r.err.Some? ==> Overlays(AddTaskVertices(g, tasks), r.graph, Elems(ds[..i]))
  {
    var g1 := AddTaskVertices(g, tasks);
    var ds := DependencyList(tasks);
    var i := FindUnresolved(g1, ds);
    AddDependencyEdgesInOrder(g1, tasks, rel);
    AddEdgesInOrderSucceedsIff(g1, ds, rel);
    if AddEdgesInOrder(g1, ds, rel).err.Some? {
      assert i < |ds|;
      AddEdgesInOrderPartial(g1, ds, rel, i);
    }
  }

  /** A successful build stores, under the key of every declared
      requirement, the edge of one declared requirement with that key, and
      leaves every other key as it was. */
  lemma PopulateGraphOverlaysRequirements(g: Graph, tasks: seq<Task>, rel: Release)
    requires Valid(g)
    ensures var r := PopulateGraph(g, tasks, rel);
            r.err.None? ==> Overlays(AddTaskVertices(g, tasks), r.graph, Elems(DependencyList(tasks)))
  {
    var g1 := AddTaskVertices(g, tasks);
    AddDependencyEdgesInOrder(g1, tasks, rel);
    AddEdgesInOrderOverlays(g1, DependencyList(tasks), rel);
  }

  /** `populateGraph` on a fresh graph: one vertex per distinct task name
      (duplicates collapse), a stored key for every declared requirement,
      and every stored edge a declared requirement. */
  lemma PopulateFreshGraph(tasks: seq<Task>, rel: Release)
    ensures var r := PopulateGraph(NewGraph(), tasks, rel);
            && r.graph.vertices.Keys == TaskNames(tasks)
            && |r.graph.vertices| == |TaskNames(tasks)|
            && Valid(r.graph)
            && (r.err.None? ==>
                  && (forall i, j | 0 <= i < |tasks| && 0 <= j < |tasks[i].required| ::
                        EdgeKey(tasks[i].name, tasks[i].required[j]) in r.graph.edges)
                  && (forall k | k in r.graph.edges ::
                        r.graph.edges[k] in EdgesOf(Elems(DependencyList(tasks)))))
  {
    var r := PopulateGraph(NewGraph(), tasks, rel);
    assert r.graph.vertices.Keys == TaskNames(tasks);
    if r.err.None? {
      PopulateGraphOverlaysRequirements(NewGraph(), tasks, rel);
      forall i, j | 0 <= i < |tasks| && 0 <= j < |tasks[i].required|
        ensures EdgeKey(tasks[i].name, tasks[i].required[j]) in r.graph.edges
      {
        var d := Dependency(tasks[i].name, tasks[i].required[j]);
        DependencyListContents(tasks, d);
        assert d.Key() in KeysOf(Elems(DependencyList(tasks)));
      }
    }
  }

  /** When no task name contains '-', edge keys do not collide and every
      declared requirement is stored as its own edge. */
  lemma PopulateFreshGraphWithoutDashes(tasks: seq<Task>, rel: Release)
    requires forall i | 0 <= i < |tasks| :: '-' !in tasks[i].name
    ensures var r := PopulateGraph(NewGraph(), tasks, rel);
            r.err.None? ==>
              forall i, j | 0 <= i < |tasks| && 0 <= j < |tasks[i].required| ::
                var key := EdgeKey(tasks[i].name, tasks[i].required[j]);
                key in r.graph.edges &&
                r.graph.edges[key] == Edge(Vertex(tasks[i].name), Vertex(tasks[i].required[j]))
  {
    var r := PopulateGraph(NewGraph(), tasks, rel);
    var ds := Elems(DependencyList(tasks));
    if r.err.None? {
      PopulateGraphOverlaysRequirements(NewGraph(), tasks, rel);
      forall i, j | 0 <= i < |tasks| && 0 <= j < |tasks[i].required|
        ensures var key := EdgeKey(tasks[i].name, tasks[i].required[j]);
                key in r.graph.edges &&
                r.graph.edges[key] == Edge(Vertex(tasks[i].name), Vertex(tasks[i].required[j]))
      {
        var d := Dependency(tasks[i].name, tasks[i].required[j]);
        DependencyListContents(tasks, d);
        assert d.Key() in KeysOf(ds);
        var e := r.graph.edges[d.Key()];
        assert e in EdgesOf(ds);
        var d' :| d' in ds && d'.AsEdge() == e;
        DependencyListContents(tasks, d');
        var i', j' :| 0 <= i' < |tasks| && 0 <= j' < |tasks[i'].required| &&
                      d' == Dependency(tasks[i'].name, tasks[i'].required[j']);
        EdgeKeyInjective(d.task, d.required, d'.task, d'.required);
      }
    }
  }
}
