/** The graph store: `DirectedGraph` with its vertex map (name to vertex)
    and its edge map (key `from + "-" + to` to edge), and the validated
    mutators `AddVertex` and `AddEdge`.

    Go keeps pointers to vertices; here a vertex is identified by its name,
    and the nil pointer an edge endpoint may be is `None`. */
module Graphs {
  import opened Basics
  import opened Errors

  datatype Vertex = Vertex(name: string)

  /** `From` depends on `To`: `To` has to be scheduled first. */
  datatype Edge = Edge(from: Vertex, to: Vertex)

  datatype Graph = Graph(vertices: map<string, Vertex>, edges: map<string, Edge>)

  /** A graph after a mutator that may fail, with the error it returned.
      Go mutates the receiver in place and returns an `error`. */
  datatype Mutated = Mutated(graph: Graph, err: Option<Error>)

  /** The key `AddEdge` stores an edge under. It is not injective once
      names contain '-' (see `EdgeKeyCollision`). */
  function EdgeKey(from: string, to: string): string
  {
    from + "-" + to
  }

  /** The key an edge is stored under, computed from its endpoints. */
  function KeyOf(e: Edge): string
  {
    EdgeKey(e.from.name, e.to.name)
  }

  /** The shape every graph built through the API keeps: each vertex is
      stored under its own name, each edge under its own key, and every
      edge joins two registered vertices. */
  predicate Valid(g: Graph)
  {
    && (forall n | n in g.vertices :: g.vertices[n].name == n)
    && (forall k | k in g.edges :: KeyOf(g.edges[k]) == k)
    && (forall k | k in g.edges ::
          g.edges[k].from.name in g.vertices && g.edges[k].to.name in g.vertices)
  }

  /** `NewGraph`: both maps empty. (The Current release takes a capacity
      hint that only affects allocation.) */
  function NewGraph(): (g: Graph)
    ensures Valid(g)
    ensures |g.vertices| == 0 && |g.edges| == 0
  {
    Graph(map[], map[])
  }

  /** `AddVertex`: registers `name` (replacing an earlier vertex of the same
      name); there is no error path. */
  function AddVertex(g: Graph, name: string): (r: Graph)
    ensures name in r.vertices && r.vertices[name].name == name
    ensures r.vertices.Keys == g.vertices.Keys + {name}
    ensures forall n | n in g.vertices && n != name :: r.vertices[n] == g.vertices[n]
    ensures name in g.vertices ==> |r.vertices| == |g.vertices|
    ensures name !in g.vertices ==> |r.vertices| == |g.vertices| + 1
    ensures r.edges == g.edges
    ensures Valid(g) ==> Valid(r)
  {
    Graph(g.vertices[name := Vertex(name)], g.edges)
  }

  /** `Vertex(name)`: the registered vertex, or a not-found error that the
      Current release wraps with the queried name. */
  function Lookup(g: Graph, name: string, rel: Release): (r: Result<Vertex>)
    ensures r.Ok? <==> name in g.vertices
    ensures r.Ok? && Valid(g) ==> r.value.name == name
    ensures r.Ok? ==> r.value == g.vertices[name]
    ensures r.Err? ==> r.error == NotFoundError(rel, name)
  {
    if name !in g.vertices then Err(NotFoundError(rel, name))
    else Ok(g.vertices[name])
  }

  /** `validateVertexExistence`: checks the endpoint's name is registered. */
  function CheckRegistered(g: Graph, v: Vertex): (r: Option<Error>)
    ensures r.None? <==> v.name in g.vertices
    ensures r.Some? ==> r.value == UnregisteredError(v.name)
  {
    if v.name !in g.vertices then Some(UnregisteredError(v.name)) else None
  }

  /** `AddEdge(from, to)`: rejects a nil endpoint, then an unregistered
      `from`, then an unregistered `to`; a failed call changes nothing. On
      success the edge is stored under `EdgeKey(from, to)`, replacing
      whatever that key held, and nothing else changes. */
  function AddEdge(g: Graph, from: Option<Vertex>, to: Option<Vertex>): (r: Mutated)
    ensures from.None? || to.None? ==>
              r == Mutated(g, Some(Bare(VertexIsNotDefined)))
    ensures from.Some? && to.Some? && from.value.name !in g.vertices ==>
              r == Mutated(g, Some(UnregisteredError(from.value.name)))
    ensures from.Some? && to.Some? && from.value.name in g.vertices && to.value.name !in g.vertices ==>
              r == Mutated(g, Some(UnregisteredError(to.value.name)))
    ensures r.err.None? <==>
              from.Some? && to.Some? && from.value.name in g.vertices && to.value.name in g.vertices
    ensures r.err.None? ==>
              var key := EdgeKey(from.value.name, to.value.name);
              && r.graph.vertices == g.vertices
              && r.graph.edges.Keys == g.edges.Keys + {key}
              && r.graph.edges[key] == Edge(from.value, to.value)
              && (forall k | k in g.edges && k != key :: r.graph.edges[k] == g.edges[k])
    ensures Valid(g) ==> Valid(r.graph)
  {
    if from.None? || to.None? then Mutated(g, Some(Bare(VertexIsNotDefined)))
    else match CheckRegistered(g, from.value)
      case Some(e) => Mutated(g, Some(e))
      case None =>
        match CheckRegistered(g, to.value)
        case Some(e) => Mutated(g, Some(e))
        case None =>
          var key := EdgeKey(from.value.name, to.value.name);
          Mutated(Graph(g.vertices, g.edges[key := Edge(from.value, to.value)]), None)
  }

  /** Adding the same edge twice is the same as adding it once. */
  lemma AddEdgeIdempotent(g: Graph, from: Option<Vertex>, to: Option<Vertex>)
    ensures var once := AddEdge(g, from, to);
            AddEdge(once.graph, from, to) == once
  {
  }

  /** Re-adding a stored pair does not grow the edge map. */
  lemma AddEdgeKeepsCountOnRepeat(g: Graph, from: Vertex, to: Vertex)
    requires EdgeKey(from.name, to.name) in g.edges
    ensures |AddEdge(g, Some(from), Some(to)).graph.edges| == |g.edges|
  {
    var r := AddEdge(g, Some(from), Some(to)).graph;
    assert r.edges.Keys == g.edges.Keys;
  }

  /** Two different pairs of names can share an edge key, so a later
      `AddEdge` silently replaces an earlier edge between other vertices. */
  lemma EdgeKeyCollision(g0: Graph)
    requires g0.edges == map[]
    requires "a-b" in g0.vertices && "c" in g0.vertices
    requires "a" in g0.vertices && "b-c" in g0.vertices
    ensures EdgeKey("a-b", "c") == EdgeKey("a", "b-c")
    ensures var g1 := AddEdge(g0, Some(Vertex("a-b")), Some(Vertex("c"))).graph;
            var g2 := AddEdge(g1, Some(Vertex("a")), Some(Vertex("b-c"))).graph;
            g2.edges == map[EdgeKey("a-b", "c") := Edge(Vertex("a"), Vertex("b-c"))]
  {
    assert EdgeKey("a-b", "c") == "a-b-c";
    assert EdgeKey("a", "b-c") == "a-b-c";
  }

  /** As long as the source names contain no '-', an edge key determines
      both endpoint names. */
  lemma {:induction false} EdgeKeyInjective(a1: string, b1: string, a2: string, b2: string)
    requires '-' !in a1 && '-' !in a2
    requires EdgeKey(a1, b1) == EdgeKey(a2, b2)
    ensures a1 == a2 && b1 == b2
  {
    var k := EdgeKey(a1, b1);
    assert k[|a1|] == '-' && k[|a2|] == '-';
    assert a1 == k[..|a1|] == a2;
    assert b1 == k[|a1| + 1..] == b2;
  }

  /** The tests' scenario: two vertices, each stored and named by its own name. */
  lemma AddTwoVertices()
    ensures var g := AddVertex(AddVertex(NewGraph(), "v1"), "v2");
            && |g.vertices| == 2
            && g.vertices["v1"].name == "v1" && g.vertices["v2"].name == "v2"
            && Lookup(g, "v1", Legacy) == Ok(Vertex("v1"))
            && Lookup(g, "v3", Legacy) == Err(Bare(VertexNotFound))
  {
  }
}
