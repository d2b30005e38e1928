/** `TopologicalSort` and `processTask`: a depth-first search that emits
    vertices in post-order, keeping the vertices on the current path in
    `processing` and failing on the first edge that reaches one of them.

    Go ranges over `g.Vertices` and `g.Edges`, whose iteration order is
    unspecified and changes from one `range` to the next. The model takes
    the orders as parameters: `vertexOrder` lists the vertex keys for the
    outer loop, and `edgeOrder(n)` lists the edge keys in the order the
    `processTask` call for the vertex named `n` visits them. A vertex is
    processed at most once per sort, so this covers every schedule Go may
    pick. Go's `visited` map holds exactly the names already emitted, so the
    model reads it off `sorted`. */
module TopoSort {
  import opened Basics
  import opened Errors
  import opened Graphs
  import opened Paths

  /** For each vertex name, the order its `processTask` walks the edge map in. */
  type EdgeOrder = string -> seq<string>

  /** `s` is one possible order of a `range` over a map with key set `keys`. */
  predicate Enumerates(s: seq<string>, keys: set<string>)
  {
    && (forall i | 0 <= i < |s| :: s[i] in keys)
    && (forall k | k in keys :: k in s)
  }

  ghost predicate EnumeratesEdges(g: Graph, edgeOrder: EdgeOrder)
  {
    forall n :: Enumerates(edgeOrder(n), g.edges.Keys)
  }

  /** Every name the search can reach: vertex names and edge targets. */
  function Names(g: Graph): set<string>
  {
    (set n | n in g.vertices :: g.vertices[n].name) + (set k | k in g.edges :: g.edges[k].to.name)
  }

  /** The termination measure: reachable names neither on the path nor emitted. */
  function Unfinished(g: Graph, processing: set<string>, sorted: seq<string>): nat
  {
    |Names(g) - processing - Elems(sorted)|
  }

  lemma StartProcessing(g: Graph, processing: set<string>, sorted: seq<string>, n: string)
    requires n !in processing && n !in sorted
    ensures n in Names(g) ==>
              Unfinished(g, processing + {n}, sorted) + 1 == Unfinished(g, processing, sorted)
    ensures n !in Names(g) ==>
              Unfinished(g, processing + {n}, sorted) == Unfinished(g, processing, sorted)
  {
    var before := Names(g) - processing - Elems(sorted);
    var after := Names(g) - (processing + {n}) - Elems(sorted);
    if n in Names(g) {
      assert before == after + {n};
    } else {
      assert before == after;
    }
  }

  lemma MoreFinished(g: Graph, processing: set<string>, s1: seq<string>, s2: seq<string>)
    requires s1 <= s2
    ensures Unfinished(g, processing, s2) <= Unfinished(g, processing, s1)
  {
    assert Elems(s1) <= Elems(s2);
    SubsetCardinality(Names(g) - processing - Elems(s2), Names(g) - processing - Elems(s1));
  }

  /** `processTask(v)`: marks `v` in progress, searches its out-edges in
      `edgeOrder(v.name)`, then emits `v`. The callers only start it on a
      vertex that is neither visited nor in progress. On success it only
      appends, `v` is among the appended names, and none of them was in
      progress; its only failure is a cycle. */
  function ProcessTask(g: Graph, edgeOrder: EdgeOrder, rel: Release, v: Vertex,
                       processing: set<string>, sorted: seq<string>): (r: Result<seq<string>>)
    requires v.name !in processing && v.name !in sorted
    ensures r.Ok? ==> sorted <= r.value && v.name in r.value
    ensures r.Ok? ==> forall i | |sorted| <= i < |r.value| ::
              r.value[i] !in processing && (r.value[i] == v.name || r.value[i] in Names(g))
    ensures r.Err? ==> Is(r.error, GraphCycle)
    decreases Unfinished(g, processing, sorted) + (if v.name in Names(g) then 0 else 1), 0, 0
  {
    StartProcessing(g, processing, sorted, v.name);
    match ScanEdges(g, edgeOrder, rel, v, edgeOrder(v.name), processing + {v.name}, sorted)
    case Err(e) => Err(e)
    case Ok(s) => Ok(s + [v.name])
  }

  /** The loop of `processTask(v)` over the edge keys still to visit: an edge
      leaving `v` whose target is in progress is a cycle; an unvisited
      target is processed; every other edge is skipped. On success each
      edge of `keys` that leaves `v` has its target emitted. */
  function ScanEdges(g: Graph, edgeOrder: EdgeOrder, rel: Release, v: Vertex, keys: seq<string>,
                     processing: set<string>, sorted: seq<string>): (r: Result<seq<string>>)
    ensures r.Ok? ==> sorted <= r.value
    ensures r.Ok? ==> forall i | |sorted| <= i < |r.value| ::
              r.value[i] !in processing && r.value[i] in Names(g)
    ensures r.Ok? ==> forall j | 0 <= j < |keys| && keys[j] in g.edges && g.edges[keys[j]].from.name == v.name ::
              g.edges[keys[j]].to.name in r.value
    ensures r.Err? ==> Is(r.error, GraphCycle)
    decreases Unfinished(g, processing, sorted), 1, |keys|
  {
    if |keys| == 0 then Ok(sorted)
    else if keys[0] !in g.edges || g.edges[keys[0]].from.name != v.name then
      ScanEdges(g, edgeOrder, rel, v, keys[1..], processing, sorted)
    else
      var to := g.edges[keys[0]].to;
      if to.name in processing then Err(CycleError(rel, to.name))
      else if to.name in sorted then ScanEdges(g, edgeOrder, rel, v, keys[1..], processing, sorted)
      else
        assert to.name in Names(g);
        match ProcessTask(g, edgeOrder, rel, to, processing, sorted)
        case Err(e) => Err(e)
        case Ok(s) =>
          MoreFinished(g, processing, sorted, s);
          ScanEdges(g, edgeOrder, rel, v, keys[1..], processing, s)
  }

  /** The outer loop of `TopologicalSort` over the vertex keys still to visit. */
  function SortRoots(g: Graph, edgeOrder: EdgeOrder, rel: Release, roots: seq<string>,
                     sorted: seq<string>): (r: Result<seq<string>>)
    ensures r.Ok? ==> sorted <= r.value
    ensures r.Ok? ==> forall i | |sorted| <= i < |r.value| :: r.value[i] in Names(g)
    ensures r.Ok? ==> forall j | 0 <= j < |roots| && roots[j] in g.vertices ::
              g.vertices[roots[j]].name in r.value
    ensures r.Err? ==> Is(r.error, GraphCycle)
    decreases |roots|
  {
    if |roots| == 0 then Ok(sorted)
    else if roots[0] !in g.vertices then SortRoots(g, edgeOrder, rel, roots[1..], sorted)
    else
      var v := g.vertices[roots[0]];
      if v.name in sorted then SortRoots(g, edgeOrder, rel, roots[1..], sorted)
      else
        assert v.name in Names(g);
        match ProcessTask(g, edgeOrder, rel, v, {}, sorted)
        case Err(e) => Err(e)
        case Ok(s) => SortRoots(g, edgeOrder, rel, roots[1..], s)
  }

  /** `TopologicalSort`: the names in post-order, or the first cycle error
      (never a partial order). An empty graph sorts to the empty sequence. */
  function TopologicalSort(g: Graph, vertexOrder: seq<string>, edgeOrder: EdgeOrder,
                           rel: Release): (r: Result<seq<string>>)
    ensures r.Ok? ==> forall i | 0 <= i < |r.value| :: r.value[i] in Names(g)
    ensures r.Ok? ==> forall j | 0 <= j < |vertexOrder| && vertexOrder[j] in g.vertices ::
              g.vertices[vertexOrder[j]].name in r.value
    ensures r.Err? ==> Is(r.error, GraphCycle)
  {
    SortRoots(g, edgeOrder, rel, vertexOrder, [])
  }

  lemma {:induction false} SortRootsWithoutVertices(g: Graph, edgeOrder: EdgeOrder, rel: Release,
                                                    roots: seq<string>, sorted: seq<string>)
    requires |g.vertices| == 0
    ensures SortRoots(g, edgeOrder, rel, roots, sorted) == Ok(sorted)
    decreases |roots|
  {
    if |roots| > 0 {
      SortRootsWithoutVertices(g, edgeOrder, rel, roots[1..], sorted);
    }
  }

  /** An empty graph sorts to the empty sequence, whatever the orders. */
  lemma EmptyGraphSortsToEmpty(g: Graph, vertexOrder: seq<string>, edgeOrder: EdgeOrder, rel: Release)
    requires |g.vertices| == 0
    ensures TopologicalSort(g, vertexOrder, edgeOrder, rel) == Ok([])
  {
    SortRootsWithoutVertices(g, edgeOrder, rel, vertexOrder, []);
  }

  // ---------------------------------------------------------------------
  // A successful sort is a dependency order.

  /** Every name's dependencies come strictly before it. */
  predicate DependenciesFirst(g: Graph, s: seq<string>)
  {
    forall i, k | 0 <= i < |s| && k in g.edges && g.edges[k].from.name == s[i] ::
      g.edges[k].to.name in s[..i]
  }

  predicate Ordered(g: Graph, s: seq<string>)
  {
    Distinct(s) && DependenciesFirst(g, s)
  }

  lemma AppendFinished(g: Graph, s: seq<string>, n: string)
    requires Ordered(g, s) && n !in s
    requires forall k | k in g.edges && g.edges[k].from.name == n :: g.edges[k].to.name in s
    ensures Ordered(g, s + [n])
  {
    var t := s + [n];
    forall i, k | 0 <= i < |t| && k in g.edges && g.edges[k].from.name == t[i]
      ensures g.edges[k].to.name in t[..i]
    {
      if i < |s| {
        assert t[..i] == s[..i];
      } else {
        assert t[..i] == s;
      }
    }
  }

  /** No new element of an extension of `sorted` is in `excluded`. */
  lemma NewElementsAvoid(sorted: seq<string>, s: seq<string>, excluded: set<string>, n: string)
    requires sorted <= s && n !in sorted && n in excluded
    requires forall i | |sorted| <= i < |s| :: s[i] !in excluded
    ensures n !in s
  {
  }

  lemma {:induction false} ProcessTaskOrdered(g: Graph, edgeOrder: EdgeOrder, rel: Release, v: Vertex,
                                              processing: set<string>, sorted: seq<string>)
    requires v.name !in processing && v.name !in sorted
    requires EnumeratesEdges(g, edgeOrder) && Ordered(g, sorted)
    ensures var r := ProcessTask(g, edgeOrder, rel, v, processing, sorted);
            r.Ok? ==> Ordered(g, r.value)
    decreases Unfinished(g, processing, sorted) + (if v.name in Names(g) then 0 else 1), 0, 0
  {
    StartProcessing(g, processing, sorted, v.name);
    var keys := edgeOrder(v.name);
    var path := processing + {v.name};
    ScanEdgesOrdered(g, edgeOrder, rel, v, keys, path, sorted);
    var r := ScanEdges(g, edgeOrder, rel, v, keys, path, sorted);
    if r.Ok? {
      var s := r.value;
      NewElementsAvoid(sorted, s, path, v.name);
      forall k | k in g.edges && g.edges[k].from.name == v.name
        ensures g.edges[k].to.name in s
      {
        assert Enumerates(keys, g.edges.Keys);
        var j :| 0 <= j < |keys| && keys[j] == k;
      }
      AppendFinished(g, s, v.name);
    }
  }

  lemma {:induction false} ScanEdgesOrdered(g: Graph, edgeOrder: EdgeOrder, rel: Release, v: Vertex,
                                            keys: seq<string>, processing: set<string>, sorted: seq<string>)
    requires EnumeratesEdges(g, edgeOrder) && Ordered(g, sorted)
    ensures var r := ScanEdges(g, edgeOrder, rel, v, keys, processing, sorted);
            r.Ok? ==> Ordered(g, r.value)
    decreases Unfinished(g, processing, sorted), 1, |keys|
  {
    if |keys| == 0 {
    } else if keys[0] !in g.edges || g.edges[keys[0]].from.name != v.name {
      ScanEdgesOrdered(g, edgeOrder, rel, v, keys[1..], processing, sorted);
    } else {
      var to := g.edges[keys[0]].to;
      if to.name in processing {
      } else if to.name in sorted {
        ScanEdgesOrdered(g, edgeOrder, rel, v, keys[1..], processing, sorted);
      } else {
        assert to.name in Names(g);
        ProcessTaskOrdered(g, edgeOrder, rel, to, processing, sorted);
        var r := ProcessTask(g, edgeOrder, rel, to, processing, sorted);
        if r.Ok? {
          MoreFinished(g, processing, sorted, r.value);
          ScanEdgesOrdered(g, edgeOrder, rel, v, keys[1..], processing, r.value);
        }
      }
    }
  }

  lemma {:induction false} SortRootsOrdered(g: Graph, edgeOrder: EdgeOrder, rel: Release,
                                            roots: seq<string>, sorted: seq<string>)
    requires EnumeratesEdges(g, edgeOrder) && Ordered(g, sorted)
    ensures var r := SortRoots(g, edgeOrder, rel, roots, sorted);
            r.Ok? ==> Ordered(g, r.value)
    decreases |roots|
  {
    if |roots| > 0 {
      if roots[0] !in g.vertices || g.vertices[roots[0]].name in sorted {
        SortRootsOrdered(g, edgeOrder, rel, roots[1..], sorted);
      } else {
        var v := g.vertices[roots[0]];
        ProcessTaskOrdered(g, edgeOrder, rel, v, {}, sorted);
        var r := ProcessTask(g, edgeOrder, rel, v, {}, sorted);
        if r.Ok? {
          SortRootsOrdered(g, edgeOrder, rel, roots[1..], r.value);
        }
      }
    }
  }

  lemma ValidNames(g: Graph)
    requires Valid(g)
    ensures Names(g) == g.vertices.Keys
  {
  }

  /** A successful sort lists every vertex exactly once, and for every
      stored edge From -> To it lists To before From. */
  lemma TopologicalSortOrdersVertices(g: Graph, vertexOrder: seq<string>, edgeOrder: EdgeOrder, rel: Release)
    requires Valid(g)
    requires Enumerates(vertexOrder, g.vertices.Keys) && EnumeratesEdges(g, edgeOrder)
    ensures var r := TopologicalSort(g, vertexOrder, edgeOrder, rel);
            r.Ok? ==>
              && Distinct(r.value)
              && Elems(r.value) == g.vertices.Keys
              && |r.value| == |g.vertices|
              && DependenciesFirst(g, r.value)
  {
    SortRootsOrdered(g, edgeOrder, rel, vertexOrder, []);
    var r := TopologicalSort(g, vertexOrder, edgeOrder, rel);
    if r.Ok? {
      ValidNames(g);
      forall n | n in g.vertices.Keys ensures n in r.value {
        var j :| 0 <= j < |vertexOrder| && vertexOrder[j] == n;
      }
      assert Elems(r.value) == g.vertices.Keys;
      DistinctCardinality(r.value);
    }
  }

  // ---------------------------------------------------------------------
  // The sort fails exactly when the stored edges contain a cycle.

  /** Following stored edges from an emitted name only leads to names
      emitted before it. */
  lemma {:induction false} PathLeadsEarlier(g: Graph, s: seq<string>, ks: seq<string>, i: nat, b: string)
    requires DependenciesFirst(g, s) && i < |s|
    requires |ks| > 0 && IsPath(g, ks, s[i], b)
    ensures b in s[..i]
    decreases |ks|
  {
    var c := g.edges[ks[0]].to.name;
    assert c in s[..i];
    var j :| 0 <= j < i && s[j] == c;
    if |ks| > 1 {
      PathLeadsEarlier(g, s, ks[1..], j, b);
      assert s[..j] <= s[..i];
    }
  }

  /** A dependency order contains no vertex of a cycle. */
  lemma OrderedExcludesCycles(g: Graph, s: seq<string>, n: string)
    requires Ordered(g, s) && n in s
    ensures !OnCycle(g, n)
  {
    if OnCycle(g, n) {
      var ks :| |ks| > 0 && IsPath(g, ks, n, n);
      var i :| 0 <= i < |s| && s[i] == n;
      PathLeadsEarlier(g, s, ks, i, n);
    }
  }

  lemma {:induction false} ProcessTaskFailsOnCycle(g: Graph, edgeOrder: EdgeOrder, rel: Release, v: Vertex,
                                                   processing: set<string>, sorted: seq<string>)
    requires v.name !in processing && v.name !in sorted
    requires forall p | p in processing :: Reaches(g, p, v.name)
    ensures var r := ProcessTask(g, edgeOrder, rel, v, processing, sorted);
            r.Err? ==> exists n :: OnCycle(g, n) && r.error == CycleError(rel, n)
    decreases Unfinished(g, processing, sorted) + (if v.name in Names(g) then 0 else 1), 0, 0
  {
    StartProcessing(g, processing, sorted, v.name);
    var path := processing + {v.name};
    forall p | p in path ensures Reaches(g, p, v.name) {
      if p == v.name {
        assert IsPath(g, [], p, p);
      }
    }
    ScanEdgesFailsOnCycle(g, edgeOrder, rel, v, edgeOrder(v.name), path, sorted);
  }

  lemma {:induction false} ScanEdgesFailsOnCycle(g: Graph, edgeOrder: EdgeOrder, rel: Release, v: Vertex,
                                                 keys: seq<string>, processing: set<string>, sorted: seq<string>)
    requires forall p | p in processing :: Reaches(g, p, v.name)
    ensures var r := ScanEdges(g, edgeOrder, rel, v, keys, processing, sorted);
            r.Err? ==> exists n :: OnCycle(g, n) && r.error == CycleError(rel, n)
    decreases Unfinished(g, processing, sorted), 1, |keys|
  {
    if |keys| == 0 {
    } else if keys[0] !in g.edges || g.edges[keys[0]].from.name != v.name {
      ScanEdgesFailsOnCycle(g, edgeOrder, rel, v, keys[1..], processing, sorted);
    } else {
      var to := g.edges[keys[0]].to;
      if to.name in processing {
        BackEdgeClosesCycle(g, to.name, v.name, keys[0]);
      } else if to.name in sorted {
        ScanEdgesFailsOnCycle(g, edgeOrder, rel, v, keys[1..], processing, sorted);
      } else {
        assert to.name in Names(g);
        forall p | p in processing ensures Reaches(g, p, to.name) {
          ReachesExtend(g, p, v.name, keys[0]);
        }
        ProcessTaskFailsOnCycle(g, edgeOrder, rel, to, processing, sorted);
        var r := ProcessTask(g, edgeOrder, rel, to, processing, sorted);
        if r.Ok? {
          MoreFinished(g, processing, sorted, r.value);
          ScanEdgesFailsOnCycle(g, edgeOrder, rel, v, keys[1..], processing, r.value);
        }
      }
    }
  }

  lemma {:induction false} SortRootsFailsOnCycle(g: Graph, edgeOrder: EdgeOrder, rel: Release,
                                                 roots: seq<string>, sorted: seq<string>)
    ensures var r := SortRoots(g, edgeOrder, rel, roots, sorted);
            r.Err? ==> exists n :: OnCycle(g, n) && r.error == CycleError(rel, n)
    decreases |roots|
  {
    if |roots| > 0 {
      if roots[0] !in g.vertices || g.vertices[roots[0]].name in sorted {
        SortRootsFailsOnCycle(g, edgeOrder, rel, roots[1..], sorted);
      } else {
        var v := g.vertices[roots[0]];
        ProcessTaskFailsOnCycle(g, edgeOrder, rel, v, {}, sorted);
        var r := ProcessTask(g, edgeOrder, rel, v, {}, sorted);
        if r.Ok? {
          SortRootsFailsOnCycle(g, edgeOrder, rel, roots[1..], r.value);
        }
      }
    }
  }

  /** Every failure of the sort is a cycle error naming a vertex that lies
      on a cycle of stored edges (the Legacy release drops the name). */
  lemma TopologicalSortFailsOnlyOnCycle(g: Graph, vertexOrder: seq<string>, edgeOrder: EdgeOrder, rel: Release)
    ensures var r := TopologicalSort(g, vertexOrder, edgeOrder, rel);
            r.Err? ==> exists n :: OnCycle(g, n) && r.error == CycleError(rel, n)
  {
    SortRootsFailsOnCycle(g, edgeOrder, rel, vertexOrder, []);
  }

  /** A cycle among the stored edges, a self-loop included, always makes
      the sort fail; together with the lemma above, the sort succeeds
      exactly on acyclic graphs, whatever the iteration orders. */
  lemma TopologicalSortSucceedsIffAcyclic(g: Graph, vertexOrder: seq<string>, edgeOrder: EdgeOrder, rel: Release)
    requires Valid(g)
    requires Enumerates(vertexOrder, g.vertices.Keys) && EnumeratesEdges(g, edgeOrder)
    ensures TopologicalSort(g, vertexOrder, edgeOrder, rel).Ok? <==> !HasCycle(g)
  {
    var r := TopologicalSort(g, vertexOrder, edgeOrder, rel);
    TopologicalSortFailsOnlyOnCycle(g, vertexOrder, edgeOrder, rel);
    if r.Ok? && HasCycle(g) {
      var n :| OnCycle(g, n);
      CycleVertexIsRegistered(g, n);
      TopologicalSortOrdersVertices(g, vertexOrder, edgeOrder, rel);
      assert n in Elems(r.value);
      OrderedExcludesCycles(g, r.value, n);
    }
  }

  /** `processTask` started on a vertex of a cycle fails, whatever the
      edge orders (the tests start it on "v1" of a 3-cycle). */
  lemma ProcessTaskFailsFromCycleVertex(g: Graph, edgeOrder: EdgeOrder, rel: Release, v: Vertex, sorted: seq<string>)
    requires EnumeratesEdges(g, edgeOrder) && Ordered(g, sorted)
    requires v.name !in sorted && OnCycle(g, v.name)
    ensures ProcessTask(g, edgeOrder, rel, v, {}, sorted).Err?
  {
    var r := ProcessTask(g, edgeOrder, rel, v, {}, sorted);
    ProcessTaskOrdered(g, edgeOrder, rel, v, {}, sorted);
    if r.Ok? {
      OrderedExcludesCycles(g, r.value, v.name);
    }
  }
}
