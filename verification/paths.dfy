/** Paths and cycles over the edges a graph actually stores. A path is a
    sequence of edge keys, each edge leaving the vertex the previous one
    entered. */
module Paths {
  import opened Graphs

  ghost predicate IsPath(g: Graph, ks: seq<string>, a: string, b: string)
    decreases |ks|
  {
    if |ks| == 0 then a == b
    else
      && ks[0] in g.edges
      && g.edges[ks[0]].from.name == a
      && IsPath(g, ks[1..], g.edges[ks[0]].to.name, b)
  }

  ghost predicate Reaches(g: Graph, a: string, b: string)
  {
    exists ks :: IsPath(g, ks, a, b)
  }

  /** `n` lies on a closed path of at least one edge (a self-loop counts). */
  ghost predicate OnCycle(g: Graph, n: string)
  {
    exists ks :: |ks| > 0 && IsPath(g, ks, n, n)
  }

  ghost predicate HasCycle(g: Graph)
  {
    exists n :: OnCycle(g, n)
  }

  lemma {:induction false} PathExtend(g: Graph, ks: seq<string>, a: string, b: string, k: string)
    requires IsPath(g, ks, a, b)
    requires k in g.edges && g.edges[k].from.name == b
    ensures IsPath(g, ks + [k], a, g.edges[k].to.name)
    decreases |ks|
  {
    if |ks| == 0 {
      assert IsPath(g, [k][1..], g.edges[k].to.name, g.edges[k].to.name);
    } else {
      PathExtend(g, ks[1..], g.edges[ks[0]].to.name, b, k);
      assert (ks + [k])[1..] == ks[1..] + [k];
    }
  }

  lemma ReachesExtend(g: Graph, a: string, b: string, k: string)
    requires Reaches(g, a, b)
    requires k in g.edges && g.edges[k].from.name == b
    ensures Reaches(g, a, g.edges[k].to.name)
  {
    var ks :| IsPath(g, ks, a, b);
    PathExtend(g, ks, a, b, k);
  }

  /** An edge into a vertex that reaches its source closes a cycle. */
  lemma BackEdgeClosesCycle(g: Graph, a: string, b: string, k: string)
    requires Reaches(g, a, b)
    requires k in g.edges && g.edges[k].from.name == b && g.edges[k].to.name == a
    ensures OnCycle(g, a)
  {
    var ks :| IsPath(g, ks, a, b);
    PathExtend(g, ks, a, b, k);
    assert |ks + [k]| > 0;
  }

  /** A self-loop is a cycle of length one. */
  lemma SelfLoopIsCycle(g: Graph, k: string)
    requires k in g.edges && g.edges[k].from.name == g.edges[k].to.name
    ensures OnCycle(g, g.edges[k].to.name)
  {
    var n := g.edges[k].to.name;
    assert IsPath(g, [k], n, n) by {
      assert IsPath(g, [k][1..], n, n);
    }
  }

  /** In a valid graph a vertex on a cycle is a registered vertex. */
  lemma CycleVertexIsRegistered(g: Graph, n: string)
    requires Valid(g) && OnCycle(g, n)
    ensures n in g.vertices
  {
    var ks :| |ks| > 0 && IsPath(g, ks, n, n);
  }

  lemma {:induction false} PathLowersRank(g: Graph, rank: string -> int, ks: seq<string>, a: string, b: string)
    requires forall k | k in g.edges :: rank(g.edges[k].to.name) < rank(g.edges[k].from.name)
    requires |ks| > 0 && IsPath(g, ks, a, b)
    ensures rank(b) < rank(a)
    decreases |ks|
  {
    var c := g.edges[ks[0]].to.name;
    if |ks| > 1 {
      PathLowersRank(g, rank, ks[1..], c, b);
    }
  }

  /** A graph whose edges all lead from a higher to a lower rank has no cycle. */
  lemma RankedGraphIsAcyclic(g: Graph, rank: string -> int)
    requires forall k | k in g.edges :: rank(g.edges[k].to.name) < rank(g.edges[k].from.name)
    ensures !HasCycle(g)
  {
    if HasCycle(g) {
      var n :| OnCycle(g, n);
      var ks :| |ks| > 0 && IsPath(g, ks, n, n);
      PathLowersRank(g, rank, ks, n, n);
    }
  }
}
