/** The graph model shared by the Dijkstra variants and by BFS/DFS.
    A graph is a finite map from each node to the map of its neighbours;
    a neighbour maps to the edge's optional "weight" attribute.  An
    undirected graph lists every edge from both ends. */
module Graphs {
  import opened Wrappers

  type Node = string

  type Graph = map<Node, map<Node, Option<int>>>

  /** Every neighbour is itself a node, as a networkx graph guarantees. */
  predicate WellFormed(g: Graph)
  {
    forall u, v | u in g && v in g[u] :: v in g
  }

  predicate HasEdge(g: Graph, u: Node, v: Node)
  {
    u in g && v in g[u]
  }

  /** `data.get("weight", 1)`: an edge without a weight weighs 1. */
  function Weight(g: Graph, u: Node, v: Node): int
    requires HasEdge(g, u, v)
  {
    match g[u][v]
    case Some(w) => w
    case None => 1
  }

  predicate NonNegative(g: Graph)
  {
    forall u, v | u in g && v in g[u] :: Weight(g, u, v) >= 0
  }

  /** A non-empty node sequence in which each node is followed by one of its neighbours. */
  predicate IsWalk(g: Graph, p: seq<Node>)
  {
    && |p| > 0
    && (forall i | 0 <= i < |p| :: p[i] in g)
    && (forall i | 0 <= i < |p| - 1 :: HasEdge(g, p[i], p[i + 1]))
  }

  predicate WalkFrom(g: Graph, p: seq<Node>, s: Node, t: Node)
  {
    IsWalk(g, p) && p[0] == s && p[|p| - 1] == t
  }

  /** The sum of the weights of the edges a walk follows. */
  function WalkWeight(g: Graph, p: seq<Node>): int
    requires IsWalk(g, p)
  {
    if |p| == 1 then 0 else Weight(g, p[0], p[1]) + WalkWeight(g, p[1..])
  }

  /** Some walk leads from `s` to `t`. */
  ghost predicate Reachable(g: Graph, s: Node, t: Node)
  {
    exists q :: WalkFrom(g, q, s, t)
  }

  /** Every walk from `s` to `t` has at least `n` nodes. */
  ghost predicate NoShorterWalk(g: Graph, s: Node, t: Node, n: int)
  {
    forall q {:trigger WalkFrom(g, q, s, t)} | WalkFrom(g, q, s, t) :: n <= |q|
  }

  /** Every neighbour of a node of `inner` lies in `outer`. */
  predicate Closed(g: Graph, inner: set<Node>, outer: set<Node>)
  {
    forall x, y | x in inner && x in g && y in g[x] :: y in outer
  }

  /** A walk that starts in a set closed under neighbours stays in it. */
  lemma {:induction false} ClosedContainsWalks(g: Graph, s: set<Node>, q: seq<Node>)
    requires Closed(g, s, s) && IsWalk(g, q) && q[0] in s
    ensures q[|q| - 1] in s
    decreases |q|
  {
    if |q| > 1 {
      assert HasEdge(g, q[0], q[1]);
      var r := q[1..];
      assert IsWalk(g, r);
      ClosedContainsWalks(g, s, r);
    }
  }

  /** A walk extended by an edge out of its last node is a walk, heavier by that edge. */
  lemma {:induction false} WalkAppend(g: Graph, p: seq<Node>, v: Node)
    requires IsWalk(g, p) && HasEdge(g, p[|p| - 1], v) && v in g
    ensures IsWalk(g, p + [v])
    ensures WalkWeight(g, p + [v]) == WalkWeight(g, p) + Weight(g, p[|p| - 1], v)
    decreases |p|
  {
    var q := p + [v];
    assert forall i | 0 <= i < |q| - 1 :: q[i] == p[i];
    if |p| > 1 {
      assert q[1..] == p[1..] + [v];
      WalkAppend(g, p[1..], v);
    }
  }

  /** A walk with no repeated node. */
  predicate Simple(p: seq<Node>)
  {
    forall i, j | 0 <= i < j < |p| :: p[i] != p[j]
  }

  /** A tentative distance; `Infinity` stands for Python's `float("inf")`. */
  datatype Distance = Infinity | Finite(value: int)

  /** `cand < d`, with every number below infinity. */
  predicate Improves(cand: int, d: Distance)
  {
    d.Infinity? || cand < d.value
  }

  /** What both Dijkstra variants return for one node: its distance and a path to it. */
  datatype Record = Record(distance: Distance, path: seq<Node>)

  /** A record for `v` is realised when an infinite distance comes with the
      empty path and a finite one with a walk from `s` to `v` of that weight. */
  predicate Realised(g: Graph, s: Node, v: Node, r: Record)
  {
    && (r.distance.Infinity? ==> r.path == [])
    && (r.distance.Finite? ==> WalkFrom(g, r.path, s, v) && WalkWeight(g, r.path) == r.distance.value)
  }

  /** No edge out of `u` can be relaxed any further. */
  ghost predicate Relaxed(g: Graph, dist: map<Node, Distance>, u: Node)
  {
    && u in g && u in dist && dist[u].Finite?
    && forall v | v in g[u] ::
         v in dist && dist[v].Finite? && dist[v].value <= dist[u].value + Weight(g, u, v)
  }

  /** No edge in the whole graph can be relaxed. */
  ghost predicate RelaxationClosed(g: Graph, dist: map<Node, Distance>)
  {
    forall u | u in g && u in dist && dist[u].Finite? :: Relaxed(g, dist, u)
  }

  /** In a relaxation-closed table a walk never beats the distance of its
      last node by more than the distance of its first. */
  lemma {:induction false} ClosedBoundsWalks(g: Graph, dist: map<Node, Distance>, p: seq<Node>)
    requires RelaxationClosed(g, dist)
    requires IsWalk(g, p) && p[0] in dist && dist[p[0]].Finite?
    ensures p[|p| - 1] in dist && dist[p[|p| - 1]].Finite?
    ensures dist[p[|p| - 1]].value <= dist[p[0]].value + WalkWeight(g, p)
    decreases |p|
  {
    if |p| > 1 {
      assert HasEdge(g, p[0], p[1]);
      assert Relaxed(g, dist, p[0]);
      var q := p[1..];
      assert IsWalk(g, q);
      ClosedBoundsWalks(g, dist, q);
    }
  }

  /** The result both Dijkstra variants promise: an entry for every node; the
      start at distance 0 with path [start]; an infinite distance exactly when
      the path is empty; every finite distance realised by its path, and no
      walk from the start shorter than the distance of the node it reaches
      (so an infinite distance means the node is unreachable). */
  ghost predicate ShortestPathTable(g: Graph, start: Node, res: map<Node, Record>)
  {
    && res.Keys == g.Keys
    && start in res && res[start] == Record(Finite(0), [start])
    && (forall v | v in res :: res[v].distance.Infinity? <==> res[v].path == [])
    && (forall v | v in res && res[v].distance.Finite? ::
          WalkFrom(g, res[v].path, start, v) && WalkWeight(g, res[v].path) == res[v].distance.value)
    && (forall p | IsWalk(g, p) && p[0] == start ::
          p[|p| - 1] in res && res[p[|p| - 1]].distance.Finite?
          && res[p[|p| - 1]].distance.value <= WalkWeight(g, p))
  }

  /** A table whose distances are relaxation-closed and realised by their
      paths is a shortest-path table. */
  lemma ClosedTableIsShortest(g: Graph, start: Node, dist: map<Node, Distance>, res: map<Node, Record>)
    requires RelaxationClosed(g, dist) && dist.Keys == g.Keys && start in g && dist[start] == Finite(0)
    requires res.Keys == g.Keys && res[start].path == [start]
    requires forall v | v in res :: res[v].distance == dist[v] && Realised(g, start, v, res[v])
    ensures ShortestPathTable(g, start, res)
  {
    forall p | IsWalk(g, p) && p[0] == start
      ensures p[|p| - 1] in res && res[p[|p| - 1]].distance.Finite?
      ensures res[p[|p| - 1]].distance.value <= WalkWeight(g, p)
    {
      ClosedBoundsWalks(g, dist, p);
    }
  }
}
