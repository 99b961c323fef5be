/** Dijkstra's algorithm with a push-only binary heap and lazy deletion:
    `dist` and `prev` tables, a heap of (distance, node) entries of which the
    stale ones are skipped when popped, and paths rebuilt from predecessors
    once the heap is empty. */
module DijkstraSearch {
  import opened Wrappers
  import opened Seqs
  import opened Graphs

  /** A heap entry: (tentative distance, node). */
  type Entry = (int, Node)

  /** `prev[v]` links `v` to an expanded node `u` along an edge, with
      `dist[v] == dist[u] + w(u, v)`; an expanded `v` was expanded after `u`. */
  ghost predicate PrevLink(g: Graph, dist: map<Node, Distance>, prev: map<Node, Option<Node>>,
                           rank: map<Node, nat>, v: Node)
  {
    && v in prev && prev[v].Some?
    && var u := prev[v].value;
       && u in rank && HasEdge(g, u, v)
       && u in dist && v in dist && dist[u].Finite? && dist[v].Finite?
       && dist[v].value == dist[u].value + Weight(g, u, v)
       && (v in rank ==> rank[u] < rank[v])
  }

  /** What the main loop knows about one node `v`: a finite distance is
      non-negative and has at most one heap entry; an expanded node has a
      rank below the number of expansions, sits at or below the floor and
      has no entry left; an unexpanded finite node has its entry; a finite
      node other than the start has its predecessor link. */
  ghost predicate NodeOk(g: Graph, start: Node, dist: map<Node, Distance>, prev: map<Node, Option<Node>>,
                         heap: multiset<Entry>, rank: map<Node, nat>, floor: int, v: Node)
  {
    && v in dist
    && (dist[v].Finite? ==> 0 <= dist[v].value && heap[(dist[v].value, v)] <= 1)
    && (v in rank ==>
          rank[v] < |rank| && dist[v].Finite? && dist[v].value <= floor && (dist[v].value, v) !in heap)
    && (v !in rank && dist[v].Finite? ==> (dist[v].value, v) in heap)
    && (v != start && dist[v].Finite? ==> PrevLink(g, dist, prev, rank, v))
  }

  /** A heap entry names a reached node, is no better than that node's
      distance, and is at or above the floor. */
  ghost predicate EntryOk(dist: map<Node, Distance>, floor: int, e: Entry)
  {
    e.1 in dist && dist[e.1].Finite? && dist[e.1].value <= e.0 && floor <= e.0
  }

  /** The state shared by the main loop and the relaxation loop.  `rank`
      numbers the expanded nodes in expansion order and `floor` is the
      distance of the last node expanded. */
  ghost predicate Core(g: Graph, start: Node, dist: map<Node, Distance>, prev: map<Node, Option<Node>>,
                       heap: multiset<Entry>, rank: map<Node, nat>, floor: int)
  {
    && WellFormed(g) && NonNegative(g) && start in g
    && dist.Keys == g.Keys && prev.Keys == g.Keys && rank.Keys <= g.Keys
    && dist[start] == Finite(0) && prev[start] == None
    && floor >= 0
    && EntriesOk(dist, heap, floor)
    && NodesOk(g, start, dist, prev, heap, rank, floor)
  }

  ghost predicate EntriesOk(dist: map<Node, Distance>, heap: multiset<Entry>, floor: int)
  {
    forall e {:trigger EntryOk(dist, floor, e)} | e in heap :: EntryOk(dist, floor, e)
  }

  ghost predicate NodesOk(g: Graph, start: Node, dist: map<Node, Distance>, prev: map<Node, Option<Node>>,
                          heap: multiset<Entry>, rank: map<Node, nat>, floor: int)
  {
    forall v {:trigger NodeOk(g, start, dist, prev, heap, rank, floor, v)} | v in g ::
      NodeOk(g, start, dist, prev, heap, rank, floor, v)
  }

  /** The main loop's invariant: additionally every expanded node is relaxed. */
  ghost predicate Inv(g: Graph, start: Node, dist: map<Node, Distance>, prev: map<Node, Option<Node>>,
                      heap: multiset<Entry>, rank: map<Node, nat>, floor: int)
  {
    && Core(g, start, dist, prev, heap, rank, floor)
    && (forall u {:trigger Relaxed(g, dist, u)} | u in rank :: Relaxed(g, dist, u))
  }

  /** Relaxing the edges out of `u` left node `v` alone, or strictly lowered
      its distance and made `u` its predecessor; the latter only for a node
      not yet expanded. */
  ghost predicate Lowered(dist: map<Node, Distance>, prev: map<Node, Option<Node>>, rank: map<Node, nat>,
                          dist': map<Node, Distance>, prev': map<Node, Option<Node>>, u: Node, v: Node)
  {
    && v in dist && v in prev && v in dist' && v in prev'
    && ((dist'[v] == dist[v] && prev'[v] == prev[v])
        || (v !in rank && prev'[v] == Some(u) && dist'[v].Finite? && Improves(dist'[v].value, dist[v])))
  }

  ghost predicate AllLowered(g: Graph, dist: map<Node, Distance>, prev: map<Node, Option<Node>>,
                             rank: map<Node, nat>, dist': map<Node, Distance>, prev': map<Node, Option<Node>>,
                             u: Node)
  {
    forall v {:trigger Lowered(dist, prev, rank, dist', prev', u, v)} | v in g ::
      Lowered(dist, prev, rank, dist', prev', u, v)
  }

  /** The edge (u, v) cannot be relaxed below `d + w(u, v)`. */
  ghost predicate RelaxedFrom(g: Graph, dist: map<Node, Distance>, u: Node, d: int, v: Node)
  {
    HasEdge(g, u, v) && v in dist && dist[v].Finite? && dist[v].value <= d + Weight(g, u, v)
  }

  /** Scans every edge (`graph.edges(data=True)`) and reports whether one has a negative weight. */
  method HasNegativeEdge(g: Graph) returns (found: bool)
    ensures found <==> !NonNegative(g)
  {
    var us := g.Keys;
    while us != {}
      invariant us <= g.Keys
      invariant forall u, v | u in g.Keys - us && v in g[u] :: Weight(g, u, v) >= 0
      decreases us
    {
      var u :| u in us;
      var vs := g[u].Keys;
      while vs != {}
        invariant vs <= g[u].Keys
        invariant forall v | v in g[u].Keys - vs :: Weight(g, u, v) >= 0
        decreases vs
      {
        var v :| v in vs;
        if Weight(g, u, v) < 0 {
          return true;
        }
        vs := vs - {v};
      }
      us := us - {u};
    }
    return false;
  }

  /** Expands the node `u` of a live entry `(d, u)` just popped with the least
      distance: relaxes every edge out of `u`, lowering `dist[v]`, setting
      `prev[v] := u` and pushing `(d + w, v)` only on a strict improvement. */
  method Expand(g: Graph, start: Node, u: Node, d: int,
                dist: map<Node, Distance>, prev: map<Node, Option<Node>>, heap: multiset<Entry>,
                ghost rank: map<Node, nat>, ghost floor: int)
    returns (dist': map<Node, Distance>, prev': map<Node, Option<Node>>, heap': multiset<Entry>,
             ghost rank': map<Node, nat>, ghost floor': int)
    requires Inv(g, start, dist, prev, heap + multiset{(d, u)}, rank, floor)
    requires u in g && dist[u] == Finite(d)
    requires forall f | f in heap :: d <= f.0
    ensures Inv(g, start, dist', prev', heap', rank', floor')
    ensures u !in rank && rank' == rank[u := |rank|]
    ensures AllLowered(g, dist, prev, rank', dist', prev', u)
  {
    PopLive(g, start, u, d, dist, prev, heap, rank, floor);
    rank' := rank[u := |rank|];
    floor' := d;
    forall v | v in g ensures Lowered(dist, prev, rank', dist, prev, u, v) {
    }
    dist', prev', heap' := RelaxAll(g, start, u, d, dist, prev, heap, rank');
    ExpandedRelaxed(g, dist, prev, rank, dist', prev', u, d);
  }

  /** The inner loop of the search: every edge out of `u` relaxed in turn. */
  method RelaxAll(g: Graph, start: Node, u: Node, d: int,
                  dist: map<Node, Distance>, prev: map<Node, Option<Node>>, heap: multiset<Entry>,
                  ghost rank: map<Node, nat>)
    returns (dist': map<Node, Distance>, prev': map<Node, Option<Node>>, heap': multiset<Entry>)
    requires Core(g, start, dist, prev, heap, rank, d) && u in rank && u in g
    requires AllLowered(g, dist, prev, rank, dist, prev, u) && dist[u] == Finite(d)
    ensures Core(g, start, dist', prev', heap', rank, d)
    ensures AllLowered(g, dist, prev, rank, dist', prev', u) && dist'[u] == Finite(d)
    ensures forall v {:trigger RelaxedFrom(g, dist', u, d, v)} | v in g[u].Keys :: RelaxedFrom(g, dist', u, d, v)
  {
    dist', prev', heap' := dist, prev, heap;
    var todo := g[u].Keys;
    ghost var done: set<Node> := {};
    while todo != {}
      invariant todo <= g[u].Keys && done == g[u].Keys - todo
      invariant Core(g, start, dist', prev', heap', rank, d)
      invariant AllLowered(g, dist, prev, rank, dist', prev', u) && dist'[u] == Finite(d)
      invariant forall v {:trigger RelaxedFrom(g, dist', u, d, v)} | v in done :: RelaxedFrom(g, dist', u, d, v)
      decreases todo
    {
      var v :| v in todo;
      dist', prev', heap' := RelaxEdge(g, start, u, d, v, dist', prev', heap', rank, dist, prev, done);
      todo := todo - {v};
      done := done + {v};
    }
  }

  /** One pass of the inner loop: relaxes the edge (u, v), updating `dist[v]`,
      `prev[v]` and pushing `(d + w, v)` only when `d + w` beats `dist[v]`. */
  method RelaxEdge(g: Graph, start: Node, u: Node, d: int, v: Node,
                   dist: map<Node, Distance>, prev: map<Node, Option<Node>>, heap: multiset<Entry>,
                   ghost rank: map<Node, nat>, ghost dist0: map<Node, Distance>,
                   ghost prev0: map<Node, Option<Node>>, ghost done: set<Node>)
    returns (dist': map<Node, Distance>, prev': map<Node, Option<Node>>, heap': multiset<Entry>)
    requires Core(g, start, dist, prev, heap, rank, d) && u in rank && v in g[u]
    requires AllLowered(g, dist0, prev0, rank, dist, prev, u) && dist[u] == Finite(d)
    requires forall x {:trigger RelaxedFrom(g, dist, u, d, x)} | x in done :: RelaxedFrom(g, dist, u, d, x)
    ensures Core(g, start, dist', prev', heap', rank, d)
    ensures AllLowered(g, dist0, prev0, rank, dist', prev', u) && dist'[u] == Finite(d)
    ensures forall x {:trigger RelaxedFrom(g, dist', u, d, x)} | x in done + {v} :: RelaxedFrom(g, dist', u, d, x)
  {
    assert v in g;
    var w := Weight(g, u, v);
    var cand := d + w;
    dist', prev', heap' := dist, prev, heap;
    if Improves(cand, dist[v]) {
      assert v !in rank by {
        assert v in rank ==> NodeOk(g, start, dist, prev, heap, rank, d, v);
      }
      RelaxStep(g, start, u, d, v, dist, prev, heap, rank, d);
      LowerStep(g, dist0, prev0, rank, dist, prev, u, v, cand);
      RelaxedFromStep(g, dist, u, d, v, cand, done);
      dist' := dist[v := Finite(cand)];
      prev' := prev[v := Some(u)];
      heap' := heap + multiset{(cand, v)};
    }
    assert RelaxedFrom(g, dist', u, d, v);
  }

  /** One successful relaxation of (u, v) keeps every node `Lowered`. */
  lemma LowerStep(g: Graph, dist: map<Node, Distance>, prev: map<Node, Option<Node>>, rank: map<Node, nat>,
                  dist': map<Node, Distance>, prev': map<Node, Option<Node>>, u: Node, v: Node, cand: int)
    requires AllLowered(g, dist, prev, rank, dist', prev', u)
    requires v in g && v !in rank && v in dist' && Improves(cand, dist'[v])
    ensures AllLowered(g, dist, prev, rank, dist'[v := Finite(cand)], prev'[v := Some(u)], u)
  {
    forall x | x in g ensures Lowered(dist, prev, rank, dist'[v := Finite(cand)], prev'[v := Some(u)], u, x) {
      assert Lowered(dist, prev, rank, dist', prev', u, x);
    }
  }

  /** Lowering `dist[v]` to `cand` keeps the already relaxed edges out of `u` relaxed. */
  lemma RelaxedFromStep(g: Graph, dist: map<Node, Distance>, u: Node, d: int, v: Node, cand: int,
                        done: set<Node>)
    requires forall x {:trigger RelaxedFrom(g, dist, u, d, x)} | x in done :: RelaxedFrom(g, dist, u, d, x)
    requires HasEdge(g, u, v) && cand == d + Weight(g, u, v) && v in dist && Improves(cand, dist[v])
    ensures forall x {:trigger RelaxedFrom(g, dist[v := Finite(cand)], u, d, x)} | x in done ::
              RelaxedFrom(g, dist[v := Finite(cand)], u, d, x)
  {
    forall x | x in done ensures RelaxedFrom(g, dist[v := Finite(cand)], u, d, x) {
      assert RelaxedFrom(g, dist, u, d, x);
    }
  }

  /** After all edges out of `u` are relaxed, every expanded node, `u` included, is relaxed. */
  lemma ExpandedRelaxed(g: Graph, dist: map<Node, Distance>, prev: map<Node, Option<Node>>,
                        rank: map<Node, nat>, dist': map<Node, Distance>, prev': map<Node, Option<Node>>,
                        u: Node, d: int)
    requires WellFormed(g) && rank.Keys <= g.Keys && u in g && u in dist' && dist'[u] == Finite(d)
    requires forall x {:trigger Relaxed(g, dist, x)} | x in rank :: Relaxed(g, dist, x)
    requires AllLowered(g, dist, prev, rank[u := |rank|], dist', prev', u)
    requires forall v {:trigger RelaxedFrom(g, dist', u, d, v)} | v in g[u].Keys :: RelaxedFrom(g, dist', u, d, v)
    ensures forall x {:trigger Relaxed(g, dist', x)} | x in rank[u := |rank|] :: Relaxed(g, dist', x)
  {
    var rank' := rank[u := |rank|];
    forall x | x in rank' ensures Relaxed(g, dist', x) {
      if x == u {
        forall v | v in g[u]
          ensures v in dist' && dist'[v].Finite? && dist'[v].value <= dist'[u].value + Weight(g, u, v)
        {
          assert RelaxedFrom(g, dist', u, d, v);
        }
      } else {
        assert Relaxed(g, dist, x);
        assert Lowered(dist, prev, rank', dist', prev', u, x);
        forall v | v in g[x]
          ensures v in dist' && dist'[v].Finite? && dist'[v].value <= dist'[x].value + Weight(g, x, v)
        {
          assert Lowered(dist, prev, rank', dist', prev', u, v);
        }
      }
    }
  }

  /** Popping the least live entry `(d, u)` and marking `u` expanded at floor `d` keeps `Core`. */
  lemma PopLive(g: Graph, start: Node, u: Node, d: int,
                dist: map<Node, Distance>, prev: map<Node, Option<Node>>, heap: multiset<Entry>,
                rank: map<Node, nat>, floor: int)
    requires Core(g, start, dist, prev, heap + multiset{(d, u)}, rank, floor)
    requires u in g && dist[u] == Finite(d)
    requires forall f | f in heap :: d <= f.0
    ensures u !in rank && (d, u) !in heap
    ensures Core(g, start, dist, prev, heap, rank[u := |rank|], d)
  {
    var full := heap + multiset{(d, u)};
    assert NodeOk(g, start, dist, prev, full, rank, floor, u);
    assert EntryOk(dist, floor, (d, u));
    PopEntries(dist, heap, floor, u, d);
    PopNodes(g, start, dist, prev, heap, rank, floor, u, d);
  }

  lemma PopEntries(dist: map<Node, Distance>, heap: multiset<Entry>, floor: int, u: Node, d: int)
    requires EntriesOk(dist, heap + multiset{(d, u)}, floor) && forall f | f in heap :: d <= f.0
    ensures EntriesOk(dist, heap, d)
  {
    forall e | e in heap ensures EntryOk(dist, d, e) {
      assert e in heap + multiset{(d, u)};
      assert EntryOk(dist, floor, e);
    }
  }

  lemma PopNodes(g: Graph, start: Node, dist: map<Node, Distance>, prev: map<Node, Option<Node>>,
                 heap: multiset<Entry>, rank: map<Node, nat>, floor: int, u: Node, d: int)
    requires NodesOk(g, start, dist, prev, heap + multiset{(d, u)}, rank, floor)
    requires u in g && u in dist && dist[u] == Finite(d) && u !in rank && (d, u) !in heap && floor <= d
    ensures NodesOk(g, start, dist, prev, heap, rank[u := |rank|], d)
  {
    var full := heap + multiset{(d, u)};
    var rank' := rank[u := |rank|];
    forall v | v in g ensures NodeOk(g, start, dist, prev, heap, rank', d, v) {
      assert NodeOk(g, start, dist, prev, full, rank, floor, v);
      if dist[v].Finite? {
        assert heap[(dist[v].value, v)] <= full[(dist[v].value, v)];
        if v != start {
          assert PrevLink(g, dist, prev, rank, v);
          var p := prev[v].value;
          assert NodeOk(g, start, dist, prev, full, rank, floor, p);
        }
      }
    }
  }

  /** One successful relaxation of the edge (u, v) keeps `Core`. */
  lemma RelaxStep(g: Graph, start: Node, u: Node, d: int, v: Node,
                  dist: map<Node, Distance>, prev: map<Node, Option<Node>>, heap: multiset<Entry>,
                  rank: map<Node, nat>, floor: int)
    requires Core(g, start, dist, prev, heap, rank, floor)
    requires u in rank && dist[u] == Finite(d) && floor == d
    requires HasEdge(g, u, v) && v !in rank
    requires Improves(d + Weight(g, u, v), dist[v])
    ensures v != start
    ensures Core(g, start, dist[v := Finite(d + Weight(g, u, v))], prev[v := Some(u)],
                 heap + multiset{(d + Weight(g, u, v), v)}, rank, floor)
  {
    var cand := d + Weight(g, u, v);
    assert 0 <= Weight(g, u, v);
    assert (cand, v) in heap ==> EntryOk(dist, floor, (cand, v));
    RelaxEntries(dist, heap, floor, v, cand);
    RelaxNodes(g, start, dist, prev, heap, rank, floor, u, v, cand);
  }

  lemma RelaxEntries(dist: map<Node, Distance>, heap: multiset<Entry>, floor: int, v: Node, cand: int)
    requires EntriesOk(dist, heap, floor) && v in dist && Improves(cand, dist[v]) && floor <= cand
    ensures EntriesOk(dist[v := Finite(cand)], heap + multiset{(cand, v)}, floor)
  {
    var dist' := dist[v := Finite(cand)];
    forall e | e in heap + multiset{(cand, v)} ensures EntryOk(dist', floor, e) {
      if e != (cand, v) {
        assert EntryOk(dist, floor, e);
      }
    }
  }

  lemma RelaxNodes(g: Graph, start: Node, dist: map<Node, Distance>, prev: map<Node, Option<Node>>,
                   heap: multiset<Entry>, rank: map<Node, nat>, floor: int, u: Node, v: Node, cand: int)
    requires NodesOk(g, start, dist, prev, heap, rank, floor)
    requires u in rank && u in dist && dist[u].Finite? && HasEdge(g, u, v) && v in g && v !in rank
    requires cand == dist[u].value + Weight(g, u, v) && 0 <= cand && heap[(cand, v)] == 0
    ensures NodesOk(g, start, dist[v := Finite(cand)], prev[v := Some(u)],
                    heap + multiset{(cand, v)}, rank, floor)
  {
    var dist' := dist[v := Finite(cand)];
    var prev' := prev[v := Some(u)];
    var heap' := heap + multiset{(cand, v)};
    forall x | x in g ensures NodeOk(g, start, dist', prev', heap', rank, floor, x) {
      assert NodeOk(g, start, dist, prev, heap, rank, floor, x);
      if x != v && dist[x].Finite? {
        assert heap'[(dist[x].value, x)] == heap[(dist[x].value, x)];
        if x != start {
          assert PrevLink(g, dist, prev, rank, x);
        }
      }
    }
  }

  /** Popping a stale entry, one above its node's distance, keeps the invariant. */
  lemma PopStale(g: Graph, start: Node, e: Entry,
                 dist: map<Node, Distance>, prev: map<Node, Option<Node>>, heap: multiset<Entry>,
                 rank: map<Node, nat>, floor: int)
    requires Inv(g, start, dist, prev, heap + multiset{e}, rank, floor)
    requires e.1 in dist && dist[e.1].Finite? && e.0 != dist[e.1].value
    ensures Inv(g, start, dist, prev, heap, rank, floor)
  {
    StaleEntries(dist, heap, floor, e);
    StaleNodes(g, start, dist, prev, heap, rank, floor, e);
  }

  lemma StaleEntries(dist: map<Node, Distance>, heap: multiset<Entry>, floor: int, e: Entry)
    requires EntriesOk(dist, heap + multiset{e}, floor)
    ensures EntriesOk(dist, heap, floor)
  {
    forall f | f in heap ensures EntryOk(dist, floor, f) {
      assert f in heap + multiset{e};
    }
  }

  lemma StaleNodes(g: Graph, start: Node, dist: map<Node, Distance>, prev: map<Node, Option<Node>>,
                   heap: multiset<Entry>, rank: map<Node, nat>, floor: int, e: Entry)
    requires NodesOk(g, start, dist, prev, heap + multiset{e}, rank, floor)
    requires e.1 in dist && dist[e.1].Finite? && e.0 != dist[e.1].value
    ensures NodesOk(g, start, dist, prev, heap, rank, floor)
  {
    var full := heap + multiset{e};
    forall x | x in g ensures NodeOk(g, start, dist, prev, heap, rank, floor, x) {
      assert NodeOk(g, start, dist, prev, full, rank, floor, x);
      if dist[x].Finite? {
        assert heap[(dist[x].value, x)] <= full[(dist[x].value, x)];
      }
    }
  }

  /** `prev` chains of a finished run, as `build_path` needs them. */
  ghost predicate PrevTree(g: Graph, start: Node, dist: map<Node, Distance>,
                           prev: map<Node, Option<Node>>, rank: map<Node, nat>)
  {
    && WellFormed(g) && start in g
    && dist.Keys == g.Keys && prev.Keys == g.Keys && rank.Keys <= g.Keys
    && dist[start] == Finite(0) && prev[start] == None
    && (forall v | v in g && dist[v].Finite? :: v in rank)
    && (forall v {:trigger PrevLink(g, dist, prev, rank, v)} | v in dist && v != start && dist[v].Finite? ::
             PrevLink(g, dist, prev, rank, v))
  }

  /** In a finished run, the only reached node without a predecessor is the start. */
  lemma NoPredecessorIsStart(g: Graph, start: Node, dist: map<Node, Distance>,
                             prev: map<Node, Option<Node>>, rank: map<Node, nat>, v: Node)
    requires PrevTree(g, start, dist, prev, rank) && v in g && dist[v].Finite? && prev[v].None?
    ensures v == start
  {
    assert v != start ==> PrevLink(g, dist, prev, rank, v);
  }

  /** `build_path`: follows `prev` back from `target` to the start, collecting
      nodes, then reverses; an unreachable target gets the empty path. */
  method BuildPath(g: Graph, start: Node, dist: map<Node, Distance>, prev: map<Node, Option<Node>>,
                   ghost rank: map<Node, nat>, target: Node)
    returns (path: seq<Node>)
    requires PrevTree(g, start, dist, prev, rank) && target in g
    ensures dist[target].Infinity? ==> path == []
    ensures target == start ==> path == [start]
    ensures dist[target].Finite? ==>
              WalkFrom(g, path, start, target) && WalkWeight(g, path) == dist[target].value
  {
    if dist[target].Infinity? {
      return [];
    }
    path := [target];
    var cur := prev[target];
    while cur.Some?
      invariant |path| > 0 && path[0] == target
      invariant target == start ==> path == [start] && cur.None?
      invariant path[|path| - 1] in g && dist[path[|path| - 1]].Finite?
      invariant cur == prev[path[|path| - 1]]
      invariant IsWalk(g, Reversed(path)) && Reversed(path)[|path| - 1] == target
      invariant WalkWeight(g, Reversed(path)) == dist[target].value - dist[path[|path| - 1]].value
      decreases if cur.Some? && cur.value in rank then rank[cur.value] + 1 else 0
    {
      var last := path[|path| - 1];
      assert last != start;
      assert PrevLink(g, dist, prev, rank, last);
      var c := cur.value;
      ExtendBack(g, dist, target, path, c);
      path := path + [c];
      cur := prev[c];
      if cur.Some? {
        assert c != start;
        assert PrevLink(g, dist, prev, rank, c);
      }
    }
    var last := path[|path| - 1];
    NoPredecessorIsStart(g, start, dist, prev, rank, last);
    ReversedAt(path, 0);
    path := Reversed(path);
  }

  /** Appending the predecessor `c` of the last node of a backward path keeps
      its reversal a walk to `target` whose weight grows by the edge `c -> last`. */
  lemma ExtendBack(g: Graph, dist: map<Node, Distance>, target: Node, path: seq<Node>, c: Node)
    requires |path| > 0 && IsWalk(g, Reversed(path)) && Reversed(path)[|path| - 1] == target
    requires HasEdge(g, c, path[|path| - 1])
    requires c in dist && path[|path| - 1] in dist && dist[c].Finite? && dist[path[|path| - 1]].Finite?
    requires target in dist && dist[target].Finite?
    requires WalkWeight(g, Reversed(path)) == dist[target].value - dist[path[|path| - 1]].value
    requires dist[path[|path| - 1]].value == dist[c].value + Weight(g, c, path[|path| - 1])
    ensures IsWalk(g, Reversed(path + [c])) && Reversed(path + [c])[|path|] == target
    ensures WalkWeight(g, Reversed(path + [c])) == dist[target].value - dist[c].value
  {
    var r := Reversed(path);
    var p := path + [c];
    assert Reversed(p) == [c] + r by {
      assert p[..|p| - 1] == path;
    }
    assert r[0] == path[|path| - 1] by {
      ReversedAt(path, 0);
    }
    assert ([c] + r)[1..] == r;
  }

  /** The tables before the main loop: distance 0 for the start and infinity
      elsewhere, no predecessors. */
  function InitialDist(g: Graph, start: Node): (dist: map<Node, Distance>)
    ensures dist.Keys == g.Keys
    ensures forall v | v in dist :: dist[v] == if v == start then Finite(0) else Infinity
  {
    map v | v in g :: if v == start then Finite(0) else Infinity
  }

  function NoPredecessors(g: Graph): (prev: map<Node, Option<Node>>)
    ensures prev.Keys == g.Keys && forall v | v in prev :: prev[v] == None
  {
    map v | v in g :: None
  }

  /** The invariant holds before the first pop, with the heap holding (0, start). */
  lemma InitialInv(g: Graph, start: Node)
    requires WellFormed(g) && NonNegative(g) && start in g
    ensures Inv(g, start, InitialDist(g, start), NoPredecessors(g), multiset{(0, start)}, map[], 0)
  {
    var dist, prev, heap := InitialDist(g, start), NoPredecessors(g), multiset{(0, start)};
    forall v | v in g ensures NodeOk(g, start, dist, prev, heap, map[], 0, v) {
    }
    forall f | f in heap ensures EntryOk(dist, 0, f) {
    }
  }

  /** Once the heap is empty every reached node is expanded, so the `prev`
      links form a tree and no edge can be relaxed. */
  lemma Finished(g: Graph, start: Node, dist: map<Node, Distance>, prev: map<Node, Option<Node>>,
                 rank: map<Node, nat>, floor: int)
    requires Inv(g, start, dist, prev, multiset{}, rank, floor)
    ensures PrevTree(g, start, dist, prev, rank) && RelaxationClosed(g, dist)
  {
    forall v | v in g && dist[v].Finite? ensures v in rank {
      assert NodeOk(g, start, dist, prev, multiset{}, rank, floor, v);
    }
    forall v | v in dist && v != start && dist[v].Finite? ensures PrevLink(g, dist, prev, rank, v) {
      assert NodeOk(g, start, dist, prev, multiset{}, rank, floor, v);
    }
    forall x | x in g && x in dist && dist[x].Finite? ensures Relaxed(g, dist, x) {
      assert x in rank;
    }
  }

  lemma RemoveAndRestore(heap: multiset<Entry>, e: Entry)
    requires e in heap
    ensures (heap - multiset{e}) + multiset{e} == heap
    ensures |heap - multiset{e}| < |heap|
  {
  }

  /** Expanding one more node leaves fewer nodes to expand. */
  lemma ExpansionShrinks(nodes: set<Node>, rank: map<Node, nat>, u: Node)
    requires u in nodes && u !in rank
    ensures |nodes - rank[u := |rank|].Keys| < |nodes - rank.Keys|
  {
    assert nodes - rank[u := |rank|].Keys == (nodes - rank.Keys) - {u};
  }

  /** One iteration of the main loop: pops a least entry and either skips it
      as stale or expands its node.  Either one more node is expanded or the
      heap shrinks. */
  method PopStep(g: Graph, start: Node, dist: map<Node, Distance>, prev: map<Node, Option<Node>>,
                 heap: multiset<Entry>, ghost rank: map<Node, nat>, ghost floor: int)
    returns (dist': map<Node, Distance>, prev': map<Node, Option<Node>>, heap': multiset<Entry>,
             ghost rank': map<Node, nat>, ghost floor': int)
    requires Inv(g, start, dist, prev, heap, rank, floor) && heap != multiset{}
    ensures Inv(g, start, dist', prev', heap', rank', floor')
    ensures |g.Keys - rank'.Keys| < |g.Keys - rank.Keys| || (rank' == rank && |heap'| < |heap|)
  {
    LeastExists(heap, (f: Entry) => f.0);
    var e :| e in heap && forall f | f in heap :: e.0 <= f.0;
    RemoveAndRestore(heap, e);
    heap' := heap - multiset{e};
    var d, u := e.0, e.1;
    assert EntryOk(dist, floor, e);
    if d != dist[u].value {
      // a stale entry: a better distance for `u` was found after it was pushed
      PopStale(g, start, e, dist, prev, heap', rank, floor);
      dist', prev', rank', floor' := dist, prev, rank, floor;
    } else {
      dist', prev', heap', rank', floor' := Expand(g, start, u, d, dist, prev, heap', rank, floor);
      ExpansionShrinks(g.Keys, rank, u);
    }
  }

  /** The main loop of `paths_dijkstra`: pops the least entry, skips it when
      stale, expands its node otherwise, until the heap is empty.  On exit no
      edge can be relaxed and the `prev` links form a tree rooted at `start`. */
  method Settle(g: Graph, start: Node)
    returns (dist: map<Node, Distance>, prev: map<Node, Option<Node>>, ghost rank: map<Node, nat>)
    requires WellFormed(g) && NonNegative(g) && start in g
    ensures PrevTree(g, start, dist, prev, rank) && RelaxationClosed(g, dist)
  {
    dist := InitialDist(g, start);
    prev := NoPredecessors(g);
    var heap: multiset<Entry> := multiset{(0, start)};
    rank := map[];
    ghost var floor := 0;
    InitialInv(g, start);

    while heap != multiset{}
      invariant Inv(g, start, dist, prev, heap, rank, floor)
      decreases |g.Keys - rank.Keys|, |heap|
    {
      ghost var rank0, heap0 := rank, heap;
      dist, prev, heap, rank, floor := PopStep(g, start, dist, prev, heap, rank, floor);
      assert |g.Keys - rank.Keys| < |g.Keys - rank0.Keys| || (rank == rank0 && |heap| < |heap0|);
    }
    Finished(g, start, dist, prev, rank, floor);
  }

  /** The dictionary comprehension of `paths_dijkstra`: every node's distance
      and the path `build_path` rebuilds for it. */
  method BuildTable(g: Graph, start: Node, dist: map<Node, Distance>, prev: map<Node, Option<Node>>,
                    ghost rank: map<Node, nat>)
    returns (res: map<Node, Record>)
    requires PrevTree(g, start, dist, prev, rank)
    ensures res.Keys == g.Keys && res[start].path == [start]
    ensures forall v | v in res :: res[v].distance == dist[v] && Realised(g, start, v, res[v])
  {
    res := map[];
    var todo := g.Keys;
    while todo != {}
      invariant todo <= g.Keys && res.Keys == g.Keys - todo
      invariant start in res ==> res[start].path == [start]
      invariant forall v | v in res :: res[v].distance == dist[v] && Realised(g, start, v, res[v])
      decreases todo
    {
      var v :| v in todo;
      var path := BuildPath(g, start, dist, prev, rank, v);
      res := res[v := Record(dist[v], path)];
      todo := todo - {v};
    }
  }

  /** `paths_dijkstra` of dijkstra_search.py.  A start outside the graph raises
      KeyError, a negative edge weight raises ValueError, both before any
      table is built; otherwise every node gets its shortest distance and a
      path realising it, or (infinity, []) when it cannot be reached. */
  method PathsDijkstra(g: Graph, start: Node) returns (r: Result<map<Node, Record>>)
    requires WellFormed(g)
    ensures start !in g ==> r == Raise(KeyError)
    ensures start in g && !NonNegative(g) ==> r == Raise(ValueError)
    ensures start in g && NonNegative(g) ==> r.Ok? && ShortestPathTable(g, start, r.value)
  {
    if start !in g {
      return Raise(KeyError);
    }
    var negative := HasNegativeEdge(g);
    if negative {
      return Raise(ValueError);
    }
    var dist, prev, rank := Settle(g, start);
    var res := BuildTable(g, start, dist, prev, rank);
    ClosedTableIsShortest(g, start, dist, res);
    return Ok(res);
  }
}
