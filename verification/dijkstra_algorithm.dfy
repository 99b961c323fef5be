/** The older Dijkstra variant: one `distances` table of (distance, path)
    rows and a heap of (distance, node, path) entries, so that every entry
    carries the whole path it stands for.  An entry above its node's
    recorded distance is skipped when popped. */
module DijkstraAlgorithm {
  import opened Wrappers
  import opened Seqs
  import opened Graphs

  /** A heap entry: (tentative distance, node, path to the node). */
  type Entry = (int, Node, seq<Node>)

  /** What the main loop knows about one node `v`: its row is realised by
      its path; a finite distance is non-negative and its own entry is in
      the heap at most once; an expanded node sits at or below the floor and
      has no own entry left; an unexpanded finite node has its own entry. */
  ghost predicate NodeOk(g: Graph, start: Node, table: map<Node, Record>, heap: multiset<Entry>,
                         done: set<Node>, floor: int, v: Node)
  {
    && v in table
    && Realised(g, start, v, table[v])
    && (table[v].distance.Finite? ==>
          0 <= table[v].distance.value && heap[(table[v].distance.value, v, table[v].path)] <= 1)
    && (v in done ==>
          && table[v].distance.Finite? && table[v].distance.value <= floor
          && (table[v].distance.value, v, table[v].path) !in heap)
    && (v !in done && table[v].distance.Finite? ==> (table[v].distance.value, v, table[v].path) in heap)
  }

  /** A heap entry names a reached node, is no better than that node's
      distance and at or above the floor, and its path is a walk from the
      start of its weight; an entry at the node's distance is the node's row. */
  ghost predicate EntryOk(g: Graph, start: Node, table: map<Node, Record>, floor: int, e: Entry)
  {
    && e.1 in table && table[e.1].distance.Finite? && table[e.1].distance.value <= e.0 && floor <= e.0
    && WalkFrom(g, e.2, start, e.1) && WalkWeight(g, e.2) == e.0
    && (e.0 == table[e.1].distance.value ==> e.2 == table[e.1].path)
  }

  ghost predicate EntriesOk(g: Graph, start: Node, table: map<Node, Record>, heap: multiset<Entry>, floor: int)
  {
    forall e {:trigger EntryOk(g, start, table, floor, e)} | e in heap :: EntryOk(g, start, table, floor, e)
  }

  ghost predicate NodesOk(g: Graph, start: Node, table: map<Node, Record>, heap: multiset<Entry>,
                          done: set<Node>, floor: int)
  {
    forall v {:trigger NodeOk(g, start, table, heap, done, floor, v)} | v in g ::
      NodeOk(g, start, table, heap, done, floor, v)
  }

  /** The state shared by the main loop and the relaxation loop.  `done` is
      the set of expanded nodes and `floor` the distance of the last one. */
  ghost predicate Core(g: Graph, start: Node, table: map<Node, Record>, heap: multiset<Entry>,
                       done: set<Node>, floor: int)
  {
    && WellFormed(g) && NonNegative(g) && start in g
    && table.Keys == g.Keys && done <= g.Keys
    && table[start] == Record(Finite(0), [start])
    && floor >= 0
    && EntriesOk(g, start, table, heap, floor)
    && NodesOk(g, start, table, heap, done, floor)
  }

  /** No edge out of `u` can be relaxed below the distances in `table`. */
  ghost predicate RowRelaxed(g: Graph, table: map<Node, Record>, u: Node)
  {
    && u in g && u in table && table[u].distance.Finite?
    && forall v | v in g[u] ::
         v in table && table[v].distance.Finite?
         && table[v].distance.value <= table[u].distance.value + Weight(g, u, v)
  }

  /** The main loop's invariant: additionally every expanded node is relaxed. */
  ghost predicate Inv(g: Graph, start: Node, table: map<Node, Record>, heap: multiset<Entry>,
                      done: set<Node>, floor: int)
  {
    && Core(g, start, table, heap, done, floor)
    && (forall u {:trigger RowRelaxed(g, table, u)} | u in done :: RowRelaxed(g, table, u))
  }

  /** Expanding `u` along the popped path `p` left the row of `v` alone, or
      strictly lowered its distance and gave it the path `p + [v]`; the
      latter only for a node not yet expanded. */
  ghost predicate Lowered(table: map<Node, Record>, done: set<Node>, table': map<Node, Record>,
                          p: seq<Node>, v: Node)
  {
    && v in table && v in table'
    && (table'[v] == table[v]
        || (&& v !in done && table'[v].path == p + [v] && table'[v].distance.Finite?
            && Improves(table'[v].distance.value, table[v].distance)))
  }

  ghost predicate AllLowered(g: Graph, table: map<Node, Record>, done: set<Node>, table': map<Node, Record>,
                             p: seq<Node>)
  {
    forall v {:trigger Lowered(table, done, table', p, v)} | v in g :: Lowered(table, done, table', p, v)
  }

  /** The edge (u, v) cannot be relaxed below `d + w(u, v)`. */
  ghost predicate RelaxedFrom(g: Graph, table: map<Node, Record>, u: Node, d: int, v: Node)
  {
    && HasEdge(g, u, v) && v in table && table[v].distance.Finite?
    && table[v].distance.value <= d + Weight(g, u, v)
  }

  /** Expands the node `u` of a live entry `(d, u, p)` just popped with the
      least distance: for each neighbour `v`, when `d + w` beats the
      recorded distance, records `(d + w, p + [v])` and pushes `(d + w, v, p + [v])`. */
  method Expand(g: Graph, start: Node, u: Node, d: int, p: seq<Node>,
                table: map<Node, Record>, heap: multiset<Entry>, ghost done: set<Node>, ghost floor: int)
    returns (table': map<Node, Record>, heap': multiset<Entry>, ghost done': set<Node>, ghost floor': int)
    requires Inv(g, start, table, heap + multiset{(d, u, p)}, done, floor)
    requires u in g && table[u].distance == Finite(d)
    requires forall f | f in heap :: d <= f.0
    ensures Inv(g, start, table', heap', done', floor')
    ensures u !in done && done' == done + {u}
    ensures AllLowered(g, table, done', table', p)
  {
    PopLive(g, start, u, d, p, table, heap, done, floor);
    done' := done + {u};
    floor' := d;
    table', heap' := table, heap;
    forall v | v in g ensures Lowered(table, done', table', p, v) {
    }
    var todo := g[u].Keys;
    ghost var seen: set<Node> := {};
    while todo != {}
      invariant todo <= g[u].Keys && seen == g[u].Keys - todo
      invariant Core(g, start, table', heap', done', floor') && floor' == d
      invariant AllLowered(g, table, done', table', p) && table'[u] == table[u]
      invariant forall v {:trigger RelaxedFrom(g, table', u, d, v)} | v in seen :: RelaxedFrom(g, table', u, d, v)
      decreases todo
    {
      var v :| v in todo;
      table', heap' := RelaxEdge(g, start, u, d, p, v, table', heap', done', table, seen);
      todo := todo - {v};
      seen := seen + {v};
    }
    ExpandedRelaxed(g, table, done, table', u, d, p);
  }

  /** One pass of the inner loop over the neighbours of `u`. */
  method RelaxEdge(g: Graph, start: Node, u: Node, d: int, p: seq<Node>, v: Node,
                   table: map<Node, Record>, heap: multiset<Entry>, ghost done: set<Node>,
                   ghost table0: map<Node, Record>, ghost seen: set<Node>)
    returns (table': map<Node, Record>, heap': multiset<Entry>)
    requires Core(g, start, table, heap, done, d) && u in done && v in g[u]
    requires table[u] == Record(Finite(d), p)
    requires AllLowered(g, table0, done, table, p) && u in table0 && table[u] == table0[u]
    requires forall x {:trigger RelaxedFrom(g, table, u, d, x)} | x in seen :: RelaxedFrom(g, table, u, d, x)
    ensures Core(g, start, table', heap', done, d)
    ensures AllLowered(g, table0, done, table', p) && table'[u] == table0[u]
    ensures forall x {:trigger RelaxedFrom(g, table', u, d, x)} | x in seen + {v} :: RelaxedFrom(g, table', u, d, x)
  {
    assert v in g;
    var distance := d + Weight(g, u, v);
    table', heap' := table, heap;
    if Improves(distance, table[v].distance) {
      assert v !in done by {
        assert v in done ==> NodeOk(g, start, table, heap, done, d, v);
      }
      RelaxStep(g, start, u, d, p, v, table, heap, done);
      LowerStep(g, table0, done, table, p, v, distance);
      RelaxedFromStep(g, table, u, d, v, Record(Finite(distance), p + [v]), seen);
      table' := table[v := Record(Finite(distance), p + [v])];
      heap' := heap + multiset{(distance, v, p + [v])};
    }
    assert RelaxedFrom(g, table', u, d, v);
  }

  /** One successful relaxation keeps every node `Lowered`. */
  lemma LowerStep(g: Graph, table: map<Node, Record>, done: set<Node>, table': map<Node, Record>,
                  p: seq<Node>, v: Node, distance: int)
    requires AllLowered(g, table, done, table', p)
    requires v in g && v !in done && v in table' && Improves(distance, table'[v].distance)
    ensures AllLowered(g, table, done, table'[v := Record(Finite(distance), p + [v])], p)
  {
    var table'' := table'[v := Record(Finite(distance), p + [v])];
    forall x | x in g ensures Lowered(table, done, table'', p, x) {
      assert Lowered(table, done, table', p, x);
    }
  }

  /** Lowering the row of `v` keeps the already relaxed edges out of `u` relaxed. */
  lemma RelaxedFromStep(g: Graph, table: map<Node, Record>, u: Node, d: int, v: Node, row: Record,
                        seen: set<Node>)
    requires forall x {:trigger RelaxedFrom(g, table, u, d, x)} | x in seen :: RelaxedFrom(g, table, u, d, x)
    requires HasEdge(g, u, v) && row.distance == Finite(d + Weight(g, u, v)) && v in table
    requires Improves(row.distance.value, table[v].distance)
    ensures forall x {:trigger RelaxedFrom(g, table[v := row], u, d, x)} | x in seen ::
              RelaxedFrom(g, table[v := row], u, d, x)
  {
    forall x | x in seen ensures RelaxedFrom(g, table[v := row], u, d, x) {
      assert RelaxedFrom(g, table, u, d, x);
    }
  }

  /** After all edges out of `u` are relaxed, every expanded node, `u` included, is relaxed. */
  lemma ExpandedRelaxed(g: Graph, table: map<Node, Record>, done: set<Node>, table': map<Node, Record>,
                        u: Node, d: int, p: seq<Node>)
    requires WellFormed(g) && done <= g.Keys && u in g && u in table' && table'[u].distance == Finite(d)
    requires forall x {:trigger RowRelaxed(g, table, x)} | x in done :: RowRelaxed(g, table, x)
    requires AllLowered(g, table, done + {u}, table', p)
    requires forall v {:trigger RelaxedFrom(g, table', u, d, v)} | v in g[u].Keys :: RelaxedFrom(g, table', u, d, v)
    ensures forall x {:trigger RowRelaxed(g, table', x)} | x in done + {u} :: RowRelaxed(g, table', x)
  {
    forall x | x in done + {u} ensures RowRelaxed(g, table', x) {
      if x == u {
        forall v | v in g[u]
          ensures v in table' && table'[v].distance.Finite?
          ensures table'[v].distance.value <= table'[u].distance.value + Weight(g, u, v)
        {
          assert RelaxedFrom(g, table', u, d, v);
        }
      } else {
        assert RowRelaxed(g, table, x);
        assert Lowered(table, done + {u}, table', p, x);
        forall v | v in g[x]
          ensures v in table' && table'[v].distance.Finite?
          ensures table'[v].distance.value <= table'[x].distance.value + Weight(g, x, v)
        {
          assert Lowered(table, done + {u}, table', p, v);
        }
      }
    }
  }

  /** Popping the least live entry `(d, u, p)` and marking `u` expanded at floor `d` keeps `Core`. */
  lemma PopLive(g: Graph, start: Node, u: Node, d: int, p: seq<Node>,
                table: map<Node, Record>, heap: multiset<Entry>, done: set<Node>, floor: int)
    requires Core(g, start, table, heap + multiset{(d, u, p)}, done, floor)
    requires u in g && table[u].distance == Finite(d)
    requires forall f | f in heap :: d <= f.0
    ensures u !in done && table[u].path == p && (d, u, p) !in heap
    ensures Core(g, start, table, heap, done + {u}, d)
  {
    var full := heap + multiset{(d, u, p)};
    assert NodeOk(g, start, table, full, done, floor, u);
    assert EntryOk(g, start, table, floor, (d, u, p));
    PopEntries(g, start, table, heap, floor, (d, u, p));
    PopNodes(g, start, table, heap, done, floor, u, d);
  }

  lemma PopEntries(g: Graph, start: Node, table: map<Node, Record>, heap: multiset<Entry>, floor: int,
                   e: Entry)
    requires EntriesOk(g, start, table, heap + multiset{e}, floor) && forall f | f in heap :: e.0 <= f.0
    ensures EntriesOk(g, start, table, heap, e.0)
  {
    forall f | f in heap ensures EntryOk(g, start, table, e.0, f) {
      assert f in heap + multiset{e};
      assert EntryOk(g, start, table, floor, f);
    }
  }

  lemma PopNodes(g: Graph, start: Node, table: map<Node, Record>, heap: multiset<Entry>,
                 done: set<Node>, floor: int, u: Node, d: int)
    requires u in table && table[u].distance == Finite(d)
    requires NodesOk(g, start, table, heap + multiset{(d, u, table[u].path)}, done, floor)
    requires u in g && u !in done && (d, u, table[u].path) !in heap && floor <= d
    ensures NodesOk(g, start, table, heap, done + {u}, d)
  {
    var full := heap + multiset{(d, u, table[u].path)};
    forall v | v in g ensures NodeOk(g, start, table, heap, done + {u}, d, v) {
      assert NodeOk(g, start, table, full, done, floor, v);
      if table[v].distance.Finite? {
        var own := (table[v].distance.value, v, table[v].path);
        assert heap[own] <= full[own];
      }
    }
  }

  /** One successful relaxation of the edge (u, v) keeps `Core`. */
  lemma RelaxStep(g: Graph, start: Node, u: Node, d: int, p: seq<Node>, v: Node,
                  table: map<Node, Record>, heap: multiset<Entry>, done: set<Node>)
    requires Core(g, start, table, heap, done, d)
    requires u in done && table[u] == Record(Finite(d), p)
    requires HasEdge(g, u, v) && v !in done
    requires Improves(d + Weight(g, u, v), table[v].distance)
    ensures v != start
    ensures Core(g, start, table[v := Record(Finite(d + Weight(g, u, v)), p + [v])],
                 heap + multiset{(d + Weight(g, u, v), v, p + [v])}, done, d)
  {
    var distance := d + Weight(g, u, v);
    assert 0 <= Weight(g, u, v);
    assert NodeOk(g, start, table, heap, done, d, u);
    ExtendWalk(g, start, u, v, p);
    var e := (distance, v, p + [v]);
    assert e in heap ==> EntryOk(g, start, table, d, e);
    RelaxEntries(g, start, table, heap, d, e);
    RelaxNodes(g, start, table, heap, done, d, e);
  }

  /** A walk from the start to `u` extended by the edge (u, v) is a walk to `v`. */
  lemma ExtendWalk(g: Graph, start: Node, u: Node, v: Node, p: seq<Node>)
    requires WalkFrom(g, p, start, u) && HasEdge(g, u, v) && v in g
    ensures WalkFrom(g, p + [v], start, v)
    ensures WalkWeight(g, p + [v]) == WalkWeight(g, p) + Weight(g, u, v)
  {
    WalkAppend(g, p, v);
  }

  lemma RelaxEntries(g: Graph, start: Node, table: map<Node, Record>, heap: multiset<Entry>, floor: int,
                     e: Entry)
    requires EntriesOk(g, start, table, heap, floor) && e.1 in table
    requires Improves(e.0, table[e.1].distance) && floor <= e.0
    requires WalkFrom(g, e.2, start, e.1) && WalkWeight(g, e.2) == e.0
    ensures EntriesOk(g, start, table[e.1 := Record(Finite(e.0), e.2)], heap + multiset{e}, floor)
  {
    var table' := table[e.1 := Record(Finite(e.0), e.2)];
    forall f | f in heap + multiset{e} ensures EntryOk(g, start, table', floor, f) {
      if f != e {
        assert EntryOk(g, start, table, floor, f);
      }
    }
  }

  lemma RelaxNodes(g: Graph, start: Node, table: map<Node, Record>, heap: multiset<Entry>,
                   done: set<Node>, floor: int, e: Entry)
    requires NodesOk(g, start, table, heap, done, floor)
    requires e.1 in g && e.1 !in done && 0 <= e.0 && heap[e] == 0
    requires WalkFrom(g, e.2, start, e.1) && WalkWeight(g, e.2) == e.0
    ensures NodesOk(g, start, table[e.1 := Record(Finite(e.0), e.2)], heap + multiset{e}, done, floor)
  {
    var table' := table[e.1 := Record(Finite(e.0), e.2)];
    var heap' := heap + multiset{e};
    forall x | x in g ensures NodeOk(g, start, table', heap', done, floor, x) {
      assert NodeOk(g, start, table, heap, done, floor, x);
      if x != e.1 && table[x].distance.Finite? {
        var own := (table[x].distance.value, x, table[x].path);
        assert heap'[own] == heap[own];
      }
    }
  }

  /** Popping a stale entry, one above its node's distance, keeps the invariant. */
  lemma PopStale(g: Graph, start: Node, e: Entry, table: map<Node, Record>, heap: multiset<Entry>,
                 done: set<Node>, floor: int)
    requires Inv(g, start, table, heap + multiset{e}, done, floor)
    requires e.1 in table && table[e.1].distance.Finite? && e.0 > table[e.1].distance.value
    ensures Inv(g, start, table, heap, done, floor)
  {
    StaleEntries(g, start, table, heap, floor, e);
    StaleNodes(g, start, table, heap, done, floor, e);
  }

  lemma StaleEntries(g: Graph, start: Node, table: map<Node, Record>, heap: multiset<Entry>, floor: int,
                     e: Entry)
    requires EntriesOk(g, start, table, heap + multiset{e}, floor)
    ensures EntriesOk(g, start, table, heap, floor)
  {
    forall f | f in heap ensures EntryOk(g, start, table, floor, f) {
      assert f in heap + multiset{e};
    }
  }

  lemma StaleNodes(g: Graph, start: Node, table: map<Node, Record>, heap: multiset<Entry>,
                   done: set<Node>, floor: int, e: Entry)
    requires NodesOk(g, start, table, heap + multiset{e}, done, floor)
    requires e.1 in table && table[e.1].distance.Finite? && e.0 > table[e.1].distance.value
    ensures NodesOk(g, start, table, heap, done, floor)
  {
    var full := heap + multiset{e};
    forall x | x in g ensures NodeOk(g, start, table, heap, done, floor, x) {
      assert NodeOk(g, start, table, full, done, floor, x);
      if table[x].distance.Finite? {
        var own := (table[x].distance.value, x, table[x].path);
        assert heap[own] <= full[own];
      }
    }
  }

  /** `distances` before the main loop: (infinity, []) for every node, then
      (0, [start]) for the start. */
  function InitialTable(g: Graph, start: Node): (table: map<Node, Record>)
    ensures table.Keys == g.Keys + {start}
    ensures forall v | v in table ::
              table[v] == if v == start then Record(Finite(0), [start]) else Record(Infinity, [])
  {
    (map v | v in g :: Record(Infinity, []))[start := Record(Finite(0), [start])]
  }

  /** The invariant holds before the first pop, with the heap holding (0, start, [start]). */
  lemma InitialInv(g: Graph, start: Node)
    requires WellFormed(g) && NonNegative(g) && start in g
    ensures Inv(g, start, InitialTable(g, start), multiset{(0, start, [start])}, {}, 0)
  {
    var table, heap := InitialTable(g, start), multiset{(0, start, [start])};
    forall v | v in g ensures NodeOk(g, start, table, heap, {}, 0, v) {
    }
    forall f | f in heap ensures EntryOk(g, start, table, 0, f) {
    }
  }

  /** Distances of a table, the view `RelaxationClosed` is stated on. */
  function Distances(table: map<Node, Record>): (dist: map<Node, Distance>)
    ensures dist.Keys == table.Keys && forall v | v in table :: dist[v] == table[v].distance
  {
    map v | v in table :: table[v].distance
  }

  /** Once the heap is empty every reached node is expanded, so no edge can
      be relaxed, and the table is a shortest-path table. */
  lemma Finished(g: Graph, start: Node, table: map<Node, Record>, done: set<Node>, floor: int)
    requires Inv(g, start, table, multiset{}, done, floor)
    ensures ShortestPathTable(g, start, table)
  {
    var dist := Distances(table);
    forall x | x in g && x in dist && dist[x].Finite? ensures Relaxed(g, dist, x) {
      assert NodeOk(g, start, table, multiset{}, done, floor, x);
      assert RowRelaxed(g, table, x);
    }
    forall v | v in table ensures table[v].distance == dist[v] && Realised(g, start, v, table[v]) {
      assert NodeOk(g, start, table, multiset{}, done, floor, v);
    }
    ClosedTableIsShortest(g, start, dist, table);
  }

  lemma RemoveAndRestore(heap: multiset<Entry>, e: Entry)
    requires e in heap
    ensures (heap - multiset{e}) + multiset{e} == heap
    ensures |heap - multiset{e}| < |heap|
  {
  }

  /** Expanding one more node leaves fewer nodes to expand. */
  lemma ExpansionShrinks(nodes: set<Node>, done: set<Node>, u: Node)
    requires u in nodes && u !in done
    ensures |nodes - (done + {u})| < |nodes - done|
  {
    assert nodes - (done + {u}) == (nodes - done) - {u};
  }

  /** One iteration of the main loop: pops a least entry and either skips it
      as stale or expands its node.  Either one more node is expanded or the
      heap shrinks. */
  method PopStep(g: Graph, start: Node, table: map<Node, Record>, heap: multiset<Entry>,
                 ghost done: set<Node>, ghost floor: int)
    returns (table': map<Node, Record>, heap': multiset<Entry>, ghost done': set<Node>, ghost floor': int)
    requires Inv(g, start, table, heap, done, floor) && heap != multiset{}
    ensures Inv(g, start, table', heap', done', floor')
    ensures |g.Keys - done'| < |g.Keys - done| || (done' == done && |heap'| < |heap|)
  {
    LeastExists(heap, (f: Entry) => f.0);
    var e :| e in heap && forall f | f in heap :: e.0 <= f.0;
    RemoveAndRestore(heap, e);
    heap' := heap - multiset{e};
    var (d, u, p) := e;
    assert EntryOk(g, start, table, floor, e);
    if d > table[u].distance.value {
      PopStale(g, start, e, table, heap', done, floor);
      table', done', floor' := table, done, floor;
    } else {
      table', heap', done', floor' := Expand(g, start, u, d, p, table, heap', done, floor);
      ExpansionShrinks(g.Keys, done, u);
    }
  }

  /** `paths_dijkstra` of dijkstra_algorithm.py.  A start outside the graph
      raises NetworkXError when its neighbours are asked for; otherwise every
      node gets its shortest distance and a path realising it, or
      (infinity, []) when it cannot be reached. */
  method PathsDijkstra(g: Graph, start: Node) returns (r: Result<map<Node, Record>>)
    requires WellFormed(g) && NonNegative(g)
    ensures start !in g ==> r == Raise(NetworkXError)
    ensures start in g ==> r.Ok? && ShortestPathTable(g, start, r.value)
  {
    var table := InitialTable(g, start);
    if start !in g {
      // the first pop is (0, start, [start]); `graph.neighbors(start)` raises
      return Raise(NetworkXError);
    }
    var heap: multiset<Entry> := multiset{(0, start, [start])};
    ghost var done: set<Node> := {};
    ghost var floor := 0;
    InitialInv(g, start);
    while heap != multiset{}
      invariant Inv(g, start, table, heap, done, floor)
      decreases |g.Keys - done|, |heap|
    {
      table, heap, done, floor := PopStep(g, start, table, heap, done, floor);
    }
    Finished(g, start, table, done, floor);
    return Ok(table);
  }
}
