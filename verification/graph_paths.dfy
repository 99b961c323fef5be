/** Breadth-first and depth-first search for a path between two stations.
    BFS keeps a queue of (node, path) items and marks a node visited when it
    is enqueued; DFS recurses over a shared visited set and a shared path
    list, appending on the way down and popping when it backtracks. */
module GraphPaths {
  import opened Wrappers
  import opened Seqs
  import opened Graphs

  /** A queue item of `bfs`: a node and the path that reached it. */
  type Item = (Node, seq<Node>)

  function Nodes(queue: seq<Item>): (s: set<Node>)
    ensures forall i | 0 <= i < |queue| :: queue[i].0 in s
    ensures forall x | x in s :: exists i :: 0 <= i < |queue| && queue[i].0 == x
  {
    set i | 0 <= i < |queue| :: queue[i].0
  }

  /** Every walk from `s` of at most `n` nodes ends at a visited node. */
  ghost predicate Within(g: Graph, s: Node, visited: set<Node>, n: int)
  {
    forall q {:trigger IsWalk(g, q)} | IsWalk(g, q) && q[0] == s && |q| <= n :: q[|q| - 1] in visited
  }

  /** A queued item: a node not yet expanded, reached by a shortest walk
      from the start of `k + 1` or `k + 2` nodes. */
  ghost predicate ItemOk(g: Graph, start: Node, expanded: set<Node>, k: nat, e: Item)
  {
    && e.0 in g && e.0 !in expanded
    && WalkFrom(g, e.1, start, e.0) && k + 1 <= |e.1| <= k + 2
    && NoShorterWalk(g, start, e.0, |e.1|)
  }

  /** The queue: valid items, shortest paths first, no node twice. */
  ghost predicate QueueOk(g: Graph, start: Node, expanded: set<Node>, k: nat, queue: seq<Item>)
  {
    && (forall i {:trigger ItemOk(g, start, expanded, k, queue[i])} | 0 <= i < |queue| ::
          ItemOk(g, start, expanded, k, queue[i]))
    && Ordered(queue)
  }

  predicate Ordered(queue: seq<Item>)
  {
    forall i, j | 0 <= i < j < |queue| :: |queue[i].1| <= |queue[j].1| && queue[i].0 != queue[j].0
  }

  /** What `bfs` keeps between two pops, save closure: the visited nodes are
      the expanded ones and the queued ones; `k + 1` nodes is the length of
      the paths at the head of the queue, and every walk from the start that
      short ends at a visited node.  `log` lists the nodes in the order they
      were enqueued. */
  ghost predicate Core(g: Graph, start: Node, goal: Node, queue: seq<Item>, visited: set<Node>,
                       expanded: set<Node>, k: nat, log: seq<Node>)
  {
    && WellFormed(g) && start in g
    && visited <= g.Keys && start in visited && goal !in expanded
    && visited == expanded + Nodes(queue)
    && QueueOk(g, start, expanded, k, queue)
    && Within(g, start, visited, k + 1)
    && Simple(log) && (forall x :: x in log <==> x in visited)
  }

  ghost predicate BfsInv(g: Graph, start: Node, goal: Node, queue: seq<Item>, visited: set<Node>,
                         expanded: set<Node>, k: nat, log: seq<Node>)
  {
    Core(g, start, goal, queue, visited, expanded, k, log) && Closed(g, expanded, visited)
  }

  lemma NoShorterWeaken(g: Graph, s: Node, t: Node, n: int, m: int)
    requires NoShorterWalk(g, s, t, n) && m <= n
    ensures NoShorterWalk(g, s, t, m)
  {
  }

  /** Once every visited but unexpanded node lies at least `n + 1` nodes
      from the start, the walks of `n + 1` nodes end at visited nodes too. */
  lemma WithinStep(g: Graph, s: Node, visited: set<Node>, expanded: set<Node>, n: nat)
    requires n > 0 && Within(g, s, visited, n) && Closed(g, expanded, visited)
    requires forall y | y in visited && y !in expanded :: NoShorterWalk(g, s, y, n + 1)
    ensures Within(g, s, visited, n + 1)
  {
    forall q | IsWalk(g, q) && q[0] == s && |q| <= n + 1 ensures q[|q| - 1] in visited {
      if |q| == n + 1 {
        var r := q[..n];
        assert IsWalk(g, r);
        var y := r[n - 1];
        assert y in visited;
        assert WalkFrom(g, r, s, y);
        assert y in expanded;
        assert HasEdge(g, q[n - 1], q[n]);
      }
    }
  }

  lemma NodesPop(queue: seq<Item>)
    requires queue != []
    ensures Nodes(queue) == Nodes(queue[1..]) + {queue[0].0}
  {
    var rest := queue[1..];
    forall i | 0 <= i < |rest| ensures rest[i].0 in Nodes(queue) {
      assert rest[i] == queue[i + 1];
    }
    forall x | x in Nodes(queue) ensures x in Nodes(rest) + {queue[0].0} {
      var i :| 0 <= i < |queue| && queue[i].0 == x;
      if i > 0 {
        assert rest[i - 1].0 == x;
      }
    }
  }

  lemma NodesPush(queue: seq<Item>, e: Item)
    ensures Nodes(queue + [e]) == Nodes(queue) + {e.0}
  {
    var q := queue + [e];
    forall i | 0 <= i < |queue| ensures queue[i].0 in Nodes(q) {
      assert q[i] == queue[i];
    }
    assert q[|queue|] == e;
    forall x | x in Nodes(q) ensures x in Nodes(queue) + {e.0} {
      var i :| 0 <= i < |q| && q[i].0 == x;
      if i < |queue| {
        assert queue[i].0 == x;
      }
    }
  }

  /** Popping the head `(u, p)` of the queue: `u` is expanded next, and the
      paths at the head now have `|p|` nodes. */
  lemma PopHead(g: Graph, start: Node, goal: Node, queue: seq<Item>, visited: set<Node>,
                expanded: set<Node>, k: nat, log: seq<Node>)
    requires BfsInv(g, start, goal, queue, visited, expanded, k, log) && queue != []
    requires queue[0].0 != goal
    ensures |queue[0].1| >= 1
    ensures Core(g, start, goal, queue[1..], visited, expanded + {queue[0].0}, |queue[0].1| - 1, log)
    ensures Closed(g, expanded, visited)
    ensures queue[0].0 in g && queue[0].0 !in expanded
    ensures WalkFrom(g, queue[0].1, start, queue[0].0)
  {
    assert ItemOk(g, start, expanded, k, queue[0]);
    NodesPop(queue);
    PopQueueOk(g, start, expanded, k, queue);
    if |queue[0].1| == k + 2 {
      HeadsFarther(g, start, expanded, visited, k, queue);
      WithinStep(g, start, visited, expanded, k + 1);
    }
  }

  /** The rest of the queue, once its head `(u, p)` is popped, is valid
      with `u` expanded and `|p|` nodes at the head. */
  lemma PopQueueOk(g: Graph, start: Node, expanded: set<Node>, k: nat, queue: seq<Item>)
    requires QueueOk(g, start, expanded, k, queue) && queue != []
    ensures |queue[0].1| >= 1
    ensures QueueOk(g, start, expanded + {queue[0].0}, |queue[0].1| - 1, queue[1..])
  {
    var rest, k', expanded' := queue[1..], |queue[0].1| - 1, expanded + {queue[0].0};
    assert ItemOk(g, start, expanded, k, queue[0]);
    forall i | 0 <= i < |rest| ensures ItemOk(g, start, expanded', k', rest[i]) {
      assert ItemOk(g, start, expanded, k, queue[i + 1]);
      assert |queue[0].1| <= |queue[i + 1].1| && queue[0].0 != queue[i + 1].0;
    }
  }

  /** When the head path has `k + 2` nodes, so has every queued path, and
      no visited node still to expand is closer than that. */
  lemma HeadsFarther(g: Graph, start: Node, expanded: set<Node>, visited: set<Node>, k: nat, queue: seq<Item>)
    requires QueueOk(g, start, expanded, k, queue) && queue != [] && |queue[0].1| == k + 2
    requires visited == expanded + Nodes(queue)
    ensures forall y | y in visited && y !in expanded :: NoShorterWalk(g, start, y, k + 2)
  {
    forall y | y in visited && y !in expanded ensures NoShorterWalk(g, start, y, k + 2) {
      var i :| 0 <= i < |queue| && queue[i].0 == y;
      assert ItemOk(g, start, expanded, k, queue[i]);
      if i > 0 {
        assert |queue[0].1| <= |queue[i].1|;
      }
      NoShorterWeaken(g, start, y, |queue[i].1|, k + 2);
    }
  }

  /** Marks `v` visited and enqueues `(v, p + [v])` when `v` is new. */
  method Discover(g: Graph, start: Node, goal: Node, u: Node, p: seq<Node>, v: Node,
                  queue: seq<Item>, visited: set<Node>,
                  ghost expanded: set<Node>, ghost k: nat, ghost log: seq<Node>)
    returns (queue': seq<Item>, visited': set<Node>, ghost log': seq<Node>)
    requires Core(g, start, goal, queue, visited, expanded, k, log)
    requires WalkFrom(g, p, start, u) && |p| == k + 1 && HasEdge(g, u, v)
    ensures Core(g, start, goal, queue', visited', expanded, k, log')
    ensures visited' == visited + {v}
  {
    queue', visited', log' := queue, visited, log;
    if v !in visited {
      var e := (v, p + [v]);
      NewItem(g, start, expanded, visited, k, p, v);
      PushItem(g, start, goal, queue, visited, expanded, k, log, e);
      visited' := visited + {v};
      queue' := queue + [e];
      log' := log + [v];
    }
  }

  /** A node first met from a head path of `k + 1` nodes is at least `k + 2`
      nodes from the start, and the extended path reaches it. */
  lemma NewItem(g: Graph, start: Node, expanded: set<Node>, visited: set<Node>, k: nat,
                p: seq<Node>, v: Node)
    requires WellFormed(g) && Within(g, start, visited, k + 1) && expanded <= visited
    requires |p| == k + 1 && WalkFrom(g, p, start, p[|p| - 1]) && HasEdge(g, p[|p| - 1], v) && v !in visited
    ensures ItemOk(g, start, expanded, k, (v, p + [v]))
  {
    assert v in g;
    WalkAppend(g, p, v);
    forall q | WalkFrom(g, q, start, v) ensures k + 2 <= |q| {
      assert IsWalk(g, q);
    }
  }

  /** Enqueueing a new valid item at the back keeps `Core`. */
  lemma PushItem(g: Graph, start: Node, goal: Node, queue: seq<Item>, visited: set<Node>,
                 expanded: set<Node>, k: nat, log: seq<Node>, e: Item)
    requires Core(g, start, goal, queue, visited, expanded, k, log)
    requires ItemOk(g, start, expanded, k, e) && e.0 !in visited && |e.1| == k + 2
    ensures Core(g, start, goal, queue + [e], visited + {e.0}, expanded, k, log + [e.0])
  {
    NodesPush(queue, e);
    forall i | 0 <= i < |queue| ensures |queue[i].1| <= |e.1| && queue[i].0 != e.0 {
      assert ItemOk(g, start, expanded, k, queue[i]);
    }
    PushQueueOk(g, start, expanded, k, queue, e);
    assert e.0 !in log;
    assert Within(g, start, visited + {e.0}, k + 1);
  }

  /** A valid item, with a path no shorter than and a node other than every
      queued one, put at the back keeps the queue valid. */
  lemma PushQueueOk(g: Graph, start: Node, expanded: set<Node>, k: nat, queue: seq<Item>, e: Item)
    requires QueueOk(g, start, expanded, k, queue) && ItemOk(g, start, expanded, k, e)
    requires forall i | 0 <= i < |queue| :: |queue[i].1| <= |e.1| && queue[i].0 != e.0
    ensures QueueOk(g, start, expanded, k, queue + [e])
  {
    var queue' := queue + [e];
    forall i | 0 <= i < |queue'| ensures ItemOk(g, start, expanded, k, queue'[i]) {
      if i < |queue| {
        assert queue'[i] == queue[i];
        assert ItemOk(g, start, expanded, k, queue[i]);
      }
    }
    assert Ordered(queue') by {
      forall i, j | 0 <= i < j < |queue'|
        ensures |queue'[i].1| <= |queue'[j].1| && queue'[i].0 != queue'[j].0
      {
        if j < |queue| {
          assert queue'[i] == queue[i] && queue'[j] == queue[j];
        } else {
          assert queue'[i] == queue[i];
        }
      }
    }
  }

  /** One pop of `bfs`: the head item `(u, p)`; when `u` is the goal, `p` is
      returned, otherwise every neighbour of `u` not yet visited is marked
      and enqueued with `p` extended by it. */
  method BfsStep(g: Graph, start: Node, goal: Node, queue: seq<Item>, visited: set<Node>,
                 ghost expanded: set<Node>, ghost k: nat, ghost log: seq<Node>)
    returns (found: Option<seq<Node>>, queue': seq<Item>, visited': set<Node>,
             ghost expanded': set<Node>, ghost k': nat, ghost log': seq<Node>)
    requires BfsInv(g, start, goal, queue, visited, expanded, k, log) && queue != []
    ensures found.Some? ==> WalkFrom(g, found.value, start, goal) && NoShorterWalk(g, start, goal, |found.value|)
    ensures found.Some? ==> log' == log
    ensures found.None? ==> BfsInv(g, start, goal, queue', visited', expanded', k', log')
    ensures found.None? ==> |g.Keys - expanded'| < |g.Keys - expanded|
  {
    var (u, p) := queue[0];
    queue' := queue[1..];
    if u == goal {
      assert ItemOk(g, start, expanded, k, queue[0]);
      return Some(p), queue', visited, expanded, k, log;
    }
    found := None;
    PopHead(g, start, goal, queue, visited, expanded, k, log);
    visited', expanded', k', log' := visited, expanded + {u}, |p| - 1, log;
    var todo := g[u].Keys;
    while todo != {}
      invariant todo <= g[u].Keys
      invariant Core(g, start, goal, queue', visited', expanded', k', log')
      invariant visited <= visited' && forall y | y in g[u] && y !in todo :: y in visited'
      decreases todo
    {
      var v :| v in todo;
      queue', visited', log' := Discover(g, start, goal, u, p, v, queue', visited', expanded', k', log');
      todo := todo - {v};
    }
    ClosedExpand(g, expanded, visited, u, visited');
    assert g.Keys - expanded' == (g.Keys - expanded) - {u};
  }

  /** Expanding `u` once all its neighbours are visited keeps the expanded
      nodes' neighbours visited. */
  lemma ClosedExpand(g: Graph, expanded: set<Node>, visited: set<Node>, u: Node, visited': set<Node>)
    requires Closed(g, expanded, visited) && visited <= visited'
    requires u in g && forall y | y in g[u] :: y in visited'
    ensures Closed(g, expanded + {u}, visited')
  {
  }

  /** `bfs`: the start alone when it is the goal; otherwise a path with the
      fewest edges, or None exactly when the goal cannot be reached.  A start
      outside the graph that is not the goal raises NetworkXError when its
      neighbours are asked for.  `enqueued` lists the nodes in the order
      they were put on the queue: none of them twice. */
  method Bfs(g: Graph, start: Node, goal: Node) returns (r: Result<Option<seq<Node>>>, ghost enqueued: seq<Node>)
    requires WellFormed(g)
    ensures start == goal ==> r == Ok(Some([start]))
    ensures start != goal && start !in g ==> r == Raise(NetworkXError)
    ensures start in g ==> r.Ok?
    ensures start in g && r.Ok? && r.value.Some? ==>
              WalkFrom(g, r.value.value, start, goal) && NoShorterWalk(g, start, goal, |r.value.value|)
    ensures r == Ok(None) <==> start in g && !Reachable(g, start, goal)
    ensures Simple(enqueued)
  {
    if start == goal {
      assert start in g ==> WalkFrom(g, [start], start, goal);
      return Ok(Some([start])), [start];
    }
    if start !in g {
      return Raise(NetworkXError), [start];
    }
    var queue: seq<Item> := [(start, [start])];
    var visited := {start};
    ghost var expanded: set<Node> := {};
    ghost var k: nat := 0;
    enqueued := [start];
    InitialBfs(g, start, goal);
    while queue != []
      invariant BfsInv(g, start, goal, queue, visited, expanded, k, enqueued)
      decreases |g.Keys - expanded|
    {
      var found;
      found, queue, visited, expanded, k, enqueued := BfsStep(g, start, goal, queue, visited, expanded, k, enqueued);
      if found.Some? {
        assert WalkFrom(g, found.value, start, goal);
        assert Reachable(g, start, goal);
        return Ok(found), enqueued;
      }
    }
    assert Simple(enqueued) && Closed(g, visited, visited) && start in visited && goal !in visited;
    Unreachable(g, start, goal, visited);
    return Ok(None), enqueued;
  }

  /** The state before the first pop: the start queued with the path [start]. */
  lemma InitialBfs(g: Graph, start: Node, goal: Node)
    requires WellFormed(g) && start in g && start != goal
    ensures BfsInv(g, start, goal, [(start, [start])], {start}, {}, 0, [start])
  {
    var queue: seq<Item> := [(start, [start])];
    assert queue[0].0 == start;
    forall x | x in Nodes(queue) ensures x == start {
      var i :| 0 <= i < |queue| && queue[i].0 == x;
    }
    assert Nodes(queue) == {start};
    assert ItemOk(g, start, {}, 0, queue[0]);
    assert Within(g, start, {start}, 1);
  }

  /** A visited set closed under neighbours, holding the start but not the
      goal, shows the goal unreachable. */
  lemma Unreachable(g: Graph, start: Node, goal: Node, visited: set<Node>)
    requires Closed(g, visited, visited) && start in visited && goal !in visited
    ensures !Reachable(g, start, goal)
  {
    forall q | WalkFrom(g, q, start, goal) ensures false {
      ClosedContainsWalks(g, visited, q);
    }
  }

  /** The recursion of `dfs` with the shared `visited` set and `path` list
      passed in and handed back.  It marks `start`, appends it, and returns
      at once when it is the goal; otherwise it recurses into each neighbour
      not yet visited and returns the first success; when every neighbour
      fails it pops `start` again.  On success the path grew by a simple
      walk from `start` to the goal; on failure the path is as it was, the
      goal was not among the newly visited nodes, and these are closed
      under neighbours. */
  method DfsVisit(g: Graph, start: Node, goal: Node, visited: set<Node>, path: seq<Node>)
    returns (found: bool, visited': set<Node>, path': seq<Node>)
    requires WellFormed(g) && start in g && start !in visited && visited <= g.Keys
    requires Simple(path) && forall x | x in path :: x in visited
    ensures visited + {start} <= visited' <= g.Keys
    ensures start == goal ==> found && path' == path + [start]
    ensures found ==>
              && |path'| > |path| && path'[..|path|] == path && WalkFrom(g, path'[|path|..], start, goal)
              && Simple(path') && forall x | x in path' :: x in visited'
    ensures !found ==> path' == path && goal !in visited' - visited && Closed(g, visited' - visited, visited')
    decreases |g.Keys - visited|
  {
    visited' := visited + {start};
    path' := path + [start];
    if start == goal {
      assert path'[|path|..] == [start];
      return true, visited', path';
    }
    var todo := g[start].Keys;
    while todo != {}
      invariant todo <= g[start].Keys
      invariant path' == path + [start] && Simple(path') && forall x | x in path' :: x in visited'
      invariant visited + {start} <= visited' <= g.Keys && goal !in visited' - visited
      invariant Closed(g, visited' - visited - {start}, visited')
      invariant forall y | y in g[start] && y !in todo :: y in visited'
      decreases todo
    {
      var v :| v in todo;
      todo := todo - {v};
      if v !in visited' {
        SubsetCard(g.Keys - visited', g.Keys - visited - {start});
        var sub, after, result := DfsVisit(g, v, goal, visited', path');
        if sub {
          StepDown(g, path, start, result, |path'|);
          return true, after, result;
        }
        visited' := after;
      }
    }
    found, path' := false, path;
  }

  /** A success one level down, from neighbour `result[|path| + 1]` of
      `start`, is a success from `start`. */
  lemma StepDown(g: Graph, path: seq<Node>, start: Node, result: seq<Node>, n: nat)
    requires n == |path| + 1 && |result| > n && result[..n] == path + [start]
    requires WalkFrom(g, result[n..], result[n], result[|result| - 1]) && HasEdge(g, start, result[n])
    ensures result[..|path|] == path
    ensures WalkFrom(g, result[|path|..], start, result[|result| - 1])
  {
    assert result[..|path|] == result[..n][..|path|];
    var w := result[|path|..];
    assert w == [start] + result[n..];
    assert w[1..] == result[n..];
    assert forall i | 1 <= i < |w| :: w[i] == result[n..][i - 1];
  }

  /** `dfs` called with its defaults: the start alone when it is the goal;
      otherwise a simple path to the goal, or None exactly when the goal
      cannot be reached.  A start outside the graph that is not the goal
      raises NetworkXError when its neighbours are asked for. */
  method Dfs(g: Graph, start: Node, goal: Node) returns (r: Result<Option<seq<Node>>>)
    requires WellFormed(g)
    ensures start == goal ==> r == Ok(Some([start]))
    ensures start != goal && start !in g ==> r == Raise(NetworkXError)
    ensures start in g ==> r.Ok?
    ensures start in g && r.Ok? && r.value.Some? ==> WalkFrom(g, r.value.value, start, goal) && Simple(r.value.value)
    ensures r == Ok(None) <==> start in g && !Reachable(g, start, goal)
  {
    if start !in g {
      if start == goal {
        return Ok(Some([start]));
      }
      return Raise(NetworkXError);
    }
    var found, visited, path := DfsVisit(g, start, goal, {}, []);
    if found {
      assert path[0..] == path;
      assert Reachable(g, start, goal);
      return Ok(Some(path));
    }
    Unreachable(g, start, goal, visited);
    return Ok(None);
  }

  /** What the comparison in the program's entry point reports: when both
      searches find a path, the BFS one has no more edges than the DFS one. */
  method CompareBfsDfs(g: Graph, start: Node, goal: Node) returns (r: Option<(nat, nat)>)
    requires WellFormed(g) && start in g
    ensures r.Some? <==> Reachable(g, start, goal)
    ensures r.Some? ==> r.value.0 <= r.value.1
  {
    var b, _ := Bfs(g, start, goal);
    var d := Dfs(g, start, goal);
    if b.Ok? && b.value.Some? && d.Ok? && d.value.Some? {
      var p, q := b.value.value, d.value.value;
      assert WalkFrom(g, q, start, goal);
      return Some((|p| - 1, |q| - 1));
    }
    return None;
  }
}
