/** Joining cables at least cost: joining two cables costs the sum of their
    lengths, and the cheapest way to join all of them into one is to join
    the two shortest cables, again and again. */
module Cables {
  import opened Seqs

  /** The lengths in ascending order. */
  function Ascending(s: seq<int>): (t: seq<int>)
    ensures Sorted(t) && multiset(t) == multiset(s) && |t| == |s|
  {
    if s == [] then []
    else
      var r := Ascending(s[1..]);
      MergedSorted([s[0]], r);
      MergedPermutation([s[0]], r);
      assert s == [s[0]] + s[1..];
      Merged([s[0]], r)
  }

  /** `Ascending` is the only sorted arrangement of the lengths. */
  lemma AscendingOf(s: seq<int>, t: seq<int>)
    requires Sorted(t) && multiset(t) == multiset(s)
    ensures Ascending(s) == t
  {
    SortedUnique(Ascending(s), t);
  }

  /** The greedy strategy on cables given in ascending order: join the
      first two, put the joined cable back in its place in the order, and
      repeat while two or more cables are left. */
  function GreedyRun(t: seq<int>): int
    decreases |t|
  {
    if |t| <= 1 then 0
    else
      var c := t[0] + t[1];
      MergedPermutation([c], t[2..]);
      c + GreedyRun(Merged([c], t[2..]))
  }

  /** The total cost of the greedy strategy on the cables `s`. */
  function GreedyCost(s: seq<int>): int
  {
    GreedyRun(Ascending(s))
  }

  lemma SortedSuffix(t: seq<int>, n: nat)
    requires Sorted(t) && n <= |t|
    ensures Sorted(t[n..])
  {
    forall i, j | 0 <= i < j < |t[n..]| ensures t[n..][i] <= t[n..][j] {
      assert t[n + i] <= t[n + j];
    }
  }

  /** After the two shortest cables are joined, the cables left, in
      ascending order, are the joined one put in its place among the rest. */
  lemma AscendingAfterJoin(t: seq<int>, rest: seq<int>)
    requires Sorted(t) && |t| >= 2
    requires multiset(rest) == multiset(t[2..]) + multiset{t[0] + t[1]}
    ensures Ascending(rest) == Merged([t[0] + t[1]], t[2..])
  {
    var c, tail := t[0] + t[1], t[2..];
    SortedSuffix(t, 2);
    MergedSorted([c], tail);
    MergedPermutation([c], tail);
    AscendingOf(rest, Merged([c], tail));
  }

  /** The greedy cost of cables in ascending order is the cost of joining
      the two shortest plus the greedy cost of the cables left after that
      join, in whatever order they come. */
  lemma GreedyStep(t: seq<int>, rest: seq<int>)
    requires Sorted(t) && |t| >= 2
    requires multiset(rest) == multiset(t[2..]) + multiset{t[0] + t[1]}
    ensures GreedyRun(t) == t[0] + t[1] + GreedyCost(rest)
  {
    AscendingAfterJoin(t, rest);
  }

  /** The position of a least element of `s`. */
  function LeastAt(s: seq<int>): (k: nat)
    requires s != []
    ensures k < |s| && forall j | 0 <= j < |s| :: s[k] <= s[j]
  {
    if |s| == 1 then 0
    else
      var k := LeastAt(s[1..]);
      if s[0] <= s[1..][k] then 0 else k + 1
  }

  /** `s` less its element at `k`. */
  function Without(s: seq<int>, k: nat): (r: seq<int>)
    requires k < |s|
    ensures multiset(r) + multiset{s[k]} == multiset(s)
  {
    var before, at, after := s[..k], [s[k]], s[k + 1..];
    assert s == before + at + after;
    before + after
  }

  /** Taking out a least element leaves the rest of the ascending order. */
  lemma PopLeast(s: seq<int>, k: nat)
    requires k < |s| && forall j | 0 <= j < |s| :: s[k] <= s[j]
    ensures Ascending(s) == [s[k]] + Ascending(Without(s, k))
  {
    var r := Ascending(Without(s, k));
    LeastFirst(s, k, r);
    AscendingOf(s, [s[k]] + r);
  }

  lemma LeastFirst(s: seq<int>, k: nat, r: seq<int>)
    requires k < |s| && forall j | 0 <= j < |s| :: s[k] <= s[j]
    requires Sorted(r) && multiset(r) == multiset(Without(s, k))
    ensures Sorted([s[k]] + r) && multiset([s[k]] + r) == multiset(s)
  {
    forall j | 0 <= j < |r| ensures s[k] <= r[j] {
      assert r[j] in multiset(s);
    }
    ConsSorted(s[k], r);
  }

  /** The list of cable lengths the caller passes in, which
      `minimize_cable_cost` rearranges and shrinks in place. */
  class CableList {
    var items: seq<int>

    constructor (items: seq<int>)
      ensures this.items == items
    {
      this.items := items;
    }
  }

  /** `heapq.heappop`: removes and returns a least element.  The heap's own
      arrangement of the list is not modelled: the list afterwards is
      described by its ascending order, which is the old one less its
      first element. */
  method HeapPop(cables: CableList) returns (x: int)
    requires cables.items != []
    modifies cables
    ensures x == Ascending(old(cables.items))[0]
    ensures Ascending(cables.items) == Ascending(old(cables.items))[1..]
    ensures |cables.items| == |old(cables.items)| - 1
    ensures Sum(cables.items) == Sum(old(cables.items)) - x
  {
    var s := cables.items;
    var k := LeastAt(s);
    x := s[k];
    cables.items := Without(s, k);
    PopLeast(s, k);
    SumRemove(s, k);
  }

  /** One round of the loop: pops the two shortest cables and pushes back
      their join, whose length is the round's cost. */
  method JoinTwo(cables: CableList) returns (cost: int)
    requires |cables.items| > 1
    modifies cables
    ensures GreedyCost(old(cables.items)) == cost + GreedyCost(cables.items)
    ensures Sum(cables.items) == Sum(old(cables.items))
    ensures |cables.items| == |old(cables.items)| - 1
  {
    ghost var t := Ascending(cables.items);
    var first := HeapPop(cables);
    var second := HeapPop(cables);
    cost := first + second;
    var rest := cables.items;
    assert Ascending(rest) == t[2..] && cost == t[0] + t[1];
    PushJoined(t, rest, cost);
    cables.items := rest + [cost];
    GreedyStep(t, cables.items);
  }

  /** The joined cable pushed onto what the two pops leave makes the rest
      of the ascending order plus the joined cable, with the same total. */
  lemma PushJoined(t: seq<int>, rest: seq<int>, c: int)
    requires |t| >= 2 && Ascending(rest) == t[2..]
    ensures multiset(rest + [c]) == multiset(t[2..]) + multiset{c}
    ensures Sum(rest + [c]) == Sum(rest) + c
  {
    assert multiset(rest) == multiset(t[2..]);
    SumAppend(rest, [c]);
    assert Sum([c]) == c + Sum([]);
  }

  lemma SingleSum(s: seq<int>)
    requires |s| == 1
    ensures s == [Sum(s)]
  {
    assert Sum(s) == s[0] + Sum(s[1..]);
  }

  /** `minimize_cable_cost`: while two or more cables are left, pops the
      two shortest, adds their joined length to the total, and pushes the
      joined cable back.  The total is the greedy cost; `joins` counts
      the joins, one fewer than the cables; a non-empty list ends holding
      the one cable whose length is the sum of all the lengths. */
  method MinimizeCableCost(cables: CableList) returns (totalCost: int, ghost joins: nat)
    modifies cables
    ensures totalCost == GreedyCost(old(cables.items))
    ensures |old(cables.items)| <= 1 ==> totalCost == 0 && cables.items == old(cables.items)
    ensures old(cables.items) != [] ==> cables.items == [Sum(old(cables.items))] && joins == |old(cables.items)| - 1
  {
    ghost var s0 := cables.items;
    totalCost, joins := 0, 0;
    while |cables.items| > 1
      invariant totalCost + GreedyCost(cables.items) == GreedyCost(s0)
      invariant Sum(cables.items) == Sum(s0)
      invariant joins + |cables.items| == |s0|
      invariant s0 != [] ==> cables.items != []
      invariant |s0| <= 1 ==> cables.items == s0
      decreases |cables.items|
    {
      var cost := JoinTwo(cables);
      totalCost := totalCost + cost;
      joins := joins + 1;
    }
    if s0 != [] {
      SingleSum(cables.items);
    }
  }

  /** [4, 3, 2, 6] costs 5 + 9 + 15 = 29. */
  lemma CablesExample(s: seq<int>)
    requires s == [4, 3, 2, 6]
    ensures GreedyCost(s) == 29
  {
    ExampleAscending(s, [2, 3, 4, 6]);
    GreedyRunExample([2, 3, 4, 6], [4, 5, 6], [6, 9], [15]);
  }

  lemma ExampleAscending(s: seq<int>, t: seq<int>)
    requires s == [4, 3, 2, 6] && t == [2, 3, 4, 6]
    ensures Ascending(s) == t
  {
    assert multiset(s) == multiset(t);
    AscendingOf(s, t);
  }

  /** The joins of the example: 2 + 3, then 4 + 5, then 6 + 9. */
  lemma GreedyRunExample(t: seq<int>, u: seq<int>, v: seq<int>, w: seq<int>)
    requires t == [2, 3, 4, 6] && u == [4, 5, 6] && v == [6, 9] && w == [15]
    ensures GreedyRun(t) == 29
  {
    assert GreedyRun(w) == 0;
    assert v[2..] == [] && Merged([15], []) == w;
    assert GreedyRun(v) == 15;
    assert u[2..] == [6] && Merged([9], [6]) == v;
    assert GreedyRun(u) == 24;
    assert t[2..] == [4, 6] && Merged([5], [4, 6]) == u;
  }

  // ---------------------------------------------------------------------
  // Optimality: no order of joins costs less than the greedy one.

  /** The way a set of cables ends up joined: every `Join` is one join,
      whose cost is the total length of the cables under it. */
  datatype JoinTree = Cable(length: int) | Join(left: JoinTree, right: JoinTree)

  /** The cables joined, left to right. */
  function Lengths(t: JoinTree): (s: seq<int>)
    ensures |s| >= 1 && (t.Join? ==> |s| >= 2)
  {
    match t
    case Cable(w) => [w]
    case Join(l, r) => Lengths(l) + Lengths(r)
  }

  function One(w: int, v: int): nat
  {
    if w == v then 1 else 0
  }

  /** How many of the cables joined have length `v`. */
  function Count(t: JoinTree, v: int): nat
  {
    match t
    case Cable(w) => One(w, v)
    case Join(l, r) => Count(l, v) + Count(r, v)
  }

  lemma {:induction false} CountLengths(t: JoinTree, v: int)
    ensures multiset(Lengths(t))[v] == Count(t, v)
  {
    match t
    case Cable(w) =>
    case Join(l, r) =>
      CountLengths(l, v);
      CountLengths(r, v);
  }

  /** The length of the finished cable. */
  function Total(t: JoinTree): int
  {
    match t
    case Cable(w) => w
    case Join(l, r) => Total(l) + Total(r)
  }

  /** The sum of the costs of all the joins. */
  function JoinCost(t: JoinTree): int
  {
    match t
    case Cable(_) => 0
    case Join(l, r) => JoinCost(l) + JoinCost(r) + Total(l) + Total(r)
  }

  /** Each cable's length times its depth below `d` levels of joins: the
      same cost, counted cable by cable. */
  function Weighted(t: JoinTree, d: int): int
  {
    match t
    case Cable(w) => w * d
    case Join(l, r) => Weighted(l, d + 1) + Weighted(r, d + 1)
  }

  lemma {:induction false} WeightedShift(t: JoinTree, d: int)
    ensures Weighted(t, d + 1) == Weighted(t, d) + Total(t)
  {
    match t
    case Cable(w) =>
    case Join(l, r) =>
      WeightedShift(l, d + 1);
      WeightedShift(r, d + 1);
  }

  /** Counting join by join and cable by cable gives the same cost. */
  lemma {:induction false} CostIsWeighted(t: JoinTree)
    ensures JoinCost(t) == Weighted(t, 0)
  {
    match t
    case Cable(w) =>
    case Join(l, r) =>
      CostIsWeighted(l);
      CostIsWeighted(r);
      WeightedShift(l, 0);
      WeightedShift(r, 0);
  }

  /** A path from the top: `false` goes left, `true` goes right. */
  type Path = seq<bool>

  function Child(t: JoinTree, right: bool): JoinTree
    requires t.Join?
  {
    if right then t.right else t.left
  }

  /** `p` leads to a single cable. */
  predicate IsLeaf(t: JoinTree, p: Path)
    decreases |p|
  {
    if p == [] then t.Cable? else t.Join? && IsLeaf(Child(t, p[0]), p[1..])
  }

  /** The length of the cable at `p`. */
  function At(t: JoinTree, p: Path): int
    requires IsLeaf(t, p)
    decreases |p|
  {
    if p == [] then t.length else At(Child(t, p[0]), p[1..])
  }

  /** The tree with the cable at `p` replaced by one of length `w`. */
  function Put(t: JoinTree, p: Path, w: int): JoinTree
    requires IsLeaf(t, p)
    decreases |p|
  {
    if p == [] then Cable(w)
    else if p[0] then Join(t.left, Put(t.right, p[1..], w))
    else Join(Put(t.left, p[1..], w), t.right)
  }

  /** The depth of the deepest cable. */
  function Height(t: JoinTree): nat
  {
    match t
    case Cable(_) => 0
    case Join(l, r) => 1 + if Height(l) < Height(r) then Height(r) else Height(l)
  }

  lemma {:induction false} LeafDepth(t: JoinTree, p: Path)
    requires IsLeaf(t, p)
    ensures |p| <= Height(t)
    decreases |p|
  {
    if p != [] {
      LeafDepth(Child(t, p[0]), p[1..]);
    }
  }

  lemma {:induction false} AtIn(t: JoinTree, p: Path)
    requires IsLeaf(t, p)
    ensures Count(t, At(t, p)) >= 1
    decreases |p|
  {
    if p != [] {
      AtIn(Child(t, p[0]), p[1..]);
    }
  }

  /** Replacing one cable keeps the shape and every other cable. */
  lemma {:induction false} PutAt(t: JoinTree, p: Path, w: int, q: Path)
    requires IsLeaf(t, p)
    ensures IsLeaf(Put(t, p, w), q) == IsLeaf(t, q)
    ensures IsLeaf(t, q) ==> At(Put(t, p, w), q) == if q == p then w else At(t, q)
    ensures Height(Put(t, p, w)) == Height(t)
    decreases |p|
  {
    if p != [] {
      var c := Child(t, p[0]);
      if q != [] && q[0] == p[0] {
        PutAt(c, p[1..], w, q[1..]);
        assert q == p <==> q[1..] == p[1..] by {
          if q[1..] == p[1..] {
            assert q == [q[0]] + q[1..] && p == [p[0]] + p[1..];
          }
        }
      } else {
        PutAt(c, p[1..], w, []);
      }
    }
  }

  /** Replacing one cable changes the count of its old length and of its
      new length only. */
  lemma {:induction false} PutCount(t: JoinTree, p: Path, w: int, v: int)
    requires IsLeaf(t, p)
    ensures Count(Put(t, p, w), v) + One(At(t, p), v) == Count(t, v) + One(w, v)
    decreases |p|
  {
    if p != [] {
      PutCount(Child(t, p[0]), p[1..], w, v);
    }
  }

  /** Replacing one cable changes the cost by the change in length times
      the cable's depth. */
  lemma {:induction false} PutWeighted(t: JoinTree, p: Path, w: int, d: int)
    requires IsLeaf(t, p)
    ensures Weighted(Put(t, p, w), d) == Weighted(t, d) + (w - At(t, p)) * (d + |p|)
    decreases |p|
  {
    if p == [] {
      assert w * d == t.length * d + (w - t.length) * d;
    } else {
      PutWeighted(Child(t, p[0]), p[1..], w, d + 1);
    }
  }

  /** A path to a cable of length `w`. */
  function Find(t: JoinTree, w: int): (p: Path)
    requires Count(t, w) >= 1
    ensures IsLeaf(t, p) && At(t, p) == w
  {
    match t
    case Cable(_) => []
    case Join(l, r) =>
      if Count(l, w) >= 1 then
        var p := Find(l, w);
        assert ([false] + p)[1..] == p;
        [false] + p
      else
        var p := Find(r, w);
        assert ([true] + p)[1..] == p;
        [true] + p
  }

  /** `q` leads to a join of two single cables. */
  predicate PairAt(t: JoinTree, q: Path)
    decreases |q|
  {
    t.Join? && if q == [] then t.left.Cable? && t.right.Cable? else PairAt(Child(t, q[0]), q[1..])
  }

  /** The lengths of the two cables joined at `q`. */
  function PairOf(t: JoinTree, q: Path): (int, int)
    requires PairAt(t, q)
    decreases |q|
  {
    if q == [] then (t.left.length, t.right.length) else PairOf(Child(t, q[0]), q[1..])
  }

  /** A pair is two cables side by side. */
  lemma {:induction false} PairLeaves(t: JoinTree, q: Path)
    ensures PairAt(t, q) <==> IsLeaf(t, q + [false]) && IsLeaf(t, q + [true])
    ensures PairAt(t, q) ==> At(t, q + [false]) == PairOf(t, q).0 && At(t, q + [true]) == PairOf(t, q).1
    decreases |q|
  {
    var qa, qb := q + [false], q + [true];
    if q == [] {
      assert qa == [false] && qb == [true];
    } else {
      assert qa[0] == q[0] && qb[0] == q[0] && qa[1..] == q[1..] + [false] && qb[1..] == q[1..] + [true];
      if t.Join? {
        PairLeaves(Child(t, q[0]), q[1..]);
      }
    }
  }

  /** A join of two single cables at the greatest depth. */
  function DeepPair(t: JoinTree): (q: Path)
    requires t.Join?
    ensures PairAt(t, q) && |q| + 1 == Height(t)
  {
    if t.left.Cable? && t.right.Cable? then []
    else if Height(t.right) <= Height(t.left) then
      var q := DeepPair(t.left);
      assert ([false] + q)[1..] == q;
      [false] + q
    else
      var q := DeepPair(t.right);
      assert ([true] + q)[1..] == q;
      [true] + q
  }

  /** The two cables at `p1` and `p2` trade places. */
  function Swap(t: JoinTree, p1: Path, p2: Path): JoinTree
    requires IsLeaf(t, p1) && IsLeaf(t, p2)
  {
    PutAt(t, p1, At(t, p2), p2);
    Put(Put(t, p1, At(t, p2)), p2, At(t, p1))
  }

  /** A swap keeps the shape and the cables off the two paths. */
  lemma SwapShape(t: JoinTree, p1: Path, p2: Path, q: Path)
    requires IsLeaf(t, p1) && IsLeaf(t, p2) && p1 != p2
    ensures IsLeaf(Swap(t, p1, p2), q) == IsLeaf(t, q)
    ensures IsLeaf(t, q) ==>
              At(Swap(t, p1, p2), q) == if q == p1 then At(t, p2) else if q == p2 then At(t, p1) else At(t, q)
    ensures Height(Swap(t, p1, p2)) == Height(t)
  {
    var t1 := Put(t, p1, At(t, p2));
    PutAt(t, p1, At(t, p2), p2);
    PutAt(t, p1, At(t, p2), q);
    PutAt(t1, p2, At(t, p1), q);
  }

  /** A swap keeps the lengths and changes the cost by the difference of
      the two lengths times the difference of their depths. */
  lemma SwapCost(t: JoinTree, p1: Path, p2: Path, v: int)
    requires IsLeaf(t, p1) && IsLeaf(t, p2) && p1 != p2
    ensures Count(Swap(t, p1, p2), v) == Count(t, v)
    ensures Weighted(Swap(t, p1, p2), 0) == Weighted(t, 0) + (At(t, p2) - At(t, p1)) * (|p1| - |p2|)
  {
    var a, b := At(t, p1), At(t, p2);
    var t1 := Put(t, p1, b);
    PutAt(t, p1, b, p2);
    PutCount(t, p1, b, v);
    PutCount(t1, p2, a, v);
    PutWeighted(t, p1, b, 0);
    PutWeighted(t1, p2, a, 0);
    assert (b - a) * |p1| + (a - b) * |p2| == (b - a) * (|p1| - |p2|);
  }

  /** The tree with the join at `q`, of two single cables, made a single
      cable. */
  function Collapse(t: JoinTree, q: Path): JoinTree
    requires PairAt(t, q)
    decreases |q|
  {
    if q == [] then Cable(t.left.length + t.right.length)
    else if q[0] then Join(t.left, Collapse(t.right, q[1..]))
    else Join(Collapse(t.left, q[1..]), t.right)
  }

  /** Making the pair at `q` one cable saves the cost of that join. */
  lemma {:induction false} CollapseWeighted(t: JoinTree, q: Path, d: int)
    requires PairAt(t, q)
    ensures Weighted(Collapse(t, q), d) == Weighted(t, d) - PairOf(t, q).0 - PairOf(t, q).1
    decreases |q|
  {
    if q == [] {
      var a, b := t.left.length, t.right.length;
      assert (a + b) * d == a * (d + 1) + b * (d + 1) - a - b;
    } else {
      CollapseWeighted(Child(t, q[0]), q[1..], d + 1);
    }
  }

  /** Making the pair at `q` one cable trades its two lengths for their
      sum. */
  lemma {:induction false} CollapseCount(t: JoinTree, q: Path, v: int)
    requires PairAt(t, q)
    ensures Count(Collapse(t, q), v) + One(PairOf(t, q).0, v) + One(PairOf(t, q).1, v)
         == Count(t, v) + One(PairOf(t, q).0 + PairOf(t, q).1, v)
    decreases |q|
  {
    if q != [] {
      CollapseCount(Child(t, q[0]), q[1..], v);
    }
  }

  /** Any length that occurs beyond one occurrence of the least is at
      least the second least. */
  lemma SecondLeast(s: seq<int>, v: int)
    requires Sorted(s) && |s| >= 2 && multiset(s)[v] >= 1 + One(s[0], v)
    ensures s[1] <= v
  {
    assert s == [s[0]] + s[1..];
    assert v in multiset(s[1..]);
    var j :| 0 <= j < |s[1..]| && s[1..][j] == v;
    assert s[1] <= s[j + 1];
  }

  lemma NonPositiveProduct(a: int, b: int)
    requires a >= 0 && b <= 0
    ensures a * b <= 0
  {
  }

  /** First half of the exchange step: the shortest cable moves to the
      left of a deepest pair, at no extra cost. */
  lemma PlaceLeast(t: JoinTree, s: seq<int>, q: Path) returns (t1: JoinTree)
    requires Sorted(s) && |s| >= 2 && forall v :: multiset(s)[v] == Count(t, v)
    requires PairAt(t, q) && |q| + 1 == Height(t)
    ensures forall v :: Count(t1, v) == Count(t, v)
    ensures Weighted(t1, 0) <= Weighted(t, 0)
    ensures PairAt(t1, q) && |q| + 1 == Height(t1) && PairOf(t1, q).0 == s[0]
  {
    var x := s[0];
    assert x in multiset(s);
    PairLeaves(t, q);
    var qa, qb := q + [false], q + [true];
    var px := Find(t, x);
    LeafDepth(t, px);
    t1 := t;
    if px != qa {
      AtIn(t, qa);
      var i :| 0 <= i < |s| && s[i] == At(t, qa);
      assert x <= At(t, qa);
      t1 := Swap(t, px, qa);
      SwapShape(t, px, qa, qa);
      SwapShape(t, px, qa, qb);
      SwapCost(t, px, qa, 0);
      NonPositiveProduct(At(t, qa) - x, |px| - |qa|);
    }
    forall v ensures Count(t1, v) == Count(t, v) {
      if px != qa {
        SwapCost(t, px, qa, v);
      }
    }
    PairLeaves(t1, q);
  }

  /** Second half of the exchange step: the second shortest cable moves to
      the right of the shortest, at no extra cost. */
  lemma PlaceSecond(t1: JoinTree, s: seq<int>, q: Path) returns (t2: JoinTree)
    requires Sorted(s) && |s| >= 2 && forall v :: multiset(s)[v] == Count(t1, v)
    requires PairAt(t1, q) && |q| + 1 == Height(t1) && PairOf(t1, q).0 == s[0]
    ensures forall v :: Count(t2, v) == Count(t1, v)
    ensures Weighted(t2, 0) <= Weighted(t1, 0)
    ensures PairAt(t2, q) && PairOf(t2, q) == (s[0], s[1])
  {
    var x, y := s[0], s[1];
    HeadCount(s, y);
    PairLeaves(t1, q);
    var qa, qb := q + [false], q + [true];
    assert qa != qb by {
      assert qa[|q|] != qb[|q|];
    }
    var b := At(t1, qb);
    // With the shortest cable hidden behind a longer one, `Find` cannot
    // return its place.
    var z := (if b > y then b else y) + 1;
    var t1z := Put(t1, qa, z);
    PutCount(t1, qa, z, y);
    var py := Find(t1z, y);
    PutAt(t1, qa, z, py);
    PutAt(t1, qa, z, qb);
    AtIn(t1z, qb);
    PutCount(t1, qa, z, b);
    SecondLeast(s, b);
    LeafDepth(t1, py);
    t2 := t1;
    if py != qb {
      t2 := Swap(t1, py, qb);
      SwapShape(t1, py, qb, qa);
      SwapShape(t1, py, qb, qb);
      SwapCost(t1, py, qb, 0);
      NonPositiveProduct(b - y, |py| - |qb|);
    }
    forall v ensures Count(t2, v) == Count(t1, v) {
      if py != qb {
        SwapCost(t1, py, qb, v);
      }
    }
    PairLeaves(t2, q);
  }

  /** The exchange step: the tree can be rearranged, at no extra cost, so
      that the two shortest cables `s[0]` and `s[1]` are joined to each
      other. */
  lemma Arrange(t: JoinTree, s: seq<int>) returns (t2: JoinTree, q: Path)
    requires t.Join? && Sorted(s) && |s| >= 2 && forall v :: multiset(s)[v] == Count(t, v)
    ensures forall v :: Count(t2, v) == Count(t, v)
    ensures Weighted(t2, 0) <= Weighted(t, 0)
    ensures PairAt(t2, q) && PairOf(t2, q) == (s[0], s[1])
  {
    q := DeepPair(t);
    var t1 := PlaceLeast(t, s, q);
    t2 := PlaceSecond(t1, s, q);
  }

  /** Joining the two shortest cables first leaves the rest of the cables
      and their sum. */
  lemma CollapseLengths(t2: JoinTree, q: Path, s: seq<int>)
    requires |s| >= 2 && forall v :: multiset(s)[v] == Count(t2, v)
    requires PairAt(t2, q) && PairOf(t2, q) == (s[0], s[1])
    ensures multiset(Lengths(Collapse(t2, q))) == multiset(s[2..]) + multiset{s[0] + s[1]}
  {
    var m, m2 := multiset(Lengths(Collapse(t2, q))), multiset(s[2..]) + multiset{s[0] + s[1]};
    assert m == m2 by {
      forall v ensures m[v] == m2[v] {
        CollapseLengthsAt(t2, q, s, v);
      }
    }
  }

  lemma CollapseLengthsAt(t2: JoinTree, q: Path, s: seq<int>, v: int)
    requires |s| >= 2 && multiset(s)[v] == Count(t2, v)
    requires PairAt(t2, q) && PairOf(t2, q) == (s[0], s[1])
    ensures multiset(Lengths(Collapse(t2, q)))[v] == multiset(s[2..])[v] + One(s[0] + s[1], v)
  {
    CountLengths(Collapse(t2, q), v);
    CollapseCount(t2, q, v);
    HeadCount(s, v);
  }

  /** How often `v` occurs in `s`, counted past its first two elements. */
  lemma HeadCount(s: seq<int>, v: int)
    requires |s| >= 2
    ensures multiset(s)[v] == One(s[0], v) + One(s[1], v) + multiset(s[2..])[v]
  {
    assert s == [s[0]] + [s[1]] + s[2..];
  }

  /** The greedy strategy is optimal: every way of joining the cables of
      `t` costs at least the greedy cost. */
  lemma {:induction false} GreedyIsOptimal(t: JoinTree)
    ensures GreedyCost(Lengths(t)) <= JoinCost(t)
    decreases |Lengths(t)|
  {
    CostIsWeighted(t);
    if t.Join? {
      var s := Ascending(Lengths(t));
      forall v ensures multiset(s)[v] == Count(t, v) {
        CountLengths(t, v);
      }
      var t2, q := Arrange(t, s);
      var t3 := Collapse(t2, q);
      CollapseWeighted(t2, q, 0);
      CollapseLengths(t2, q, s);
      assert |Lengths(t3)| == |multiset(Lengths(t3))| == |s| - 1;
      GreedyStep(s, Lengths(t3));
      GreedyIsOptimal(t3);
      CostIsWeighted(t3);
    }
  }
}
