/** The binary heaps of the pyramid visualiser: a heap kept in an array,
    where the children of position `i` are `2i + 1` and `2i + 2`, built in
    place bottom-up, linked into a tree of nodes, and checked for positions
    out of heap order. */
module Pyramid {
  import opened Wrappers

  /** The `heap_type` argument: a min-heap keeps the least element on top,
      a max-heap the greatest. */
  datatype HeapKind = MinHeap | MaxHeap

  /** Reads `heap_type`; anything but "min" and "max" is a ValueError. */
  function ParseKind(heapType: string): (r: Result<HeapKind>)
    ensures r.Ok? <==> heapType in {"min", "max"}
    ensures r.Raise? ==> r.error == ValueError
    ensures r.Ok? ==> (r.value == MinHeap <==> heapType == "min")
  {
    if heapType == "min" then Ok(MinHeap)
    else if heapType == "max" then Ok(MaxHeap)
    else Raise(ValueError)
  }

  /** `better(a, b)`: `a` belongs above `b`. */
  predicate Better(kind: HeapKind, a: int, b: int)
  {
    if kind == MinHeap then a < b else a > b
  }

  /** `violates(parent, child)`: the parent does not belong above the
      child. */
  predicate Violates(kind: HeapKind, parent: int, child: int)
  {
    if kind == MinHeap then parent > child else parent < child
  }

  /** A violation is exactly a child that belongs above its parent. */
  lemma ViolatesIsBetter(kind: HeapKind, parent: int, child: int)
    ensures Violates(kind, parent, child) <==> Better(kind, child, parent)
  {
  }

  function Left(i: nat): nat
  {
    2 * i + 1
  }

  function Right(i: nat): nat
  {
    2 * i + 2
  }

  function Parent(k: nat): (p: nat)
    requires k > 0
    ensures p < k && (k == Left(p) || k == Right(p))
  {
    (k - 1) / 2
  }

  /** Position `i` is in heap order with its children below `n`. */
  predicate InOrderAt(kind: HeapKind, s: seq<int>, i: nat, n: nat)
    requires n <= |s|
  {
    (Left(i) < n ==> !Better(kind, s[Left(i)], s[i])) && (Right(i) < n ==> !Better(kind, s[Right(i)], s[i]))
  }

  /** Every element is in heap order with its children. */
  predicate IsHeap(kind: HeapKind, s: seq<int>)
  {
    forall i | 0 <= i < |s| :: InOrderAt(kind, s, i, |s|)
  }

  /** The top of a heap belongs above no other element: it is the least
      element of a min-heap and the greatest of a max-heap. */
  lemma {:induction false} HeapTop(kind: HeapKind, s: seq<int>, k: nat)
    requires IsHeap(kind, s) && k < |s|
    ensures !Better(kind, s[k], s[0])
  {
    if k > 0 {
      var p := Parent(k);
      assert InOrderAt(kind, s, p, |s|);
      HeapTop(kind, s, p);
    }
  }

  /** The position among `i` and its children below `n` whose element
      belongs highest, preferring `i`, then the left child: the choice of
      `best` in `sift_down`. */
  function Best(kind: HeapKind, s: seq<int>, i: nat, n: nat): (b: nat)
    requires i < n <= |s|
    ensures b == i || (b == Left(i) && Left(i) < n) || (b == Right(i) && Right(i) < n)
    ensures b == i <==> InOrderAt(kind, s, i, n)
    ensures b != i ==> Better(kind, s[b], s[i])
    ensures Left(i) < n ==> !Better(kind, s[Left(i)], s[b])
    ensures Right(i) < n ==> !Better(kind, s[Right(i)], s[b])
  {
    var b1 := if Left(i) < n && Better(kind, s[Left(i)], s[i]) then Left(i) else i;
    if Right(i) < n && Better(kind, s[Right(i)], s[b1]) then Right(i) else b1
  }

  /** The children of `i` below `n` do not belong above `v`. */
  predicate NotAbove(kind: HeapKind, s: seq<int>, i: nat, n: nat, v: int)
    requires n <= |s|
  {
    (Left(i) < n ==> !Better(kind, s[Left(i)], v)) && (Right(i) < n ==> !Better(kind, s[Right(i)], v))
  }

  /** The state of `sift_down(start, n)` with the moving element at `i`:
      every position from `start` on but `i` is in order, and the children
      of `i` do not belong above the parent of `i`. */
  predicate Sifting(kind: HeapKind, s: seq<int>, start: nat, n: nat, i: nat)
  {
    start <= i < n <= |s|
    && (forall j | start <= j < n && j != i :: InOrderAt(kind, s, j, n))
    && (i > start ==> start <= Parent(i) && NotAbove(kind, s, i, n, s[Parent(i)]))
  }

  /** `s` with the elements at `i` and `j` exchanged. */
  function Swapped(s: seq<int>, i: nat, j: nat): (t: seq<int>)
    requires i < |s| && j < |s|
    ensures |t| == |s| && t[i] == s[j] && t[j] == s[i]
    ensures forall k | 0 <= k < |s| && k != i && k != j :: t[k] == s[k]
    ensures multiset(t) == multiset(s)
  {
    s[i := s[j]][j := s[i]]
  }

  /** One exchange of `sift_down` keeps its state, one level further
      down. */
  lemma SiftStep(kind: HeapKind, s: seq<int>, start: nat, n: nat, i: nat)
    requires Sifting(kind, s, start, n, i) && Best(kind, s, i, n) != i
    ensures Sifting(kind, Swapped(s, i, Best(kind, s, i, n)), start, n, Best(kind, s, i, n))
  {
    var b := Best(kind, s, i, n);
    var t := Swapped(s, i, b);
    assert Parent(b) == i;
    OrderAfterSwap(kind, s, start, n, i, b);
    assert InOrderAt(kind, s, b, n);
  }

  /** After the exchange of `i` with its best child `b`, every position
      from `start` on but `b` is in order. */
  lemma OrderAfterSwap(kind: HeapKind, s: seq<int>, start: nat, n: nat, i: nat, b: nat)
    requires Sifting(kind, s, start, n, i) && b == Best(kind, s, i, n) != i
    ensures forall j | start <= j < n && j != b :: InOrderAt(kind, Swapped(s, i, b), j, n)
  {
    var t := Swapped(s, i, b);
    forall j | start <= j < n && j != b ensures InOrderAt(kind, t, j, n) {
      if j == i {
        assert t[i] == s[b] && !Better(kind, s[i], s[b]);
      } else if i > start && j == Parent(i) {
        assert t[j] == s[j] && t[i] == s[b] && Left(j) != b && Right(j) != b;
        assert !Better(kind, s[b], s[j]);
        assert InOrderAt(kind, s, j, n);
      } else {
        assert Left(j) != i && Right(j) != i && Left(j) != b && Right(j) != b;
        assert InOrderAt(kind, s, j, n);
      }
    }
  }

  /** `sift_down(start, n)`: moves the element at `start` down, each time
      exchanging it with its best child, until no child belongs above it.
      Afterwards every position from `start` on is in order. */
  method SiftDown(a: array<int>, kind: HeapKind, start: nat, n: nat)
    requires start < n <= a.Length
    requires forall j | start < j < n :: InOrderAt(kind, a[..], j, n)
    modifies a
    ensures forall j | start <= j < n :: InOrderAt(kind, a[..], j, n)
    ensures multiset(a[..]) == multiset(old(a[..]))
  {
    var i := start;
    while true
      invariant Sifting(kind, a[..], start, n, i)
      invariant multiset(a[..]) == multiset(old(a[..]))
      decreases n - i
    {
      var best := Best(kind, a[..], i, n);
      if best == i {
        break;
      }
      ghost var s := a[..];
      SiftStep(kind, s, start, n, i);
      a[i], a[best] := a[best], a[i];
      assert a[..] == Swapped(s, i, best);
      i := best;
    }
  }

  /** `heapify_in_place`: rejects an unknown `heap_type` before touching
      the array; otherwise sifts down every position that has a child,
      from the last one to the top, and returns the same array, now a
      heap holding the same elements. */
  method HeapifyInPlace(a: array<int>, heapType: string) returns (r: Result<array<int>>)
    modifies a
    ensures ParseKind(heapType).Raise? ==> r == Raise(ValueError) && a[..] == old(a[..])
    ensures ParseKind(heapType).Ok? ==>
              r == Ok(a) && IsHeap(ParseKind(heapType).value, a[..]) && multiset(a[..]) == multiset(old(a[..]))
  {
    var parsed := ParseKind(heapType);
    if parsed.Raise? {
      return Raise(parsed.error);
    }
    var kind := parsed.value;
    var n := a.Length;
    var i: int := n / 2 - 1;
    while i >= 0
      invariant -1 <= i < n
      invariant forall j: nat | i < j < n :: InOrderAt(kind, a[..], j, n)
      invariant multiset(a[..]) == multiset(old(a[..]))
      decreases i
    {
      SiftDown(a, kind, i, n);
      i := i - 1;
    }
    return Ok(a);
  }

  // ---------------------------------------------------------------------
  // Linking the array into a tree of nodes.

  /** A node of the drawn tree. */
  class Node {
    var left: Node?
    var right: Node?
    var val: int
    var color: string

    /** `Node(value, color)`: a node with no children. */
    constructor (value: int, color: string)
      ensures val == value && this.color == color && left == null && right == null
    {
      val := value;
      this.color := color;
      left := null;
      right := null;
    }
  }

  /** `heap_array_to_tree`: no tree for an empty array; otherwise one new
      node per element, node `k` linked to nodes `2k + 1` and `2k + 2` where
      they exist, every node "skyblue" but the root, which takes
      `rootColor`.  `nodes` lists the new nodes by position. */
  method HeapArrayToTree(heapArray: seq<int>, rootColor: string) returns (root: Node?, ghost nodes: seq<Node>)
    ensures root == null <==> heapArray == []
    ensures |nodes| == |heapArray| && (root != null ==> root == nodes[0])
    ensures forall k | 0 <= k < |nodes| :: fresh(nodes[k])
    ensures forall j, k | 0 <= j < k < |nodes| :: nodes[j] != nodes[k]
    ensures forall k | 0 <= k < |nodes| ::
              && nodes[k].val == heapArray[k]
              && nodes[k].left == (if Left(k) < |nodes| then nodes[Left(k)] else null)
              && nodes[k].right == (if Right(k) < |nodes| then nodes[Right(k)] else null)
              && nodes[k].color == if k == 0 then rootColor else "skyblue"
  {
    if heapArray == [] {
      return null, [];
    }
    var ns, index := MakeNodes(heapArray);
    LinkNodes(ns, index);
    ns[0].color := rootColor;
    root, nodes := ns[0], ns;
    forall j, k | 0 <= j < k < |nodes| ensures nodes[j] != nodes[k] {
      assert index[nodes[j]] != index[nodes[k]];
    }
  }

  /** `[Node(v) for v in heap_array]`: one new, unlinked, "skyblue" node
      per element; `index` maps each node back to its position, so no node
      occurs twice. */
  method MakeNodes(heapArray: seq<int>) returns (ns: seq<Node>, ghost index: map<Node, nat>)
    ensures |ns| == |heapArray|
    ensures forall k | 0 <= k < |ns| :: fresh(ns[k])
    ensures forall k | 0 <= k < |ns| :: ns[k] in index && index[ns[k]] == k
    ensures forall k | 0 <= k < |ns| ::
              ns[k].val == heapArray[k] && ns[k].left == null && ns[k].right == null && ns[k].color == "skyblue"
  {
    ns, index := [], map[];
    while |ns| < |heapArray|
      invariant |ns| <= |heapArray|
      invariant forall k | 0 <= k < |ns| :: fresh(ns[k])
      invariant forall k | 0 <= k < |ns| :: ns[k] in index && index[ns[k]] == k
      invariant forall k | 0 <= k < |ns| ::
                  ns[k].val == heapArray[k] && ns[k].left == null && ns[k].right == null && ns[k].color == "skyblue"
    {
      var node := new Node(heapArray[|ns|], "skyblue");
      index := index[node := |ns|];
      ns := ns + [node];
    }
  }

  /** The linking loop of `heap_array_to_tree`: node `k` gets nodes
      `2k + 1` and `2k + 2` as children where they exist. */
  method LinkNodes(ns: seq<Node>, ghost index: map<Node, nat>)
    requires forall k | 0 <= k < |ns| :: ns[k] in index && index[ns[k]] == k
    requires forall k | 0 <= k < |ns| :: ns[k].left == null && ns[k].right == null
    modifies set k | 0 <= k < |ns| :: ns[k]
    ensures forall k | 0 <= k < |ns| ::
              && ns[k].val == old(ns[k].val) && ns[k].color == old(ns[k].color)
              && ns[k].left == (if Left(k) < |ns| then ns[Left(k)] else null)
              && ns[k].right == (if Right(k) < |ns| then ns[Right(k)] else null)
  {
    var n := |ns|;
    for i := 0 to n
      invariant forall k | 0 <= k < n :: ns[k].val == old(ns[k].val)
      invariant forall k | 0 <= k < n :: ns[k].color == old(ns[k].color)
      invariant forall k | 0 <= k < n :: ns[k].left == (if k < i && Left(k) < n then ns[Left(k)] else null)
      invariant forall k | 0 <= k < n :: ns[k].right == (if k < i && Right(k) < n then ns[Right(k)] else null)
    {
      LinkChildren(ns, index, i);
    }
  }

  /** One round of the linking loop: node `i` gets nodes `2i + 1` and
      `2i + 2` as children where they exist. */
  method LinkChildren(ns: seq<Node>, ghost index: map<Node, nat>, i: nat)
    requires i < |ns|
    requires forall k | 0 <= k < |ns| :: ns[k] in index && index[ns[k]] == k
    modifies ns[i]
    ensures forall k | 0 <= k < |ns| ::
              ns[k].left == if k == i && Left(i) < |ns| then ns[Left(i)] else old(ns[k].left)
    ensures forall k | 0 <= k < |ns| ::
              ns[k].right == if k == i && Right(i) < |ns| then ns[Right(i)] else old(ns[k].right)
    ensures forall k | 0 <= k < |ns| :: ns[k].val == old(ns[k].val) && ns[k].color == old(ns[k].color)
  {
    if Left(i) < |ns| {
      ns[i].left := ns[Left(i)];
    }
    if Right(i) < |ns| {
      ns[i].right := ns[Right(i)];
    }
    forall k | 0 <= k < |ns| && k != i ensures ns[k] != ns[i] {
      assert index[ns[k]] != index[ns[i]];
    }
  }

  // ---------------------------------------------------------------------
  // Marking the positions out of heap order.

  /** Position `k` is a child that belongs above its parent. */
  predicate Misplaced(kind: HeapKind, s: seq<int>, k: nat)
  {
    0 < k < |s| && Violates(kind, s[Parent(k)], s[k])
  }

  /** `validate_heap_colors`: a ValueError for an unknown `heap_type`;
      otherwise one colour per position: "gold" at the top, "tomato" at a
      child that belongs above its parent and "skyblue" elsewhere.  An
      empty array fails with an IndexError at the final write of "gold". */
  method ValidateHeapColors(heapArray: seq<int>, heapType: string) returns (r: Result<seq<string>>)
    ensures ParseKind(heapType).Raise? ==> r == Raise(ValueError)
    ensures ParseKind(heapType).Ok? && heapArray == [] ==> r == Raise(IndexError)
    ensures ParseKind(heapType).Ok? && heapArray != [] ==>
              && r.Ok? && |r.value| == |heapArray| && r.value[0] == "gold"
              && forall k | 0 < k < |heapArray| ::
                   r.value[k] == if Misplaced(ParseKind(heapType).value, heapArray, k) then "tomato" else "skyblue"
  {
    var parsed := ParseKind(heapType);
    if parsed.Raise? {
      return Raise(parsed.error);
    }
    var kind := parsed.value;
    var n := |heapArray|;
    var colors := seq(n, _ => "skyblue");
    for i := 0 to n
      invariant |colors| == n
      invariant forall k | 0 <= k < n ::
                  colors[k] == if 0 < k && Parent(k) < i && Misplaced(kind, heapArray, k) then "tomato" else "skyblue"
    {
      if Left(i) < n && Violates(kind, heapArray[i], heapArray[Left(i)]) {
        colors := colors[Left(i) := "tomato"];
      }
      if Right(i) < n && Violates(kind, heapArray[i], heapArray[Right(i)]) {
        colors := colors[Right(i) := "tomato"];
      }
    }
    if n == 0 {
      return Raise(IndexError);
    }
    colors := colors[0 := "gold"];
    return Ok(colors);
  }

  /** An array is a heap exactly when no position is misplaced: the
      colours of a heapified array hold no "tomato", and a colouring with
      no "tomato" shows a heap. */
  lemma HeapIffNoneMisplaced(kind: HeapKind, s: seq<int>)
    ensures IsHeap(kind, s) <==> forall k | 0 < k < |s| :: !Misplaced(kind, s, k)
  {
    if IsHeap(kind, s) {
      forall k | 0 < k < |s| ensures !Misplaced(kind, s, k) {
        assert InOrderAt(kind, s, Parent(k), |s|);
      }
    }
    if forall k | 0 < k < |s| :: !Misplaced(kind, s, k) {
      forall i | 0 <= i < |s| ensures InOrderAt(kind, s, i, |s|) {
        if Left(i) < |s| {
          assert Parent(Left(i)) == i && !Misplaced(kind, s, Left(i));
        }
        if Right(i) < |s| {
          assert Parent(Right(i)) == i && !Misplaced(kind, s, Right(i));
        }
      }
    }
  }
}
