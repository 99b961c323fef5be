/** The four sorting strategies of the linked list and the dispatcher
    that chooses between them. */
module ListSorting {
  import opened Seqs
  import opened LinkedLists

  /** `get_middle`: moves a slow cursor one node and a fast cursor two
      nodes at a time; the slow one stops at position (n - 1) / 2 of a
      chain of n nodes, null for the empty chain. */
  method GetMiddle(ghost ns: seq<Node>, node: Node?) returns (mid: Node?)
    requires Linked(ns) && node == First(ns)
    ensures mid == if ns == [] then null else ns[(|ns| - 1) / 2]
  {
    if node == null {
      return node;
    }
    var slow, fast := node, node.next;
    ghost var j, f := 0, 1;
    assert ns[0].next == Successor(ns, 0);
    while fast != null
      invariant 2 * j < |ns| && slow == ns[j]
      invariant f <= |ns| && (f == 2 * j + 1 || f == 2 * j + 2 == |ns|)
      invariant fast == if f < |ns| then ns[f] else null
      decreases |ns| - f
    {
      assert ns[f].next == Successor(ns, f);
      fast := fast.next;
      f := f + 1;
      if fast != null {
        assert ns[j].next == Successor(ns, j) && ns[f].next == Successor(ns, f);
        slow := slow.next;
        fast := fast.next;
        j, f := j + 1, f + 1;
      }
    }
    return slow;
  }

  /** `MergeSortStrategy.sort`: a list of at most one node comes back as it
      is; a longer chain is cut after its middle node, both halves are
      sorted, and `merge_sorted` combines the results into a new list. */
  method MergeSort(list: LinkedList) returns (sorted: LinkedList)
    requires list.Valid()
    modifies list.nodes
    ensures sorted.Valid() && Sorted(sorted.Contents)
    ensures multiset(sorted.Contents) == multiset(old(list.Contents))
    ensures forall k | 0 <= k < |sorted.nodes| :: fresh(sorted.nodes[k]) || sorted.nodes[k] in old(list.nodes)
    decreases |list.nodes|
  {
    if list.head == null || list.head.next == null {
      if list.nodes != [] {
        assert list.nodes[0].next == Successor(list.nodes, 0);
      }
      return list;
    }
    var left, right := Halve(list);
    assert forall k | 0 <= k < |left.nodes| :: left.nodes[k] == old(list.nodes)[k];
    assert forall k | 0 <= k < |right.nodes| :: right.nodes[k] == old(list.nodes)[|left.nodes| + k];
    ghost var l, r := left.Contents, right.Contents;
    var leftSorted := MergeSort(left);
    ghost var ls := leftSorted.Contents;
    forall k | 0 <= k < |leftSorted.nodes| ensures leftSorted.nodes[k] !in right.nodes {
      if leftSorted.nodes[k] in left.nodes {
      }
    }
    var rightSorted := MergeSort(right);
    assert leftSorted.Valid() && leftSorted.Contents == ls;
    MergedSortedPermutation(l, r, ls, rightSorted.Contents);
    sorted := leftSorted.MergeSorted(rightSorted);
  }

  /** What merging two sorted rearrangements of `l` and `r` gives: a sorted
      rearrangement of `l + r`. */
  lemma MergedSortedPermutation(l: seq<int>, r: seq<int>, ls: seq<int>, rs: seq<int>)
    requires Sorted(ls) && multiset(ls) == multiset(l)
    requires Sorted(rs) && multiset(rs) == multiset(r)
    ensures Sorted(Merged(ls, rs)) && multiset(Merged(ls, rs)) == multiset(l + r)
  {
    MergedSorted(ls, rs);
    MergedPermutation(ls, rs);
  }

  /** The first half of `MergeSortStrategy.sort`: `get_middle` finds node
      (n - 1) / 2 of the n >= 2 nodes, its link is cut, and two new lists
      take the two chains. */
  method Halve(list: LinkedList) returns (left: LinkedList, right: LinkedList)
    requires list.Valid() && |list.nodes| >= 2
    modifies list.nodes
    ensures fresh(left) && fresh(right) && left.Valid() && right.Valid()
    ensures left.nodes + right.nodes == old(list.nodes) && left.Contents + right.Contents == old(list.Contents)
    ensures 0 < |left.nodes| && 0 < |right.nodes|
    ensures forall k | 0 <= k < |left.nodes| :: left.nodes[k] !in right.nodes
  {
    ghost var ns, s := list.nodes, list.Contents;
    var mid := GetMiddle(ns, list.head);
    ghost var m := (|ns| - 1) / 2;
    assert ns[m].next == Successor(ns, m);
    OnlyAt(ns, m);
    SplitDisjoint(ns, m + 1);
    var nextToMid := mid.next;
    mid.next := null;
    ghost var ln, rn := ns[..m + 1], ns[m + 1..];
    CutLinks(ns, m);
    assert ns == ln + rn && s == s[..m + 1] + s[m + 1..];
    left := new LinkedList.FromChain(list.head, ln, s[..m + 1]);
    right := new LinkedList.FromChain(nextToMid, rn, s[m + 1..]);
  }

  /** Where `insert` of insertion sort puts `x` into `c`: before the first
      value that is not smaller than `x`, at the end when there is none. */
  function Rank(c: seq<int>, x: int): (q: nat)
    ensures q <= |c| && (forall k | 0 <= k < q :: c[k] < x) && (q < |c| ==> x <= c[q])
  {
    if c == [] || x <= c[0] then 0 else 1 + Rank(c[1..], x)
  }

  /** Rank is the only position with that property. */
  lemma {:induction false} RankIs(c: seq<int>, x: int, q: nat)
    requires q <= |c| && (forall k | 0 <= k < q :: c[k] < x) && (q < |c| ==> x <= c[q])
    ensures Rank(c, x) == q
  {
    if q > 0 {
      RankIs(c[1..], x, q - 1);
    }
  }

  /** `x` put between the values not above it and those not below it
      keeps an ascending sequence ascending. */
  lemma SortedSplice(c: seq<int>, q: nat, x: int)
    requires Sorted(c) && q <= |c|
    requires (forall k | 0 <= k < q :: c[k] <= x) && (q < |c| ==> x <= c[q])
    ensures Sorted(c[..q] + [x] + c[q..])
  {
    var r := c[..q] + [x] + c[q..];
    assert forall k | 0 <= k < |r| :: r[k] == if k < q then c[k] else if k == q then x else c[k - 1];
    forall a, b | 0 <= a < b < |r| ensures r[a] <= r[b] {
      if q < a {
        assert c[a - 1] <= c[b - 1];
      } else if q < b {
        assert r[a] <= c[q] <= c[b - 1];
      }
    }
  }

  /** Putting `x` at its rank keeps an ascending sequence ascending and adds
      one copy of `x`. */
  lemma InsertSorted(c: seq<int>, x: int)
    requires Sorted(c)
    ensures Sorted(c[..Rank(c, x)] + [x] + c[Rank(c, x)..])
    ensures multiset(c[..Rank(c, x)] + [x] + c[Rank(c, x)..]) == multiset(c) + multiset{x}
  {
    var q := Rank(c, x);
    SortedSplice(c, q, x);
    assert c == c[..q] + c[q..];
  }

  /** The inner step of `InsertionSortStrategy.sort`: links `node`, which
      is not in `list`, into it before the first node whose value is not
      smaller; at the head when the head's value is already not smaller. */
  method SortedInsert(list: LinkedList, node: Node)
    requires list.Valid() && node !in list.nodes
    modifies list, list.nodes, node
    ensures list.Valid() && node.data == old(node.data)
    ensures var q := Rank(old(list.Contents), node.data);
      && list.nodes == old(list.nodes)[..q] + [node] + old(list.nodes)[q..]
      && list.Contents == old(list.Contents)[..q] + [node.data] + old(list.Contents)[q..]
  {
    ghost var ns, c := list.nodes, list.Contents;
    ghost var x := node.data;
    if list.head == null || list.head.data >= node.data {
      RankIs(c, x, 0);
      list.nodes := ns[..0] + [node] + ns[0..];
      list.Contents := c[..0] + [x] + c[0..];
      node.next := list.head;
      list.head := node;
      LinkedSplice(ns, 0, node);
      DataSplice(ns, c, 0, node, x);
    } else {
      var cur, p := LastBelow(list, node.data);
      RankIs(c, x, p);
      list.LinkAfter(p - 1, cur, node);
    }
  }

  /** The walk of `insert` from a head smaller than `x`: the last node of
      the run of values from the head that are smaller than `x`. */
  method LastBelow(list: LinkedList, x: int) returns (cur: Node, ghost p: nat)
    requires list.Valid() && list.head != null && list.head.data < x
    ensures 0 < p <= |list.nodes| && cur == list.nodes[p - 1]
    ensures forall k | 0 <= k < p :: list.Contents[k] < x
    ensures p < |list.nodes| ==> x <= list.Contents[p]
  {
    ghost var ns, c := list.nodes, list.Contents;
    cur := list.head;
    p := 1;
    while cur.next != null && cur.next.data < x
      invariant 0 < p <= |ns| && cur == ns[p - 1] && forall k | 0 <= k < p :: c[k] < x
      decreases |ns| - p
    {
      assert ns[p - 1].next == Successor(ns, p - 1);
      cur := cur.next;
      p := p + 1;
    }
    assert ns[p - 1].next == Successor(ns, p - 1);
  }

  /** `InsertionSortStrategy.sort`: takes the nodes off the chain one by
      one, from the head, and links each into a new list at its rank.  The
      nodes are reused, not copied. */
  method InsertionSort(list: LinkedList) returns (sorted: LinkedList)
    requires list.Valid()
    modifies list.nodes
    ensures fresh(sorted) && sorted.Valid() && Sorted(sorted.Contents)
    ensures multiset(sorted.Contents) == multiset(old(list.Contents))
    ensures multiset(sorted.nodes) == multiset(old(list.nodes))
  {
    ghost var ns, s := list.nodes, list.Contents;
    ghost var pos := Positions(ns);
    sorted := new LinkedList();
    var current := list.head;
    ghost var i := 0;
    while current != null
      invariant 0 <= i <= |ns| && current == (if i < |ns| then ns[i] else null)
      invariant Linked(ns[i..]) && forall k | i <= k < |ns| :: ns[k].data == s[k]
      invariant fresh(sorted) && sorted.Valid() && Sorted(sorted.Contents)
      invariant multiset(sorted.Contents) == multiset(s[..i])
      invariant multiset(sorted.nodes) == multiset(ns[..i])
      decreases |ns| - i
    {
      assert ns[i..][0].next == Successor(ns[i..], 0);
      var nextNode := current.next;
      NotYetTaken(ns, pos, sorted.nodes, i);
      TakeInto(sorted, current, ns, s, pos, i);
      current := nextNode;
      i := i + 1;
    }
    assert s[..i] == s && ns[..i] == ns;
    assert s[..i] == s;
  }

  /** The body of the loop of `InsertionSortStrategy.sort`: node `i` of
      the chain is linked into the sorted list at its rank. */
  method TakeInto(sorted: LinkedList, current: Node, ghost ns: seq<Node>, ghost s: seq<int>, ghost pos: map<Node, nat>, ghost i: nat)
    requires i < |ns| == |s| && current == ns[i]
    requires forall k | 0 <= k < |ns| :: ns[k] in pos && pos[ns[k]] == k
    requires Linked(ns[i..]) && forall k | i <= k < |ns| :: ns[k].data == s[k]
    requires sorted.Valid() && Sorted(sorted.Contents)
    requires multiset(sorted.Contents) == multiset(s[..i])
    requires multiset(sorted.nodes) == multiset(ns[..i])
    requires forall k | i <= k < |ns| :: ns[k] !in sorted.nodes
    modifies sorted, sorted.nodes, current
    ensures Linked(ns[i + 1..]) && forall k | i < k < |ns| :: ns[k].data == s[k]
    ensures sorted.Valid() && Sorted(sorted.Contents)
    ensures multiset(sorted.Contents) == multiset(s[..i + 1])
    ensures multiset(sorted.nodes) == multiset(ns[..i + 1])
  {
    ghost var c, sn := sorted.Contents, sorted.nodes;
    LinkedDrop(ns[i..], 1);
    assert ns[i..][1..] == ns[i + 1..];
    InsertSorted(c, s[i]);
    Taken(ns, sn, i, Rank(c, s[i]));
    TakeSnoc(s, i);
    SortedInsert(sorted, current);
    assert forall k | i < k < |ns| :: ns[k] != current && pos[ns[k]] == k;
  }

  /** Nodes of a chain past position `i` are not among a rearrangement of
      the nodes before it. */
  lemma NotYetTaken(ns: seq<Node>, pos: map<Node, nat>, sn: seq<Node>, i: nat)
    requires i <= |ns| && forall k | 0 <= k < |ns| :: ns[k] in pos && pos[ns[k]] == k
    requires multiset(sn) == multiset(ns[..i])
    ensures forall k | i <= k < |ns| :: ns[k] !in sn
    ensures forall k | 0 <= k < |sn| :: sn[k] in ns
  {
    forall k | 0 <= k < |sn| ensures sn[k] in ns {
      assert sn[k] in multiset(ns[..i]);
    }
    forall k | i <= k < |ns| ensures ns[k] !in multiset(ns[..i]) {
      assert forall t | 0 <= t < i :: pos[ns[..i][t]] == t;
    }
  }

  /** Splicing node `i` anywhere into a rearrangement of the nodes before it
      gives a rearrangement of the nodes up to it. */
  lemma Taken(ns: seq<Node>, sn: seq<Node>, i: nat, q: nat)
    requires i < |ns| && q <= |sn| && multiset(sn) == multiset(ns[..i])
    ensures multiset(sn[..q] + [ns[i]] + sn[q..]) == multiset(ns[..i + 1])
  {
    assert sn == sn[..q] + sn[q..];
    assert ns[..i + 1] == ns[..i] + [ns[i]];
  }

  /** The values of `s` smaller than `p`, in order. */
  function Below(s: seq<int>, p: int): (r: seq<int>)
    ensures forall k | 0 <= k < |r| :: r[k] < p
  {
    if s == [] then []
    else Below(s[..|s| - 1], p) + (if s[|s| - 1] < p then [s[|s| - 1]] else [])
  }

  /** The values of `s` not smaller than `p`, in order. */
  function NotBelow(s: seq<int>, p: int): (r: seq<int>)
    ensures forall k | 0 <= k < |r| :: p <= r[k]
  {
    if s == [] then []
    else NotBelow(s[..|s| - 1], p) + (if s[|s| - 1] < p then [] else [s[|s| - 1]])
  }

  /** Partitioning around `p` distributes every value of `s` to exactly one side. */
  lemma {:induction false} PartitionPermutation(s: seq<int>, p: int)
    ensures multiset(Below(s, p)) + multiset(NotBelow(s, p)) == multiset(s)
  {
    if s != [] {
      var t, x := s[..|s| - 1], s[|s| - 1];
      PartitionPermutation(t, p);
      assert s == t + [x];
      if x < p {
        assert Below(s, p) == Below(t, p) + [x] && NotBelow(s, p) == NotBelow(t, p);
        assert multiset(Below(s, p)) == multiset(Below(t, p)) + multiset{x};
      } else {
        assert Below(s, p) == Below(t, p) && NotBelow(s, p) == NotBelow(t, p) + [x];
        assert multiset(NotBelow(s, p)) == multiset(NotBelow(t, p)) + multiset{x};
      }
    }
  }

  /** The two sides of a partition are together as long as the whole. */
  lemma PartitionLength(s: seq<int>, p: int)
    ensures |Below(s, p)| + |NotBelow(s, p)| == |s|
  {
    PartitionPermutation(s, p);
    assert |multiset(Below(s, p)) + multiset(NotBelow(s, p))| == |multiset(s)|;
  }

  /** Sorted values below `p`, then `p`, then sorted values not below it:
      ascending. */
  lemma JoinSorted(ls: seq<int>, p: int, rs: seq<int>)
    requires Sorted(ls) && Sorted(rs)
    requires forall k | 0 <= k < |ls| :: ls[k] < p
    requires forall k | 0 <= k < |rs| :: p <= rs[k]
    ensures Sorted(ls + [p] + rs)
  {
  }

  /** A rearrangement keeps every value on its side of `p`. */
  lemma SameSide(t: seq<int>, u: seq<int>, p: int)
    requires multiset(t) == multiset(u)
    ensures (forall k | 0 <= k < |u| :: u[k] < p) ==> forall k | 0 <= k < |t| :: t[k] < p
    ensures (forall k | 0 <= k < |u| :: p <= u[k]) ==> forall k | 0 <= k < |t| :: p <= t[k]
  {
    forall k | 0 <= k < |t| ensures t[k] in u {
      assert t[k] in multiset(u);
    }
  }

  /** The partition loop of `QuickSortStrategy.sort`: copies of the values
      after the head go, in order, to the end of a new left list when they
      are smaller than the head's value and of a new right list otherwise. */
  method Partition(list: LinkedList) returns (left: LinkedList, right: LinkedList)
    requires list.Valid() && list.nodes != []
    ensures fresh(left) && left.Valid() && left.Contents == Below(list.Contents[1..], list.Contents[0])
    ensures fresh(right) && right.Valid() && right.Contents == NotBelow(list.Contents[1..], list.Contents[0])
    ensures forall k | 0 <= k < |left.nodes| :: fresh(left.nodes[k]) && left.nodes[k] !in right.nodes
    ensures forall k | 0 <= k < |right.nodes| :: fresh(right.nodes[k])
  {
    ghost var ns, t, p := list.nodes, list.Contents[1..], list.Contents[0];
    var pivot := list.head;
    left := new LinkedList();
    right := new LinkedList();
    assert ns[0].next == Successor(ns, 0);
    var current := pivot.next;
    ghost var j := 0;
    while current != null
      invariant 0 <= j <= |t| && current == (if j < |t| then ns[j + 1] else null)
      invariant fresh(left) && left.Valid() && left.Contents == Below(t[..j], p)
      invariant fresh(right) && right.Valid() && right.Contents == NotBelow(t[..j], p)
      invariant forall k | 0 <= k < |left.nodes| :: fresh(left.nodes[k]) && left.nodes[k] !in right.nodes
      invariant forall k | 0 <= k < |right.nodes| :: fresh(right.nodes[k])
      decreases |t| - j
    {
      assert ns[j + 1].next == Successor(ns, j + 1);
      SidesSnoc(t, j, p);
      ghost var ln, rn := left.nodes, right.nodes;
      var x, next := current.data, current.next;
      Distribute(left, right, x, pivot.data);
      PrefixKept(ln, left.nodes);
      PrefixKept(rn, right.nodes);
      current := next;
      j := j + 1;
    }
    assert t[..j] == t;
  }

  /** One more value of `s` goes to one side of the partition. */
  lemma SidesSnoc(s: seq<int>, j: nat, p: int)
    requires j < |s|
    ensures Below(s[..j + 1], p) == Below(s[..j], p) + (if s[j] < p then [s[j]] else [])
    ensures NotBelow(s[..j + 1], p) == NotBelow(s[..j], p) + (if s[j] < p then [] else [s[j]])
  {
    assert s[..j + 1][..j] == s[..j];
  }

  /** A sequence that starts with `a` agrees with `a` position by position. */
  lemma PrefixKept(a: seq<Node>, b: seq<Node>)
    requires |a| <= |b| && b[..|a|] == a
    ensures forall k | 0 <= k < |a| :: b[k] == a[k]
  {
    forall k | 0 <= k < |a| ensures b[k] == a[k] {
      assert b[..|a|][k] == b[k];
    }
  }

  /** The body of the partition loop: a copy of `x` goes to the end of
      `left` when it is smaller than `p`, to the end of `right` otherwise. */
  method Distribute(left: LinkedList, right: LinkedList, x: int, p: int)
    requires left != right && left.Valid() && right.Valid()
    requires forall k | 0 <= k < |left.nodes| :: left.nodes[k] !in right.nodes
    modifies left, right, Last(left.nodes), Last(right.nodes)
    ensures left.Valid() && left.Contents == old(left.Contents) + (if x < p then [x] else [])
    ensures right.Valid() && right.Contents == old(right.Contents) + (if x < p then [] else [x])
    ensures forall k | 0 <= k < |left.nodes| :: left.nodes[k] !in right.nodes
    ensures |old(left.nodes)| <= |left.nodes| && left.nodes[..|old(left.nodes)|] == old(left.nodes)
    ensures |old(right.nodes)| <= |right.nodes| && right.nodes[..|old(right.nodes)|] == old(right.nodes)
    ensures forall k | |old(left.nodes)| <= k < |left.nodes| :: fresh(left.nodes[k])
    ensures forall k | |old(right.nodes)| <= k < |right.nodes| :: fresh(right.nodes[k])
  {
    ghost var ln, rn := left.nodes, right.nodes;
    if x < p {
      left.InsertAtEnd(x);
      forall k | 0 <= k < |left.nodes| ensures left.nodes[k] !in right.nodes {
        if k < |ln| {
          assert left.nodes[k] == ln[k];
        }
      }
    } else {
      right.InsertAtEnd(x);
      forall k | 0 <= k < |left.nodes| ensures left.nodes[k] !in right.nodes {
        assert right.nodes == rn + [right.nodes[|rn|]];
      }
    }
  }

  /** Sorted rearrangements of the two sides of a partition around the
      first value, joined by that value, are a sorted rearrangement of the
      whole sequence. */
  lemma QuickSortedPermutation(s: seq<int>, ls: seq<int>, rs: seq<int>)
    requires s != []
    requires Sorted(ls) && multiset(ls) == multiset(Below(s[1..], s[0]))
    requires Sorted(rs) && multiset(rs) == multiset(NotBelow(s[1..], s[0]))
    ensures Sorted(ls + [s[0]] + rs) && multiset(ls + [s[0]] + rs) == multiset(s)
  {
    var t, p := s[1..], s[0];
    SameSide(ls, Below(t, p), p);
    SameSide(rs, NotBelow(t, p), p);
    JoinSorted(ls, p, rs);
    PartitionPermutation(t, p);
    JoinMultiset(ls, p, rs);
    assert multiset(s) == multiset{p} + multiset(t) by {
      assert s == [p] + t;
    }
  }

  /** The values of a sequence joined around `p`. */
  lemma JoinMultiset(ls: seq<int>, p: int, rs: seq<int>)
    ensures multiset(ls + [p] + rs) == multiset{p} + multiset(ls) + multiset(rs)
  {
  }

  /** `QuickSortStrategy.sort`: a list of at most one node comes back as it
      is; otherwise the values after the head are partitioned into two new
      lists around the head's value, both are sorted, and the head node is
      linked between them. */
  method QuickSort(list: LinkedList) returns (sorted: LinkedList)
    requires list.Valid()
    modifies list.nodes
    ensures sorted.Valid() && Sorted(sorted.Contents)
    ensures multiset(sorted.Contents) == multiset(old(list.Contents))
    ensures forall k | 0 <= k < |sorted.nodes| :: fresh(sorted.nodes[k]) || sorted.nodes[k] in old(list.nodes)
    decreases |list.nodes|, 2
  {
    if list.head == null || list.head.next == null {
      if list.nodes != [] {
        assert list.nodes[0].next == Successor(list.nodes, 0);
      }
      return list;
    }
    ghost var s := list.Contents;
    var pivot := list.head;
    var leftSorted, rightSorted := SortedSides(list);
    ghost var ln, rn := leftSorted.nodes, rightSorted.nodes;
    QuickSortedPermutation(s, leftSorted.Contents, rightSorted.Contents);
    assert pivot.data == s[0];
    sorted := Join(leftSorted, pivot, rightSorted);
    Pieces(sorted.nodes, ln, pivot, rn);
  }

  /** Every node of a chain built from two chains around a pivot comes
      from one of the three. */
  lemma Pieces(ns: seq<Node>, ln: seq<Node>, pivot: Node, rn: seq<Node>)
    requires ns == ln + [pivot] + rn
    ensures forall k | 0 <= k < |ns| :: ns[k] in ln || ns[k] == pivot || ns[k] in rn
  {
    forall k | 0 <= k < |ns| ensures ns[k] in ln || ns[k] == pivot || ns[k] in rn {
      if k < |ln| {
        assert ns[k] == ln[k];
      } else if k > |ln| {
        assert ns[k] == rn[k - |ln| - 1];
      }
    }
  }

  /** The partition loop and the two recursive calls of
      `QuickSortStrategy.sort`: the values after the head, split around the
      head's value, each side sorted.  The nodes of the results are all new
      and the two sides share none. */
  method SortedSides(list: LinkedList) returns (leftSorted: LinkedList, rightSorted: LinkedList)
    requires list.Valid() && list.nodes != []
    ensures leftSorted.Valid() && Sorted(leftSorted.Contents)
    ensures multiset(leftSorted.Contents) == multiset(Below(old(list.Contents)[1..], old(list.Contents)[0]))
    ensures rightSorted.Valid() && Sorted(rightSorted.Contents)
    ensures multiset(rightSorted.Contents) == multiset(NotBelow(old(list.Contents)[1..], old(list.Contents)[0]))
    ensures forall k | 0 <= k < |leftSorted.nodes| :: fresh(leftSorted.nodes[k]) && leftSorted.nodes[k] !in rightSorted.nodes
    ensures forall k | 0 <= k < |rightSorted.nodes| :: fresh(rightSorted.nodes[k])
    decreases |list.nodes|, 1
  {
    ghost var s := list.Contents;
    var left, right := Partition(list);
    PartitionLength(s[1..], s[0]);
    leftSorted, rightSorted := SortSides(left, right);
    forall k | 0 <= k < |leftSorted.nodes| ensures fresh(leftSorted.nodes[k]) {
      if leftSorted.nodes[k] in left.nodes {
      }
    }
    forall k | 0 <= k < |rightSorted.nodes| ensures fresh(rightSorted.nodes[k]) {
      if rightSorted.nodes[k] in right.nodes {
      }
    }
  }

  /** The two recursive calls of `QuickSortStrategy.sort`, on the two sides
      of the partition; they share no node, before or after. */
  method SortSides(left: LinkedList, right: LinkedList) returns (leftSorted: LinkedList, rightSorted: LinkedList)
    requires left.Valid() && right.Valid()
    requires forall k | 0 <= k < |left.nodes| :: left.nodes[k] !in right.nodes
    modifies left.nodes, right.nodes
    ensures leftSorted.Valid() && Sorted(leftSorted.Contents) && multiset(leftSorted.Contents) == multiset(old(left.Contents))
    ensures rightSorted.Valid() && Sorted(rightSorted.Contents) && multiset(rightSorted.Contents) == multiset(old(right.Contents))
    ensures forall k | 0 <= k < |leftSorted.nodes| :: fresh(leftSorted.nodes[k]) || leftSorted.nodes[k] in old(left.nodes)
    ensures forall k | 0 <= k < |rightSorted.nodes| :: fresh(rightSorted.nodes[k]) || rightSorted.nodes[k] in old(right.nodes)
    ensures forall k | 0 <= k < |leftSorted.nodes| :: leftSorted.nodes[k] !in rightSorted.nodes
    decreases |left.nodes| + |right.nodes| + 1, 0
  {
    leftSorted := QuickSort(left);
    forall k | 0 <= k < |leftSorted.nodes| ensures leftSorted.nodes[k] !in right.nodes {
      if leftSorted.nodes[k] in left.nodes {
      }
    }
    rightSorted := QuickSort(right);
  }

  /** The end of `QuickSortStrategy.sort`: the last node of `left`, found by
      walking from its head, is linked to `pivot`, and `pivot` to the head
      of `right`; a new list starts at the head of `left`, or at `pivot`
      when `left` is empty. */
  method Join(left: LinkedList, pivot: Node, right: LinkedList) returns (sorted: LinkedList)
    requires left.Valid() && right.Valid()
    requires pivot !in left.nodes && pivot !in right.nodes
    requires forall k | 0 <= k < |left.nodes| :: left.nodes[k] !in right.nodes
    modifies pivot, Last(left.nodes)
    ensures fresh(sorted) && sorted.Valid()
    ensures sorted.nodes == old(left.nodes) + [pivot] + old(right.nodes)
    ensures sorted.Contents == old(left.Contents) + [old(pivot.data)] + old(right.Contents)
  {
    ghost var ln, rn := left.nodes, right.nodes;
    var first := pivot;
    if left.head != null {
      first := left.head;
      var tail := left.head;
      ghost var t := 0;
      while tail.next != null
        invariant 0 <= t < |ln| && tail == ln[t]
        decreases |ln| - t
      {
        assert ln[t].next == Successor(ln, t);
        tail := tail.next;
        t := t + 1;
      }
      assert ln[t].next == Successor(ln, t);
      OnlyAt(ln, t);
      tail.next := pivot;
    }
    pivot.next := right.head;
    JoinLinks(ln, pivot, rn);
    JoinData(ln, left.Contents, pivot, rn, right.Contents);
    sorted := new LinkedList.FromChain(first, ln + [pivot] + rn, left.Contents + [pivot.data] + right.Contents);
  }

  /** `c` with the values at `j` and `j + 1` exchanged. */
  function Swapped(c: seq<int>, j: nat): (r: seq<int>)
    requires j + 1 < |c|
    ensures |r| == |c| && multiset(r) == multiset(c)
  {
    c[j := c[j + 1]][j + 1 := c[j]]
  }

  /** Each value times its position, summed: exchanging a larger value
      with the smaller one after it raises the weight. */
  function Weight(c: seq<int>): int
  {
    if c == [] then 0 else Weight(c[..|c| - 1]) + (|c| - 1) * c[|c| - 1]
  }

  /** The sum of the absolute values. */
  function Magnitude(c: seq<int>): nat
  {
    if c == [] then 0 else Magnitude(c[..|c| - 1]) + (if c[|c| - 1] < 0 then -c[|c| - 1] else c[|c| - 1])
  }

  /** The weight is bounded by length times magnitude. */
  lemma {:induction false} WeightBound(c: seq<int>)
    ensures Weight(c) <= |c| * Magnitude(c)
  {
    if c != [] {
      var t, x := c[..|c| - 1], c[|c| - 1];
      var n, m, a := |t|, Magnitude(t), if x < 0 then -x else x;
      WeightBound(t);
      assert Weight(c) == Weight(t) + n * x && Magnitude(c) == m + a;
      BoundStep(n, m, x, a);
    }
  }

  /** The arithmetic of one step of the bound. */
  lemma BoundStep(n: nat, m: nat, x: int, a: nat)
    requires x <= a
    ensures n * m + n * x <= (n + 1) * (m + a)
  {
    assert n * x <= n * a;
    assert (n + 1) * (m + a) == n * m + n * a + m + a;
  }

  /** Exchanging the values at `j` and `j + 1` changes the weight by their
      difference and keeps the magnitude. */
  lemma {:induction false} SwapWeight(c: seq<int>, j: nat)
    requires j + 1 < |c|
    ensures Weight(Swapped(c, j)) == Weight(c) + c[j] - c[j + 1]
    ensures Magnitude(Swapped(c, j)) == Magnitude(c)
  {
    var d, n := Swapped(c, j), |c|;
    if j + 2 < n {
      SwapWeight(c[..n - 1], j);
      assert d[..n - 1] == Swapped(c[..n - 1], j);
    } else {
      SwapLast(c);
    }
  }

  /** `SwapWeight` for the last two values. */
  lemma SwapLast(c: seq<int>)
    requires |c| >= 2
    ensures Weight(Swapped(c, |c| - 2)) == Weight(c) + c[|c| - 2] - c[|c| - 1]
    ensures Magnitude(Swapped(c, |c| - 2)) == Magnitude(c)
  {
    var n := |c|;
    var d, p, x, y := Swapped(c, n - 2), c[..n - 2], c[n - 2], c[n - 1];
    assert d[..n - 1] == p + [y] && (p + [y])[..n - 2] == p;
    assert c[..n - 1] == p + [x] && (p + [x])[..n - 2] == p;
    assert Weight(d) == Weight(p) + (n - 2) * y + (n - 1) * x;
    assert Weight(c) == Weight(p) + (n - 2) * x + (n - 1) * y;
    Shift(n - 2, x, y);
  }

  lemma Shift(a: int, x: int, y: int)
    ensures a * y + (a + 1) * x == a * x + (a + 1) * y + x - y
  {
  }

  /** Ascending between neighbours is ascending. */
  lemma {:induction false} NeighboursSorted(c: seq<int>)
    requires forall k | 0 <= k < |c| - 1 :: c[k] <= c[k + 1]
    ensures Sorted(c)
  {
    if c != [] {
      NeighboursSorted(c[1..]);
      assert forall k | 0 <= k < |c[1..]| :: c[0] <= c[1..][k] by {
        forall k | 0 <= k < |c[1..]| ensures c[0] <= c[1..][k] {
          assert c[0] <= c[1] == c[1..][0];
          if k > 0 { assert c[1..][0] <= c[1..][k]; }
        }
      }
      assert c == [c[0]] + c[1..];
      ConsSorted(c[0], c[1..]);
    }
  }

  /** Exchanges the values held by the node at `j` and its successor. */
  method SwapWithNext(list: LinkedList, node: Node, ghost j: nat)
    requires list.Valid() && j + 1 < |list.nodes| && node == list.nodes[j]
    modifies list, list.nodes[j], list.nodes[j + 1]
    ensures list.Valid() && list.nodes == old(list.nodes)
    ensures list.Contents == Swapped(old(list.Contents), j)
    ensures multiset(list.Contents) == multiset(old(list.Contents))
    ensures Magnitude(list.Contents) == Magnitude(old(list.Contents))
    ensures Weight(list.Contents) == Weight(old(list.Contents)) + old(list.Contents)[j] - old(list.Contents)[j + 1]
  {
    SwapWeight(list.Contents, j);
    ghost var ns, c := list.nodes, list.Contents;
    assert ns[j].next == Successor(ns, j);
    var nextNode := node.next;
    OnlyAt(ns, j);
    OnlyAt(ns, j + 1);
    node.data, nextNode.data := nextNode.data, node.data;
    list.Contents := Swapped(c, j);
  }

  /** The body of the pass at node `j`: exchanges its value with its
      successor's when it is the larger, keeping what the pass promises. */
  method BubbleStep(list: LinkedList, current: Node, ghost ns: seq<Node>, ghost c0: seq<int>, ghost j: nat, swapped: bool)
    returns (swapped': bool)
    requires list.Valid() && list.nodes == ns && j + 1 < |ns| && current == ns[j]
    requires multiset(list.Contents) == multiset(c0) && Magnitude(list.Contents) == Magnitude(c0)
    requires !swapped ==> list.Contents == c0 && forall k | 0 <= k < j :: c0[k] <= c0[k + 1]
    requires swapped ==> Weight(list.Contents) > Weight(c0)
    modifies list, list.nodes
    ensures list.Valid() && list.nodes == ns
    ensures multiset(list.Contents) == multiset(c0) && Magnitude(list.Contents) == Magnitude(c0)
    ensures !swapped' ==> list.Contents == c0 && forall k | 0 <= k < j + 1 :: c0[k] <= c0[k + 1]
    ensures swapped' ==> Weight(list.Contents) > Weight(c0)
  {
    assert ns[j].next == Successor(ns, j);
    var nextNode := current.next;
    swapped' := swapped;
    if current.data > nextNode.data {
      SwapWithNext(list, current, j);
      swapped' := true;
    }
  }

  /** One pass of the outer loop of `BubbleSortStrategy.sort`: walks the
      chain and exchanges the values of neighbouring nodes whenever the
      first is larger.  Reports whether it exchanged anything. */
  method BubblePass(list: LinkedList) returns (swapped: bool)
    requires list.Valid() && list.nodes != []
    modifies list, list.nodes
    ensures list.Valid() && list.nodes == old(list.nodes)
    ensures multiset(list.Contents) == multiset(old(list.Contents))
    ensures Magnitude(list.Contents) == Magnitude(old(list.Contents))
    ensures !swapped ==> list.Contents == old(list.Contents) && Sorted(list.Contents)
    ensures swapped ==> Weight(list.Contents) > Weight(old(list.Contents))
  {
    ghost var ns, c0 := list.nodes, list.Contents;
    swapped := false;
    var current := list.head;
    ghost var j := 0;
    while current != null && current.next != null
      invariant list.Valid() && list.nodes == ns
      invariant 0 <= j < |ns| && current == ns[j]
      invariant multiset(list.Contents) == multiset(c0) && Magnitude(list.Contents) == Magnitude(c0)
      invariant !swapped ==> list.Contents == c0 && forall k | 0 <= k < j :: c0[k] <= c0[k + 1]
      invariant swapped ==> Weight(list.Contents) > Weight(c0)
      decreases |ns| - j
    {
      assert ns[j].next == Successor(ns, j);
      swapped := BubbleStep(list, current, ns, c0, j, swapped);
      current := current.next;
      j := j + 1;
    }
    assert ns[j].next == Successor(ns, j);
    if !swapped {
      NeighboursSorted(c0);
    }
  }

  /** `BubbleSortStrategy.sort`: repeats passes until one exchanges
      nothing, then returns the same list, its nodes in place. */
  method BubbleSort(list: LinkedList) returns (sorted: LinkedList)
    requires list.Valid()
    modifies list, list.nodes
    ensures sorted == list && list.Valid() && list.nodes == old(list.nodes)
    ensures Sorted(list.Contents) && multiset(list.Contents) == multiset(old(list.Contents))
  {
    if list.head == null {
      return list;
    }
    ghost var ns, c0 := list.nodes, list.Contents;
    var swapped := true;
    WeightBound(c0);
    while swapped
      invariant list.Valid() && list.nodes == ns
      invariant multiset(list.Contents) == multiset(c0) && Magnitude(list.Contents) == Magnitude(c0)
      invariant !swapped ==> Sorted(list.Contents)
      invariant Weight(list.Contents) <= |ns| * Magnitude(c0)
      decreases |ns| * Magnitude(c0) - Weight(list.Contents), if swapped then 1 else 0
    {
      swapped := BubblePass(list);
      WeightBound(list.Contents);
    }
    return list;
  }

  /** `LinkedList.sort_list`: picks the strategy by name ("merge",
      "insertion", "quick" or "bubble"; any other name falls back to merge
      sort), sorts, and makes the list's head the sorted chain's head.
      Whatever the strategy, the result is the one sorted arrangement of
      the list's values (see `SortedUnique`). */
  method SortList(list: LinkedList, strategy: string)
    requires list.Valid()
    modifies list, list.nodes
    ensures list.Valid() && Sorted(list.Contents)
    ensures multiset(list.Contents) == multiset(old(list.Contents))
  {
    var sorted;
    if strategy == "insertion" {
      sorted := InsertionSort(list);
    } else if strategy == "quick" {
      sorted := QuickSort(list);
    } else if strategy == "bubble" {
      sorted := BubbleSort(list);
    } else {
      sorted := MergeSort(list);
    }
    list.head, list.nodes, list.Contents := sorted.head, sorted.nodes, sorted.Contents;
  }

}
