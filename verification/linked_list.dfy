/** A singly linked list of integers: `Node` objects chained by `next`,
    a `LinkedList` holding the head.  The ghost sequence `nodes` lists the
    nodes from the head, so that every method can say what the chain is
    before and after it rewires it. */
module LinkedLists {
  import opened Seqs
  import opened Text

  class Node {
    var data: int
    var next: Node?

    constructor (data: int)
      ensures this.data == data && next == null
    {
      this.data := data;
      next := null;
    }
  }

  /** The node after position `k` of `ns`: the next one, or null after the last. */
  function Successor(ns: seq<Node>, k: nat): Node?
    requires k < |ns|
  {
    if k + 1 < |ns| then ns[k + 1] else null
  }

  /** The node before position `k` of `ns`: the previous one, or null before the first. */
  function Predecessor(ns: seq<Node>, k: nat): Node?
    requires k < |ns|
  {
    if k == 0 then null else ns[k - 1]
  }

  /** `ns` is a chain: each node links to its successor, the last to null. */
  ghost predicate Linked(ns: seq<Node>)
    reads ns`next
  {
    forall k {:trigger ns[k].next} | 0 <= k < |ns| :: ns[k].next == Successor(ns, k)
  }

  /** A chain never meets itself: a repeated node would make it cycle
      instead of ending in null. */
  lemma {:induction false} Acyclic(ns: seq<Node>, k: nat, i: nat)
    requires Linked(ns) && k < i < |ns|
    ensures ns[k] != ns[i]
    decreases |ns| - i
  {
    assert ns[k].next == Successor(ns, k) && ns[i].next == Successor(ns, i);
    if i + 1 < |ns| {
      Acyclic(ns, k + 1, i + 1);
    }
  }

  /** The loop of `reverse_list`: walks the chain turning each link back
      to the node before; returns the last node, null for the empty chain. */
  method TurnLinks(ghost ns: seq<Node>, head: Node?) returns (prev: Node?)
    requires Linked(ns) && head == First(ns)
    modifies ns
    ensures prev == if ns == [] then null else ns[|ns| - 1]
    ensures forall k {:trigger ns[k].next} | 0 <= k < |ns| :: ns[k].next == Predecessor(ns, k)
    ensures forall k | 0 <= k < |ns| :: ns[k].data == old(ns[k].data)
  {
    prev := null;
    var cur := head;
    ghost var i := 0;
    ghost var pos := Positions(ns);
    while cur != null
      invariant 0 <= i <= |ns| && cur == (if i < |ns| then ns[i] else null)
      invariant prev == (if i == 0 then null else ns[i - 1])
      invariant forall k {:trigger ns[k].next} | 0 <= k < |ns| ::
                  ns[k].next == if k < i then Predecessor(ns, k) else Successor(ns, k)
      invariant forall k | 0 <= k < |ns| :: ns[k].data == old(ns[k].data)
      decreases |ns| - i
    {
      var nextNode := cur.next;
      cur.next := prev;
      prev := cur;
      cur := nextNode;
      i := i + 1;
    }
  }

  lemma ReverseLinks(ns: seq<Node>)
    requires forall k {:trigger ns[k].next} | 0 <= k < |ns| :: ns[k].next == Predecessor(ns, k)
    ensures Linked(Reversed(ns))
  {
    var r := Reversed(ns);
    forall k | 0 <= k < |r| ensures r[k] == ns[|ns| - 1 - k] {
      ReversedAt(ns, k);
    }
    TurnedLinks(ns, r);
  }

  /** A chain `r` holding the nodes of `ns` backwards is linked when every
      link of `ns` is turned back. */
  lemma TurnedLinks(ns: seq<Node>, r: seq<Node>)
    requires |r| == |ns| && forall k | 0 <= k < |r| :: r[k] == ns[|ns| - 1 - k]
    requires forall k {:trigger ns[k].next} | 0 <= k < |ns| :: ns[k].next == Predecessor(ns, k)
    ensures Linked(r)
  {
    forall k | 0 <= k < |r| ensures r[k].next == Successor(r, k) {
      var j := |ns| - 1 - k;
      assert r[k].next == ns[j].next == Predecessor(ns, j);
    }
  }

  /** Reading nodes and their values backwards keeps them paired. */
  lemma ReverseData(ns: seq<Node>, s: seq<int>)
    requires |s| == |ns| && forall k | 0 <= k < |ns| :: ns[k].data == s[k]
    ensures |Reversed(s)| == |Reversed(ns)|
    ensures forall k | 0 <= k < |ns| :: Reversed(ns)[k].data == Reversed(s)[k]
  {
    forall k | 0 <= k < |ns| ensures Reversed(ns)[k].data == Reversed(s)[k] {
      ReversedAt<Node>(ns, k);
      ReversedAt(s, k);
    }
  }

  /** Every suffix of a chain is a chain. */
  lemma LinkedDrop(ns: seq<Node>, i: nat)
    requires Linked(ns) && i <= |ns|
    ensures Linked(ns[i..])
  {
    var r := ns[i..];
    forall k | 0 <= k < |r| ensures r[k].next == Successor(r, k) {
      assert r[k] == ns[i + k] && ns[i + k].next == Successor(ns, i + k);
    }
  }

  /** Each node of a chain has one position: `pos` maps it back there. */
  lemma Positions(ns: seq<Node>) returns (pos: map<Node, nat>)
    requires Linked(ns)
    ensures forall k | 0 <= k < |ns| :: ns[k] in pos && pos[ns[k]] == k
    ensures forall n | n in pos :: pos[n] < |ns| && ns[pos[n]] == n
  {
    forall j, k | 0 <= j < |ns| && 0 <= k < |ns| && ns[j] == ns[k] ensures j == k {
      if j < k { Acyclic(ns, j, k); } else if k < j { Acyclic(ns, k, j); }
    }
    pos := map k | 0 <= k < |ns| :: ns[k] := k;
  }

  /** Position `i` is the only place node `ns[i]` occurs in a chain. */
  lemma OnlyAt(ns: seq<Node>, i: nat)
    requires Linked(ns) && i < |ns|
    ensures forall k | 0 <= k < |ns| && k != i :: ns[k] != ns[i]
  {
    forall k | 0 <= k < |ns| && k != i ensures ns[k] != ns[i] {
      if k < i { Acyclic(ns, k, i); } else { Acyclic(ns, i, k); }
    }
  }

  /** The last node of a chain, as a frame: empty for the empty chain. */
  function Last(ns: seq<Node>): set<Node>
  {
    if ns == [] then {} else {ns[|ns| - 1]}
  }

  /** The first node of a chain, or null for the empty one. */
  function First(ns: seq<Node>): Node?
  {
    if ns == [] then null else ns[0]
  }

  /** `s` without its first occurrence of `key`; `s` itself when there is none. */
  function RemoveFirst(s: seq<int>, key: int): (r: seq<int>)
  {
    if s == [] then [] else if s[0] == key then s[1..] else [s[0]] + RemoveFirst(s[1..], key)
  }

  /** Removing the first `key` removes exactly one copy of it when there is
      one, and nothing otherwise; what precedes it is kept. */
  lemma {:induction false} RemoveFirstSpec(s: seq<int>, key: int)
    ensures key !in s ==> RemoveFirst(s, key) == s
    ensures key in s ==> multiset(RemoveFirst(s, key)) == multiset(s) - multiset{key}
    ensures key in s ==> |RemoveFirst(s, key)| == |s| - 1
  {
    if s != [] {
      var x, t := s[0], s[1..];
      assert s == [x] + t;
      if x != key {
        RemoveFirstSpec(t, key);
        assert RemoveFirst(s, key) == [x] + RemoveFirst(t, key);
        assert key in s <==> key in t;
      }
    }
  }

  lemma {:induction false} RemoveFirstAt(s: seq<int>, key: int, i: nat)
    requires i < |s| && s[i] == key && key !in s[..i]
    ensures RemoveFirst(s, key) == s[..i] + s[i + 1..]
  {
    if i > 0 {
      assert s[1..][..i - 1] == s[1..i];
      RemoveFirstAt(s[1..], key, i - 1);
      assert s[..i] == [s[0]] + s[1..][..i - 1];
      assert s[1..][i..] == s[i + 1..];
    }
  }

  class LinkedList {
    var head: Node?
    /** The nodes reachable from `head`, in order. */
    ghost var nodes: seq<Node>
    /** The values those nodes hold, in order. */
    ghost var Contents: seq<int>

    ghost predicate Valid()
      reads this, nodes
    {
      && head == First(nodes) && Linked(nodes)
      && |Contents| == |nodes|
      && forall k | 0 <= k < |nodes| :: nodes[k].data == Contents[k]
    }

    constructor ()
      ensures Valid() && nodes == [] && Contents == []
    {
      head := null;
      nodes := [];
      Contents := [];
    }

    /** A list object whose head is set to the first node of a chain, as
        `LinkedList()` followed by an assignment to `head`. */
    constructor FromChain(first: Node?, ghost ns: seq<Node>, ghost s: seq<int>)
      requires Linked(ns) && first == First(ns)
      requires |s| == |ns| && forall k | 0 <= k < |ns| :: ns[k].data == s[k]
      ensures Valid() && nodes == ns && Contents == s
    {
      head := first;
      nodes := ns;
      Contents := s;
    }

    /** `insert_at_beginning`: a fresh node in front of the old head. */
    method InsertAtBeginning(data: int)
      requires Valid()
      modifies this
      ensures Valid() && Contents == [data] + old(Contents)
      ensures |nodes| > 0 && fresh(nodes[0]) && nodes[1..] == old(nodes)
    {
      var n := new Node(data);
      n.next := head;
      head := n;
      nodes := [n] + nodes;
      Contents := [data] + Contents;
    }

    /** `insert_at_end`: walks to the last node and links a fresh one after it. */
    method InsertAtEnd(data: int)
      requires Valid()
      modifies this, Last(nodes)
      ensures Valid() && Contents == old(Contents) + [data]
      ensures |nodes| > 0 && fresh(nodes[|nodes| - 1]) && nodes[..|nodes| - 1] == old(nodes)
    {
      var n := new Node(data);
      if head == null {
        head := n;
        nodes := [n];
        Contents := [data];
        return;
      }
      var cur := head;
      ghost var i := 0;
      while cur.next != null
        invariant 0 <= i < |nodes| && cur == nodes[i]
        decreases |nodes| - i
      {
        cur := cur.next;
        i := i + 1;
      }
      ghost var ns := nodes;
      assert ns[i].next == Successor(ns, i);
      OnlyAt(ns, i);
      cur.next := n;
      nodes := ns + [n];
      Contents := Contents + [data];
      assert forall k | 0 <= k < |ns| - 1 :: nodes[k].next == Successor(nodes, k);
    }

    /** `insert_after`: a fresh node right after `prev`, a node of this list;
        nothing happens for a missing node (the source prints a message). */
    method InsertAfter(prev: Node?, data: int)
      requires Valid() && (prev == null || prev in nodes)
      modifies this, nodes
      ensures Valid()
      ensures prev == null ==> nodes == old(nodes) && Contents == old(Contents)
      ensures forall i | 0 <= i < |old(nodes)| && old(nodes)[i] == prev ::
                Contents == old(Contents)[..i + 1] + [data] + old(Contents)[i + 1..]
    {
      if prev != null {
        ghost var ns, s := nodes, Contents;
        ghost var i :| 0 <= i < |ns| && ns[i] == prev;
        OnlyAt(ns, i);
        var n := new Node(data);
        LinkAfter(i, prev, n);
      }
    }

    /** Links `n`, a node not in the list, in right after `prev`, node `i`. */
    method LinkAfter(ghost i: nat, prev: Node, n: Node)
      requires Valid() && i < |nodes| && nodes[i] == prev && n !in nodes
      modifies this, prev, n
      ensures Valid() && n.data == old(n.data)
      ensures nodes == old(nodes[..i + 1] + [n] + nodes[i + 1..])
      ensures Contents == old(Contents[..i + 1] + [n.data] + Contents[i + 1..])
    {
      ghost var ns, s := nodes, Contents;
      assert prev.next == Successor(ns, i);
      OnlyAt(ns, i);
      nodes := ns[..i + 1] + [n] + ns[i + 1..];
      Contents := s[..i + 1] + [n.data] + s[i + 1..];
      n.next := prev.next;
      prev.next := n;
      assert forall k {:trigger ns[k].next} | 0 <= k < |ns| && k + 1 != i + 1 :: ns[k].next == Successor(ns, k);
      LinkedSplice(ns, i + 1, n);
      DataSplice(ns, s, i + 1, n, n.data);
    }

    /** `delete_node`: unlinks the first node holding `key`; a missing key
        leaves the list as it is. */
    method DeleteNode(key: int)
      requires Valid()
      modifies this, nodes
      ensures Valid() && Contents == RemoveFirst(old(Contents), key)
    {
      ghost var ns, s := nodes, Contents;
      var cur := head;
      if cur != null && cur.data == key {
        RemoveFirstAt(s, key, 0);
        head := cur.next;
        nodes := ns[1..];
        Contents := s[1..];
        return;
      }
      var prev: Node? := null;
      ghost var i := 0;
      while cur != null && cur.data != key
        invariant 0 <= i <= |ns| && cur == (if i < |ns| then ns[i] else null)
        invariant prev == (if i == 0 then null else ns[i - 1])
        invariant key !in s[..i]
        decreases |ns| - i
      {
        prev := cur;
        cur := cur.next;
        i := i + 1;
      }
      if cur == null {
        assert s[..i] == s;
        RemoveFirstSpec(s, key);
        return;
      }
      RemoveFirstAt(s, key, i);
      OnlyAt(ns, i - 1);
      assert cur.next == Successor(ns, i);
      DataCut(ns, s, i, ns[..i] + ns[i + 1..], s[..i] + s[i + 1..]);
      prev.next := cur.next;
      assert forall k {:trigger ns[k].next} | 0 <= k < |ns| && k != i - 1 :: ns[k].next == Successor(ns, k);
      LinkedCut(ns, i);
      nodes := ns[..i] + ns[i + 1..];
      Contents := s[..i] + s[i + 1..];
    }

    /** `search_element`: the first node holding `data`, or null when none does. */
    method SearchElement(data: int) returns (r: Node?)
      requires Valid()
      ensures r == null <==> data !in Contents
      ensures r != null ==> exists i :: 0 <= i < |nodes| && nodes[i] == r && r.data == data && data !in Contents[..i]
    {
      var cur := head;
      ghost var i := 0;
      while cur != null
        invariant 0 <= i <= |nodes| && cur == (if i < |nodes| then nodes[i] else null)
        invariant data !in Contents[..i]
        decreases |nodes| - i
      {
        if cur.data == data {
          return cur;
        }
        cur := cur.next;
        i := i + 1;
      }
      assert Contents[..i] == Contents;
      return null;
    }

    /** `__str__`: the values met walking from the head (what `__iter__`
        yields), written in decimal and joined by "->"; "" for an empty
        list. */
    method ToString() returns (text: string)
      requires Valid()
      ensures text == Joined(Contents)
    {
      text := "";
      var cur := head;
      ghost var i := 0;
      while cur != null
        invariant 0 <= i <= |nodes| && cur == (if i < |nodes| then nodes[i] else null)
        invariant text == Joined(Contents[..i])
        decreases |nodes| - i
      {
        TakeSnoc(Contents, i);
        JoinedSnoc(Contents[..i], Contents[i]);
        if text == "" {
          text := IntText(cur.data);
        } else {
          text := text + "->" + IntText(cur.data);
        }
        assert nodes[i].next == Successor(nodes, i);
        cur := cur.next;
        i := i + 1;
      }
      assert Contents[..i] == Contents;
    }

    /** `reverse_list`: turns every link around; the nodes, and so the
        values, come out in reverse order. */
    method ReverseList()
      requires Valid()
      modifies this, nodes
      ensures Valid() && nodes == Reversed(old(nodes)) && Contents == Reversed(old(Contents))
    {
      ghost var ns, s := nodes, Contents;
      var prev := TurnLinks(ns, head);
      ReverseLinks(ns);
      ReverseData(ns, s);
      if ns != [] {
        ReversedAt<Node>(ns, 0);
      }
      head := prev;
      nodes := Reversed(ns);
      Contents := Reversed(s);
    }

    /** `merge_sorted`: a new list holding copies of the values of this list
        and `other`, merged head by head; a head of this list goes first only
        when it is strictly smaller.  Neither input changes. */
    method MergeSorted(other: LinkedList) returns (merged: LinkedList)
      requires Valid() && other.Valid()
      ensures fresh(merged) && merged.Valid() && merged.Contents == Merged(Contents, other.Contents)
      ensures forall k | 0 <= k < |merged.nodes| :: fresh(merged.nodes[k])
    {
      merged := new LinkedList();
      var rest, rns, rs := MergeHeads(merged, head, nodes, Contents, other.head, other.nodes, other.Contents);
      ghost var mns, mcs := merged.nodes, merged.Contents;
      AppendCopies(merged, rest, rns, rs);
      assert merged.Contents == mcs + rs;
      forall k | 0 <= k < |merged.nodes| ensures fresh(merged.nodes[k]) {
        if k < |mns| {
          assert merged.nodes[k] == mns[k];
        }
      }
    }
  }

  /** The first loop of `merge_sorted`: while both chains have nodes, a copy
      of the smaller head value goes onto the end of `merged` (the second
      chain's on ties) and that chain advances.  Returns where the chain
      that is left over continues, with its nodes and values. */
  method MergeHeads(merged: LinkedList, p1: Node?, ghost ns1: seq<Node>, ghost a: seq<int>,
                    p2: Node?, ghost ns2: seq<Node>, ghost b: seq<int>)
    returns (rest: Node?, ghost rns: seq<Node>, ghost rs: seq<int>)
    requires merged.Valid() && merged.nodes == []
    requires Linked(ns1) && p1 == First(ns1) && |a| == |ns1| && forall k | 0 <= k < |ns1| :: ns1[k].data == a[k]
    requires Linked(ns2) && p2 == First(ns2) && |b| == |ns2| && forall k | 0 <= k < |ns2| :: ns2[k].data == b[k]
    modifies merged
    ensures merged.Valid() && merged.Contents + rs == Merged(a, b)
    ensures forall k | 0 <= k < |merged.nodes| :: fresh(merged.nodes[k])
    ensures Linked(rns) && rest == First(rns) && |rs| == |rns| && forall k | 0 <= k < |rns| :: rns[k].data == rs[k]
    ensures forall k | 0 <= k < |rns| :: rns[k] in ns1 || rns[k] in ns2
  {
    var q1, q2 := p1, p2;
    ghost var i, j := 0, 0;
    while q1 != null && q2 != null
      invariant merged.Valid()
      invariant forall k | 0 <= k < |merged.nodes| :: fresh(merged.nodes[k])
      invariant 0 <= i <= |a| && q1 == (if i < |a| then ns1[i] else null)
      invariant 0 <= j <= |b| && q2 == (if j < |b| then ns2[j] else null)
      invariant merged.Contents + MergedFrom(a, b, i, j) == Merged(a, b)
      decreases |a| - i + |b| - j
    {
      q1, q2, i, j := EmitSmaller(merged, q1, ns1, a, i, q2, ns2, b, j);
    }
    if q1 != null {
      rest, rns, rs := q1, ns1[i..], a[i..];
      Remainder(ns1, a, i);
    } else {
      rest, rns, rs := q2, ns2[j..], b[j..];
      Remainder(ns2, b, j);
    }
  }

  /** One round of the first loop of `merge_sorted`: the smaller of the
      two heads (the second on ties) goes onto the end of `merged`, and its
      chain advances by one node. */
  method EmitSmaller(merged: LinkedList, q1: Node, ghost ns1: seq<Node>, ghost a: seq<int>, ghost i: nat,
                     q2: Node, ghost ns2: seq<Node>, ghost b: seq<int>, ghost j: nat)
    returns (q1': Node?, q2': Node?, ghost i': nat, ghost j': nat)
    requires merged.Valid()
    requires Linked(ns1) && |a| == |ns1| && forall k | 0 <= k < |ns1| :: ns1[k].data == a[k]
    requires Linked(ns2) && |b| == |ns2| && forall k | 0 <= k < |ns2| :: ns2[k].data == b[k]
    requires i < |a| && q1 == ns1[i] && j < |b| && q2 == ns2[j]
    requires merged.Contents + MergedFrom(a, b, i, j) == Merged(a, b)
    modifies merged, Last(merged.nodes)
    ensures merged.Valid() && |merged.nodes| > 0 && fresh(merged.nodes[|merged.nodes| - 1])
    ensures merged.nodes[..|merged.nodes| - 1] == old(merged.nodes)
    ensures i <= i' <= |a| && j <= j' <= |b| && i' + j' == i + j + 1
    ensures q1' == (if i' < |a| then ns1[i'] else null) && q2' == (if j' < |b| then ns2[j'] else null)
    ensures merged.Contents + MergedFrom(a, b, i', j') == Merged(a, b)
  {
    ghost var c := merged.Contents;
    assert ns1[i].next == Successor(ns1, i) && ns2[j].next == Successor(ns2, j);
    var smaller;
    q1', q2', i', j' := q1, q2, i, j;
    if q1.data < q2.data {
      smaller := q1.data;
      q1' := q1.next;
      i' := i + 1;
    } else {
      smaller := q2.data;
      q2' := q2.next;
      j' := j + 1;
    }
    Associative(c, [smaller], MergedFrom(a, b, i', j'));
    merged.InsertAtEnd(smaller);
  }

  /** What is left of a chain from position `i` is a chain of its nodes,
      starting at node `i` and keeping its values. */
  lemma Remainder(ns: seq<Node>, s: seq<int>, i: nat)
    requires Linked(ns) && |s| == |ns| && i <= |ns| && forall k | 0 <= k < |ns| :: ns[k].data == s[k]
    ensures Linked(ns[i..]) && First(ns[i..]) == (if i < |ns| then ns[i] else null)
    ensures |s[i..]| == |ns[i..]| && forall k | 0 <= k < |ns| - i :: ns[i..][k].data == s[i..][k]
    ensures forall k | 0 <= k < |ns| - i :: ns[i..][k] in ns
  {
    LinkedDrop(ns, i);
    forall k | 0 <= k < |ns| - i ensures ns[i..][k] in ns {
      assert ns[i..][k] == ns[i + k];
    }
  }

  /** The tail loop of `merge_sorted`: copies the values of the chain that
      starts at `rest` onto the end of `list`, one fresh node per value. */
  method AppendCopies(list: LinkedList, rest: Node?, ghost rns: seq<Node>, ghost rs: seq<int>)
    requires list.Valid() && Linked(rns) && rest == First(rns)
    requires |rs| == |rns| && forall k | 0 <= k < |rns| :: rns[k].data == rs[k]
    requires forall k | 0 <= k < |rns| :: rns[k] !in Last(list.nodes)
    modifies list, Last(list.nodes)
    ensures list.Valid() && list.Contents == old(list.Contents) + rs
    ensures |old(list.nodes)| <= |list.nodes| && list.nodes[..|old(list.nodes)|] == old(list.nodes)
    ensures forall k | |old(list.nodes)| <= k < |list.nodes| :: fresh(list.nodes[k])
  {
    var cur := rest;
    ghost var r := 0;
    ghost var ns0 := list.nodes;
    while cur != null
      invariant list.Valid() && 0 <= r <= |rns| && cur == (if r < |rns| then rns[r] else null)
      invariant list.Contents == old(list.Contents) + rs[..r]
      invariant |ns0| <= |list.nodes| && list.nodes[..|ns0|] == ns0
      invariant forall k | |ns0| <= k < |list.nodes| :: fresh(list.nodes[k])
      invariant forall k | 0 <= k < |rns| :: rns[k] !in Last(list.nodes)
      invariant Linked(rns) && forall k | 0 <= k < |rns| :: rns[k].data == rs[k]
      decreases |rns| - r
    {
      assert rns[r].next == Successor(rns, r);
      assert rs[..r + 1] == rs[..r] + [rs[r]];
      list.InsertAtEnd(cur.data);
      cur := cur.next;
      r := r + 1;
    }
    assert rs[..r] == rs;
  }

  /** The two parts of a chain split at position `m` share no node. */
  lemma SplitDisjoint(ns: seq<Node>, m: nat)
    requires Linked(ns) && m <= |ns|
    ensures forall k | 0 <= k < m :: ns[..m][k] !in ns[m..]
  {
    forall k | 0 <= k < m ensures ns[..m][k] !in ns[m..] {
      OnlyAt(ns, k);
    }
  }

  /** A chain whose link out of position `m` is cut to null falls apart
      into the chain up to `m` and the chain after it. */
  lemma CutLinks(ns: seq<Node>, m: nat)
    requires m < |ns| && ns[m].next == null
    requires forall k {:trigger ns[k].next} | 0 <= k < |ns| && k != m :: ns[k].next == Successor(ns, k)
    ensures Linked(ns[..m + 1]) && Linked(ns[m + 1..])
  {
    var ln, rn := ns[..m + 1], ns[m + 1..];
    forall k | 0 <= k <= m ensures ln[k].next == Successor(ln, k) {
      if k < m {
        assert ns[k].next == Successor(ns, k);
      }
    }
    forall k | 0 <= k < |rn| ensures rn[k].next == Successor(rn, k) {
      assert ns[m + 1 + k].next == Successor(ns, m + 1 + k);
    }
  }

  /** A node linked in at position `p` of a chain (after node `p - 1`,
      before node `p`) leaves a chain. */
  lemma LinkedSplice(ns: seq<Node>, p: nat, n: Node)
    requires p <= |ns| && (p > 0 ==> ns[p - 1].next == n) && n.next == (if p < |ns| then ns[p] else null)
    requires forall k {:trigger ns[k].next} | 0 <= k < |ns| && k + 1 != p :: ns[k].next == Successor(ns, k)
    ensures Linked(ns[..p] + [n] + ns[p..])
  {
    var r := ns[..p] + [n] + ns[p..];
    forall k | 0 <= k < |r| ensures r[k].next == Successor(r, k) {
      if k + 1 < p {
        assert r[k] == ns[k] && ns[k].next == Successor(ns, k);
      } else if k > p {
        assert r[k] == ns[k - 1] && ns[k - 1].next == Successor(ns, k - 1);
      }
    }
  }

  /** A chain whose node `i - 1` links past node `i` loses node `i`. */
  lemma LinkedCut(ns: seq<Node>, i: nat)
    requires 0 < i < |ns| && ns[i - 1].next == Successor(ns, i)
    requires forall k {:trigger ns[k].next} | 0 <= k < |ns| && k != i - 1 :: ns[k].next == Successor(ns, k)
    ensures Linked(ns[..i] + ns[i + 1..])
  {
    var r := ns[..i] + ns[i + 1..];
    forall k | 0 <= k < |r| ensures r[k].next == Successor(r, k) {
      if k < i - 1 {
        assert r[k] == ns[k] && ns[k].next == Successor(ns, k);
      } else if k >= i {
        assert r[k] == ns[k + 1] && ns[k + 1].next == Successor(ns, k + 1);
      }
    }
  }

  /** Nodes and values with position `i` cut from both stay paired. */
  lemma DataCut(ns: seq<Node>, s: seq<int>, i: nat, r: seq<Node>, c: seq<int>)
    requires |s| == |ns| && i < |ns| && r == ns[..i] + ns[i + 1..] && c == s[..i] + s[i + 1..]
    requires forall k | 0 <= k < |ns| :: ns[k].data == s[k]
    ensures |r| == |c| && forall k | 0 <= k < |r| :: r[k].data == c[k]
  {
    forall k | 0 <= k < |r| ensures r[k].data == c[k] {
      if k >= i {
        assert r[k] == ns[k + 1] && c[k] == s[k + 1];
      }
    }
  }

  lemma DataSplice(ns: seq<Node>, s: seq<int>, p: nat, n: Node, x: int)
    requires |s| == |ns| && p <= |ns| && n.data == x
    requires forall k | 0 <= k < |ns| :: ns[k].data == s[k]
    ensures forall k | 0 <= k <= |ns| :: (ns[..p] + [n] + ns[p..])[k].data == (s[..p] + [x] + s[p..])[k]
  {
  }

  /** A chain whose last node links to `p`, and `p` to the head of a
      second chain, make one chain. */
  lemma JoinLinks(ln: seq<Node>, p: Node, rn: seq<Node>)
    requires forall k {:trigger ln[k].next} | 0 <= k < |ln| :: ln[k].next == if k + 1 < |ln| then ln[k + 1] else p
    requires p.next == First(rn) && Linked(rn)
    ensures Linked(ln + [p] + rn)
  {
    var r := ln + [p] + rn;
    forall k | 0 <= k < |r| ensures r[k].next == Successor(r, k) {
      if k < |ln| {
        assert r[k] == ln[k] && ln[k].next == if k + 1 < |ln| then ln[k + 1] else p;
      } else if k > |ln| {
        assert r[k] == rn[k - |ln| - 1] && rn[k - |ln| - 1].next == Successor(rn, k - |ln| - 1);
      }
    }
  }

  /** Values stay paired with their nodes across a join. */
  lemma JoinData(ln: seq<Node>, ls: seq<int>, p: Node, rn: seq<Node>, rs: seq<int>)
    requires |ls| == |ln| && forall k | 0 <= k < |ln| :: ln[k].data == ls[k]
    requires |rs| == |rn| && forall k | 0 <= k < |rn| :: rn[k].data == rs[k]
    ensures forall k | 0 <= k < |ln| + 1 + |rn| :: (ln + [p] + rn)[k].data == (ls + [p.data] + rs)[k]
  {
  }
}
