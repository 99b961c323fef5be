/** Merging many ascending lists through a binary min-heap of
    (value, list index, element index) entries: the heap is seeded with the
    first element of every non-empty list; each pop appends the value and
    pushes the next element of the same list, if any. */
module HeapMerge {
  import opened Seqs

  /** A heap entry: a value, the index of its list, its index in that list. */
  type Entry = (int, int, int)

  /** The heap contents once `pos[i]` elements of each list `i` have been
      emitted: one entry per list that still has elements, holding its
      next element. */
  function Fronts(lists: seq<seq<int>>, pos: seq<nat>): set<Entry>
    requires |pos| == |lists|
  {
    set i | 0 <= i < |lists| && pos[i] < |lists[i]| :: (lists[i][pos[i]], i, pos[i])
  }

  /** What an entry of the heap is: the next element of a list that still
      has one. */
  lemma FrontOf(lists: seq<seq<int>>, pos: seq<nat>, e: Entry)
    requires |pos| == |lists| && e in Fronts(lists, pos)
    ensures 0 <= e.1 < |lists| && e.2 == pos[e.1] < |lists[e.1]| && e.0 == lists[e.1][e.2]
  {
  }

  /** The heap never holds an entry for an empty list, and holds at most one
      entry per list. */
  lemma OneEntryPerList(lists: seq<seq<int>>, pos: seq<nat>, e: Entry, f: Entry)
    requires |pos| == |lists| && e in Fronts(lists, pos) && f in Fronts(lists, pos)
    ensures lists[e.1] != []
    ensures e.1 == f.1 ==> e == f
  {
    FrontOf(lists, pos, e);
    FrontOf(lists, pos, f);
  }

  /** Emitting the next element of list `li` takes its entry out of the heap
      and puts in the entry for the element after it, if there is one. */
  lemma FrontsStep(lists: seq<seq<int>>, pos: seq<nat>, li: nat)
    requires |pos| == |lists| && li < |lists| && pos[li] < |lists[li]|
    ensures Fronts(lists, pos[li := pos[li] + 1])
            == Fronts(lists, pos) - {(lists[li][pos[li]], li, pos[li])}
               + (if pos[li] + 1 < |lists[li]| then {(lists[li][pos[li] + 1], li, pos[li] + 1)} else {})
  {
    var pos' := pos[li := pos[li] + 1];
    var old', new' := Fronts(lists, pos), Fronts(lists, pos');
    var gone := (lists[li][pos[li]], li, pos[li]);
    var added: set<Entry> := if pos[li] + 1 < |lists[li]| then {(lists[li][pos[li] + 1], li, pos[li] + 1)} else {};
    forall e | e in new' ensures e in old' - {gone} + added {
      FrontOf(lists, pos', e);
      if e.1 != li {
        assert e == (lists[e.1][pos[e.1]], e.1, pos[e.1]);
      }
    }
    forall e | e in old' - {gone} + added ensures e in new' {
      if e in added {
        assert e == (lists[li][pos'[li]], li, pos'[li]);
      } else {
        FrontOf(lists, pos, e);
        assert e.1 != li;
        assert e == (lists[e.1][pos'[e.1]], e.1, pos'[e.1]);
      }
    }
  }

  /** The elements of `m` whose origin, in `o`, is list `i`, in order. */
  function Select(m: seq<int>, o: seq<int>, i: int): seq<int>
    requires |m| == |o|
  {
    if m == [] then []
    else Select(m[..|m| - 1], o[..|o| - 1], i) + (if o[|o| - 1] == i then [m[|m| - 1]] else [])
  }

  /** How many elements are still to be emitted. */
  function Remaining(lists: seq<seq<int>>, pos: seq<nat>): nat
    requires |pos| == |lists| && forall i | 0 <= i < |lists| :: pos[i] <= |lists[i]|
  {
    if lists == [] then 0 else |lists[0]| - pos[0] + Remaining(lists[1..], pos[1..])
  }

  lemma {:induction false} RemainingStep(lists: seq<seq<int>>, pos: seq<nat>, li: nat)
    requires |pos| == |lists| && forall i | 0 <= i < |lists| :: pos[i] <= |lists[i]|
    requires li < |lists| && pos[li] < |lists[li]|
    ensures Remaining(lists, pos[li := pos[li] + 1]) == Remaining(lists, pos) - 1
  {
    var pos' := pos[li := pos[li] + 1];
    if li > 0 {
      assert pos'[1..] == pos[1..][li - 1 := pos[li] + 1];
      RemainingStep(lists[1..], pos[1..], li - 1);
    } else {
      assert pos'[1..] == pos[1..];
    }
  }

  /** The values of list `i0` onwards, taken from `m` by origin. */
  function Bag(m: seq<int>, o: seq<int>, i0: nat, n: nat): multiset<int>
    requires |m| == |o|
    decreases n - i0
  {
    if i0 >= n then multiset{} else multiset(Select(m, o, i0)) + Bag(m, o, i0 + 1, n)
  }

  lemma {:induction false} BagEmpty(m: seq<int>, o: seq<int>, i0: nat, n: nat)
    requires m == [] && o == []
    ensures Bag(m, o, i0, n) == multiset{}
    decreases n - i0
  {
    if i0 < n {
      BagEmpty(m, o, i0 + 1, n);
    }
  }

  lemma {:induction false} BagSnoc(m: seq<int>, o: seq<int>, v: int, li: int, i0: nat, n: nat)
    requires |m| == |o|
    ensures Bag(m + [v], o + [li], i0, n) == Bag(m, o, i0, n) + (if i0 <= li < n then multiset{v} else multiset{})
    decreases n - i0
  {
    if i0 < n {
      var m', o' := m + [v], o + [li];
      assert m'[..|m'| - 1] == m && o'[..|o'| - 1] == o;
      assert Select(m', o', i0) == Select(m, o, i0) + (if li == i0 then [v] else []);
      BagSnoc(m, o, v, li, i0 + 1, n);
      assert Bag(m', o', i0, n) == multiset(Select(m', o', i0)) + Bag(m', o', i0 + 1, n);
    }
  }

  lemma ButLast<T>(s: seq<T>)
    requires s != []
    ensures s[..|s| - 1] + [s[|s| - 1]] == s
  {
  }

  /** When every origin is below `n`, the bags of lists 0 to n - 1 hold
      all of `m`. */
  lemma {:induction false} BagAll(m: seq<int>, o: seq<int>, n: nat)
    requires |m| == |o| && forall k | 0 <= k < |o| :: 0 <= o[k] < n
    ensures Bag(m, o, 0, n) == multiset(m)
  {
    if m == [] {
      BagEmpty(m, o, 0, n);
    } else {
      var m', o', v := m[..|m| - 1], o[..|o| - 1], m[|m| - 1];
      BagAll(m', o', n);
      BagSnoc(m', o', v, o[|o| - 1], 0, n);
      ButLast(m);
      ButLast(o);
      assert multiset(m) == multiset(m') + multiset{v};
    }
  }

  /** When `m` takes exactly list `i` from each origin `i`, the bags of
      lists `i0` onwards hold what flattening those lists gives. */
  lemma {:induction false} BagLists(m: seq<int>, o: seq<int>, lists: seq<seq<int>>, i0: nat)
    requires |m| == |o| && i0 <= |lists|
    requires forall i | 0 <= i < |lists| :: Select(m, o, i) == lists[i]
    ensures Bag(m, o, i0, |lists|) == multiset(Flatten(lists[i0..]))
    decreases |lists| - i0
  {
    if i0 < |lists| {
      BagLists(m, o, lists, i0 + 1);
      assert lists[i0..][1..] == lists[i0 + 1..];
    }
  }

  /** An interleaving of the lists that keeps each list whole is a
      permutation of all their elements. */
  lemma Interleaving(m: seq<int>, o: seq<int>, lists: seq<seq<int>>)
    requires |m| == |o| && forall k | 0 <= k < |o| :: 0 <= o[k] < |lists|
    requires forall i | 0 <= i < |lists| :: Select(m, o, i) == lists[i]
    ensures multiset(m) == multiset(Flatten(lists))
  {
    BagAll(m, o, |lists|);
    BagLists(m, o, lists, 0);
    assert lists[0..] == lists;
  }

  /** Picks the entry Python's tuple order puts first: the least value, and
      among equal values the least list index (each list has one entry at
      most, so that fixes the entry). */
  method PopMin(heap: set<Entry>) returns (e: Entry)
    requires heap != {}
    ensures e in heap && forall f | f in heap :: e.0 < f.0 || (e.0 == f.0 && e.1 <= f.1)
  {
    LeastInSet(heap, (f: Entry) => f.0);
    var m: Entry :| m in heap && forall f: Entry | f in heap :: m.0 <= f.0;
    var ties := set f | f in heap && f.0 == m.0;
    assert m in ties;
    LeastInSet(ties, (f: Entry) => f.1);
    e :| e in ties && forall f: Entry | f in ties :: e.1 <= f.1;
    forall f | f in heap ensures e.0 < f.0 || (e.0 == f.0 && e.1 <= f.1) {
      if f.0 == m.0 {
        assert f in ties;
      }
    }
  }

  /** `merge_k_lists`: seeds the heap, then pops and appends until the heap
      is empty.  `origin` records which list each output value came from.
      The output keeps every list whole and in its own order, so it is a
      permutation of all the elements; it is ascending when every list
      is.  The lists themselves are values and are not changed. */
  method MergeKLists(lists: seq<seq<int>>) returns (merged: seq<int>, ghost origin: seq<int>)
    ensures |origin| == |merged| && forall k | 0 <= k < |origin| :: 0 <= origin[k] < |lists|
    ensures forall i | 0 <= i < |lists| :: Select(merged, origin, i) == lists[i]
    ensures multiset(merged) == multiset(Flatten(lists))
    ensures AllSorted(lists) ==> Sorted(merged)
  {
    merged, origin := [], [];
    ghost var pos: seq<nat> := seq(|lists|, _ => 0);
    var heap := Seed(lists, pos);
    while heap != {}
      invariant |pos| == |lists| && heap == Fronts(lists, pos)
      invariant |origin| == |merged| && forall k | 0 <= k < |origin| :: 0 <= origin[k] < |lists|
      invariant forall i | 0 <= i < |lists| :: pos[i] <= |lists[i]| && Select(merged, origin, i) == lists[i][..pos[i]]
      invariant AllSorted(lists) ==> Sorted(merged) && forall e | e in heap :: merged != [] ==> merged[|merged| - 1] <= e.0
      decreases Remaining(lists, pos)
    {
      var e := PopMin(heap);
      merged, origin, heap, pos := Emit(lists, merged, origin, heap, pos, e);
    }
    Drained(lists, pos, merged, origin);
    Interleaving(merged, origin, lists);
  }

  /** The first loop of `merge_k_lists`: the first element of every
      non-empty list goes into the heap. */
  method Seed(lists: seq<seq<int>>, ghost pos: seq<nat>) returns (heap: set<Entry>)
    requires |pos| == |lists| && forall i | 0 <= i < |pos| :: pos[i] == 0
    ensures heap == Fronts(lists, pos)
  {
    heap := {};
    for i := 0 to |lists|
      invariant heap == set k | 0 <= k < i && 0 < |lists[k]| :: (lists[k][0], k, 0)
    {
      if lists[i] != [] {
        heap := heap + {(lists[i][0], i, 0)};
      }
    }
  }

  /** Once the heap is empty every list has been emitted whole. */
  lemma Drained(lists: seq<seq<int>>, pos: seq<nat>, merged: seq<int>, origin: seq<int>)
    requires |pos| == |lists| && Fronts(lists, pos) == {} && |origin| == |merged|
    requires forall i | 0 <= i < |lists| :: pos[i] <= |lists[i]| && Select(merged, origin, i) == lists[i][..pos[i]]
    ensures forall i | 0 <= i < |lists| :: Select(merged, origin, i) == lists[i]
  {
    forall i | 0 <= i < |lists| ensures Select(merged, origin, i) == lists[i] {
      NoneLeft(lists, pos, i);
      assert lists[i][..pos[i]] == lists[i];
    }
  }

  /** An empty heap means list `i` has no element left. */
  lemma NoneLeft(lists: seq<seq<int>>, pos: seq<nat>, i: nat)
    requires |pos| == |lists| && i < |lists| && Fronts(lists, pos) == {}
    ensures pos[i] >= |lists[i]|
  {
    if pos[i] < |lists[i]| {
      FrontIn(lists, pos, i);
      assert false;
    }
  }

  /** A list with an element left has its entry in the heap. */
  lemma FrontIn(lists: seq<seq<int>>, pos: seq<nat>, i: nat)
    requires |pos| == |lists| && i < |lists| && pos[i] < |lists[i]|
    ensures (lists[i][pos[i]], i, pos[i]) in Fronts(lists, pos)
  {
  }

  /** The body of the loop: appends the popped value, takes its entry out
      of the heap and pushes the next element of the same list, if any. */
  method Emit(lists: seq<seq<int>>, merged: seq<int>, ghost origin: seq<int>, heap: set<Entry>,
              ghost pos: seq<nat>, e: Entry)
    returns (merged': seq<int>, ghost origin': seq<int>, heap': set<Entry>, ghost pos': seq<nat>)
    requires |pos| == |lists| && heap == Fronts(lists, pos)
    requires |origin| == |merged| && forall k | 0 <= k < |origin| :: 0 <= origin[k] < |lists|
    requires forall i | 0 <= i < |lists| :: pos[i] <= |lists[i]| && Select(merged, origin, i) == lists[i][..pos[i]]
    requires AllSorted(lists) ==> Sorted(merged) && forall f | f in heap :: merged != [] ==> merged[|merged| - 1] <= f.0
    requires e in heap && forall f | f in heap :: e.0 <= f.0
    ensures merged' == merged + [e.0] && origin' == origin + [e.1]
    ensures |pos'| == |lists| && heap' == Fronts(lists, pos')
    ensures |origin'| == |merged'| && forall k | 0 <= k < |origin'| :: 0 <= origin'[k] < |lists|
    ensures forall i | 0 <= i < |lists| :: pos'[i] <= |lists[i]| && Select(merged', origin', i) == lists[i][..pos'[i]]
    ensures AllSorted(lists) ==> Sorted(merged') && forall f | f in heap' :: merged'[|merged'| - 1] <= f.0
    ensures Remaining(lists, pos') < Remaining(lists, pos)
  {
    FrontOf(lists, pos, e);
    var (value, li, ei) := e;
    merged', origin' := merged + [value], origin + [li];
    heap' := heap - {e};
    if ei + 1 < |lists[li]| {
      heap' := heap' + {(lists[li][ei + 1], li, ei + 1)};
    }
    pos' := pos[li := pos[li] + 1];
    FrontsStep(lists, pos, li);
    RemainingStep(lists, pos, li);
    SelectStep(lists, merged, origin, pos, li);
    if AllSorted(lists) {
      SortedSnoc(merged, value);
      PushedAbove(lists, heap, e, heap');
    }
  }

  /** Emitting the front of list `li` extends the part of that list already
      emitted by one element and leaves the other lists' parts alone. */
  lemma SelectStep(lists: seq<seq<int>>, merged: seq<int>, origin: seq<int>, pos: seq<nat>, li: nat)
    requires |pos| == |lists| && |origin| == |merged| && li < |lists| && pos[li] < |lists[li]|
    requires forall i | 0 <= i < |lists| :: pos[i] <= |lists[i]| && Select(merged, origin, i) == lists[i][..pos[i]]
    ensures var pos', m', o' := pos[li := pos[li] + 1], merged + [lists[li][pos[li]]], origin + [li];
      forall i | 0 <= i < |lists| :: Select(m', o', i) == lists[i][..pos'[i]]
  {
    var pos', m', o' := pos[li := pos[li] + 1], merged + [lists[li][pos[li]]], origin + [li];
    assert m'[..|m'| - 1] == merged && o'[..|o'| - 1] == origin;
    forall i | 0 <= i < |lists| ensures Select(m', o', i) == lists[i][..pos'[i]] {
      if i == li {
        TakeSnoc(lists[i], pos[i]);
      }
    }
  }

  /** The entry pushed after `e`, the next element of a sorted list, is no
      smaller than `e`, which was no larger than anything in the heap. */
  lemma PushedAbove(lists: seq<seq<int>>, heap: set<Entry>, e: Entry, heap': set<Entry>)
    requires AllSorted(lists) && 0 <= e.1 < |lists| && 0 <= e.2 < |lists[e.1]| && e.0 == lists[e.1][e.2]
    requires forall f | f in heap :: e.0 <= f.0
    requires heap' == heap - {e} || (e.2 + 1 < |lists[e.1]| && heap' == heap - {e} + {(lists[e.1][e.2 + 1], e.1, e.2 + 1)})
    ensures forall f | f in heap' :: e.0 <= f.0
  {
    forall f | f in heap' ensures e.0 <= f.0 {
      if f !in heap {
        assert Sorted(lists[e.1]) && lists[e.1][e.2] <= lists[e.1][e.2 + 1];
      }
    }
  }

  /** Appending a value no smaller than the last keeps a sequence sorted. */
  lemma SortedSnoc(s: seq<int>, x: int)
    requires Sorted(s) && (s != [] ==> s[|s| - 1] <= x)
    ensures Sorted(s + [x])
  {
    forall i, j | 0 <= i < j < |s + [x]| ensures (s + [x])[i] <= (s + [x])[j] {
      if j == |s| && i < |s| - 1 {
        assert s[i] <= s[|s| - 1];
      }
    }
  }
}
