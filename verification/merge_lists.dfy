/** Merging ascending lists of integers: two at a time by walking both
    with an index each, and many at a time by splitting the list of lists
    in half and merging the two results. */
module MergeLists {
  import opened Seqs

  /** A tail loop of `merge_two_lists`: appends the elements of `s` from
      position `i` on, one at a time. */
  method AppendFrom(merged: seq<int>, s: seq<int>, i: nat) returns (merged': seq<int>)
    requires i <= |s|
    ensures merged' == merged + s[i..]
  {
    merged' := merged;
    var k := i;
    while k < |s|
      invariant i <= k <= |s| && merged' == merged + s[i..k]
    {
      assert s[i..k + 1] == s[i..k] + [s[k]];
      merged' := merged' + [s[k]];
      k := k + 1;
    }
  }

  /** `merge_two_lists`: appends the smaller head while both lists have
      elements left, taking from `list2` when the heads are equal, then
      appends what is left of either. */
  method MergeTwoLists(list1: seq<int>, list2: seq<int>) returns (merged: seq<int>)
    ensures merged == Merged(list1, list2)
    ensures multiset(merged) == multiset(list1) + multiset(list2)
    ensures Sorted(list1) && Sorted(list2) ==> Sorted(merged)
  {
    merged := [];
    var i, j := 0, 0;
    while i < |list1| && j < |list2|
      invariant i <= |list1| && j <= |list2|
      invariant merged + MergedFrom(list1, list2, i, j) == Merged(list1, list2)
      decreases |list1| - i + |list2| - j
    {
      if list1[i] < list2[j] {
        Associative(merged, [list1[i]], MergedFrom(list1, list2, i + 1, j));
        merged := merged + [list1[i]];
        i := i + 1;
      } else {
        Associative(merged, [list2[j]], MergedFrom(list1, list2, i, j + 1));
        merged := merged + [list2[j]];
        j := j + 1;
      }
    }
    assert merged + list1[i..] + list2[j..] == Merged(list1, list2) by {
      if i == |list1| {
        assert list1[i..] == [];
      } else {
        assert list2[j..] == [];
      }
    }
    merged := AppendFrom(merged, list1, i);
    merged := AppendFrom(merged, list2, j);
    assert merged == Merged(list1, list2);
    MergedPermutation(list1, list2);
    if Sorted(list1) && Sorted(list2) {
      MergedSorted(list1, list2);
    }
  }

  /** `merge_k_lists`: no lists give [], one list is returned as it is,
      more are split at the middle, each half merged, and the two results
      merged.  The result holds every element of every list, and is
      ascending when every list is. */
  method MergeKLists(lists: seq<seq<int>>) returns (r: seq<int>)
    ensures lists == [] ==> r == []
    ensures |lists| == 1 ==> r == lists[0]
    ensures multiset(r) == multiset(Flatten(lists))
    ensures AllSorted(lists) ==> Sorted(r)
    decreases |lists|
  {
    if |lists| == 0 {
      return [];
    }
    if |lists| == 1 {
      assert Flatten(lists) == lists[0] + Flatten([]);
      return lists[0];
    }
    var mid := |lists| / 2;
    var left := MergeKLists(lists[..mid]);
    var right := MergeKLists(lists[mid..]);
    r := MergeTwoLists(left, right);
    Halves(lists, mid);
  }

  /** What splitting the list of lists at `mid` keeps: the elements, in
      order, and the ascending order of each list. */
  lemma Halves(lists: seq<seq<int>>, mid: nat)
    requires mid <= |lists|
    ensures Flatten(lists) == Flatten(lists[..mid]) + Flatten(lists[mid..])
    ensures AllSorted(lists) ==> AllSorted(lists[..mid]) && AllSorted(lists[mid..])
  {
    var a, b := lists[..mid], lists[mid..];
    assert lists == a + b;
    FlattenAppend(a, b);
    if AllSorted(lists) {
      assert forall k | 0 <= k < |a| :: a[k] == lists[k];
      assert forall k | 0 <= k < |b| :: b[k] == lists[mid + k];
    }
  }

  /** Lists that are all empty flatten to nothing, so they merge to []. */
  lemma {:induction false} AllEmptyFlatten(lists: seq<seq<int>>)
    requires forall k | 0 <= k < |lists| :: lists[k] == []
    ensures Flatten(lists) == []
  {
    if lists != [] {
      AllEmptyFlatten(lists[1..]);
    }
  }

  /** The three lists of the repository's example, and the result of
      merging them the way `MergeKLists` splits them. */
  lemma ExampleMerged()
    ensures Merged([1, 4, 5], Merged([1, 3, 4], [2, 6])) == [1, 1, 2, 3, 4, 4, 5, 6]
  {
  }

  lemma ExampleFlatten()
    ensures Flatten([[1, 4, 5], [1, 3, 4], [2, 6]]) == [1, 4, 5] + ([1, 3, 4] + [2, 6])
  {
    var lists: seq<seq<int>> := [[1, 4, 5], [1, 3, 4], [2, 6]];
    assert Flatten(lists[2..]) == [2, 6] + Flatten([]);
    assert Flatten(lists[1..]) == [1, 3, 4] + Flatten(lists[2..]);
  }

  /** A sorted arrangement of the values of three ascending lists is
      what merging the last two, and then the first with that, gives. */
  lemma ThreeMerged(r: seq<int>, a: seq<int>, b: seq<int>, c: seq<int>)
    requires Sorted(a) && Sorted(b) && Sorted(c)
    requires Sorted(r) && multiset(r) == multiset(a + (b + c))
    ensures r == Merged(a, Merged(b, c))
  {
    var right := Merged(b, c);
    MergedPermutation(b, c);
    MergedPermutation(a, right);
    MergedSorted(b, c);
    MergedSorted(a, right);
    SortedUnique(r, Merged(a, right));
  }

  /** Any ascending arrangement of the values of [[1, 4, 5], [1, 3, 4],
      [2, 6]], which is what `MergeKLists` returns for them, is
      [1, 1, 2, 3, 4, 4, 5, 6]. */
  lemma MergeKExample(r: seq<int>)
    requires Sorted(r) && multiset(r) == multiset(Flatten([[1, 4, 5], [1, 3, 4], [2, 6]]))
    ensures r == [1, 1, 2, 3, 4, 4, 5, 6]
  {
    ExampleFlatten();
    ThreeMerged(r, [1, 4, 5], [1, 3, 4], [2, 6]);
    ExampleMerged();
  }
}
