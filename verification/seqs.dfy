/** Sequence facts shared by the sorting, merging and list modules. */
module Seqs {

  /** Non-decreasing order. */
  predicate Sorted(s: seq<int>)
  {
    forall i, j :: 0 <= i < j < |s| ==> s[i] <= s[j]
  }

  /** The merge step used throughout the repository, from position `i` of
      `a` and position `j` of `b` on: while both have elements left, take
      the one from `a` only when it is strictly smaller, otherwise the one
      from `b`; then append what is left. */
  function MergedFrom(a: seq<int>, b: seq<int>, i: nat, j: nat): seq<int>
    requires i <= |a| && j <= |b|
    decreases |a| - i + |b| - j
  {
    if i == |a| then b[j..]
    else if j == |b| then a[i..]
    else if a[i] < b[j] then [a[i]] + MergedFrom(a, b, i + 1, j)
    else [b[j]] + MergedFrom(a, b, i, j + 1)
  }

  /** The merge of two whole sequences. */
  function Merged(a: seq<int>, b: seq<int>): seq<int>
  {
    MergedFrom(a, b, 0, 0)
  }

  /** Merging loses and invents nothing. */
  lemma {:induction false} MergedFromPermutation(a: seq<int>, b: seq<int>, i: nat, j: nat)
    requires i <= |a| && j <= |b|
    ensures multiset(MergedFrom(a, b, i, j)) == multiset(a[i..]) + multiset(b[j..])
    ensures |MergedFrom(a, b, i, j)| == |a| - i + |b| - j
    decreases |a| - i + |b| - j
  {
    if i == |a| || j == |b| {
    } else if a[i] < b[j] {
      MergedFromPermutation(a, b, i + 1, j);
      assert MergedFrom(a, b, i, j) == [a[i]] + MergedFrom(a, b, i + 1, j);
      DropOne(a, i);
    } else {
      MergedFromPermutation(a, b, i, j + 1);
      assert MergedFrom(a, b, i, j) == [b[j]] + MergedFrom(a, b, i, j + 1);
      DropOne(b, j);
    }
  }

  /** The values from `i` on are `s[i]` and the values after it. */
  lemma DropOne(s: seq<int>, i: nat)
    requires i < |s|
    ensures multiset(s[i..]) == multiset{s[i]} + multiset(s[i + 1..])
  {
    assert s[i..] == [s[i]] + s[i + 1..];
  }

  lemma MergedPermutation(a: seq<int>, b: seq<int>)
    ensures multiset(Merged(a, b)) == multiset(a) + multiset(b)
    ensures |Merged(a, b)| == |a| + |b|
  {
    MergedFromPermutation(a, b, 0, 0);
    assert a[0..] == a && b[0..] == b;
  }

  /** `x` below every element of `s`, and `s` sorted, give `[x] + s` sorted. */
  lemma ConsSorted(x: int, s: seq<int>)
    requires Sorted(s)
    requires forall k :: 0 <= k < |s| ==> x <= s[k]
    ensures Sorted([x] + s)
  {
  }

  /** Concatenation is associative. */
  lemma Associative<T>(x: seq<T>, y: seq<T>, z: seq<T>)
    ensures (x + y) + z == x + (y + z)
  {
  }

  /** Merging two ascending sequences gives an ascending sequence. */
  lemma {:induction false} MergedFromSorted(a: seq<int>, b: seq<int>, i: nat, j: nat)
    requires i <= |a| && j <= |b| && Sorted(a) && Sorted(b)
    ensures Sorted(MergedFrom(a, b, i, j))
    decreases |a| - i + |b| - j
  {
    if i == |a| || j == |b| {
    } else if a[i] < b[j] {
      var m := MergedFrom(a, b, i + 1, j);
      MergedFromSorted(a, b, i + 1, j);
      MergedFromPermutation(a, b, i + 1, j);
      forall k | 0 <= k < |m| ensures a[i] <= m[k] {
        assert m[k] in multiset(m);
        assert m[k] in a[i + 1..] || m[k] in b[j..];
      }
      ConsSorted(a[i], m);
    } else {
      var m := MergedFrom(a, b, i, j + 1);
      MergedFromSorted(a, b, i, j + 1);
      MergedFromPermutation(a, b, i, j + 1);
      forall k | 0 <= k < |m| ensures b[j] <= m[k] {
        assert m[k] in multiset(m);
        assert m[k] in a[i..] || m[k] in b[j + 1..];
      }
      ConsSorted(b[j], m);
    }
  }

  lemma MergedSorted(a: seq<int>, b: seq<int>)
    requires Sorted(a) && Sorted(b)
    ensures Sorted(Merged(a, b))
  {
    MergedFromSorted(a, b, 0, 0);
  }

  /** Reversal, defined from the back so that `Reversed(s + [x]) == [x] + Reversed(s)`. */
  function Reversed<T>(s: seq<T>): (r: seq<T>)
    ensures |r| == |s|
  {
    if s == [] then [] else [s[|s| - 1]] + Reversed(s[..|s| - 1])
  }

  /** A prefix one element longer is the prefix and that element. */
  lemma TakeSnoc<T>(s: seq<T>, i: nat)
    requires i < |s|
    ensures s[..i + 1] == s[..i] + [s[i]]
  {
  }

  /** Element `k` of the reversal is element `|s| - 1 - k` of the original. */
  lemma {:induction false} ReversedAt<T>(s: seq<T>, k: nat)
    requires k < |s|
    ensures Reversed(s)[k] == s[|s| - 1 - k]
  {
    if k > 0 {
      ReversedAt(s[..|s| - 1], k - 1);
    }
  }

  /** Reversing twice restores the sequence. */
  lemma ReversedTwice<T>(s: seq<T>)
    ensures Reversed(Reversed(s)) == s
  {
    var r := Reversed(s);
    forall k | 0 <= k < |s| ensures Reversed(r)[k] == s[k] {
      ReversedAt(r, k);
      ReversedAt(s, |s| - 1 - k);
    }
  }

  /** Sum of the elements, left to right. */
  function Sum(s: seq<int>): int
  {
    if s == [] then 0 else s[0] + Sum(s[1..])
  }

  lemma {:induction false} SumAppend(a: seq<int>, b: seq<int>)
    ensures Sum(a + b) == Sum(a) + Sum(b)
  {
    if a == [] {
      assert a + b == b;
    } else {
      SumAppend(a[1..], b);
      assert (a + b)[1..] == a[1..] + b;
    }
  }

  /** Removing the element at `k` takes exactly that element off the sum. */
  lemma SumRemove(s: seq<int>, k: nat)
    requires k < |s|
    ensures Sum(s) == s[k] + Sum(s[..k] + s[k + 1..])
  {
    var before, after := s[..k], s[k + 1..];
    var rest := [s[k]] + after;
    assert s == before + rest;
    assert rest[0] == s[k] && rest[1..] == after;
    SumAppend(before, rest);
    SumAppend(before, after);
  }

  /** The sum depends only on the multiset of elements. */
  lemma {:induction false} SumPermutation(a: seq<int>, b: seq<int>)
    requires multiset(a) == multiset(b)
    ensures Sum(a) == Sum(b)
    decreases |a|
  {
    if a != [] {
      var k := IndexOf(b, a[0]);
      var b' := b[..k] + b[k + 1..];
      RemoveAtMultiset(b, k);
      HeadMultiset(a);
      SumPermutation(a[1..], b');
      SumRemove(b, k);
    } else {
      assert |multiset(b)| == 0;
    }
  }

  /** No element occurs twice. */
  predicate Distinct(s: seq<int>)
  {
    forall i, j | 0 <= i < j < |s| :: s[i] != s[j]
  }

  /** In a sequence without repeats every element occurs exactly once. */
  lemma {:induction false} DistinctCount(s: seq<int>, x: int)
    requires Distinct(s)
    ensures multiset(s)[x] == if x in s then 1 else 0
  {
    if s != [] {
      assert s == [s[0]] + s[1..];
      assert s[0] !in s[1..];
      DistinctCount(s[1..], x);
    }
  }

  /** Two sequences without repeats that hold the same elements are
      permutations of each other. */
  lemma SameElementsPermutation(a: seq<int>, b: seq<int>)
    requires Distinct(a) && Distinct(b)
    requires forall x :: x in a <==> x in b
    ensures multiset(a) == multiset(b)
  {
    forall x
      ensures multiset(a)[x] == multiset(b)[x]
    {
      DistinctCount(a, x);
      DistinctCount(b, x);
    }
  }

  /** A position where `x` occurs in `s`. */
  lemma IndexOf(s: seq<int>, x: int) returns (k: nat)
    requires x in multiset(s)
    ensures k < |s| && s[k] == x
  {
    k :| 0 <= k < |s| && s[k] == x;
  }

  lemma HeadMultiset(s: seq<int>)
    requires s != []
    ensures multiset(s[1..]) == multiset(s) - multiset{s[0]}
  {
    assert s == [s[0]] + s[1..];
  }

  /** Taking out the element at `k` takes one copy of it out of the multiset. */
  lemma RemoveAtMultiset(s: seq<int>, k: nat)
    requires k < |s|
    ensures multiset(s[..k] + s[k + 1..]) == multiset(s) - multiset{s[k]}
  {
    assert s == s[..k] + [s[k]] + s[k + 1..];
  }

  /** Some element of a non-empty multiset has the least key: what a
      min-heap pop returns, whichever of several least elements it picks. */
  lemma {:induction false} LeastExists<T>(heap: multiset<T>, key: T -> int)
    requires heap != multiset{}
    ensures exists e :: e in heap && forall f | f in heap :: key(e) <= key(f)
    decreases |heap|
  {
    var x :| x in heap;
    var rest := heap - multiset{x};
    forall f | f in heap ensures f == x || f in rest {
      if f != x {
        assert rest[f] == heap[f];
      }
    }
    if rest != multiset{} {
      LeastExists(rest, key);
      var m :| m in rest && forall f | f in rest :: key(m) <= key(f);
      assert m in heap;
    }
  }

  /** A subset is no larger than its superset. */
  lemma {:induction false} SubsetCard<T>(a: set<T>, b: set<T>)
    requires a <= b
    ensures |a| <= |b|
    decreases |b|
  {
    if a != {} {
      var x :| x in a;
      SubsetCard(a - {x}, b - {x});
    }
  }

  /** Two sorted sequences holding the same values start with the same
      value: the least. */
  lemma SameLeast(a: seq<int>, b: seq<int>)
    requires Sorted(a) && Sorted(b) && multiset(a) == multiset(b) && a != []
    ensures b != [] && a[0] == b[0]
  {
    assert a[0] in multiset(b) && b != [];
    assert b[0] in multiset(a);
    var i :| 0 <= i < |a| && a[i] == b[0];
    var k :| 0 <= k < |b| && b[k] == a[0];
    assert a[0] <= a[i] && b[0] <= b[k];
  }

  /** Dropping the first element keeps a sequence sorted. */
  lemma SortedTail(a: seq<int>)
    requires Sorted(a) && a != []
    ensures Sorted(a[1..])
  {
    forall i, j | 0 <= i < j < |a[1..]| ensures a[1..][i] <= a[1..][j] {
      assert a[i + 1] <= a[j + 1];
    }
  }

  /** The values of a non-empty sequence's tail: its values less its first. */
  lemma TailMultiset(a: seq<int>)
    requires a != []
    ensures multiset(a[1..]) == multiset(a) - multiset{a[0]}
  {
    assert a == [a[0]] + a[1..];
  }

  /** A sorted arrangement of a multiset is unique: two sorted sequences
      holding the same values are equal. */
  lemma {:induction false} SortedUnique(a: seq<int>, b: seq<int>)
    requires Sorted(a) && Sorted(b) && multiset(a) == multiset(b)
    ensures a == b
  {
    if a == [] {
      assert |b| == |multiset(b)| == 0;
    } else {
      SameLeast(a, b);
      TailMultiset(a);
      TailMultiset(b);
      SortedTail(a);
      SortedTail(b);
      SortedUnique(a[1..], b[1..]);
      assert a == [a[0]] + a[1..] && b == [b[0]] + b[1..];
    }
  }

  /** All the lists, one after another. */
  function Flatten(lists: seq<seq<int>>): seq<int>
  {
    if lists == [] then [] else lists[0] + Flatten(lists[1..])
  }

  /** Flattening distributes over concatenation of the outer sequence. */
  lemma {:induction false} FlattenAppend(a: seq<seq<int>>, b: seq<seq<int>>)
    ensures Flatten(a + b) == Flatten(a) + Flatten(b)
  {
    if a == [] {
      assert a + b == b;
    } else {
      assert (a + b)[1..] == a[1..] + b;
      FlattenAppend(a[1..], b);
      assert Flatten(a + b) == a[0] + (Flatten(a[1..]) + Flatten(b));
    }
  }

  /** Every list in `lists` is ascending. */
  predicate AllSorted(lists: seq<seq<int>>)
  {
    forall k | 0 <= k < |lists| :: Sorted(lists[k])
  }

  /** A non-empty finite set has an element whose key is least. */
  lemma {:induction false} LeastInSet<T>(s: set<T>, key: T -> int)
    requires s != {}
    ensures exists e :: e in s && forall f | f in s :: key(e) <= key(f)
    decreases |s|
  {
    var x :| x in s;
    var rest := s - {x};
    if rest != {} {
      LeastInSet(rest, key);
      var m :| m in rest && forall f | f in rest :: key(m) <= key(f);
      if key(x) < key(m) {
        assert forall f | f in s :: key(x) <= key(f);
      } else {
        assert forall f | f in s :: key(m) <= key(f);
      }
    } else {
      assert s == {x};
    }
  }
}
