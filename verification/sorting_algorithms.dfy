/** Merge sort and insertion sort on an array of integers, both sorting in
    place and returning the same array. */
module ArraySorting {
  import opened Seqs

  /** `merge_sort`: arrays of length 0 or 1 are left as they are; longer
      ones are copied into two halves, each half is sorted, and the halves
      are merged back into the array, the right half's element first on
      ties. */
  method MergeSort(arr: array<int>) returns (r: array<int>)
    modifies arr
    ensures r == arr
    ensures Sorted(arr[..]) && multiset(arr[..]) == multiset(old(arr[..]))
    ensures arr.Length <= 1 ==> arr[..] == old(arr[..])
    decreases arr.Length
  {
    if arr.Length > 1 {
      var mid := arr.Length / 2;
      var left := new int[mid](k requires 0 <= k < mid reads arr => arr[k]);
      var right := new int[arr.Length - mid](k requires 0 <= k < arr.Length - mid reads arr => arr[mid + k]);
      assert left[..] == arr[..mid] && right[..] == arr[mid..];
      assert arr[..] == arr[..mid] + arr[mid..];
      var _ := MergeSort(left);
      var _ := MergeSort(right);
      MergeInto(arr, left, right);
      MergedPermutation(left[..], right[..]);
      MergedSorted(left[..], right[..]);
    }
    return arr;
  }

  /** The merge loops of `merge_sort`: while both halves have elements
      left, the smaller head is written at `k`, the right half's on ties;
      then what is left of either half. */
  method MergeInto(arr: array<int>, left: array<int>, right: array<int>)
    requires arr != left && arr != right && arr.Length == left.Length + right.Length
    modifies arr
    ensures arr[..] == Merged(left[..], right[..])
  {
    ghost var l, r := left[..], right[..];
    ghost var done: seq<int> := [];
    var i, j, k := 0, 0, 0;
    while i < left.Length && j < right.Length
      invariant i <= |l| && j <= |r| && k == i + j
      invariant arr[..k] == done && done + MergedFrom(l, r, i, j) == Merged(l, r)
      decreases |l| - i + |r| - j
    {
      if left[i] < right[j] {
        Associative(done, [l[i]], MergedFrom(l, r, i + 1, j));
        Write(arr, k, left[i], done);
        done := done + [l[i]];
        i := i + 1;
      } else {
        Associative(done, [r[j]], MergedFrom(l, r, i, j + 1));
        Write(arr, k, right[j], done);
        done := done + [r[j]];
        j := j + 1;
      }
      k := k + 1;
    }
    assert done + l[i..] + r[j..] == Merged(l, r) by {
      if i < |l| {
        assert r[j..] == [];
      } else {
        assert l[i..] == [];
      }
    }
    CopyRest(arr, left, i, k);
    k := k + (left.Length - i);
    CopyRest(arr, right, j, k);
    assert arr[..] == arr[..k + (right.Length - j)];
  }

  /** One of the two trailing loops of the merge: what is left of `src`
      from `i` on is written from `k` to the end of `arr`. */
  method CopyRest(arr: array<int>, src: array<int>, i: nat, k: nat)
    requires arr != src && i <= src.Length && k + (src.Length - i) <= arr.Length
    modifies arr
    ensures arr[..k + (src.Length - i)] == old(arr[..k]) + src[i..]
  {
    var s, t := i, k;
    while s < src.Length
      invariant i <= s <= src.Length && t == k + (s - i)
      invariant arr[..t] == old(arr[..k]) + src[i..s]
    {
      Write(arr, t, src[s], arr[..t]);
      assert src[i..s + 1] == src[i..s] + [src[s]];
      s, t := s + 1, t + 1;
    }
    assert src[i..s] == src[i..];
  }

  /** One write of the merge loops: `x` goes after the `k` values written. */
  method Write(arr: array<int>, k: nat, x: int, ghost done: seq<int>)
    requires k < arr.Length && arr[..k] == done
    modifies arr
    ensures arr[..k + 1] == done + [x]
  {
    arr[k] := x;
    assert arr[..k + 1] == arr[..k] + [x];
  }

  /** `insertion_sort`: for each `i` from 1, the value at `i` is taken out,
      the larger values before it move one place right, and it goes into
      the gap; `arr[..i + 1]` is then sorted. */
  method InsertionSort(arr: array<int>) returns (r: array<int>)
    modifies arr
    ensures r == arr
    ensures Sorted(arr[..]) && multiset(arr[..]) == multiset(old(arr[..]))
    ensures arr.Length <= 1 ==> arr[..] == old(arr[..])
  {
    var i := 1;
    while i < arr.Length
      invariant 1 <= i && (i <= arr.Length || arr.Length == 0)
      invariant Sorted(arr[..if i <= arr.Length then i else 0])
      invariant multiset(arr[..]) == multiset(old(arr[..]))
      invariant arr.Length <= 1 ==> arr[..] == old(arr[..])
    {
      InsertNext(arr, i);
      i := i + 1;
    }
    assert arr[..] == arr[..if i <= arr.Length then i else 0];
    return arr;
  }

  /** One step of the outer loop of `insertion_sort`. */
  method InsertNext(arr: array<int>, i: nat)
    requires 1 <= i < arr.Length && Sorted(arr[..i])
    modifies arr
    ensures Sorted(arr[..i + 1]) && multiset(arr[..]) == multiset(old(arr[..]))
  {
    ghost var s := arr[..];
    var key := arr[i];
    var j := i - 1;
    while j >= 0 && key < arr[j]
      invariant -1 <= j <= i - 1
      invariant forall t | 0 <= t <= j :: arr[t] == s[t]
      invariant forall t | j + 1 < t <= i :: arr[t] == s[t - 1]
      invariant forall t | i < t < arr.Length :: arr[t] == s[t]
      invariant forall t | j < t < i :: key < s[t]
      decreases j
    {
      arr[j + 1] := arr[j];
      j := j - 1;
    }
    arr[j + 1] := key;
    InsertedSorted(s, arr[..], i, j);
    InsertedPermutation(s, arr[..], i, j);
  }

  /** The array after step `i` of insertion sort: `s[i]` moved to `j + 1`,
      the values between shifted one place right. */
  ghost predicate Inserted(s: seq<int>, r: seq<int>, i: nat, j: int)
  {
    && -1 <= j < i < |s| == |r|
    && (forall t | 0 <= t <= j :: r[t] == s[t])
    && r[j + 1] == s[i]
    && (forall t | j + 1 < t <= i :: r[t] == s[t - 1])
    && (forall t | i < t < |s| :: r[t] == s[t])
  }

  /** Inserting `s[i]` after the values not above it and before the values
      above it extends the sorted prefix by one. */
  lemma InsertedSorted(s: seq<int>, r: seq<int>, i: nat, j: int)
    requires Inserted(s, r, i, j) && Sorted(s[..i])
    requires j >= 0 ==> s[j] <= s[i]
    requires forall t | j < t < i :: s[i] < s[t]
    ensures Sorted(r[..i + 1])
  {
    forall a, b | 0 <= a < b <= i ensures r[a] <= r[b] {
      if b <= j {
        assert s[..i][a] <= s[..i][b];
      } else if a <= j && b == j + 1 {
        if a < j {
          assert s[..i][a] <= s[..i][j];
        }
      } else if a <= j {
        assert s[..i][a] <= s[..i][b - 1];
      } else if a > j + 1 {
        assert s[..i][a - 1] <= s[..i][b - 1];
      }
    }
  }

  /** Moving one value leaves the values as they were. */
  lemma InsertedPermutation(s: seq<int>, r: seq<int>, i: nat, j: int)
    requires Inserted(s, r, i, j)
    ensures multiset(r) == multiset(s)
  {
    var a, b, x, c := s[..j + 1], s[j + 1..i], s[i], s[i + 1..];
    InsertedPieces(s, r, i, j);
    assert s == a + (b + [x]) + c by {
      assert s[..i] == a + b;
      assert s == s[..i] + [x] + c;
    }
    assert multiset(b + [x]) == multiset([x] + b);
  }

  /** The array after the step, as the pieces of the array before it. */
  lemma InsertedPieces(s: seq<int>, r: seq<int>, i: nat, j: int)
    requires Inserted(s, r, i, j)
    ensures r == s[..j + 1] + ([s[i]] + s[j + 1..i]) + s[i + 1..]
  {
    var p := s[..j + 1] + ([s[i]] + s[j + 1..i]) + s[i + 1..];
    assert |p| == |r|;
    forall t | 0 <= t < |r| ensures r[t] == p[t] {
      if t > i {
        assert p[t] == s[i + 1..][t - i - 1];
      } else if t > j + 1 {
        assert p[t] == s[j + 1..i][t - j - 2];
      }
    }
  }
}
