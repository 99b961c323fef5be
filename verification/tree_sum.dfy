/** `tree_sum`: the sum of the keys of a tree, by recursion on its shape. */
module TreeSum {
  import opened Seqs
  import opened AvlTree

  /** `tree_sum`: whatever the tree's shape, the sum of its in-order keys. */
  function TreeSum(t: Tree): (s: int)
    ensures s == Sum(InOrder(t))
  {
    match t
    case Nil => 0
    case Node(l, k, r) =>
      SumAppend(InOrder(l) + [k], InOrder(r));
      SumAppend(InOrder(l), [k]);
      assert Sum([k]) == k + Sum([]);
      k + TreeSum(l) + TreeSum(r)
  }

  /** A tree holding the values of a list, each as often, sums to the list's
      sum. */
  lemma TreeSumOfValues(t: Tree, values: seq<int>)
    requires multiset(InOrder(t)) == multiset(values)
    ensures TreeSum(t) == Sum(values)
  {
    SumPermutation(InOrder(t), values);
  }

  /** The generated case: a tree whose keys are the values of a list without
      repeats, each key held once, sums to the list's sum. */
  lemma TreeSumOfKeys(t: Tree, values: seq<int>)
    requires Distinct(InOrder(t)) && Distinct(values)
    requires forall x :: x in Keys(t) <==> x in values
    ensures TreeSum(t) == Sum(values)
  {
    InOrderKeys(t);
    SameElementsPermutation(InOrder(t), values);
    TreeSumOfValues(t, values);
  }
}
