/** `find_max_in_tree`: the key at the end of the right links. */
module MaxInTree {
  import opened Wrappers
  import opened AvlTree

  /** The key of the node reached by following right links to the end. */
  function Rightmost(t: Tree): int
    requires t.Node?
  {
    if t.right.Nil? then t.key else Rightmost(t.right)
  }

  /** The rightmost key is a key of the tree, and in an ordered tree no key
      is larger. */
  lemma {:induction false} RightmostIsMax(t: Tree)
    requires t.Node?
    ensures Rightmost(t) in Keys(t)
    ensures Ordered(t) ==> forall x | x in Keys(t) :: x <= Rightmost(t)
  {
    if t.right.Node? {
      RightmostIsMax(t.right);
    }
  }

  /** `find_max_in_tree`. */
  method FindMaxInTree(root: Tree) returns (r: Result<int>)
    ensures root.Nil? <==> r == Raise(ValueError)
    ensures root.Node? ==> r == Ok(Rightmost(root))
    ensures r.Ok? ==> r.value == Rightmost(root) && r.value in Keys(root)
    ensures r.Ok? && Ordered(root) ==> forall x | x in Keys(root) :: x <= r.value
  {
    if root.Nil? {
      return Raise(ValueError);
    }
    var current := root;
    while current.right.Node?
      invariant current.Node? && Rightmost(current) == Rightmost(root)
      decreases current
    {
      current := current.right;
    }
    RightmostIsMax(root);
    return Ok(current.key);
  }
}
