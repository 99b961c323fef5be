/** `find_min_in_tree`: the key at the end of the left links. */
module MinInTree {
  import opened Wrappers
  import opened AvlTree

  /** The key of the node reached by following left links to the end. */
  function Leftmost(t: Tree): int
    requires t.Node?
  {
    if t.left.Nil? then t.key else Leftmost(t.left)
  }

  /** The leftmost key is a key of the tree, and in an ordered tree no key
      is smaller. */
  lemma {:induction false} LeftmostIsMin(t: Tree)
    requires t.Node?
    ensures Leftmost(t) in Keys(t)
    ensures Ordered(t) ==> forall x | x in Keys(t) :: Leftmost(t) <= x
  {
    if t.left.Node? {
      LeftmostIsMin(t.left);
    }
  }

  /** `find_min_in_tree`. */
  method FindMinInTree(root: Tree) returns (r: Result<int>)
    ensures root.Nil? <==> r == Raise(ValueError)
    ensures root.Node? ==> r == Ok(Leftmost(root))
    ensures r.Ok? ==> r.value == Leftmost(root) && r.value in Keys(root)
    ensures r.Ok? && Ordered(root) ==> forall x | x in Keys(root) :: r.value <= x
  {
    if root.Nil? {
      return Raise(ValueError);
    }
    var current := root;
    while current.left.Node?
      invariant current.Node? && Leftmost(current) == Leftmost(root)
      decreases current
    {
      current := current.left;
    }
    LeftmostIsMin(root);
    return Ok(current.key);
  }
}
