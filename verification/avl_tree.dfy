/** The part of an `AVLNode` tree that finding the largest and smallest key
    and summing the keys read: a node's key and its two subtrees. */
module AvlTree {

  /** `None` or a node; the node's height, used only for balancing, is not
      part of this model. */
  datatype Tree = Nil | Node(left: Tree, key: int, right: Tree)

  /** The keys stored in a tree. */
  function Keys(t: Tree): set<int>
  {
    match t
    case Nil => {}
    case Node(l, k, r) => Keys(l) + {k} + Keys(r)
  }

  /** The keys in in-order: left subtree, node, right subtree. */
  function InOrder(t: Tree): seq<int>
  {
    match t
    case Nil => []
    case Node(l, k, r) => InOrder(l) + [k] + InOrder(r)
  }

  /** The search-tree order an AVL tree keeps: no key on the left above the
      node's key and none on the right below it, at every node. */
  predicate Ordered(t: Tree)
  {
    match t
    case Nil => true
    case Node(l, k, r) =>
      && (forall x | x in Keys(l) :: x <= k)
      && (forall x | x in Keys(r) :: k <= x)
      && Ordered(l) && Ordered(r)
  }

  /** The in-order sequence holds exactly the keys of the tree. */
  lemma {:induction false} InOrderKeys(t: Tree)
    ensures forall x :: x in InOrder(t) <==> x in Keys(t)
  {
    if t.Node? {
      InOrderKeys(t.left);
      InOrderKeys(t.right);
    }
  }
}
