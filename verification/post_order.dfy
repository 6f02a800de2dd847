/** Post-order traversal of `src/post_order_traversal.rs`, as the sequence of
    keys it would print. */
module PostOrder {
  import opened BinaryTree
  import opened Sequences

  /** `BinaryTree::postorder`: the left subtree, then the right, then the root. */
  function Postorder(t: Tree): (r: seq<int>)
    ensures |r| == Size(t) && r[|r| - 1] == t.key
  {
    (match t.left case Some(node) => Postorder(node) case None => [])
    + (match t.right case Some(node) => Postorder(node) case None => [])
    + [t.key]
  }

  /** The free function `postorder(bt: Link)` */
  function PostorderLink(bt: Link): (r: seq<int>)
    ensures bt.None? ==> r == []
    ensures bt.Some? ==> r == Postorder(bt.value)
  {
    match bt
    case None => []
    case Some(t) => PostorderLink(GetLeft(t)) + PostorderLink(GetRight(t)) + [GetKey(t)]
  }

  /** Every node's key is emitted exactly once. */
  lemma {:induction false} PostorderVisitsEveryNode(t: Tree)
    ensures multiset(Postorder(t)) == Keys(t)
  {
    var ls := PostorderLink(t.left);
    var rs := PostorderLink(t.right);
    assert Postorder(t) == ls + rs + [t.key];
    match t.left {
      case Some(l) => PostorderVisitsEveryNode(l);
      case None =>
    }
    match t.right {
      case Some(r) => PostorderVisitsEveryNode(r);
      case None =>
    }
    assert multiset(ls) == LinkKeys(t.left) && multiset(rs) == LinkKeys(t.right);
    MultisetOfJoin(ls, rs, [t.key]);
    UnionReorder(multiset([t.key]), multiset(ls), multiset(rs));
    assert Keys(t) == multiset([t.key]) + LinkKeys(t.left) + LinkKeys(t.right);
  }

}
