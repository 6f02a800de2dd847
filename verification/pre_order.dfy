/** Pre-order traversal of `src/pre_order_traversal.rs`. Both the method and
    the free function print keys; here each returns the sequence of keys it
    would print. */
module PreOrder {
  import opened Wrappers
  import opened BinaryTree
  import opened Sequences

  /** `BinaryTree::preorder`: the root, then the left subtree, then the right. */
  function Preorder(t: Tree): (r: seq<int>)
    ensures |r| == Size(t) && r[0] == t.key
  {
    [t.key]
    + (match t.left case Some(node) => Preorder(node) case None => [])
    + (match t.right case Some(node) => Preorder(node) case None => [])
  }

  /** The free function `preorder(bt: Link)`: nothing for an absent tree, the
      same keys as the method for a present one. */
  function PreorderLink(bt: Link): (r: seq<int>)
    ensures bt.None? ==> r == []
    ensures bt.Some? ==> r == Preorder(bt.value)
  {
    match bt
    case None => []
    case Some(t) => [GetKey(t)] + PreorderLink(GetLeft(t)) + PreorderLink(GetRight(t))
  }

  /** The key inserted by `insert_left_node` is visited right after the root. */
  lemma InsertLeftNodePreorder(t: Tree, key: int)
    ensures Preorder(InsertLeftNode(t, key)) == [t.key, key] + PreorderLink(t.left) + PreorderLink(t.right)
  {
    var node := Node(key, t.left, None);
    var r := InsertLeftNode(t, key);
    assert r == Node(t.key, Some(node), t.right);
    var a := PreorderLink(t.left);
    var b := PreorderLink(t.right);
    assert Preorder(node) == [key] + a + [];
    assert Preorder(r) == [t.key] + Preorder(node) + b;
    Splice(a, t.key, key, b);
  }

  /** Every node's key is emitted exactly once. */
  lemma {:induction false} PreorderVisitsEveryNode(t: Tree)
    ensures multiset(Preorder(t)) == Keys(t)
  {
    var ls := PreorderLink(t.left);
    var rs := PreorderLink(t.right);
    assert Preorder(t) == [t.key] + ls + rs;
    match t.left {
      case Some(l) => PreorderVisitsEveryNode(l);
      case None =>
    }
    match t.right {
      case Some(r) => PreorderVisitsEveryNode(r);
      case None =>
    }
    assert multiset(ls) == LinkKeys(t.left) && multiset(rs) == LinkKeys(t.right);
    MultisetOfJoin([t.key], ls, rs);
  }

}
