/** In-order traversal of `src/in_order_traversal.rs`, as the sequence of keys
    it would print. */
module InOrder {
  import opened Wrappers
  import opened BinaryTree
  import opened Sequences

  /** `BinaryTree::inorder`: the left subtree, then the root, then the right. */
  function Inorder(t: Tree): (r: seq<int>)
    ensures |r| == Size(t)
  {
    (match t.left case Some(node) => Inorder(node) case None => [])
    + [t.key]
    + (match t.right case Some(node) => Inorder(node) case None => [])
  }

  /** In-order traversal starts at the key `min` returns and ends at the key
      `max` returns. */
  lemma {:induction false} InorderEnds(t: Tree)
    ensures Inorder(t)[0] == Leftmost(t)
    ensures Inorder(t)[|Inorder(t)| - 1] == Rightmost(t)
  {
    var ls := InorderLink(t.left);
    var rs := InorderLink(t.right);
    assert Inorder(t) == ls + [t.key] + rs;
    EndsOfJoin(ls, t.key, rs);
    match t.left {
      case Some(l) => InorderEnds(l);
      case None =>
    }
    match t.right {
      case Some(r) => InorderEnds(r);
      case None =>
    }
  }

  lemma EndsOfJoin(ls: seq<int>, k: int, rs: seq<int>)
    ensures (ls + [k] + rs)[0] == if ls == [] then k else ls[0]
    ensures (ls + [k] + rs)[|ls| + |rs|] == if rs == [] then k else rs[|rs| - 1]
  {
  }

  /** The free function `inorder(bt: Link)` */
  function InorderLink(bt: Link): (r: seq<int>)
    ensures bt.None? ==> r == []
    ensures bt.Some? ==> r == Inorder(bt.value)
  {
    match bt
    case None => []
    case Some(t) => InorderLink(GetLeft(t)) + [GetKey(t)] + InorderLink(GetRight(t))
  }

  /** Each key is smaller than every key after it. */
  predicate StrictlyIncreasing(s: seq<int>) {
    forall i, j :: 0 <= i < j < |s| ==> s[i] < s[j]
  }

  /** Joining two increasing runs around a key that separates them gives an
      increasing sequence. */
  lemma JoinIncreasing(ls: seq<int>, k: int, rs: seq<int>)
    requires StrictlyIncreasing(ls) && StrictlyIncreasing(rs)
    requires forall x :: x in multiset(ls) ==> x < k
    requires forall x :: x in multiset(rs) ==> k < x
    ensures StrictlyIncreasing(ls + [k] + rs)
  {
    var s := ls + [k] + rs;
    forall i, j | 0 <= i < j < |s|
      ensures s[i] < s[j]
    {
      if i < |ls| {
        assert ls[i] in multiset(ls);
      }
      if j > |ls| {
        assert rs[j - |ls| - 1] in multiset(rs);
      }
      if i > |ls| {
        assert s[i] == rs[i - |ls| - 1] && s[j] == rs[j - |ls| - 1];
      }
    }
  }

  /** In-order traversal of a search tree lists its keys in increasing order. */
  lemma {:induction false} InorderOfBstIncreases(t: Tree)
    requires Bst(t)
    ensures StrictlyIncreasing(Inorder(t))
  {
    var ls := InorderLink(t.left);
    var rs := InorderLink(t.right);
    assert Inorder(t) == ls + [t.key] + rs;
    match t.left {
      case Some(l) =>
        InorderOfBstIncreases(l);
        AllBelow(l, t.key);
      case None =>
    }
    match t.right {
      case Some(r) =>
        InorderOfBstIncreases(r);
        AllAbove(r, t.key);
      case None =>
    }
    JoinIncreasing(ls, t.key, rs);
  }

  /** A bound on the keys of a subtree is a bound on its traversal. */
  lemma AllBelow(l: Tree, k: int)
    requires forall x :: x in Keys(l) ==> x < k
    ensures forall x :: x in multiset(Inorder(l)) ==> x < k
  {
    InorderVisitsEveryNode(l);
  }

  /** The mirror image of `AllBelow`. */
  lemma AllAbove(r: Tree, k: int)
    requires forall x :: x in Keys(r) ==> k < x
    ensures forall x :: x in multiset(Inorder(r)) ==> k < x
  {
    InorderVisitsEveryNode(r);
  }

  /** The key inserted by `insert_left_node` becomes the in-order predecessor
      of the root. */
  lemma InsertLeftNodeInorder(t: Tree, key: int)
    ensures Inorder(InsertLeftNode(t, key)) == InorderLink(t.left) + [key, t.key] + InorderLink(t.right)
  {
    var node := Node(key, t.left, None);
    var r := InsertLeftNode(t, key);
    assert r == Node(t.key, Some(node), t.right);
    var a := InorderLink(t.left);
    var b := InorderLink(t.right);
    assert Inorder(node) == a + [key] + [];
    assert Inorder(r) == Inorder(node) + [t.key] + b;
    Splice(a, key, t.key, b);
  }

  /** The key inserted by `insert_right_node` becomes the in-order successor of
      the root. */
  lemma InsertRightNodeInorder(t: Tree, key: int)
    ensures Inorder(InsertRightNode(t, key)) == InorderLink(t.left) + [t.key, key] + InorderLink(t.right)
  {
    var node := Node(key, None, t.right);
    var r := InsertRightNode(t, key);
    assert r == Node(t.key, t.left, Some(node));
    var a := InorderLink(t.left);
    var b := InorderLink(t.right);
    assert Inorder(node) == [] + [key] + b;
    assert Inorder(r) == a + [t.key] + Inorder(node);
    Splice(a, t.key, key, b);
  }

  /** Every node's key is emitted exactly once. */
  lemma {:induction false} InorderVisitsEveryNode(t: Tree)
    ensures multiset(Inorder(t)) == Keys(t)
  {
    var ls := InorderLink(t.left);
    var rs := InorderLink(t.right);
    assert Inorder(t) == ls + [t.key] + rs;
    match t.left {
      case Some(l) => InorderVisitsEveryNode(l);
      case None =>
    }
    match t.right {
      case Some(r) => InorderVisitsEveryNode(r);
      case None =>
    }
    assert multiset(ls) == LinkKeys(t.left) && multiset(rs) == LinkKeys(t.right);
    MultisetOfJoin(ls, [t.key], rs);
    UnionReorder(multiset(ls), multiset([t.key]), multiset(rs));
    assert Keys(t) == multiset([t.key]) + LinkKeys(t.left) + LinkKeys(t.right);
  }

}
