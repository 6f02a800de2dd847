/** The owned binary tree of `src/lib.rs`: a node holds a key and two optional
    children (`Link`). Keys are modelled as `int`; the source is generic over
    any `Ord` key and only compares keys. Mutating methods (`insert_left_node`,
    `insert_right_node`, `set_key`) return the updated tree. */
module BinaryTree {
  import opened Wrappers

  datatype Tree = Node(key: int, left: Option<Tree>, right: Option<Tree>)

  type Link = Option<Tree>

  /** Reference: the keys of all nodes, one copy per node. */
  function Keys(t: Tree): multiset<int> {
    multiset{t.key}
    + (match t.left case Some(l) => Keys(l) case None => multiset{})
    + (match t.right case Some(r) => Keys(r) case None => multiset{})
  }

  /** Reference: the number of nodes. */
  function NodeCount(t: Tree): nat {
    1
    + (match t.left case Some(l) => NodeCount(l) case None => 0)
    + (match t.right case Some(r) => NodeCount(r) case None => 0)
  }

  /** One key per node. */
  lemma {:induction false} KeysPerNode(t: Tree)
    ensures |Keys(t)| == NodeCount(t)
  {
    match t.left {
      case Some(l) => KeysPerNode(l);
      case None =>
    }
    match t.right {
      case Some(r) => KeysPerNode(r);
      case None =>
    }
  }

  /** The keys below a link. */
  function LinkKeys(l: Link): multiset<int> {
    match l
    case None => multiset{}
    case Some(t) => Keys(t)
  }

  predicate IsLeaf(t: Tree) {
    t.left.None? && t.right.None?
  }

  /** Every node has either no child or two. */
  predicate Full(t: Tree) {
    && (t.left.None? <==> t.right.None?)
    && (match t.left case Some(l) => Full(l) case None => true)
    && (match t.right case Some(r) => Full(r) case None => true)
  }

  /** Search-tree order: every key in a left subtree is smaller than the node's
      key and every key in a right subtree is larger. */
  ghost predicate Bst(t: Tree) {
    && (match t.left
        case None => true
        case Some(l) => Bst(l) && forall k :: k in Keys(l) ==> k < t.key)
    && (match t.right
        case None => true
        case Some(r) => Bst(r) && forall k :: k in Keys(r) ==> t.key < k)
  }

  /** Reference: the key of the node reached by following left links. */
  function Leftmost(t: Tree): int {
    match t.left
    case None => t.key
    case Some(l) => Leftmost(l)
  }

  /** Reference: the key of the node reached by following right links. */
  function Rightmost(t: Tree): int {
    match t.right
    case None => t.key
    case Some(r) => Rightmost(r)
  }

  /** `BinaryTree::new` */
  function New(key: int): (t: Tree)
    ensures Keys(t) == multiset{key} && IsLeaf(t)
  {
    Node(key, None, None)
  }

  /** `BinaryTree::insert_left_node`: the new node takes the old left subtree as
      its own left child and becomes the left child of the root. */
  function InsertLeftNode(t: Tree, key: int): (r: Tree)
    ensures Keys(r) == Keys(t) + multiset{key}
    ensures r.key == t.key && r.right == t.right
    ensures r.left.Some? && r.left.value.key == key
    ensures r.left.value.left == t.left && r.left.value.right.None?
  {
    if t.left.None? then
      t.(left := Some(New(key)))
    else
      var node := New(key).(left := t.left);
      t.(left := Some(node))
  }

  /** `BinaryTree::insert_right_node`: the mirror image of `InsertLeftNode`. */
  function InsertRightNode(t: Tree, key: int): (r: Tree)
    ensures Keys(r) == Keys(t) + multiset{key}
    ensures r.key == t.key && r.left == t.left
    ensures r.right.Some? && r.right.value.key == key
    ensures r.right.value.right == t.right && r.right.value.left.None?
  {
    if t.right.None? then
      t.(right := Some(New(key)))
    else
      var node := New(key).(right := t.right);
      t.(right := Some(node))
  }

  /** Each insertion adds exactly one node. */
  lemma InsertGrowsSize(t: Tree, key: int)
    ensures Size(InsertLeftNode(t, key)) == Size(t) + 1
    ensures Size(InsertRightNode(t, key)) == Size(t) + 1
  {
  }

  /** `BinaryTree::calc_size`: the running count `acc` plus the nodes of `t`. */
  function CalcSize(t: Tree, acc: nat): (r: nat)
    ensures r == acc + NodeCount(t)
  {
    var s1 := acc + 1;
    var s2 := match t.left case Some(l) => CalcSize(l, s1) case None => s1;
    match t.right case Some(r) => CalcSize(r, s2) case None => s2
  }

  /** `BinaryTree::size` */
  function Size(t: Tree): (r: nat)
    ensures r == NodeCount(t) && r >= 1
  {
    CalcSize(t, 0)
  }

  /** `BinaryTree::leaf_size` */
  function LeafSize(t: Tree): (r: nat)
    ensures 1 <= r <= Size(t)
    ensures !IsLeaf(t) ==> r < Size(t)
  {
    if t.left.None? && t.right.None? then 1
    else
      var leftLeaf := match t.left case Some(l) => LeafSize(l) case None => 0;
      var rightLeaf := match t.right case Some(r) => LeafSize(r) case None => 0;
      leftLeaf + rightLeaf
  }

  /** `BinaryTree::none_leaf_size`: the subtraction never underflows, and there
      are no inner nodes exactly when the root is a leaf. */
  function NoneLeafSize(t: Tree): (r: nat)
    ensures r < Size(t)
    ensures r == 0 <==> IsLeaf(t)
  {
    Size(t) - LeafSize(t)
  }

  /** A binary tree has at most one leaf more than inner nodes, exactly one more
      when every node has zero or two children. */
  lemma {:induction false} LeavesAtMostInnerPlusOne(t: Tree)
    ensures LeafSize(t) <= NoneLeafSize(t) + 1
    ensures Full(t) ==> LeafSize(t) == NoneLeafSize(t) + 1
  {
    match t.left {
      case Some(l) => LeavesAtMostInnerPlusOne(l);
      case None =>
    }
    match t.right {
      case Some(r) => LeavesAtMostInnerPlusOne(r);
      case None =>
    }
  }

  /** `BinaryTree::depth`: the number of nodes on a longest downward path. */
  function Depth(t: Tree): (r: nat)
    ensures 1 <= r <= Size(t)
  {
    var leftDepth := 1 + match t.left case Some(l) => Depth(l) case None => 0;
    var rightDepth := 1 + match t.right case Some(r) => Depth(r) case None => 0;
    if leftDepth >= rightDepth then leftDepth else rightDepth
  }

  /** `BinaryTree::get_left`: a copy of the left link, a strictly smaller part
      of the tree. */
  function GetLeft(t: Tree): (r: Link)
    ensures LinkKeys(r) <= Keys(t)
    ensures r.Some? ==> Size(r.value) < Size(t)
  {
    t.left
  }

  /** `BinaryTree::get_right` */
  function GetRight(t: Tree): (r: Link)
    ensures LinkKeys(r) <= Keys(t)
    ensures r.Some? ==> Size(r.value) < Size(t)
  {
    t.right
  }

  /** `BinaryTree::get_key` */
  function GetKey(t: Tree): (r: int)
    ensures r in Keys(t)
  {
    t.key
  }

  /** `BinaryTree::set_key`: replaces the root key only, and round-trips with
      `GetKey`. */
  function SetKey(t: Tree, key: int): (r: Tree)
    ensures GetKey(r) == key && GetLeft(r) == GetLeft(t) && GetRight(r) == GetRight(t)
    ensures Keys(r) + multiset{t.key} == Keys(t) + multiset{key}
    ensures key == GetKey(t) ==> r == t
  {
    t.(key := key)
  }

  /** Setting a key and then restoring the old one gives back the tree. */
  lemma SetKeyRoundTrip(t: Tree, key: int)
    ensures SetKey(SetKey(t, key), GetKey(t)) == t
    ensures GetKey(SetKey(t, key)) == key
  {
  }

  /** `BinaryTree::min`: follows left links down to the last node. */
  method Min(t: Tree) returns (r: Option<int>)
    ensures r == Some(Leftmost(t))
    ensures r.value in Keys(t)
    ensures Bst(t) ==> forall k :: k in Keys(t) ==> r.value <= k
  {
    var node := t;
    while node.left.Some?
      invariant Leftmost(node) == Leftmost(t)
      invariant Keys(node) <= Keys(t)
      invariant Bst(t) ==> Bst(node) && forall k :: k in Keys(t) && k !in Keys(node) ==> node.key < k
      decreases node
    {
      LeftStep(t, node);
      node := node.left.value;
    }
    r := Some(node.key);
  }

  /** `BinaryTree::max`: follows right links down to the last node. */
  method Max(t: Tree) returns (r: Option<int>)
    ensures r == Some(Rightmost(t))
    ensures r.value in Keys(t)
    ensures Bst(t) ==> forall k :: k in Keys(t) ==> k <= r.value
  {
    var node := t;
    while node.right.Some?
      invariant Rightmost(node) == Rightmost(t)
      invariant Keys(node) <= Keys(t)
      invariant Bst(t) ==> Bst(node) && forall k :: k in Keys(t) && k !in Keys(node) ==> k < node.key
      decreases node
    {
      RightStep(t, node);
      node := node.right.value;
    }
    r := Some(node.key);
  }

  /** Stepping from `node` to its left child keeps the invariant of `Min`. */
  lemma LeftStep(t: Tree, node: Tree)
    requires node.left.Some?
    requires Keys(node) <= Keys(t)
    requires Bst(t) ==> Bst(node) && forall k :: k in Keys(t) && k !in Keys(node) ==> node.key < k
    ensures Keys(node.left.value) <= Keys(t)
    ensures Bst(t) ==> Bst(node.left.value)
    ensures Bst(t) ==> forall k :: k in Keys(t) && k !in Keys(node.left.value) ==> node.left.value.key < k
  {
    var l := node.left.value;
    var rk := LinkKeys(node.right);
    assert Keys(node) == multiset{node.key} + Keys(l) + rk;
    if Bst(t) {
      assert l.key in Keys(l);
      assert l.key < node.key;
      forall k | k in Keys(t) && k !in Keys(l)
        ensures l.key < k
      {
        if k in Keys(node) {
          assert k == node.key || k in rk;
        }
      }
    }
  }

  /** Stepping from `node` to its right child keeps the invariant of `Max`. */
  lemma RightStep(t: Tree, node: Tree)
    requires node.right.Some?
    requires Keys(node) <= Keys(t)
    requires Bst(t) ==> Bst(node) && forall k :: k in Keys(t) && k !in Keys(node) ==> k < node.key
    ensures Keys(node.right.value) <= Keys(t)
    ensures Bst(t) ==> Bst(node.right.value)
    ensures Bst(t) ==> forall k :: k in Keys(t) && k !in Keys(node.right.value) ==> k < node.right.value.key
  {
    var r := node.right.value;
    var lk := LinkKeys(node.left);
    assert Keys(node) == multiset{node.key} + lk + Keys(r);
    if Bst(t) {
      assert r.key in Keys(r);
      assert node.key < r.key;
      forall k | k in Keys(t) && k !in Keys(r)
        ensures k < r.key
      {
        if k in Keys(node) {
          assert k == node.key || k in lk;
        }
      }
    }
  }

  /** `BinaryTree::contains`: a search that goes right from a smaller key and
      left from a larger one. It is always sound, and complete on a search
      tree. */
  function Contains(t: Tree, key: int): (r: bool)
    ensures r ==> key in Keys(t)
    ensures t.key == key ==> r
    ensures Bst(t) ==> (r <==> key in Keys(t))
  {
    if t.key == key then true
    else if t.key < key then
      match t.right
      case Some(r) => Contains(r, key)
      case None => false
    else
      match t.left
      case Some(l) => Contains(l, key)
      case None => false
  }
}
