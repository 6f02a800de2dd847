/** Level-order traversal of `src/level_order_traversal.rs`, as the sequence of
    keys it would print. The queue loop is modelled on a `seq<Tree>` used as a
    FIFO queue. Its result is characterised independently of the queue: the
    keys at depth 0, then those at depth 1, and so on, each level from left
    to right. */
module LevelOrder {
  import opened BinaryTree
  import opened Sequences

  /** The tree below a link, as a queue of zero or one trees. */
  function KidOf(l: Link): (r: seq<Tree>)
    ensures |r| <= 1
  {
    match l
    case Some(t) => [t]
    case None => []
  }

  /** The children of `t` in the order the loop enqueues them: left, then
      right, absent ones skipped. */
  function Kids(t: Tree): (r: seq<Tree>)
    ensures |r| <= 2
  {
    KidOf(t.left) + KidOf(t.right)
  }

  /** Total number of nodes in a sequence of trees. */
  function ForestSize(f: seq<Tree>): nat {
    if f == [] then 0 else NodeCount(f[0]) + ForestSize(f[1..])
  }

  /** All keys in a sequence of trees. */
  function ForestKeys(f: seq<Tree>): multiset<int> {
    if f == [] then multiset{} else Keys(f[0]) + ForestKeys(f[1..])
  }

  /** The root keys of a sequence of trees. */
  function Roots(f: seq<Tree>): (r: seq<int>)
    ensures |r| == |f|
  {
    if f == [] then [] else [f[0].key] + Roots(f[1..])
  }

  /** The next generation: the children of every tree, in order. */
  function Children(f: seq<Tree>): seq<Tree> {
    if f == [] then [] else Kids(f[0]) + Children(f[1..])
  }

  lemma {:induction false} ForestSizeConcat(f: seq<Tree>, g: seq<Tree>)
    ensures ForestSize(f + g) == ForestSize(f) + ForestSize(g)
  {
    if f == [] {
      assert f + g == g;
    } else {
      assert (f + g)[1..] == f[1..] + g;
      ForestSizeConcat(f[1..], g);
    }
  }

  lemma {:induction false} ForestKeysConcat(f: seq<Tree>, g: seq<Tree>)
    ensures ForestKeys(f + g) == ForestKeys(f) + ForestKeys(g)
  {
    if f == [] {
      assert f + g == g;
    } else {
      assert (f + g)[1..] == f[1..] + g;
      ForestKeysConcat(f[1..], g);
    }
  }

  lemma {:induction false} RootsConcat(f: seq<Tree>, g: seq<Tree>)
    ensures Roots(f + g) == Roots(f) + Roots(g)
  {
    if f == [] {
      assert f + g == g;
    } else {
      assert (f + g)[1..] == f[1..] + g;
      RootsConcat(f[1..], g);
      Assoc([f[0].key], Roots(f[1..]), Roots(g));
    }
  }

  lemma {:induction false} ChildrenConcat(f: seq<Tree>, g: seq<Tree>)
    ensures Children(f + g) == Children(f) + Children(g)
  {
    if f == [] {
      assert f + g == g;
    } else {
      assert (f + g)[1..] == f[1..] + g;
      ChildrenConcat(f[1..], g);
      Assoc(Kids(f[0]), Children(f[1..]), Children(g));
    }
  }

  lemma SingleForest(t: Tree)
    ensures ForestSize([t]) == NodeCount(t)
    ensures ForestKeys([t]) == Keys(t)
  {
    assert [t][1..] == [];
  }

  /** A node accounts for itself and its children: nodes. */
  lemma KidsSize(t: Tree)
    ensures ForestSize(Kids(t)) + 1 == NodeCount(t)
  {
    var l := KidOf(t.left);
    var r := KidOf(t.right);
    ForestSizeConcat(l, r);
    match t.left {
      case Some(x) => SingleForest(x);
      case None =>
    }
    match t.right {
      case Some(x) => SingleForest(x);
      case None =>
    }
  }

  /** A node accounts for itself and its children: keys. */
  lemma KidsKeys(t: Tree)
    ensures ForestKeys(Kids(t)) + multiset{t.key} == Keys(t)
  {
    var kl := LinkKeys(t.left);
    var kr := LinkKeys(t.right);
    assert Keys(t) == multiset{t.key} + kl + kr;
    assert ForestKeys(KidOf(t.left)) == kl by {
      match t.left {
        case Some(x) => SingleForest(x);
        case None =>
      }
    }
    assert ForestKeys(KidOf(t.right)) == kr by {
      match t.right {
        case Some(x) => SingleForest(x);
        case None =>
      }
    }
    ForestKeysConcat(KidOf(t.left), KidOf(t.right));
    UnionReorder(multiset{t.key}, kl, kr);
  }

  /** Each generation step removes exactly the nodes of the current one. */
  lemma {:induction false} ChildrenSize(f: seq<Tree>)
    ensures ForestSize(Children(f)) + |f| == ForestSize(f)
  {
    if f != [] {
      ChildrenSize(f[1..]);
      ForestSizeConcat(Kids(f[0]), Children(f[1..]));
      KidsSize(f[0]);
    }
  }

  /** Reference: breadth-first by generations, the roots of the trees, then the
      roots of their children, and so on. */
  function Generations(f: seq<Tree>): seq<int>
    decreases ForestSize(f)
  {
    if f == [] then []
    else
      ChildrenSize(f);
      Roots(f) + Generations(Children(f))
  }

  /** Reference: the keys at depth `d` below `t`, from left to right. */
  function Level(t: Tree, d: nat): seq<int> {
    if d == 0 then [t.key]
    else
      (match t.left case Some(l) => Level(l, d - 1) case None => [])
      + (match t.right case Some(r) => Level(r, d - 1) case None => [])
  }

  /** The keys at depth `d` below each tree of `f`, tree after tree. */
  function LevelF(f: seq<Tree>, d: nat): seq<int> {
    if f == [] then [] else Level(f[0], d) + LevelF(f[1..], d)
  }

  /** Reference: the levels of `t` from depth `d` down to the deepest. */
  function LevelsFrom(t: Tree, d: nat): seq<int>
    decreases Depth(t) - d
  {
    if d < Depth(t) then Level(t, d) + LevelsFrom(t, d + 1) else []
  }

  /** The trees rooted at depth `d` below `t`, from left to right. */
  function Gen(t: Tree, d: nat): seq<Tree> {
    if d == 0 then [t] else Children(Gen(t, d - 1))
  }

  /** `depth` counts exactly the non-empty levels. */
  lemma {:induction false} DepthCountsLevels(t: Tree, d: nat)
    ensures Level(t, d) != [] <==> d < Depth(t)
  {
    if d > 0 {
      match t.left {
        case Some(l) => DepthCountsLevels(l, d - 1);
        case None =>
      }
      match t.right {
        case Some(r) => DepthCountsLevels(r, d - 1);
        case None =>
      }
    }
  }

  lemma {:induction false} LevelFConcat(f: seq<Tree>, g: seq<Tree>, d: nat)
    ensures LevelF(f + g, d) == LevelF(f, d) + LevelF(g, d)
  {
    if f == [] {
      assert f + g == g;
    } else {
      assert (f + g)[1..] == f[1..] + g;
      LevelFConcat(f[1..], g, d);
      Assoc(Level(f[0], d), LevelF(f[1..], d), LevelF(g, d));
    }
  }

  lemma {:induction false} RootsAreLevelZero(f: seq<Tree>)
    ensures Roots(f) == LevelF(f, 0)
  {
    if f != [] {
      RootsAreLevelZero(f[1..]);
    }
  }

  lemma SingleLevel(t: Tree, d: nat)
    ensures LevelF([t], d) == Level(t, d)
  {
    assert [t][1..] == [];
  }

  lemma KidsLevel(t: Tree, d: nat)
    ensures LevelF(Kids(t), d) == Level(t, d + 1)
  {
    var l := KidOf(t.left);
    var r := KidOf(t.right);
    LevelFConcat(l, r, d);
    match t.left {
      case Some(x) => SingleLevel(x, d);
      case None =>
    }
    match t.right {
      case Some(x) => SingleLevel(x, d);
      case None =>
    }
  }

  /** One generation further is one level deeper. */
  lemma {:induction false} ChildrenShiftLevel(f: seq<Tree>, d: nat)
    ensures LevelF(Children(f), d) == LevelF(f, d + 1)
  {
    if f != [] {
      ChildrenShiftLevel(f[1..], d);
      LevelFConcat(Kids(f[0]), Children(f[1..]), d);
      KidsLevel(f[0], d);
    }
  }

  lemma {:induction false} GenLevel(t: Tree, d: nat, k: nat)
    ensures LevelF(Gen(t, d), k) == Level(t, d + k)
  {
    if d == 0 {
      SingleLevel(t, k);
    } else {
      var g := Gen(t, d - 1);
      assert Gen(t, d) == Children(g);
      ChildrenShiftLevel(g, k);
      GenLevel(t, d - 1, k + 1);
      assert (d - 1) + (k + 1) == d + k;
    }
  }

  /** Processing the trees of `q` ahead of a queue tail `p` emits their roots
      and moves their children behind `p`. */
  lemma {:induction false} GenerationsSplit(q: seq<Tree>, p: seq<Tree>)
    ensures Generations(q + p) == Roots(q) + Generations(p + Children(q))
    decreases ForestSize(q) + ForestSize(p)
  {
    if q == [] {
      assert q + p == p;
      assert p + Children(q) == p;
    } else {
      var cq := Children(q);
      var cp := Children(p);
      ChildrenSize(q);
      ChildrenSize(p);
      ForestSizeConcat(cq, cp);
      RootsConcat(q, p);
      ChildrenConcat(q, p);
      assert Generations(q + p) == Roots(q) + Roots(p) + Generations(cq + cp);
      GenerationsSplit(cq, cp);
      var rest := Generations(cp + Children(cq));
      assert Generations(cq + cp) == Roots(cq) + rest;
      if p + cq == [] {
        assert p == [] && cq == [] && cp == [];
        assert cq + cp == [];
        assert Generations(q + p) == Roots(q) + Roots(p) + [];
      } else {
        RootsConcat(p, cq);
        ChildrenConcat(p, cq);
        assert Generations(p + cq) == Roots(p) + Roots(cq) + rest;
        Assoc(Roots(q), Roots(p), Roots(cq) + rest);
        Assoc(Roots(p), Roots(cq), rest);
      }
    }
  }

  /** Breadth-first by generations is level by level. */
  lemma {:induction false} GenerationsByDepth(t: Tree, d: nat)
    ensures Generations(Gen(t, d)) == LevelsFrom(t, d)
    decreases Depth(t) - d
  {
    GenLevel(t, d, 0);
    RootsAreLevelZero(Gen(t, d));
    DepthCountsLevels(t, d);
    if d < Depth(t) {
      assert Gen(t, d) != [];
      GenerationsByDepth(t, d + 1);
    } else {
      assert Gen(t, d) == [];
    }
  }

  /** Dequeuing the front tree emits its key and enqueues its children. */
  lemma FrontGenerations(q: seq<Tree>)
    requires q != []
    ensures Generations(q) == [q[0].key] + Generations(q[1..] + Kids(q[0]))
  {
    var a := q[0];
    assert q == [a] + q[1..];
    assert [a][1..] == [];
    assert Children([a]) == Kids(a) + [] == Kids(a);
    assert Roots([a]) == [a.key] + [] == [a.key];
    GenerationsSplit([a], q[1..]);
  }

  /** Dequeuing the front tree leaves its children's nodes in the queue. */
  lemma FrontSize(a: Tree, rest: seq<Tree>)
    ensures ForestSize(rest + Kids(a)) < ForestSize([a] + rest)
  {
    assert ([a] + rest)[0] == a && ([a] + rest)[1..] == rest;
    ForestSizeConcat(rest, Kids(a));
    KidsSize(a);
  }

  /** Dequeuing the front tree moves its key out and its children's keys in. */
  lemma FrontKeys(q: seq<Tree>)
    requires q != []
    ensures ForestKeys(q) == multiset{q[0].key} + ForestKeys(q[1..] + Kids(q[0]))
  {
    ForestKeysConcat(q[1..], Kids(q[0]));
    KidsKeys(q[0]);
  }

  /** One turn of the queue loop: the front tree's key is emitted and its
      children join the back, which keeps the breadth-first invariant and
      shrinks the queue. */
  lemma QueueStep(t: Tree, out: seq<int>, q: seq<Tree>)
    requires q != []
    requires out + Generations(q) == Generations([t])
    ensures (out + [q[0].key]) + Generations(q[1..] + Kids(q[0])) == Generations([t])
  {
    FrontGenerations(q);
    EmitFront(out, Generations(q), q[0].key, Generations(q[1..] + Kids(q[0])), Generations([t]));
  }

  /** The same turn shrinks the queue by one node. */
  lemma QueueShrinks(q: seq<Tree>)
    requires q != []
    ensures ForestSize(q[1..] + Kids(q[0])) < ForestSize(q)
  {
    assert q == [q[0]] + q[1..];
    FrontSize(q[0], q[1..]);
  }

  /** The same turn keeps every key of the tree either emitted or queued. */
  lemma QueueStepKeys(t: Tree, out: seq<int>, q: seq<Tree>)
    requires q != []
    requires multiset(out) + ForestKeys(q) == Keys(t)
    ensures multiset(out + [q[0].key]) + ForestKeys(q[1..] + Kids(q[0])) == Keys(t)
  {
    FrontKeys(q);
    EmitKey(multiset(out), ForestKeys(q), q[0].key, ForestKeys(q[1..] + Kids(q[0])), Keys(t));
    assert multiset(out + [q[0].key]) == multiset(out) + multiset{q[0].key};
  }

  /** The two `match` blocks of the loop body: the left child, then the right
      child, each pushed on the back when present. */
  method EnqueueChildren(q: seq<Tree>, front: Tree) returns (next: seq<Tree>)
    ensures next == q + Kids(front)
  {
    next := q;
    match GetLeft(front) {
      case Some(left) => next := next + [left];
      case None =>
    }
    assert next == q + KidOf(front.left);
    match GetRight(front) {
      case Some(right) => next := next + [right];
      case None =>
    }
    Assoc(q, KidOf(front.left), KidOf(front.right));
  }

  /** `BinaryTree::levelorder` */
  method Levelorder(t: Tree) returns (out: seq<int>)
    ensures out == LevelsFrom(t, 0)
    ensures |out| == Size(t) && out[0] == t.key
    ensures multiset(out) == Keys(t)
  {
    var q: seq<Tree> := [t];
    out := [];
    assert ForestKeys(q) == Keys(t) + ForestKeys([]);
    while q != []
      invariant out + Generations(q) == Generations([t])
      invariant multiset(out) + ForestKeys(q) == Keys(t)
      decreases ForestSize(q)
    {
      QueueStep(t, out, q);
      QueueStepKeys(t, out, q);
      QueueShrinks(q);
      var front := q[0];
      q := q[1..];
      out := out + [GetKey(front)];
      q := EnqueueChildren(q, front);
    }
    LevelorderComplete(t, out);
  }

  /** What the drained queue leaves behind is the level-by-level reference. */
  lemma LevelorderComplete(t: Tree, out: seq<int>)
    requires out + Generations([]) == Generations([t])
    requires multiset(out) + ForestKeys([]) == Keys(t)
    ensures out == LevelsFrom(t, 0)
    ensures |out| == Size(t) && out[0] == t.key
    ensures multiset(out) == Keys(t)
  {
    assert out == Generations([t]);
    GenerationsByDepth(t, 0);
    KeysPerNode(t);
    assert LevelsFrom(t, 0) == [t.key] + LevelsFrom(t, 1);
  }
}
