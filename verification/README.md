# rs-trees in Dafny

This project models the core of the `rs-trees` Rust crate and proves properties of that model. The core has two data structures:

- an array-backed binary min-heap (`src/binary_heap.rs`);
- an owned binary tree whose nodes hold a key and two optional children (`src/lib.rs`).

The model also covers the four tree traversals: pre-order, in-order, post-order and level-order.

Every structure is an immutable Dafny datatype. Every mutating operation returns the updated value.

- **Heap.** The heap is `Heap(size, data)`. `data[0]` is the unused placeholder that `new` pushes. The live elements are at positions `1..size`.
- **Index macros.** `parent!`, `left_child!` and `right_child!` are functions on `nat` in module `HeapIndex`.
- **Heap modules.** Module `BinaryHeap` holds the heap with the intended `min_child`. `min_child` exactly as written is in module `BinaryHeapAsWritten`; see "## Findings".
- **Tree.** The tree is `Node(key, left, right)`, and `Link` is `Option<Tree>`. Keys are `int`.
- **Tree references.** A node's keys are a multiset (`Keys`), and `NodeCount` counts its nodes. These are the references that `size`, `calc_size`, `min`, `max`, `contains` and the traversals are compared against.
- **Traversals.** Each traversal returns the sequence of keys it prints:
  - the pre-, in- and post-order methods and free functions, in modules `PreOrder`, `InOrder` and `PostOrder`;
  - the queue-based level order, in module `LevelOrder`. Its result is proved equal to an independent reference, the keys listed depth by depth (`LevelsFrom`).

Shared helpers are in `wrappers.dfy` (`Option`, and `Outcome` for a panic) and `sequences.dfy`.

## Model

| member | source | states |
|---|---|---|
| HeapIndex.Parent | src/binary_heap.rs:30-34 | the parent of a position at least 2 is a live position strictly before it, and the position is its left or right child |
| HeapIndex.LeftChild | src/binary_heap.rs:37-41 | the left child's parent is the node itself, and the left child comes after it |
| HeapIndex.RightChild | src/binary_heap.rs:44-48 | the right child's parent is the node itself, and it sits just after the left child |
| BinaryHeap.New | src/binary_heap.rs:65-70 | a new heap holds only the placeholder, has no elements and is heap-ordered |
| BinaryHeap.Size | src/binary_heap.rs:72-74 | the size is the number of live elements |
| BinaryHeap.IsEmpty | src/binary_heap.rs:76-78 | true exactly when the heap holds no element |
| BinaryHeap.RootIsMinimum | src/binary_heap.rs:80-88 | in a heap-ordered array the root is at most every live position (the reason `min` reads index 1) |
| BinaryHeap.Min | src/binary_heap.rs:80-88 | None exactly when empty; otherwise an element of the heap, and in a heap-ordered heap the smallest one |
| BinaryHeap.MoveUp | src/binary_heap.rs:102-113 | sift-up permutes the array and keeps the placeholder; when only the new position broke the order, the result is heap-ordered |
| BinaryHeap.SwapUpKeeps | src/binary_heap.rs:105-111 | one swap with a larger parent moves the only order violation one level up |
| BinaryHeap.Push | src/binary_heap.rs:94-98 | the size grows by one, the elements gain exactly the pushed value, and heap order is preserved |
| BinaryHeap.MinChild | src/binary_heap.rs:175-189 | the intended child choice: a child of the node that is at most both children, the left one on ties or when there is no right child |
| BinaryHeap.SiftStep | src/binary_heap.rs:162-167 | after one loop step the node holds the smaller of its value and the chosen child's value |
| BinaryHeap.SiftStepPermutes | src/binary_heap.rs:162-167 | a loop step only rearranges values |
| BinaryHeap.MoveDown | src/binary_heap.rs:158-171 | sift-down keeps the length, the placeholder and the multiset of values |
| BinaryHeap.SiftPathWalks | src/binary_heap.rs:158-171 | the walk goes from the start node to a live child at every step and stops at a node with no child |
| BinaryHeap.MoveDownRestores | src/binary_heap.rs:158-171 | sift-down from a node whose only violation is below it restores heap order from the top node down |
| BinaryHeap.MoveDownHeapifies | src/binary_heap.rs:158-171 | if every parent after `c` is ordered with its children, sift-down from `c` orders every parent from `c` on (the step `build_new` and `pop` take) |
| BinaryHeap.MoveDownOnHeapIsIdentity | src/binary_heap.rs:158-171 | if every parent from `c` on is already ordered with its children, sift-down from `c` changes nothing |
| BinaryHeap.Pop | src/binary_heap.rs:116-131 | an empty heap gives None and is unchanged; otherwise the root is returned, the size drops by one, the elements lose exactly that value, heap order is preserved, and the value is at most all remaining elements |
| BinaryHeap.PopLast | src/binary_heap.rs:119-123 | popping a one-element heap returns its element and leaves it empty |
| BinaryHeap.PopRoot | src/binary_heap.rs:124-130 | swapping root and last, dropping the last and sifting down returns the old root and keeps the remaining elements heap-ordered |
| BinaryHeap.PopAll | src/binary_heap.rs:116-131 | popping until empty returns every element once, in non-decreasing order when the heap was ordered |
| BinaryHeap.BuildNew | src/binary_heap.rs:192-212 | with the intended `min_child`, the rebuilt heap holds exactly the given values, keeps the placeholder, and is heap-ordered |
| BinaryHeapAsWritten.MinChildAsWritten | src/binary_heap.rs:175-189 | as written: with no child it returns `2c+1`; with a lone child at `2c == size` it reads past the end; with two children it agrees with `MinChild` |
| BinaryHeapAsWritten.MoveDownAsWritten | src/binary_heap.rs:158-171 | as written, sift-down panics exactly when its walk reaches the parent of a lone last child; otherwise it equals the intended `MoveDown` |
| BinaryHeapAsWritten.MoveDownAsWrittenOddIsSafe | src/binary_heap.rs:158-171 | with an odd number of live positions, sift-down as written never panics |
| BinaryHeapAsWritten.PopAsWritten | src/binary_heap.rs:116-131 | `pop` as written panics exactly when its sift-down does, and otherwise equals the intended `Pop` |
| BinaryHeapAsWritten.PopOfThreePanics | src/binary_heap.rs:116-131 | popping any three-element heap as written reads index 3 of a length-3 vector |
| BinaryHeapAsWritten.PopOfEvenIsSafe | src/binary_heap.rs:116-131 | popping a heap with an even number of elements as written agrees with the intended `Pop` |
| BinaryHeapAsWritten.BuildNewAsWritten | src/binary_heap.rs:192-212 | `build_new` as written panics exactly on arrays of even length at least 2; otherwise it builds a heap-ordered heap of exactly the given values |
| BinaryTree.KeysPerNode | src/lib.rs:18-22 | every node contributes exactly one key |
| BinaryTree.New | src/lib.rs:27-33 | a new tree is a leaf holding only the given key |
| BinaryTree.InsertLeftNode | src/lib.rs:41-50 | the tree gains exactly the new key; the new node becomes the left child and takes over the old left subtree; the root key and right subtree are unchanged |
| BinaryTree.InsertRightNode | src/lib.rs:53-62 | the mirror image for the right side |
| BinaryTree.InsertGrowsSize | src/lib.rs:41-62 | each insertion adds exactly one node |
| BinaryTree.CalcSize | src/lib.rs:69-80 | the result is the starting count plus the number of nodes |
| BinaryTree.Size | src/lib.rs:65-67 | `size` is the number of nodes, at least 1 |
| BinaryTree.LeafSize | src/lib.rs:83-101 | a tree has at least one leaf, and fewer leaves than nodes unless the root is a leaf |
| BinaryTree.NoneLeafSize | src/lib.rs:104-106 | the subtraction never underflows, and the count is 0 exactly when the root is a leaf |
| BinaryTree.LeavesAtMostInnerPlusOne | src/lib.rs:83-106 | leaves are at most inner nodes plus one, with equality when every node has 0 or 2 children |
| BinaryTree.Depth | src/lib.rs:109-122 | the depth is between 1 and the number of nodes |
| BinaryTree.GetLeft | src/lib.rs:125-127 | the left link is a strictly smaller part of the tree |
| BinaryTree.GetRight | src/lib.rs:129-131 | the right link is a strictly smaller part of the tree |
| BinaryTree.GetKey | src/lib.rs:134-136 | the key is one of the tree's keys |
| BinaryTree.SetKey | src/lib.rs:139-141 | only the root key changes, to the given one; the getters see the new key and the same children |
| BinaryTree.SetKeyRoundTrip | src/lib.rs:134-141 | setting a key and then restoring the old one gives back the original tree |
| BinaryTree.Min | src/lib.rs:144-150 | returns the leftmost key, which is in the tree and, in a search tree, the smallest |
| BinaryTree.LeftStep | src/lib.rs:146-148 | one step down the left link keeps the loop invariant of `min` |
| BinaryTree.Max | src/lib.rs:152-158 | returns the rightmost key, which is in the tree and, in a search tree, the largest |
| BinaryTree.RightStep | src/lib.rs:154-156 | one step down the right link keeps the loop invariant of `max` |
| BinaryTree.Contains | src/lib.rs:161-173 | a true answer means the key is present; the root key is always found; in a search tree the answer is exactly membership |
| PreOrder.Preorder | src/pre_order_traversal.rs:13-23 | one key per node, the root first |
| PreOrder.PreorderLink | src/pre_order_traversal.rs:27-33 | nothing for an absent tree, the same keys as the method for a present one |
| PreOrder.PreorderVisitsEveryNode | src/pre_order_traversal.rs:13-23 | the printed keys are exactly the tree's keys |
| PreOrder.InsertLeftNodePreorder | src/pre_order_traversal.rs:13-23 | after `insert_left_node` the new key is printed right after the root |
| InOrder.Inorder | src/in_order_traversal.rs:8-16 | one key per node |
| InOrder.InorderLink | src/in_order_traversal.rs:20-26 | nothing for an absent tree, the same keys as the method for a present one |
| InOrder.InorderVisitsEveryNode | src/in_order_traversal.rs:8-16 | the printed keys are exactly the tree's keys |
| InOrder.InorderEnds | src/in_order_traversal.rs:8-16 | the first key printed is the one `min` returns and the last is the one `max` returns |
| InOrder.InorderOfBstIncreases | src/in_order_traversal.rs:8-16 | in a search tree the keys are printed in strictly increasing order |
| InOrder.InsertLeftNodeInorder | src/in_order_traversal.rs:8-16 | after `insert_left_node` the new key is printed just before the root |
| InOrder.InsertRightNodeInorder | src/in_order_traversal.rs:8-16 | after `insert_right_node` the new key is printed just after the root |
| PostOrder.Postorder | src/post_order_traversal.rs:8-18 | one key per node, the root last |
| PostOrder.PostorderLink | src/post_order_traversal.rs:22-28 | nothing for an absent tree, the same keys as the method for a present one |
| PostOrder.PostorderVisitsEveryNode | src/post_order_traversal.rs:8-18 | the printed keys are exactly the tree's keys |
| LevelOrder.EnqueueChildren | src/level_order_traversal.rs:21-33 | the queue gains the front node's left child, then its right child, each only if present |
| LevelOrder.Levelorder | src/level_order_traversal.rs:9-35 | the keys are printed depth by depth, left to right within a depth; they are exactly the tree's keys, starting with the root |
| LevelOrder.QueueStep | src/level_order_traversal.rs:15-34 | one loop iteration keeps the invariant "printed keys followed by the queue's generations are the tree's generations" |
| LevelOrder.QueueStepKeys | src/level_order_traversal.rs:15-34 | one loop iteration keeps the invariant "printed keys plus the keys in the queue are the tree's keys" |
| LevelOrder.QueueShrinks | src/level_order_traversal.rs:15-34 | every iteration removes one node from the queue's forest, so the loop ends |
| LevelOrder.GenerationsSplit | src/level_order_traversal.rs:15-34 | draining a queue lists the current roots, then what remains followed by their children |
| LevelOrder.GenerationsByDepth | src/level_order_traversal.rs:9-35 | the breadth-first listing of the nodes at depth d equals the keys of depth d and below, level by level |
| LevelOrder.DepthCountsLevels | src/lib.rs:109-122 | depth d of a tree holds a node exactly when d is below `depth()` |

## Left out

- Printing is not modelled: each traversal returns the sequence of keys it prints.
- Tree keys are `int`. The source is generic over `T: Clone + Ord + ToString + Debug` and only compares, clones and prints keys.
- Machine integers are modelled as unbounded `nat`/`int`, so `usize` overflow of the index macros and heap sizes is not modelled.
- Rust ownership, `Box`, `clone` and `&mut` aliasing are not modelled. Mutating methods return the updated value instead.
- The commented-out earlier `move_down` (`src/binary_heap.rs:134-155`) is not modelled. It is dead code.
- The unused local `size` in `levelorder` (`src/level_order_traversal.rs:10`) is not modelled.
- The empty test module of `src/lib.rs` has nothing to model.
- `src/parse_tree.rs` holds only a comment describing parse-tree construction and no code, so there is nothing in it to model.
- BinaryHeap.SiftPath: states only where the walk starts. `SiftPathWalks` states the shape of the walk.
- BinaryHeap.MoveDownHeapifies: stated over index ranges (every parent after `c`), not over the subtree of `c` alone. That a heap-ordered subtree stays one, whatever lies outside it, is not proved. `pop` and `build_new` only need the range form.
- BinaryHeap.MoveDownOnHeapIsIdentity: likewise stated over the parents from `c` on, not over the subtree of `c`.
- BinaryHeap.SiftStep: its contract gives the new value at the node. That values are only rearranged is the separate lemma `SiftStepPermutes`.

## Findings

| source | as written | input that shows it | evidently intended | confidence | as-written member | corrected member |
|---|---|---|---|---|---|---|
| src/binary_heap.rs:175-189 | `min_child` binds `rc` to `2c` and `lc` to `2c + 1`. It tests only `2c > size`, then reads `data[2c + 1]`, which is past the end when `2c == size` | `pop` on any heap of three elements (after the swap, `move_down(1)` sees size 2 and reads index 3 of a length-3 vector, lemma `PopOfThreePanics`); `build_new` with any array of even length at least 2 | the range test on `2c + 1`, returning `2c` when `2c + 1` is past the end, so a lone child is chosen; the comparison stays as written, so `2c` wins ties | high, not executed | BinaryHeapAsWritten.MinChildAsWritten | BinaryHeap.MinChild |
