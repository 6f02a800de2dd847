/** The index arithmetic of the array-backed heap: the `parent!`, `left_child!`
    and `right_child!` macros. Shifts on `usize` are modelled on `nat`, so
    `c >> 1` is `c / 2` and `p << 1` is `2 * p`; overflow of huge indices is
    not modelled. */
module HeapIndex {

  /** `c >> 1`: the node whose left or right child is `c`. */
  function Parent(c: nat): (p: nat)
    ensures c >= 1 ==> p < c
    ensures c >= 2 ==> 1 <= p && (c == 2 * p || c == 2 * p + 1)
  {
    c / 2
  }

  /** `p << 1` */
  function LeftChild(p: nat): (c: nat)
    ensures Parent(c) == p
    ensures p >= 1 ==> p < c
  {
    2 * p
  }

  /** `(p << 1) + 1` */
  function RightChild(p: nat): (c: nat)
    ensures Parent(c) == p
    ensures c == LeftChild(p) + 1
  {
    2 * p + 1
  }
}
