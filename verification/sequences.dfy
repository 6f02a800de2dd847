/** Small facts about sequences of keys, proved apart from the tree so that the
    traversal proofs stay cheap. */
module Sequences {

  /** Concatenation is associative; the step Dafny needs spelled out when a
      sequence built by one recursion is split by another. */
  lemma Assoc<T>(a: seq<T>, b: seq<T>, c: seq<T>)
    ensures a + (b + c) == a + b + c
  {
  }

  /** Two elements placed between two sequences, regrouped from the shapes a
      traversal produces when one node with an absent child (contributing
      `[]`) is inserted next to another. */
  lemma Splice<T>(a: seq<T>, x: T, y: T, b: seq<T>)
    ensures a + [x] + ([] + [y] + b) == a + [x, y] + b
    ensures (a + [x] + []) + [y] + b == a + [x, y] + b
    ensures [x] + ([y] + a + []) + b == [x, y] + a + b
  {
  }

  /** The multiset of a concatenation of three pieces. */
  lemma MultisetOfJoin(a: seq<int>, b: seq<int>, c: seq<int>)
    ensures multiset(a + b + c) == multiset(a) + multiset(b) + multiset(c)
  {
    assert a + b + c == a + (b + c);
  }

  /** Multiset union does not depend on the order of the parts. */
  lemma UnionReorder(x: multiset<int>, y: multiset<int>, z: multiset<int>)
    ensures x + y + z == y + x + z
    ensures x + y + z == z + x + y
    ensures x + y + z == y + z + x
  {
  }

  /** Moving the first element of a remainder onto the emitted prefix keeps
      the whole. */
  lemma EmitFront(out: seq<int>, pending: seq<int>, k: int, later: seq<int>, whole: seq<int>)
    requires out + pending == whole
    requires pending == [k] + later
    ensures out + [k] + later == whole
  {
    assert out + ([k] + later) == out + [k] + later;
  }

  /** The multiset counterpart of `EmitFront`. */
  lemma EmitKey(out: multiset<int>, pending: multiset<int>, k: int, later: multiset<int>, whole: multiset<int>)
    requires out + pending == whole
    requires pending == multiset{k} + later
    ensures out + multiset{k} + later == whole
  {
  }
}
