/** `min_child`, `move_down`, `pop` and `build_new` of `src/binary_heap.rs`
    exactly as written. `min_child` binds `rc` to `2c` and `lc` to `2c + 1`, so
    its range test looks at `2c` and its comparison reads `data[2c + 1]` even
    when `2c == size`, one past the end of the `Vec`, which panics in Rust.
    Each member returns an `Outcome` whose `IndexOutOfBounds` case is that
    panic, and the contracts state exactly when it happens and that otherwise the
    result is the one of the intended model in `BinaryHeap`. */
module BinaryHeapAsWritten {
  import opened Wrappers
  import opened HeapIndex
  import opened BinaryHeap

  /** `BinaryHeap::min_child` as written. */
  function MinChildAsWritten(d: seq<int>, n: nat, c: nat): (r: Outcome<nat>)
    requires |d| == n + 1 && 1 <= c
    ensures LeftChild(c) > n ==> r == Ok(RightChild(c))
    ensures LeftChild(c) == n ==> r == IndexOutOfBounds(n + 1)
    ensures RightChild(c) <= n ==> r == Ok(MinChild(d, n, c))
  {
    var rc := LeftChild(c);
    var lc := RightChild(c);
    if rc > n then Ok(lc)
    else if lc >= |d| then IndexOutOfBounds(lc)
    else if d[lc] < d[rc] then Ok(lc)
    else Ok(rc)
  }

  /** `BinaryHeap::move_down` as written: the same walk as `MoveDown`, with the
      child chosen by `MinChildAsWritten`. It panics exactly when its walk
      reaches the parent of a lone last child, and otherwise computes the
      intended `MoveDown`. */
  function MoveDownAsWritten(d: seq<int>, n: nat, c: nat): (r: Outcome<seq<int>>)
    requires |d| == n + 1 && 1 <= c
    ensures r == if ReachesLoneChild(d, n, c) then IndexOutOfBounds(n + 1) else Ok(MoveDown(d, n, c))
    decreases n - c
  {
    if LeftChild(c) > n then
      assert SiftPath(d, n, c) == [c];
      Ok(d)
    else
      match MinChildAsWritten(d, n, c)
      case IndexOutOfBounds(i) =>
        assert SiftPath(d, n, c)[0] == n / 2;
        IndexOutOfBounds(i)
      case Ok(m) =>
        var tail := SiftPath(SiftStep(d, c, m), n, m);
        assert SiftPath(d, n, c) == [c] + tail;
        assert n % 2 == 0 ==> (n / 2 in SiftPath(d, n, c) <==> n / 2 in tail);
        MoveDownAsWritten(SiftStep(d, c, m), n, m)
  }

  /** The walk from `c` passes through a node whose only child is the last
      live position: that is the node `n / 2` for an even `n`. */
  predicate ReachesLoneChild(d: seq<int>, n: nat, c: nat)
    requires |d| == n + 1 && 1 <= c
  {
    n % 2 == 0 && n / 2 in SiftPath(d, n, c)
  }

  /** On an odd number of live positions no node has a lone child, so
      `move_down` as written never panics. */
  lemma MoveDownAsWrittenOddIsSafe(d: seq<int>, n: nat, c: nat)
    requires |d| == n + 1 && 1 <= c && n % 2 == 1
    ensures MoveDownAsWritten(d, n, c) == Ok(MoveDown(d, n, c))
  {
  }

  /** The array `pop` hands to `move_down(1)`: root and last swapped, last
      dropped. */
  function PopArray(h: Heap): (d: seq<int>)
    requires h.Valid() && h.size >= 2
    ensures |d| == h.size && d[1] == h.data[h.size]
  {
    Swap(h.data, 1, h.size)[..h.size]
  }

  /** `pop` as written panics exactly when `move_down(1)` does on the shrunk
      heap. */
  predicate PopPanics(h: Heap)
    requires h.Valid()
  {
    h.size >= 2 && ReachesLoneChild(PopArray(h), h.size - 1, 1)
  }

  /** `BinaryHeap::pop` as written. */
  function PopAsWritten(h: Heap): (r: Outcome<Popped>)
    requires h.Valid()
    ensures r == if PopPanics(h) then IndexOutOfBounds(h.size) else Ok(Pop(h))
  {
    if IsEmpty(h) then Ok(Popped(h, None))
    else if 1 == h.size then
      assert h.data[..1] == h.data[..|h.data| - 1];
      Ok(Popped(Heap(0, h.data[..1]), Some(h.data[1])))
    else
      var d := Swap(h.data, 1, h.size);
      var n := h.size - 1;
      match MoveDownAsWritten(d[..h.size], n, 1)
      case IndexOutOfBounds(i) => IndexOutOfBounds(i)
      case Ok(moved) => Ok(Popped(Heap(n, moved), Some(d[h.size])))
  }

  /** Popping any heap of three elements as written panics: after the swap
      `move_down(1)` sees `size == 2` and reads `data[3]`. */
  lemma PopOfThreePanics(h: Heap)
    requires h.Valid() && h.size == 3
    ensures PopAsWritten(h) == IndexOutOfBounds(3)
  {
    assert SiftPath(PopArray(h), 2, 1)[0] == 1;
  }

  /** Popping a heap with an even number of elements as written is safe and
      agrees with the intended `Pop`. */
  lemma PopOfEvenIsSafe(h: Heap)
    requires h.Valid() && h.size % 2 == 0
    ensures PopAsWritten(h) == Ok(Pop(h))
  {
    assert (h.size - 1) % 2 == 1;
    assert !PopPanics(h);
  }

  /** `BinaryHeap::build_new` as written: the heapify loop stops at the first
      panicking `move_down`. */
  method BuildNewAsWritten(h: Heap, arr: seq<int>) returns (r: Outcome<Heap>)
    requires h.Valid()
    ensures r.IndexOutOfBounds? <==> |arr| >= 2 && |arr| % 2 == 0
    ensures r.IndexOutOfBounds? ==> r.index == |arr| + 1
    ensures r.Ok? ==> r.value.Valid() && r.value.size == |arr| && r.value.data[0] == h.data[0]
    ensures r.Ok? ==> r.value.Elements() == multiset(arr) && HeapOrdered(r.value)
  {
    var data := h.data;
    for i := 0 to h.size
      invariant data == h.data[..|h.data| - i]
    {
      data := data[..|data| - 1];
    }
    var size := |arr|;
    for i := 0 to |arr|
      invariant data == [h.data[0]] + arr[..i]
    {
      data := data + [arr[i]];
    }
    assert data[1..] == arr;
    var p: nat := Parent(size);
    if p > 0 && size % 2 == 0 {
      assert SiftPath(data, size, p)[0] == size / 2;
      assert ReachesLoneChild(data, size, p);
    }
    while p > 0
      invariant p <= Parent(size)
      invariant |data| == size + 1 && data[0] == h.data[0]
      invariant multiset(data[1..]) == multiset(arr)
      invariant OrderedFrom(data, size, p + 1)
      invariant p > 0 && p == Parent(size) && size % 2 == 0 ==> MoveDownAsWritten(data, size, p).IndexOutOfBounds?
      invariant p < Parent(size) ==> size % 2 == 1
      decreases p
    {
      if size % 2 == 1 {
        MoveDownAsWrittenOddIsSafe(data, size, p);
      }
      match MoveDownAsWritten(data, size, p)
      case IndexOutOfBounds(i) =>
        return IndexOutOfBounds(i);
      case Ok(moved) =>
        MoveDownHeapifies(data, size, p);
        LiveElements(moved, data);
        data := moved;
        p := p - 1;
    }
    r := Ok(Heap(size, data));
  }
}
