/** The array-backed binary min-heap of `src/binary_heap.rs`.

    The heap is a sequence `data` whose index 0 holds an unused placeholder and
    whose positions 1..size hold the live elements, plus the live count `size`.
    Operations take a heap and return the new one (value semantics). `MinChild`
    here is the intended child selection; the code as written is modelled in
    module `BinaryHeapAsWritten`. */
module BinaryHeap {
  import opened Wrappers
  import opened HeapIndex

  datatype Heap = Heap(size: nat, data: seq<int>) {

    /** Representation invariant: the placeholder plus exactly `size` live slots. */
    predicate Valid() {
      |data| == size + 1
    }

    /** The live elements, positions 1..size. */
    function Elements(): multiset<int>
      requires Valid()
    {
      multiset(data[1..])
    }
  }

  /** Heap order restricted to parents at index `lo` or beyond: every such parent
      is at most each of its children among positions 2..n. */
  predicate OrderedFrom(d: seq<int>, n: nat, lo: nat)
    requires |d| == n + 1
  {
    forall i :: 2 <= i <= n && lo <= Parent(i) ==> d[Parent(i)] <= d[i]
  }

  /** Heap order over all live positions. */
  predicate HeapOrdered(h: Heap)
    requires h.Valid()
  {
    OrderedFrom(h.data, h.size, 1)
  }

  /** `Vec::swap` */
  function Swap(d: seq<int>, i: nat, j: nat): (r: seq<int>)
    requires i < |d| && j < |d|
    ensures |r| == |d| && r[i] == d[j] && r[j] == d[i]
    ensures forall k :: 0 <= k < |d| && k != i && k != j ==> r[k] == d[k]
    ensures multiset(r) == multiset(d)
  {
    d[i := d[j]][j := d[i]]
  }

  /** Two sequences with the same placeholder and the same multiset agree on
      their live elements. */
  lemma LiveElements(a: seq<int>, b: seq<int>)
    requires |a| >= 1 && |b| >= 1 && a[0] == b[0]
    requires multiset(a) == multiset(b)
    ensures multiset(a[1..]) == multiset(b[1..])
  {
    assert a == [a[0]] + a[1..];
    assert b == [b[0]] + b[1..];
    assert multiset(a[1..]) == multiset(a) - multiset{a[0]};
    assert multiset(b[1..]) == multiset(b) - multiset{b[0]};
  }

  /** `BinaryHeap::new` */
  function New(): (h: Heap)
    ensures h.Valid() && h.size == 0 && h.data == [0]
    ensures h.Elements() == multiset{}
    ensures HeapOrdered(h)
  {
    Heap(0, [0])
  }

  /** `BinaryHeap::size` */
  function Size(h: Heap): (r: nat)
    requires h.Valid()
    ensures r == |h.Elements()|
  {
    h.size
  }

  /** `BinaryHeap::is_empty` */
  function IsEmpty(h: Heap): (r: bool)
    requires h.Valid()
    ensures r <==> h.Elements() == multiset{}
  {
    0 == h.size
  }

  /** Under heap order the root is at most every live position. */
  lemma {:induction false} RootIsMinimum(h: Heap, i: nat)
    requires h.Valid() && HeapOrdered(h)
    requires 1 <= i <= h.size
    ensures h.data[1] <= h.data[i]
    decreases i
  {
    if i > 1 {
      RootIsMinimum(h, Parent(i));
    }
  }

  /** Under heap order the root is at most every live element. */
  lemma RootBelowAll(h: Heap)
    requires h.Valid() && HeapOrdered(h) && h.size >= 1
    ensures forall x :: x in h.Elements() ==> h.data[1] <= x
  {
    forall x | x in h.Elements()
      ensures h.data[1] <= x
    {
      var j :| 0 <= j < |h.data[1..]| && h.data[1..][j] == x;
      RootIsMinimum(h, j + 1);
    }
  }

  /** `BinaryHeap::min` */
  function Min(h: Heap): (r: Option<int>)
    requires h.Valid()
    ensures r.None? <==> h.size == 0
    ensures r.Some? ==> r.value in h.Elements()
    ensures r.Some? && HeapOrdered(h) ==> forall x :: x in h.Elements() ==> r.value <= x
  {
    if IsEmpty(h) then None
    else
      assert HeapOrdered(h) ==> forall x :: x in h.Elements() ==> h.data[1] <= x by {
        if HeapOrdered(h) {
          RootBelowAll(h);
        }
      }
      Some(h.data[1])
  }

  /** Heap order everywhere except between `c` and its parent, and the parent of
      `c` (when it has one) is at most the children of `c`: the state sift-up
      works in. */
  predicate HeapExceptAt(d: seq<int>, n: nat, c: nat)
    requires |d| == n + 1 && 1 <= c <= n
  {
    && (forall i :: 2 <= i <= n && i != c ==> d[Parent(i)] <= d[i])
    && (c >= 2 ==> forall i :: 2 <= i <= n && Parent(i) == c ==> d[Parent(c)] <= d[i])
  }

  /** `BinaryHeap::move_up`: swap `c` with its parent while it is strictly
      smaller, stopping at the first non-swap or at the root. */
  method MoveUp(d: seq<int>, n: nat, c0: nat) returns (r: seq<int>)
    requires |d| == n + 1 && 1 <= c0 <= n
    ensures |r| == |d| && r[0] == d[0]
    ensures multiset(r) == multiset(d)
    ensures HeapExceptAt(d, n, c0) ==> OrderedFrom(r, n, 1)
  {
    ghost var ready := HeapExceptAt(d, n, c0);
    r := d;
    var c := c0;
    var p := Parent(c);
    while p > 0
      invariant 1 <= c <= n && p == Parent(c)
      invariant |r| == |d| && r[0] == d[0]
      invariant multiset(r) == multiset(d)
      invariant ready ==> HeapExceptAt(r, n, c)
      decreases c
    {
      if r[c] < r[p] {
        if ready {
          SwapUpKeeps(r, n, c);
        }
        r := Swap(r, c, p);
        c := p;
        p := Parent(c);
      } else {
        break;
      }
    }
  }

  /** One sift-up swap moves the exception from `c` to its parent. */
  lemma SwapUpKeeps(d: seq<int>, n: nat, c: nat)
    requires |d| == n + 1 && 2 <= c <= n
    requires HeapExceptAt(d, n, c)
    requires d[c] < d[Parent(c)]
    ensures HeapExceptAt(Swap(d, c, Parent(c)), n, Parent(c))
  {
    var p := Parent(c);
    var e := Swap(d, c, p);
    forall i | 2 <= i <= n && i != p
      ensures e[Parent(i)] <= e[i]
    {
      if i == c {
      } else if Parent(i) == c {
        assert d[p] <= d[i];
      } else if Parent(i) == p {
        assert d[p] <= d[i];
      }
    }
    if p >= 2 {
      forall i | 2 <= i <= n && Parent(i) == p
        ensures e[Parent(p)] <= e[i]
      {
        assert d[Parent(p)] <= d[p];
        if i != c {
          assert d[p] <= d[i];
        }
      }
    }
  }

  /** `BinaryHeap::push` */
  method Push(h: Heap, val: int) returns (r: Heap)
    requires h.Valid()
    ensures r.Valid() && r.size == h.size + 1 && r.data[0] == h.data[0]
    ensures r.Elements() == h.Elements() + multiset{val}
    ensures HeapOrdered(h) ==> HeapOrdered(r)
  {
    var data := h.data + [val];
    var size := h.size + 1;
    assert data[1..] == h.data[1..] + [val];
    if HeapOrdered(h) {
      assert HeapExceptAt(data, size, size);
    }
    var moved := MoveUp(data, size, size);
    LiveElements(moved, data);
    r := Heap(size, moved);
  }

  /** The intended `BinaryHeap::min_child`: the range test is on `2c + 1`, and
      `2c` is returned when that position is past the end. The comparison is
      the one the code makes, so `2c` also wins ties. The result is the index
      of the smaller child of `c`. */
  function MinChild(d: seq<int>, n: nat, c: nat): (m: nat)
    requires |d| == n + 1 && 1 <= c && LeftChild(c) <= n
    ensures m == LeftChild(c) || m == RightChild(c)
    ensures m <= n
    ensures d[m] <= d[LeftChild(c)]
    ensures RightChild(c) <= n ==> d[m] <= d[RightChild(c)]
    ensures d[m] == d[LeftChild(c)] ==> m == LeftChild(c)
  {
    var lc := LeftChild(c);
    var rc := RightChild(c);
    if rc > n then lc
    else if d[rc] < d[lc] then rc
    else lc
  }

  /** One iteration of the `move_down` loop body: swap `c` with its minimum
      child `m` if `c` holds the larger value. */
  function SiftStep(d: seq<int>, c: nat, m: nat): (r: seq<int>)
    requires c < |d| && m < |d|
    ensures |r| == |d|
    ensures r[c] <= r[m] && r[c] == (if d[c] <= d[m] then d[c] else d[m])
  {
    if d[c] > d[m] then Swap(d, c, m) else d
  }

  /** A sift step only moves values around. */
  lemma SiftStepPermutes(d: seq<int>, c: nat, m: nat)
    requires c < |d| && m < |d|
    ensures multiset(SiftStep(d, c, m)) == multiset(d)
  {
    if d[c] > d[m] {
      assert SiftStep(d, c, m) == Swap(d, c, m);
    }
  }

  /** `BinaryHeap::move_down` with the intended child selection: the walk goes
      on to the minimum child after every step, swapped or not, until it
      reaches a node with no child. */
  function MoveDown(d: seq<int>, n: nat, c: nat): (r: seq<int>)
    requires |d| == n + 1 && 1 <= c
    ensures |r| == |d| && r[0] == d[0]
    ensures multiset(r) == multiset(d)
    decreases n - c
  {
    if LeftChild(c) > n then d
    else
      var m := MinChild(d, n, c);
      SiftStepPermutes(d, c, m);
      MoveDown(SiftStep(d, c, m), n, m)
  }

  /** The nodes `MoveDown` visits, in order. */
  function SiftPath(d: seq<int>, n: nat, c: nat): (p: seq<nat>)
    requires |d| == n + 1 && 1 <= c
    ensures |p| >= 1 && p[0] == c
    decreases n - c
  {
    if LeftChild(c) > n then [c]
    else
      var m := MinChild(d, n, c);
      [c] + SiftPath(SiftStep(d, c, m), n, m)
  }

  /** `p` is a walk down the tree of positions `1..n` that starts at `c`,
      goes each time to a live child, and ends at a node with no child. */
  predicate DownwardPath(p: seq<nat>, c: nat, n: nat)
    decreases |p|
  {
    && |p| >= 1 && p[0] == c
    && (|p| == 1 ==> LeftChild(c) > n)
    && (|p| > 1 ==> Parent(p[1]) == c && c < p[1] <= n && DownwardPath(p[1..], p[1], n))
  }

  /** The walk of `MoveDown` is a downward path from its start to a node with
      no child. */
  lemma {:induction false} SiftPathWalks(d: seq<int>, n: nat, c: nat)
    requires |d| == n + 1 && 1 <= c
    ensures DownwardPath(SiftPath(d, n, c), c, n)
    decreases n - c
  {
    if LeftChild(c) <= n {
      var m := MinChild(d, n, c);
      var e := SiftStep(d, c, m);
      assert Parent(m) == c && c < m;
      var tail := SiftPath(e, n, m);
      assert SiftPath(d, n, c) == [c] + tail;
      assert ([c] + tail)[1..] == tail;
      SiftPathWalks(e, n, m);
    }
  }

  /** Heap order among parents at `top` or beyond, except below `c`, with the
      parent of `c` at most the children of `c` once the walk has left `top`:
      the state sift-down works in. */
  predicate SiftInv(d: seq<int>, n: nat, top: nat, c: nat)
    requires |d| == n + 1 && 1 <= top <= c
  {
    && (forall i :: 2 <= i <= n && top <= Parent(i) && Parent(i) != c ==> d[Parent(i)] <= d[i])
    && (top < c ==> forall i :: 2 <= i <= n && Parent(i) == c ==> d[Parent(c)] <= d[i])
  }

  /** One sift-down step moves the exception from `c` to its minimum child. */
  lemma SiftStepKeeps(d: seq<int>, n: nat, top: nat, c: nat)
    requires |d| == n + 1 && 1 <= top <= c && LeftChild(c) <= n
    requires SiftInv(d, n, top, c)
    ensures SiftInv(SiftStep(d, c, MinChild(d, n, c)), n, top, MinChild(d, n, c))
  {
    var m := MinChild(d, n, c);
    var e := SiftStep(d, c, m);
    assert e[c] == d[m] || e[c] == d[c];
    forall i | 2 <= i <= n && top <= Parent(i) && Parent(i) != m
      ensures e[Parent(i)] <= e[i]
    {
      if i == m {
      } else if Parent(i) == c {
        assert i == LeftChild(c) || i == RightChild(c);
      } else if i == c {
        assert d[Parent(c)] <= d[m];
      } else {
        assert i != m && i != c && Parent(i) != c;
        assert e[i] == d[i];
        if Parent(i) == m {
        } else {
          assert e[Parent(i)] == d[Parent(i)];
        }
      }
    }
    forall i | 2 <= i <= n && Parent(i) == m
      ensures e[Parent(m)] <= e[i]
    {
      assert d[m] <= d[i];
    }
  }

  /** Sift-down from `c` restores heap order among the parents at `top` or
      beyond. */
  lemma {:induction false} MoveDownRestores(d: seq<int>, n: nat, top: nat, c: nat)
    requires |d| == n + 1 && 1 <= top <= c
    requires SiftInv(d, n, top, c)
    ensures OrderedFrom(MoveDown(d, n, c), n, top)
    decreases n - c
  {
    if LeftChild(c) <= n {
      var m := MinChild(d, n, c);
      SiftStepKeeps(d, n, top, c);
      MoveDownRestores(SiftStep(d, c, m), n, top, m);
    }
  }

  /** If every parent after `c` is ordered with its children, `MoveDown(c)`
      orders every parent from `c` on. */
  lemma MoveDownHeapifies(d: seq<int>, n: nat, c: nat)
    requires |d| == n + 1 && 1 <= c
    ensures OrderedFrom(d, n, c + 1) ==> OrderedFrom(MoveDown(d, n, c), n, c)
  {
    if OrderedFrom(d, n, c + 1) {
      MoveDownRestores(d, n, c, c);
    }
  }

  /** The walk never stops early, but when every parent from `c` on is already
      ordered with its children, it swaps nothing. */
  lemma {:induction false} MoveDownOnHeapIsIdentity(d: seq<int>, n: nat, c: nat)
    requires |d| == n + 1 && 1 <= c
    requires OrderedFrom(d, n, c)
    ensures MoveDown(d, n, c) == d
    decreases n - c
  {
    if LeftChild(c) <= n {
      var m := MinChild(d, n, c);
      assert d[c] <= d[m];
      assert SiftStep(d, c, m) == d;
      MoveDownOnHeapIsIdentity(d, n, m);
    }
  }

  /** What `pop` returns: the new heap and the removed value. */
  datatype Popped = Popped(heap: Heap, value: Option<int>)

  /** `BinaryHeap::pop` with the intended `min_child`. */
  function Pop(h: Heap): (r: Popped)
    requires h.Valid()
    ensures r.heap.Valid() && r.heap.data[0] == h.data[0]
    ensures h.size == 0 ==> r.value == None && r.heap == h
    ensures h.size > 0 ==> r.value == Some(h.data[1]) && r.heap.size == h.size - 1
    ensures h.size > 0 ==> r.heap.Elements() + multiset{h.data[1]} == h.Elements()
    ensures HeapOrdered(h) ==> HeapOrdered(r.heap)
    ensures HeapOrdered(h) && r.value.Some? ==> forall x :: x in r.heap.Elements() ==> r.value.value <= x
  {
    if IsEmpty(h) then Popped(h, None)
    else if 1 == h.size then PopLast(h)
    else PopRoot(h)
  }

  /** The `1 == self.size` branch of `pop`: the only element is removed. */
  function PopLast(h: Heap): (r: Popped)
    requires h.Valid() && h.size == 1
    ensures r.heap.Valid() && r.heap.data[0] == h.data[0]
    ensures r.value == Some(h.data[1]) && r.heap.size == 0
    ensures r.heap.Elements() == multiset{} && h.Elements() == multiset{h.data[1]}
  {
    assert h.data[1..] == [h.data[1]];
    Popped(Heap(0, h.data[..1]), Some(h.data[1]))
  }

  /** The last branch of `pop`: the root is swapped with the last element, the
      last position is dropped, and the new root is moved down. */
  function PopRoot(h: Heap): (r: Popped)
    requires h.Valid() && h.size >= 2
    ensures r.heap.Valid() && r.heap.data[0] == h.data[0]
    ensures r.value == Some(h.data[1]) && r.heap.size == h.size - 1
    ensures r.heap.Elements() + multiset{h.data[1]} == h.Elements()
    ensures HeapOrdered(h) ==> HeapOrdered(r.heap)
    ensures HeapOrdered(h) ==> forall x :: x in r.heap.Elements() ==> h.data[1] <= x
  {
    var d := Swap(h.data, 1, h.size);
    var n := h.size - 1;
    var rest := d[..h.size];
    var moved := MoveDown(rest, n, 1);
    PopFacts(h, d, rest, moved);
    Popped(Heap(n, moved), Some(d[h.size]))
  }

  /** The proof obligations of `PopRoot`. */
  lemma PopFacts(h: Heap, d: seq<int>, rest: seq<int>, moved: seq<int>)
    requires h.Valid() && h.size >= 2
    requires d == Swap(h.data, 1, h.size) && rest == d[..h.size]
    requires moved == MoveDown(rest, h.size - 1, 1)
    ensures multiset(moved[1..]) + multiset{h.data[1]} == h.Elements()
    ensures HeapOrdered(h) ==> OrderedFrom(moved, h.size - 1, 1)
    ensures HeapOrdered(h) ==> forall x :: x in multiset(moved[1..]) ==> h.data[1] <= x
  {
    var n := h.size - 1;
    LiveElements(moved, rest);
    assert d[1..] == rest[1..] + [d[h.size]];
    LiveElements(d, h.data);
    if HeapOrdered(h) {
      assert OrderedFrom(rest, n, 2) by {
        forall i | 2 <= i <= n && 2 <= Parent(i)
          ensures rest[Parent(i)] <= rest[i]
        {
          assert h.data[Parent(i)] <= h.data[i];
        }
      }
      MoveDownHeapifies(rest, n, 1);
      RootBelowAll(h);
      forall x | x in multiset(moved[1..])
        ensures h.data[1] <= x
      {
        assert x in h.Elements();
      }
    }
  }

  /** Non-decreasing order. */
  predicate Sorted(s: seq<int>) {
    forall i, j :: 0 <= i < j < |s| ==> s[i] <= s[j]
  }

  /** The values `pop` returns when called until the heap is empty. */
  ghost function PopAll(h: Heap): (r: seq<int>)
    requires h.Valid()
    ensures multiset(r) == h.Elements()
    ensures HeapOrdered(h) ==> Sorted(r)
    decreases h.size
  {
    if h.size == 0 then []
    else
      var p := Pop(h);
      var rest := PopAll(p.heap);
      PrependMinimum(p.value.value, rest);
      [p.value.value] + rest
  }

  /** A value at most every element of a sorted sequence can go in front of it. */
  lemma PrependMinimum(v: int, rest: seq<int>)
    ensures Sorted(rest) && (forall x :: x in multiset(rest) ==> v <= x) ==> Sorted([v] + rest)
    ensures multiset([v] + rest) == multiset{v} + multiset(rest)
  {
    if Sorted(rest) && (forall x :: x in multiset(rest) ==> v <= x) {
      forall i, j | 0 <= i < j < |[v] + rest|
        ensures ([v] + rest)[i] <= ([v] + rest)[j]
      {
        assert rest[j - 1] in multiset(rest);
      }
    }
  }

  /** `BinaryHeap::build_new`: drop the old contents, load `arr` after the
      placeholder, then sift down every parent from `parent(size)` back to 1. */
  method BuildNew(h: Heap, arr: seq<int>) returns (r: Heap)
    requires h.Valid()
    ensures r.Valid() && r.size == |arr| && r.data[0] == h.data[0]
    ensures r.Elements() == multiset(arr)
    ensures HeapOrdered(r)
  {
    var data := h.data;
    for i := 0 to h.size
      invariant data == h.data[..|h.data| - i]
    {
      data := data[..|data| - 1];
    }
    var size := |arr|;
    for i := 0 to |arr|
      invariant data == [h.data[0]] + arr[..i]
    {
      data := data + [arr[i]];
    }
    assert data[1..] == arr;
    var p: nat := Parent(size);
    while p > 0
      invariant p <= Parent(size)
      invariant |data| == size + 1 && data[0] == h.data[0]
      invariant multiset(data[1..]) == multiset(arr)
      invariant OrderedFrom(data, size, p + 1)
      decreases p
    {
      MoveDownHeapifies(data, size, p);
      var moved := MoveDown(data, size, p);
      LiveElements(moved, data);
      data := moved;
      p := p - 1;
    }
    r := Heap(size, data);
  }
}
