/** The 1-indexed max binary heap of heap-sort.js.

    `heap` is the source's growing array: slot 0 holds a placeholder
    (the source's `null`, which no comparison ever reads) and slots
    `1..size` hold the keys, each parent at least as large as its
    children. */
module MaxHeaps {
  import opened Wrappers
  import opened SortSpec

  /** The value kept in the unused slot 0 (the source's `null`). */
  const Sentinel: int := 0

  /** The parent slot of `k`, `parseInt(k / 2)` in the source. */
  function Parent(k: int): (p: int)
    requires 1 <= k
    ensures 0 <= p < k && (p == 0 <==> k == 1)
  {
    k / 2
  }

  /** Every parent-child pair among slots `1..n` whose parent is at slot
      `lo` or later is in heap order. */
  ghost predicate OrderedFrom(h: seq<int>, n: int, lo: int)
    requires n < |h|
  {
    forall k {:trigger Parent(k)} :: 2 <= k <= n && lo <= Parent(k) ==> h[Parent(k)] >= h[k]
  }

  /** Heap order on slots `1..n`: no key exceeds its parent's. */
  ghost predicate IsHeap(h: seq<int>, n: int)
    requires n < |h|
  {
    OrderedFrom(h, n, 1)
  }

  /** In heap order the root is the maximum. */
  lemma {:induction false} RootIsMax(h: seq<int>, n: int, k: int)
    requires 1 <= k <= n < |h| && IsHeap(h, n)
    ensures h[1] >= h[k]
    decreases k
  {
    if k > 1 {
      RootIsMax(h, n, Parent(k));
    }
  }

  /** The keys stored in slots `1..n`. */
  function Keys(h: seq<int>, n: int): (s: seq<int>)
    requires 0 <= n < |h|
    ensures |s| == n && forall k :: 1 <= k <= n ==> s[k - 1] == h[k]
  {
    h[1..n + 1]
  }

  /** `t` holds the keys of `h` in slots `1..n`, in some order, and
      agrees with `h` everywhere else. */
  ghost predicate Rearranged(h: seq<int>, t: seq<int>, n: int) {
    0 <= n < |h| == |t| && h[0] == t[0] &&
    (forall k :: n < k < |h| ==> t[k] == h[k]) &&
    multiset(Keys(t, n)) == multiset(Keys(h, n))
  }

  /** Exchanging two slots of `1..n` keeps a rearrangement one. */
  lemma RearrangedSwap(h: seq<int>, t: seq<int>, n: int, i: int, j: int)
    requires Rearranged(h, t, n) && 1 <= i <= n && 1 <= j <= n
    ensures Rearranged(h, Swap(t, i, j), n)
  {
    SwappedSlicePerm(t, Swap(t, i, j), 1, n + 1, i, j);
  }

  /** Every key is at most the root's. */
  lemma RootIsMaximum(h: seq<int>, n: int)
    requires 1 <= n < |h| && IsHeap(h, n)
    ensures forall x :: x in Keys(h, n) ==> x <= h[1]
  {
    forall x | x in Keys(h, n)
      ensures x <= h[1]
    {
      var k :| 0 <= k < n && Keys(h, n)[k] == x;
      RootIsMax(h, n, k + 1);
    }
  }

  /** Exchanging the root with the last key leaves the subtrees below
      the root in order within the shorter heap. */
  lemma LastToRoot(h: seq<int>, n: int)
    requires 1 <= n < |h| && IsHeap(h, n)
    ensures OrderedFrom(Swap(h, n, 1), n - 1, 2)
  {
  }

  /** After the exchange, the slot just past the shorter heap holds the
      old root and the shorter heap holds the other keys. */
  lemma LastToRootKeys(h: seq<int>, n: int)
    requires 1 <= n < |h|
    ensures Swap(h, n, 1)[n] == h[1]
    ensures multiset(Keys(Swap(h, n, 1), n - 1)) == multiset(Keys(h, n)) - multiset{h[1]}
  {
    var t := Swap(h, n, 1);
    SwappedSlicePerm(h, t, 1, n + 1, n, 1);
    assert Keys(t, n) == Keys(t, n - 1) + [t[n]];
    assert multiset(Keys(t, n)) == multiset(Keys(t, n - 1)) + multiset{h[1]};
  }

  /** Dropping the slots after a rearranged heap of `n` keys keeps its
      keys, and slot `n + 1` still holds what it held before. */
  lemma PopLast(h: seq<int>, t: seq<int>, n: int)
    requires Rearranged(h, t, n) && n + 1 < |h|
    ensures t[n + 1] == h[n + 1] && |t[..n + 1]| == n + 1 && t[..n + 1][0] == h[0]
    ensures Keys(t[..n + 1], n) == Keys(t, n)
    ensures multiset(Keys(t[..n + 1], n)) == multiset(Keys(h, n))
  {
  }

  /** The state `swim` keeps while its key at `i` rises: heap order holds
      except between `i` and its parent, and that parent dominates the
      children of `i`. */
  ghost predicate Swimming(h: seq<int>, n: int, i: int) {
    1 <= i <= n < |h| &&
    (forall k {:trigger Parent(k)} :: 2 <= k <= n && k != i ==> h[Parent(k)] >= h[k]) &&
    (forall c {:trigger Parent(c)} :: 2 <= c <= n && Parent(c) == i && i > 1 ==> h[Parent(i)] >= h[c])
  }

  /** One exchange of `swim`'s loop moves the exception up to the parent. */
  lemma SwimStep(h: seq<int>, n: int, i: int)
    requires Swimming(h, n, i) && i > 1 && h[Parent(i)] < h[i]
    ensures Swimming(Swap(h, i, Parent(i)), n, Parent(i))
  {
    var t := Swap(h, i, Parent(i));
    var p := Parent(i);
    forall k | 2 <= k <= n && k != p
      ensures t[Parent(k)] >= t[k]
    {
      if Parent(k) == p && k != i {
        assert h[p] >= h[k];
      } else if Parent(k) == i {
        assert h[p] >= h[k];
      }
    }
    if p > 1 {
      forall c | 2 <= c <= n && Parent(c) == p
        ensures t[Parent(p)] >= t[c]
      {
        assert h[Parent(p)] >= h[p];
        if c != i {
          assert h[p] >= h[c];
        }
      }
    }
  }

  /** `swim` stops at the root or below a parent at least as large: the
      heap is in order. */
  lemma SwimDone(h: seq<int>, n: int, i: int)
    requires Swimming(h, n, i) && (i == 1 || h[Parent(i)] >= h[i])
    ensures IsHeap(h, n)
  {
  }

  /** The state `sink` keeps while its key at `i` descends from `lo`:
      `i` lies in the subtree of `lo`, every pair whose parent is `lo` or
      later is ordered except those under `i`, and below `lo` the parent
      of `i` dominates the children of `i`. */
  ghost predicate Sinking(h: seq<int>, n: int, lo: int, i: int) {
    1 <= lo <= i && (i == lo || lo <= Parent(i)) && 0 <= n < |h| &&
    (forall k {:trigger Parent(k)} :: 2 <= k <= n && lo <= Parent(k) && Parent(k) != i ==> h[Parent(k)] >= h[k]) &&
    (forall c {:trigger Parent(c)} :: 2 <= c <= n && Parent(c) == i && i > lo ==> h[Parent(i)] >= h[c])
  }

  /** `child` is the larger child of `i`, as `sink` picks it. */
  ghost predicate LargerChild(h: seq<int>, n: int, i: int, child: int)
    requires 0 <= n < |h|
  {
    2 <= i * 2 <= n && (child == i * 2 || child == i * 2 + 1) && child <= n &&
    (i * 2 + 1 <= n ==> h[child] >= h[i * 2] && h[child] >= h[i * 2 + 1])
  }

  /** One exchange of `sink`'s loop moves the exception down to the
      child. */
  lemma SinkStep(h: seq<int>, n: int, lo: int, i: int, child: int)
    requires Sinking(h, n, lo, i) && LargerChild(h, n, i, child) && h[i] < h[child]
    ensures Sinking(Swap(h, i, child), n, lo, child)
  {
    var t := Swap(h, i, child);
    assert Parent(child) == i;
    forall k | 2 <= k <= n && lo <= Parent(k) && Parent(k) != child
      ensures t[Parent(k)] >= t[k]
    {
      if k == i {
        assert h[Parent(i)] >= h[child];
      } else if Parent(k) == i && k != child {
        assert k == i * 2 || k == i * 2 + 1;
        assert h[child] >= h[k];
      }
    }
    forall c | 2 <= c <= n && Parent(c) == child
      ensures t[Parent(child)] >= t[c]
    {
      assert h[child] >= h[c];
    }
  }

  /** `sink` stops at a leaf or above children no larger: every pair
      whose parent is `lo` or later is ordered. */
  lemma SinkDone(h: seq<int>, n: int, lo: int, i: int)
    requires Sinking(h, n, lo, i)
    requires i * 2 > n || (LargerChild(h, n, i, 2 * i) && h[i] >= h[2 * i]) ||
             (LargerChild(h, n, i, 2 * i + 1) && h[i] >= h[2 * i + 1])
    ensures OrderedFrom(h, n, lo)
  {
    forall k | 2 <= k <= n && lo <= Parent(k) && Parent(k) == i
      ensures h[Parent(k)] >= h[k]
    {
      assert k == i * 2 || k == i * 2 + 1;
    }
  }

  class MaxBinaryHeap {
    var heap: seq<int>
    var size: int

    /** `heap.length == size + 1`, the placeholder in slot 0, and heap
        order. */
    ghost predicate Valid()
      reads this
    {
      0 <= size && |heap| == size + 1 && heap[0] == Sentinel && IsHeap(heap, size)
    }

    /** The keys, in slot order. */
    function Contents(): (s: seq<int>)
      reads this
      requires 0 <= size < |heap|
      ensures |s| == size
    {
      Keys(heap, size)
    }

    /** `constructor(initialData)`: an empty heap, or `fromArray` on the
        given keys.  Any array is truthy in JavaScript, so the empty one
        also goes through `fromArray`. */
    constructor(initialData: Option<seq<int>>)
      ensures Valid()
      ensures initialData.None? ==> heap == [Sentinel] && size == 0
      ensures initialData.Some? ==> multiset(Contents()) == multiset(initialData.value)
    {
      heap, size := [Sentinel], 0;
      new;
      if initialData.Some? {
        FromArray(initialData.value);
      }
    }

    /** `swim(index)`: move the key at `index` up while it exceeds its
        parent.  Heap order may fail only between `index` and its parent,
        and the parent of `index` already dominates its children. */
    method Swim(index: int)
      requires Swimming(heap, size, index)
      modifies this
      ensures size == old(size) && Rearranged(old(heap), heap, size)
      ensures IsHeap(heap, size)
    {
      var i := index;
      var parent := Parent(i);
      while i > 1 && heap[parent] < heap[i]
        invariant size == old(size) && Swimming(heap, size, i) && parent == Parent(i)
        invariant Rearranged(old(heap), heap, size)
        decreases i
      {
        SwimStep(heap, size, i);
        RearrangedSwap(old(heap), heap, size, i, parent);
        heap := Swap(heap, i, parent);
        i := parent;
        parent := Parent(i);
      }
      SwimDone(heap, size, i);
    }

    /** `sink(index)`: move the key at `index` down, swapping it with its
        larger child while that child is larger.  Every pair whose parent
        lies after `index` is ordered before; afterwards so is every pair
        whose parent is `index` or later.  Slots after `size` are left
        alone, which `DelMax` relies on. */
    method Sink(index: int)
      requires 1 <= index && 0 <= size < |heap|
      requires OrderedFrom(heap, size, index + 1)
      modifies this
      ensures size == old(size) && Rearranged(old(heap), heap, size)
      ensures OrderedFrom(heap, size, index)
    {
      var i := index;
      while i * 2 <= size
        invariant size == old(size) && Sinking(heap, size, index, i)
        invariant Rearranged(old(heap), heap, size)
        decreases size - i
      {
        var child := i * 2;
        if child + 1 <= size && heap[child + 1] > heap[child] {
          child := child + 1;
        }
        if heap[i] >= heap[child] {
          break;
        }
        SinkStep(heap, size, index, i, child);
        RearrangedSwap(old(heap), heap, size, i, child);
        heap := Swap(heap, i, child);
        i := child;
      }
      SinkDone(heap, size, index, i);
    }

    /** `insert(value)`: append the key and swim it up. */
    method Insert(value: int)
      requires Valid()
      modifies this
      ensures Valid() && size == old(size) + 1
      ensures multiset(Contents()) == multiset(old(Contents())) + multiset{value}
    {
      heap := heap + [value];
      size := size + 1;
      assert Contents() == old(Contents()) + [value];
      Swim(size);
    }

    /** `delMax()`: fails on an empty heap; otherwise exchanges the root
        with the last key, sinks the new root within the shorter heap and
        pops the old root off the end. */
    method DelMax() returns (r: Result<int>)
      requires Valid()
      modifies this
      ensures Valid()
      ensures old(size) == 0 ==> r == Failure(Failed) && heap == old(heap) && size == old(size)
      ensures old(size) > 0 ==>
        r == Success(old(heap[1])) &&
        (forall x :: x in old(Contents()) ==> x <= r.value) &&
        size == old(size) - 1 &&
        multiset(Contents()) == multiset(old(Contents())) - multiset{r.value}
    {
      if size == 0 {
        return Failure(Failed);
      }
      RootIsMaximum(heap, size);
      LastToRoot(heap, size);
      LastToRootKeys(heap, size);
      heap := Swap(heap, size, 1);
      size := size - 1;
      ghost var swapped := heap;
      Sink(1);
      PopLast(swapped, heap, size);
      r := Success(heap[size + 1]);
      heap := heap[..size + 1];
    }

    /** `fromArray(data)`: copy the keys after the placeholder and sink
        every parent, from the last one back to the root. */
    method FromArray(data: seq<int>)
      modifies this
      ensures Valid()
      ensures multiset(Contents()) == multiset(data)
    {
      size := |data|;
      heap := [Sentinel] + data;
      assert Contents() == data;
      var i := size / 2;
      while i > 0
        invariant 0 <= i <= size / 2 && size == |data| && |heap| == size + 1 && heap[0] == Sentinel
        invariant OrderedFrom(heap, size, i + 1)
        invariant multiset(Contents()) == multiset(data)
      {
        Sink(i);
        i := i - 1;
      }
    }

    /** `toString()`: the keys after the placeholder, in slot order, so
        the largest comes first; the decimal rendering and the `", "`
        separators are not modelled. */
    function ToString(): (s: seq<int>)
      reads this
      requires Valid()
      ensures s == Contents()
      ensures s != [] ==> forall x :: x in s ==> x <= s[0]
    {
      if size > 0 then
        RootIsMaximum(heap, size);
        heap[1..]
      else
        heap[1..]
    }
  }
}
