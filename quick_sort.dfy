/** Dijkstra's three-way quicksort (quick-sort.js).

    The JavaScript class has no state of its own, so its operations are
    methods of the module working on the caller's array.  The random
    indices `randomize` draws are passed in as a sequence `r`, where
    `r[i]` is the index exchanged with `i`. */
module QuickSorting {
  import opened SortSpec

  /** `sorted` (quick-sort.js): the scan runs `i` from 0 up to and
      including the length and fails on `arr[i] < arr[i - 1]`; at both
      ends one side is `undefined` and the JavaScript comparison is
      false. */
  method IsSorted(a: array<int>) returns (b: bool)
    ensures b <==> Sorted(a[..])
  {
    AdjacentSortedIsSorted(a[..]);
    var i := 0;
    while i <= a.Length
      invariant 0 <= i <= a.Length + 1
      invariant forall j :: 0 < j < i && j < a.Length ==> a[j - 1] <= a[j]
    {
      if 0 < i < a.Length && a[i] < a[i - 1] {
        return false;
      }
      i := i + 1;
    }
    return true;
  }

  /** `_exchange`: swap `arr[i]` and `arr[j]`, and nothing else. */
  method Exchange(a: array<int>, i: int, j: int)
    requires 0 <= i < a.Length && 0 <= j < a.Length
    modifies a
    ensures a[i] == old(a[j]) && a[j] == old(a[i])
    ensures forall k :: 0 <= k < a.Length && k != i && k != j ==> a[k] == old(a[k])
  {
    a[i], a[j] := a[j], a[i];
  }

  /** `randomize`: the backwards shuffle, driven by the drawn indices. */
  method Randomize(a: array<int>, r: seq<int>)
    requires ValidChoices(r, a.Length)
    modifies a
    ensures a[..] == Shuffled(old(a[..]), r, a.Length)
    ensures multiset(a[..]) == multiset(old(a[..]))
  {
    ghost var s := a[..];
    var i := a.Length - 1;
    while i > 0
      invariant 0 <= i + 1 <= a.Length
      invariant Shuffled(a[..], r, i + 1) == Shuffled(s, r, a.Length)
    {
      ghost var before := a[..];
      Exchange(a, r[i], i);
      assert a[..] == Swap(before, r[i], i);
      i := i - 1;
    }
    ShuffledPerm(s, r, a.Length);
  }

  /** The three-way partition loop inside `_sort`, with pivot `k =
      arr[start]`: afterwards `[start..lt)` holds the smaller entries,
      `[lt..gt]` the pivot's copies (at least the pivot itself) and
      `(gt..end]` the larger ones. */
  method Partition(a: array<int>, start: int, end: int) returns (lt: int, gt: int)
    requires 0 <= start <= end < a.Length
    modifies a
    ensures start <= lt <= gt <= end
    ensures forall i :: start <= i < lt ==> a[i] < old(a[start])
    ensures forall i :: lt <= i <= gt ==> a[i] == old(a[start])
    ensures forall i :: gt < i <= end ==> a[i] > old(a[start])
    ensures multiset(a[start..end + 1]) == multiset(old(a[start..end + 1]))
    ensures forall i :: 0 <= i < a.Length && !(start <= i <= end) ==> a[i] == old(a[i])
  {
    var k := a[start];
    var p := start;
    lt, gt := start, end;
    while p <= gt
      invariant start <= lt <= p <= gt + 1 <= end + 1
      invariant lt < p || (p == start && a[start] == k)
      invariant forall i :: start <= i < lt ==> a[i] < k
      invariant forall i :: lt <= i < p ==> a[i] == k
      invariant forall i :: gt < i <= end ==> a[i] > k
      invariant multiset(a[start..end + 1]) == multiset(old(a[start..end + 1]))
      invariant forall i :: 0 <= i < a.Length && !(start <= i <= end) ==> a[i] == old(a[i])
      decreases gt - p
    {
      if a[p] < k {
        ExchangeInRange(a, start, end, p, lt);
        p, lt := p + 1, lt + 1;
      } else if a[p] > k {
        ExchangeInRange(a, start, end, p, gt);
        gt := gt - 1;
      } else {
        p := p + 1;
      }
    }
  }

  /** `Exchange` inside `[start..end]`, which keeps that range's
      contents. */
  method ExchangeInRange(a: array<int>, start: int, end: int, i: int, j: int)
    requires 0 <= start <= i <= end < a.Length && start <= j <= end
    modifies a
    ensures a[i] == old(a[j]) && a[j] == old(a[i])
    ensures forall k :: 0 <= k < a.Length && k != i && k != j ==> a[k] == old(a[k])
    ensures multiset(a[start..end + 1]) == multiset(old(a[start..end + 1]))
  {
    ghost var s := a[..];
    Exchange(a, i, j);
    SwappedSlicePerm(s, a[..], start, end + 1, i, j);
    assert a[start..end + 1] == a[..][start..end + 1];
    assert old(a[start..end + 1]) == s[start..end + 1];
  }

  /** `_sort(arr, start, end)`: sort the closed range `[start..end]` in
      place; a range of fewer than two entries is left alone.  Every call
      the source makes has `start <= end + 1`. */
  method Sort(a: array<int>, start: int, end: int)
    requires 0 <= start <= end + 1 <= a.Length
    modifies a
    ensures Sorted(a[start..end + 1])
    ensures multiset(a[start..end + 1]) == multiset(old(a[start..end + 1]))
    ensures forall i :: 0 <= i < a.Length && !(start <= i <= end) ==> a[i] == old(a[i])
    decreases end - start, 3
  {
    if start >= end {
      ShortSorted(a[start..end + 1]);
      return;
    }
    var lt, gt := Partition(a, start, end);
    ghost var k := a[lt];
    ghost var left, middle, right := a[start..lt], a[lt..gt + 1], a[gt + 1..end + 1];
    assert forall i :: 0 <= i < |left| ==> left[i] == a[start + i];
    assert forall i :: 0 <= i < |middle| ==> middle[i] == a[lt + i];
    assert forall i :: 0 <= i < |right| ==> right[i] == a[gt + 1 + i];
    assert a[start..end + 1] == left + middle + right;
    SortParts(a, start, lt, gt, end, k, left, middle, right);
  }

  /** The two recursive calls of `_sort` on a range partitioned into
      `left`, `middle` and `right` around the pivot `k`. */
  method SortParts(a: array<int>, start: int, lt: int, gt: int, end: int, ghost k: int,
                   ghost left: seq<int>, ghost middle: seq<int>, ghost right: seq<int>)
    requires 0 <= start <= lt <= gt <= end < a.Length
    requires a[start..lt] == left && a[lt..gt + 1] == middle && a[gt + 1..end + 1] == right
    requires forall i :: 0 <= i < |left| ==> left[i] < k
    requires forall i :: 0 <= i < |middle| ==> middle[i] == k
    requires forall i :: 0 <= i < |right| ==> right[i] > k
    modifies a
    ensures Sorted(a[start..end + 1])
    ensures multiset(a[start..end + 1]) == multiset(left) + multiset(middle) + multiset(right)
    ensures forall i :: 0 <= i < a.Length && !(start <= i <= end) ==> a[i] == old(a[i])
    decreases end - start, 2
  {
    Sort(a, start, lt - 1);
    assert a[lt..gt + 1] == middle && a[gt + 1..end + 1] == right;
    SortAfterLeft(a, start, lt, gt, end, k, left, middle, right);
  }

  /** `_sort` after its first recursive call has sorted `[start..lt)`. */
  method SortAfterLeft(a: array<int>, start: int, lt: int, gt: int, end: int, ghost k: int,
                       ghost left: seq<int>, ghost middle: seq<int>, ghost right: seq<int>)
    requires 0 <= start <= lt <= gt <= end < a.Length
    requires Sorted(a[start..lt]) && multiset(a[start..lt]) == multiset(left)
    requires a[lt..gt + 1] == middle && a[gt + 1..end + 1] == right
    requires forall i :: 0 <= i < |left| ==> left[i] < k
    requires forall i :: 0 <= i < |middle| ==> middle[i] == k
    requires forall i :: 0 <= i < |right| ==> right[i] > k
    modifies a
    ensures Sorted(a[start..end + 1])
    ensures multiset(a[start..end + 1]) == multiset(left) + multiset(middle) + multiset(right)
    ensures forall i :: 0 <= i < a.Length && !(start <= i <= end) ==> a[i] == old(a[i])
    decreases end - start, 1
  {
    ghost var left' := a[start..lt];
    LeftPartReady(left, left', middle, k);
    assert a[start..gt + 1] == left' + middle;
    SortRightPart(a, start, gt, end, k, left' + middle, right);
    assert a[start..end + 1] == (left' + middle) + a[gt + 1..end + 1];
  }

  lemma ShortSorted(s: seq<int>)
    requires |s| <= 1
    ensures Sorted(s)
  {
  }

  /** After the first recursive call: the sorted smaller entries followed
      by the pivot's copies are sorted and at most the pivot. */
  lemma LeftPartReady(left: seq<int>, left': seq<int>, middle: seq<int>, k: int)
    requires multiset(left) == multiset(left') && Sorted(left')
    requires forall i :: 0 <= i < |left| ==> left[i] < k
    requires forall i :: 0 <= i < |middle| ==> middle[i] == k
    ensures Sorted(left' + middle)
    ensures forall i :: 0 <= i < |left' + middle| ==> (left' + middle)[i] <= k
  {
    BelowPerm(left, left', k);
    SortedThree(left', middle, [], k);
    assert left' + middle + [] == left' + middle;
  }

  /** The second recursive call of `_sort`, once `[start..gt]` holds the
      sorted entries at most `k` and `(gt..end]` the entries above it. */
  method SortRightPart(a: array<int>, start: int, gt: int, end: int, ghost k: int,
                       ghost prefix: seq<int>, ghost right: seq<int>)
    requires 0 <= start <= gt <= end < a.Length
    requires a[start..gt + 1] == prefix && a[gt + 1..end + 1] == right
    requires Sorted(prefix) && forall i :: 0 <= i < |prefix| ==> prefix[i] <= k
    requires forall i :: 0 <= i < |right| ==> right[i] > k
    modifies a
    ensures Sorted(a[start..end + 1])
    ensures a[start..gt + 1] == prefix
    ensures multiset(a[gt + 1..end + 1]) == multiset(right)
    ensures forall i :: 0 <= i < a.Length && !(start <= i <= end) ==> a[i] == old(a[i])
    decreases end - start, 0
  {
    Sort(a, gt + 1, end);
    assert a[start..gt + 1] == prefix;
    ghost var right' := a[gt + 1..end + 1];
    AbovePerm(right, right', k);
    assert a[start..end + 1] == prefix + right';
    SortedTwo(prefix, right', k);
  }

  /** A permutation of entries below `k` has only entries below `k`. */
  lemma BelowPerm(s: seq<int>, t: seq<int>, k: int)
    requires multiset(s) == multiset(t)
    requires forall i :: 0 <= i < |s| ==> s[i] < k
    ensures forall i :: 0 <= i < |t| ==> t[i] < k
  {
    forall i | 0 <= i < |t| ensures t[i] < k {
      assert t[i] in multiset(s);
    }
  }

  /** A permutation of entries above `k` has only entries above `k`. */
  lemma AbovePerm(s: seq<int>, t: seq<int>, k: int)
    requires multiset(s) == multiset(t)
    requires forall i :: 0 <= i < |s| ==> s[i] > k
    ensures forall i :: 0 <= i < |t| ==> t[i] > k
  {
    forall i | 0 <= i < |t| ensures t[i] > k {
      assert t[i] in multiset(s);
    }
  }

  /** Sorted entries at most `k` followed by sorted entries above `k` make
      a sorted sequence. */
  lemma SortedTwo(x: seq<int>, z: seq<int>, k: int)
    requires Sorted(x) && Sorted(z)
    requires forall i :: 0 <= i < |x| ==> x[i] <= k
    requires forall i :: 0 <= i < |z| ==> z[i] > k
    ensures Sorted(x + z)
  {
  }

  /** Sorted smaller entries, then copies of `k`, then sorted larger
      entries, make a sorted sequence. */
  lemma SortedThree(x: seq<int>, y: seq<int>, z: seq<int>, k: int)
    requires Sorted(x) && Sorted(z)
    requires forall i :: 0 <= i < |x| ==> x[i] < k
    requires forall i :: 0 <= i < |y| ==> y[i] == k
    requires forall i :: 0 <= i < |z| ==> z[i] > k
    ensures Sorted(x + y + z)
  {
  }

  /** `sort`: shuffle with the drawn indices, then sort the whole array.
      The source's final `!this.sorted` test looks at the method itself,
      not at a result, so it never fires and is not modelled. */
  method QuickSort(a: array<int>, r: seq<int>)
    requires ValidChoices(r, a.Length)
    modifies a
    ensures Sorted(a[..]) && multiset(a[..]) == multiset(old(a[..]))
  {
    Randomize(a, r);
    ghost var shuffled := a[..];
    assert shuffled == a[0..a.Length - 1 + 1];
    Sort(a, 0, a.Length - 1);
    assert a[..] == a[0..a.Length - 1 + 1];
  }
}
