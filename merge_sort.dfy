/** Top-down merge sort with an auxiliary array (merge-sort.js).

    `MergeSort` owns the auxiliary array `aux`; `Recursive` sorts a
    closed index range `[start..end]` of the caller's array in place and
    `Merge` combines two adjacent sorted runs through `aux`. */
module MergeSorting {
  import opened Wrappers
  import opened SortSpec

  /** The merge that `_merge` performs on two runs: the smaller head goes
      first and, on a tie, the head of the left run. */
  function MergeSeq(x: seq<int>, y: seq<int>): (m: seq<int>)
    ensures |m| == |x| + |y|
    decreases |x| + |y|
  {
    if x == [] then y
    else if y == [] then x
    else if y[0] < x[0] then [y[0]] + MergeSeq(x, y[1..])
    else [x[0]] + MergeSeq(x[1..], y)
  }

  /** Merging loses and invents nothing. */
  lemma {:induction false} MergeSeqPerm(x: seq<int>, y: seq<int>)
    ensures multiset(MergeSeq(x, y)) == multiset(x) + multiset(y)
    decreases |x| + |y|
  {
    if x == [] {
    } else if y == [] {
    } else if y[0] < x[0] {
      assert MergeSeq(x, y) == [y[0]] + MergeSeq(x, y[1..]);
      MergeSeqPerm(x, y[1..]);
      assert y == [y[0]] + y[1..];
      assert multiset(y) == multiset{y[0]} + multiset(y[1..]);
    } else {
      assert MergeSeq(x, y) == [x[0]] + MergeSeq(x[1..], y);
      MergeSeqPerm(x[1..], y);
      assert x == [x[0]] + x[1..];
      assert multiset(x) == multiset{x[0]} + multiset(x[1..]);
    }
  }

  /** One step of the merge: the head of the right run goes first when
      the left run is exhausted or the right head is strictly smaller. */
  lemma MergeSeqStep(x: seq<int>, y: seq<int>)
    requires x != [] || y != []
    ensures x == [] || (y != [] && y[0] < x[0]) ==> MergeSeq(x, y) == [y[0]] + MergeSeq(x, y[1..])
    ensures !(x == [] || (y != [] && y[0] < x[0])) ==> MergeSeq(x, y) == [x[0]] + MergeSeq(x[1..], y)
  {
    if x == [] {
      assert y == [y[0]] + y[1..];
    } else if y == [] {
      assert x == [x[0]] + x[1..];
    }
  }

  /** A lower bound of both runs bounds their merge. */
  lemma {:induction false} MergeSeqBound(x: seq<int>, y: seq<int>, b: int)
    requires forall i :: 0 <= i < |x| ==> b <= x[i]
    requires forall i :: 0 <= i < |y| ==> b <= y[i]
    ensures forall k :: 0 <= k < |MergeSeq(x, y)| ==> b <= MergeSeq(x, y)[k]
    decreases |x| + |y|
  {
    if x != [] && y != [] {
      if y[0] < x[0] {
        MergeSeqBound(x, y[1..], b);
      } else {
        MergeSeqBound(x[1..], y, b);
      }
    }
  }

  /** Merging two sorted runs gives a sorted run. */
  lemma {:induction false} MergeSeqSorted(x: seq<int>, y: seq<int>)
    requires Sorted(x) && Sorted(y)
    ensures Sorted(MergeSeq(x, y))
    decreases |x| + |y|
  {
    if x != [] && y != [] {
      var h, rest;
      if y[0] < x[0] {
        h, rest := y[0], MergeSeq(x, y[1..]);
        MergeSeqSorted(x, y[1..]);
        MergeSeqBound(x, y[1..], h);
      } else {
        h, rest := x[0], MergeSeq(x[1..], y);
        MergeSeqSorted(x[1..], y);
        MergeSeqBound(x[1..], y, h);
      }
      assert MergeSeq(x, y) == [h] + rest;
      forall i, j | 0 <= i < j < |[h] + rest| ensures ([h] + rest)[i] <= ([h] + rest)[j] {
        assert ([h] + rest)[j] == rest[j - 1];
        if i > 0 { assert ([h] + rest)[i] == rest[i - 1]; }
      }
    }
  }

  /** Whether `_merge`'s output loop, with cursors `l` in the left run
      `s[..mid)` and `r` in the right run `s[mid..hi)`, takes the head of
      the right run next: the left run is used up, or the right run is not
      and its head is strictly smaller. */
  predicate TakesRight(s: seq<int>, l: nat, mid: nat, r: nat, hi: nat)
    requires l <= mid <= r <= hi <= |s|
  {
    l == mid || (r < hi && s[r] < s[l])
  }

  /** The cursors `(l, r)` of `_merge`'s output loop after `n` steps on the
      runs `s[start..mid)` and `s[mid..hi)`: each step advances exactly one
      of them. */
  function Cursors(s: seq<int>, start: nat, mid: nat, hi: nat, n: nat): (c: (nat, nat))
    requires start <= mid <= hi <= |s| && n <= hi - start
    ensures start <= c.0 <= mid <= c.1 <= hi && (c.0 - start) + (c.1 - mid) == n
  {
    if n == 0 then (start, mid)
    else
      var c := Cursors(s, start, mid, hi, n - 1);
      if TakesRight(s, c.0, mid, c.1, hi) then (c.0, c.1 + 1) else (c.0 + 1, c.1)
  }

  /** The element `_merge`'s output loop writes at step `n`. */
  function Pick(s: seq<int>, start: nat, mid: nat, hi: nat, n: nat): int
    requires start <= mid <= hi <= |s| && n < hi - start
  {
    var c := Cursors(s, start, mid, hi, n);
    if TakesRight(s, c.0, mid, c.1, hi) then s[c.1] else s[c.0]
  }

  /** What is left of the two runs after step `n` of the output loop. */
  function Remaining(s: seq<int>, start: nat, mid: nat, hi: nat, n: nat): (rest: (seq<int>, seq<int>))
    requires start <= mid <= hi <= |s| && n <= hi - start
    ensures |rest.0| + |rest.1| == hi - start - n
  {
    var c := Cursors(s, start, mid, hi, n);
    (s[c.0..mid], s[c.1..hi])
  }

  /** One step of the output loop writes the head of the merge of what is
      left and leaves the merge of the rest. */
  lemma PickStep(s: seq<int>, start: nat, mid: nat, hi: nat, n: nat)
    requires start <= mid <= hi <= |s| && n < hi - start
    ensures var x := Remaining(s, start, mid, hi, n);
      var y := Remaining(s, start, mid, hi, n + 1);
      MergeSeq(x.0, x.1) == [Pick(s, start, mid, hi, n)] + MergeSeq(y.0, y.1)
  {
    var c := Cursors(s, start, mid, hi, n);
    MergeSeqSlices(s, c.0, mid, c.1, hi);
  }

  /** `MergeSeqStep` on two slices of one sequence, with the choice made as
      the output loop makes it. */
  lemma MergeSeqSlices(s: seq<int>, l: nat, mid: nat, r: nat, hi: nat)
    requires l <= mid <= r <= hi <= |s| && (l < mid || r < hi)
    ensures TakesRight(s, l, mid, r, hi) ==>
      MergeSeq(s[l..mid], s[r..hi]) == [s[r]] + MergeSeq(s[l..mid], s[r + 1..hi])
    ensures !TakesRight(s, l, mid, r, hi) ==>
      MergeSeq(s[l..mid], s[r..hi]) == [s[l]] + MergeSeq(s[l + 1..mid], s[r..hi])
  {
    var x, y := s[l..mid], s[r..hi];
    MergeSeqStep(x, y);
    if TakesRight(s, l, mid, r, hi) {
      assert y[0] == s[r] && y[1..] == s[r + 1..hi];
      if l < mid { assert x[0] == s[l]; }
    } else {
      assert x[0] == s[l] && x[1..] == s[l + 1..mid];
      if r < hi { assert y[0] == s[r]; }
    }
  }

  /** From step `n` on, the output loop writes the merge of what is left of
      the two runs. */
  lemma {:induction false} PicksMerge(s: seq<int>, start: nat, mid: nat, hi: nat, n: nat)
    requires start <= mid <= hi <= |s| && n <= hi - start
    ensures var x := Remaining(s, start, mid, hi, n);
      forall j :: n <= j < hi - start ==> MergeSeq(x.0, x.1)[j - n] == Pick(s, start, mid, hi, j)
    decreases hi - start - n
  {
    if n < hi - start {
      PicksMerge(s, start, mid, hi, n + 1);
      PickStep(s, start, mid, hi, n);
    }
  }

  /** What the output loop writes, step by step, is the merge of the runs. */
  lemma PicksAreMerge(s: seq<int>, start: nat, mid: nat, hi: nat, t: seq<int>)
    requires start <= mid <= hi <= |s| && |t| == hi - start
    requires forall k :: 0 <= k < |t| ==> t[k] == Pick(s, start, mid, hi, k)
    ensures t == MergeSeq(s[start..mid], s[mid..hi])
  {
    PicksMerge(s, start, mid, hi, 0);
    assert Remaining(s, start, mid, hi, 0) == (s[start..mid], s[mid..hi]);
  }

  class MergeSort {
    /** `_auxiliaryArray`: `null` until `Init` runs. */
    var aux: array?<int>

    constructor ()
      ensures aux == null
    {
      aux := null;
    }

    /** `sorted(arr, start, end)`: is `arr[start..end]` non-decreasing? */
    method Sorted(a: array<int>, start: int, end: int) returns (b: bool)
      requires 0 <= start && end < a.Length
      ensures b <==> (end <= start || SortSpec.Sorted(a[start..end + 1]))
    {
      var i := start + 1;
      while i <= end
        invariant start + 1 <= i && (i <= end + 1 || i == start + 1)
        invariant start < end ==> AdjacentSorted(a[start..i])
      {
        if a[i] < a[i - 1] {
          assert a[start..end + 1][i - 1 - start] == a[i - 1];
          assert a[start..end + 1][i - start] == a[i];
          return false;
        }
        assert a[start..i + 1] == a[start..i] + [a[i]];
        i := i + 1;
      }
      if start < end {
        assert a[start..i] == a[start..end + 1];
        AdjacentSortedIsSorted(a[start..end + 1]);
      }
      return true;
    }

    /** `_init`: an auxiliary array as long as `a`, holding a copy of it. */
    method Init(a: array<int>)
      modifies this
      ensures aux != null && fresh(aux) && aux.Length == a.Length && aux[..] == a[..]
    {
      var b := new int[a.Length](i reads a => if 0 <= i < a.Length then a[i] else 0);
      aux := b;
    }

    /** `_merge(arr, start, mid, end)`: fails, touching nothing, unless
        `arr[start..mid)` and `arr[mid..end]` are both sorted; otherwise
        replaces `arr[start..end]` by the merge of the two runs, copying
        them into `aux[start..end]` first. */
    method Merge(a: array<int>, start: int, mid: int, end: int) returns (o: Outcome)
      requires aux != null && aux != a && aux.Length == a.Length
      requires 0 <= start <= mid <= end + 1 <= a.Length
      modifies a, aux
      ensures o.Pass? <==> old(SortSpec.Sorted(a[start..mid]) && SortSpec.Sorted(a[mid..end + 1]))
      ensures o.Fail? ==> o.error == Failed && unchanged(a) && unchanged(aux)
      ensures o.Pass? ==> a[start..end + 1] == MergeSeq(old(a[start..mid]), old(a[mid..end + 1]))
      ensures forall k :: 0 <= k < a.Length && (k < start || end < k) ==> a[k] == old(a[k])
      ensures forall k :: 0 <= k < aux.Length && (k < start || end < k) ==> aux[k] == old(aux[k])
    {
      var leftSorted := Sorted(a, start, mid - 1);
      if !leftSorted {
        return Fail(Failed);
      }
      var rightSorted := Sorted(a, mid, end);
      if !rightSorted {
        return Fail(Failed);
      }
      assert a[start..mid] == a[start..mid - 1 + 1];
      MergeRuns(a, start, mid, end);
      return Pass;
    }

    /** The two loops of `_merge` once both runs are known to be sorted. */
    method MergeRuns(a: array<int>, start: int, mid: int, end: int)
      requires aux != null && aux != a && aux.Length == a.Length
      requires 0 <= start <= mid <= end + 1 <= a.Length
      modifies a, aux
      ensures a[start..end + 1] == MergeSeq(old(a[start..mid]), old(a[mid..end + 1]))
      ensures forall k :: 0 <= k < a.Length && (k < start || end < k) ==> a[k] == old(a[k])
      ensures forall k :: 0 <= k < aux.Length && (k < start || end < k) ==> aux[k] == old(aux[k])
    {
      ghost var left, right := a[start..mid], a[mid..end + 1];
      CopyToAux(a, start, end);
      assert aux[start..mid] == aux[start..end + 1][..mid - start] == left;
      assert aux[mid..end + 1] == aux[start..end + 1][mid - start..] == right;
      ghost var s := aux[..];
      assert s[start..mid] == left && s[mid..end + 1] == right;
      MergeFromAux(a, start, mid, end);
      ghost var t := a[start..end + 1];
      assert forall k :: 0 <= k < |t| ==> t[k] == Pick(s, start, mid, end + 1, k);
      PicksAreMerge(s, start, mid, end + 1, t);
      assert t == MergeSeq(left, right);
    }

    /** The first loop of `_merge`: copy `arr[start..end]` into
        `aux[start..end]`. */
    method CopyToAux(a: array<int>, start: int, end: int)
      requires aux != null && aux != a && aux.Length == a.Length
      requires 0 <= start <= end + 1 <= a.Length
      modifies aux
      ensures aux[start..end + 1] == a[start..end + 1]
      ensures forall k :: 0 <= k < aux.Length && (k < start || end < k) ==> aux[k] == old(aux[k])
    {
      var i := start;
      while i <= end
        invariant start <= i <= end + 1
        invariant forall k :: start <= k < i ==> aux[k] == a[k]
        invariant forall k :: 0 <= k < aux.Length && (k < start || i <= k) ==> aux[k] == old(aux[k])
      {
        aux[i] := a[i];
        i := i + 1;
      }
    }

    /** The second loop of `_merge`: write into `arr[start..end]`, step by
        step, the element chosen from the runs `aux[start..mid)` and
        `aux[mid..end]` by the cursors `l` and `r`. */
    method MergeFromAux(a: array<int>, start: int, mid: int, end: int)
      requires aux != null && aux != a && aux.Length == a.Length
      requires 0 <= start <= mid <= end + 1 <= a.Length
      modifies a
      ensures forall k :: start <= k <= end ==> a[k] == Pick(old(aux[..]), start, mid, end + 1, k - start)
      ensures forall k :: 0 <= k < a.Length && (k < start || end < k) ==> a[k] == old(a[k])
    {
      var b := aux;
      ghost var s := b[..];
      var l, r := start, mid;
      var i := start;
      while i <= end
        invariant start <= i <= end + 1
        invariant l == Cursors(s, start, mid, end + 1, i - start).0
        invariant r == Cursors(s, start, mid, end + 1, i - start).1
        invariant forall k :: 0 <= k < a.Length && (k < start || end < k) ==> a[k] == old(a[k])
        invariant forall k :: start <= k < i ==> a[k] == Pick(s, start, mid, end + 1, k - start)
      {
        var next;
        if l == mid || (r <= end && b[r] < b[l]) {
          next := b[r];
          r := r + 1;
        } else {
          next := b[l];
          l := l + 1;
        }
        a[i] := next;
        i := i + 1;
      }
    }

    /** `_recursive(arr, start, end)`: sort `arr[start..end]` in place,
        closing ranges of one and two elements directly and otherwise
        sorting both halves and merging them; the merge never fails. */
    method RecursiveRange(a: array<int>, start: int, end: int)
      requires aux != null && aux != a && aux.Length == a.Length
      requires 0 <= start <= end < a.Length
      modifies a, aux
      ensures SortSpec.Sorted(a[start..end + 1])
      ensures multiset(a[start..end + 1]) == multiset(old(a[start..end + 1]))
      ensures forall k :: 0 <= k < a.Length && (k < start || end < k) ==> a[k] == old(a[k])
      decreases end - start, 2
    {
      if end == start {
        return;
      }
      if end - start == 1 {
        SortPair(a, start, end);
        return;
      }
      var mid := start + (end - start) / 2;
      SortHalves(a, start, mid, end);
    }

    /** The two-element case of `_recursive`: swap `arr[start]` and
        `arr[end]` when they are out of order. */
    method SortPair(a: array<int>, start: int, end: int)
      requires 0 <= start && end == start + 1 && end < a.Length
      modifies a
      ensures SortSpec.Sorted(a[start..end + 1])
      ensures multiset(a[start..end + 1]) == multiset(old(a[start..end + 1]))
      ensures forall k :: 0 <= k < a.Length && (k < start || end < k) ==> a[k] == old(a[k])
    {
      ghost var pair := a[start..end + 1];
      assert pair == [a[start], a[end]];
      if a[end] < a[start] {
        a[end], a[start] := a[start], a[end];
        assert a[start..end + 1] == [pair[1], pair[0]];
      }
    }

    /** The general case of `_recursive`, from the recursive call on the
        left half `arr[start..mid]` on. */
    method SortHalves(a: array<int>, start: int, mid: int, end: int)
      requires aux != null && aux != a && aux.Length == a.Length
      requires 0 <= start <= mid < end < a.Length
      modifies a, aux
      ensures SortSpec.Sorted(a[start..end + 1])
      ensures multiset(a[start..end + 1]) == multiset(old(a[start..end + 1]))
      ensures forall k :: 0 <= k < a.Length && (k < start || end < k) ==> a[k] == old(a[k])
      decreases end - start, 1
    {
      ghost var right0 := a[mid + 1..end + 1];
      SplitMultiset(a[..], start, mid + 1, end + 1);
      RecursiveRange(a, start, mid);
      assert a[mid + 1..end + 1] == right0;
      SortRightAndMerge(a, start, mid, end);
    }

    /** The rest of `_recursive`'s general case, once the left half is
        sorted: the recursive call on the right half and the merge. */
    method SortRightAndMerge(a: array<int>, start: int, mid: int, end: int)
      requires aux != null && aux != a && aux.Length == a.Length
      requires 0 <= start <= mid < end < a.Length
      requires SortSpec.Sorted(a[start..mid + 1])
      modifies a, aux
      ensures SortSpec.Sorted(a[start..end + 1])
      ensures multiset(a[start..end + 1]) == multiset(old(a[start..mid + 1])) + multiset(old(a[mid + 1..end + 1]))
      ensures forall k :: 0 <= k < a.Length && (k < start || end < k) ==> a[k] == old(a[k])
      decreases end - start, 0
    {
      ghost var left := a[start..mid + 1];
      RecursiveRange(a, mid + 1, end);
      assert a[start..mid + 1] == left;
      ghost var right := a[mid + 1..end + 1];
      MergeSorted(a, start, mid + 1, end);
      MergeSeqSorted(left, right);
      MergeSeqPerm(left, right);
    }

    /** `_merge` on two runs already known to be sorted: it passes. */
    method MergeSorted(a: array<int>, start: int, mid: int, end: int)
      requires aux != null && aux != a && aux.Length == a.Length
      requires 0 <= start <= mid <= end + 1 <= a.Length
      requires SortSpec.Sorted(a[start..mid]) && SortSpec.Sorted(a[mid..end + 1])
      modifies a, aux
      ensures a[start..end + 1] == MergeSeq(old(a[start..mid]), old(a[mid..end + 1]))
      ensures forall k :: 0 <= k < a.Length && (k < start || end < k) ==> a[k] == old(a[k])
    {
      var o := Merge(a, start, mid, end);
      assert o.Pass?;
    }

    /** `recursive(arr)`: sort the whole array in place.  Arrays shorter
        than two are left alone and `aux` is not touched; otherwise `aux`
        is set up afresh and the final sortedness check always passes. */
    method Recursive(a: array<int>) returns (o: Outcome)
      modifies this, a
      ensures o == Pass
      ensures SortSpec.Sorted(a[..]) && multiset(a[..]) == multiset(old(a[..]))
      ensures a.Length < 2 ==> aux == old(aux) && a[..] == old(a[..])
    {
      var l := a.Length;
      if l < 2 {
        return Pass;
      }
      Init(a);
      RecursiveRange(a, 0, l - 1);
      assert a[0..l - 1 + 1] == a[..];
      assert old(a[..])[0..l - 1 + 1] == old(a[..]);
      var ok := Sorted(a, 0, l - 1);
      if !ok {
        assert false;
        return Fail(Failed);
      }
      return Pass;
    }
  }
}
