/** Quickselect by three-way partitioning (quick-select.js).

    `randomize`, `_exchange` and the partition loop are the same code as
    in quick-sort.js and delegate to `QuickSorting`; `Select` narrows the
    range around the wanted index until a partition lands on it. */
module QuickSelecting {
  import opened SortSpec
  import QuickSorting

  /** `sortAndSelect`, the reference printed beside `select`: -1 for a
      rank outside `[1..|s|]`, otherwise the entry at rank `k` of the
      sorted copy. */
  function SortAndSelect(s: seq<int>, k: int): (v: int)
    ensures (k < 1 || k > |s|) ==> v == -1
    ensures 1 <= k <= |s| ==> IsKthSmallest(s, k - 1, v)
  {
    if k > |s| || k < 1 then -1
    else
      SortedCopySorted(s);
      SortedIsKthSmallest(SortedCopy(s), s, k - 1);
      SortedCopy(s)[k - 1]
  }

  /** Everything before `start` is at most everything from `start` on,
      and everything up to `end` is at most everything after `end`: the
      wanted entry cannot lie outside `[start..end]`. */
  ghost predicate Fenced(s: seq<int>, start: int, end: int) {
    (forall x, y :: 0 <= x < start <= y < |s| ==> s[x] <= s[y]) &&
    (forall y, z :: 0 <= y <= end < z < |s| ==> s[y] <= s[z])
  }

  /** Permuting the inside of a fenced range keeps the fence. */
  lemma FencePerm(s: seq<int>, t: seq<int>, start: nat, end: nat)
    requires start <= end < |s| == |t| && Fenced(s, start, end)
    requires multiset(t[start..end + 1]) == multiset(s[start..end + 1])
    requires forall i :: 0 <= i < |s| && !(start <= i <= end) ==> t[i] == s[i]
    ensures Fenced(t, start, end)
  {
    forall y | start <= y <= end
      ensures exists m :: start <= m <= end && t[y] == s[m]
    {
      assert t[y] == t[start..end + 1][y - start];
      assert t[y] in multiset(s[start..end + 1]);
      var m :| 0 <= m < end + 1 - start && s[start..end + 1][m] == t[y];
      assert s[start + m] == t[y];
    }
  }

  /** `randomize`: as in quick-sort.js. */
  method Randomize(a: array<int>, r: seq<int>)
    requires ValidChoices(r, a.Length)
    modifies a
    ensures a[..] == Shuffled(old(a[..]), r, a.Length)
    ensures multiset(a[..]) == multiset(old(a[..]))
  {
    QuickSorting.Randomize(a, r);
  }

  /** `_exchange`: swap two entries and nothing else. */
  method Exchange(a: array<int>, i: int, j: int)
    requires 0 <= i < a.Length && 0 <= j < a.Length
    modifies a
    ensures a[i] == old(a[j]) && a[j] == old(a[i])
    ensures forall k :: 0 <= k < a.Length && k != i && k != j ==> a[k] == old(a[k])
  {
    QuickSorting.Exchange(a, i, j);
  }

  /** `_partition(arr, start, end)`: three-way partition around the old
      `arr[start]`, returning where its copies begin; `gt` is where they
      end, which the source keeps to itself. */
  method Partition(a: array<int>, start: int, end: int) returns (lt: int, ghost gt: int)
    requires 0 <= start <= end < a.Length
    modifies a
    ensures start <= lt <= gt <= end
    ensures forall i :: start <= i < lt ==> a[i] < old(a[start])
    ensures forall i :: lt <= i <= gt ==> a[i] == old(a[start])
    ensures forall i :: gt < i <= end ==> a[i] > old(a[start])
    ensures multiset(a[start..end + 1]) == multiset(old(a[start..end + 1]))
    ensures forall i :: 0 <= i < a.Length && !(start <= i <= end) ==> a[i] == old(a[i])
  {
    lt, gt := QuickSorting.Partition(a, start, end);
  }

  /** `_partition` inside the fence of `Select`'s loop: the fence stays
      and the returned index splits the range around its entry. */
  method FencedPartition(a: array<int>, start: int, end: int) returns (i: int)
    requires 0 <= start <= end < a.Length && Fenced(a[..], start, end)
    modifies a
    ensures start <= i <= end && Fenced(a[..], start, end)
    ensures forall x :: start <= x < i ==> a[x] < a[i]
    ensures forall x :: i < x <= end ==> a[i] <= a[x]
    ensures multiset(a[..]) == multiset(old(a[..]))
  {
    ghost var s := a[..];
    ghost var gt;
    i, gt := Partition(a, start, end);
    assert a[start..end + 1] == a[..][start..end + 1];
    assert old(a[start..end + 1]) == s[start..end + 1];
    FencePerm(s, a[..], start, end);
    PermInside(s, a[..], start, end + 1);
  }

  /** One narrowing step of `select`'s loop: the side of `i` holding the
      wanted index becomes the new range, and the fence moves with it. */
  lemma Narrow(s: seq<int>, start: int, end: int, i: int, ki: int)
    requires 0 <= start <= i <= end < |s| && start <= ki <= end && i != ki
    requires Fenced(s, start, end)
    requires forall x :: start <= x < i ==> s[x] < s[i]
    requires forall x :: i < x <= end ==> s[i] <= s[x]
    ensures i < ki ==> Fenced(s, i + 1, end)
    ensures ki < i ==> Fenced(s, start, i - 1)
  {
  }

  /** `select(arr, k)`: the k-th smallest entry (1-based) for a rank in
      `[1..length]`, and -1 otherwise, leaving the array untouched.  The
      loop keeps `ki = k - 1` inside `[start..end]`, which shrinks on
      every step. */
  method Select(a: array<int>, k: int, r: seq<int>) returns (v: int)
    requires ValidChoices(r, a.Length)
    modifies a
    ensures v == SortAndSelect(old(a[..]), k)
    ensures multiset(a[..]) == multiset(old(a[..]))
    ensures (k < 1 || k > a.Length) ==> a[..] == old(a[..])
  {
    var l := a.Length;
    if k > l || k < 1 {
      return -1;
    }
    Randomize(a, r);
    var ki := k - 1;
    var start, end := 0, l - 1;
    var i := FencedPartition(a, start, end);
    while i != ki
      invariant 0 <= start <= i <= end < l && start <= ki <= end
      invariant Fenced(a[..], start, end)
      invariant forall x :: start <= x < i ==> a[x] < a[i]
      invariant forall x :: i < x <= end ==> a[i] <= a[x]
      invariant multiset(a[..]) == multiset(old(a[..]))
      decreases end - start
    {
      Narrow(a[..], start, end, i, ki);
      if i < ki {
        start := i + 1;
      } else {
        end := i - 1;
      }
      i := FencedPartition(a, start, end);
    }
    SplitIsKthSmallest(a[..], ki, old(a[..]));
    KthSmallestUnique(old(a[..]), ki, a[i], SortAndSelect(old(a[..]), k));
    return a[i];
  }
}
