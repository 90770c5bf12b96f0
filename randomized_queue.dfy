/** The resizing-array randomized queue of randomized-queue.js.

    `data` is the source's JavaScript array, reassigned by `_expand` and
    `_shrink`; `None` is its `null`.  The live items are `data[..size]`.
    The random indices the source draws are parameters, so each
    operation is proved for every index the draw can produce. */
module RandomizedQueues {
  import opened Wrappers
  import opened SortSpec

  /** The items of a run of slots that all hold one. */
  function Values<T>(s: seq<Option<T>>): (v: seq<T>)
    requires forall i :: 0 <= i < |s| ==> s[i].Some?
    ensures |v| == |s| && forall i :: 0 <= i < |s| ==> s[i] == Some(v[i])
  {
    if s == [] then [] else [s[0].value] + Values(s[1..])
  }

  /** `s` with its entry at `i` replaced by the last entry, and the last
      slot dropped: what `dequeue` does to the live items. */
  function RemoveSwapLast<T>(s: seq<T>, i: int): (t: seq<T>)
    requires 0 <= i < |s|
    ensures |t| == |s| - 1
    ensures multiset(t) == multiset(s) - multiset{s[i]}
  {
    var last := |s| - 1;
    var u := s[i := s[last]];
    assert s == s[..last] + [s[last]];
    assert u == u[..last] + [u[last]];
    if i == last then
      u[..last]
    else
      assert s[..last] == s[..last][..i] + [s[i]] + s[..last][i + 1..];
      assert u[..last] == s[..last][..i] + [s[last]] + s[..last][i + 1..];
      u[..last]
  }

  /** The array of length `n` that `_expand` and `_shrink` build: the
      first `live` slots copied from `s`, the rest `null`. */
  function Resized<T>(s: seq<Option<T>>, live: int, n: int): (t: seq<Option<T>>)
    requires 0 <= live <= |s| && live <= n
    ensures |t| == n && t[..live] == s[..live]
    ensures forall i :: live <= i < n ==> t[i] == None
  {
    seq(n, i requires 0 <= i < n => if i < live then s[i] else None)
  }

  /** A JavaScript assignment `s[i] = x` with `i` at most the length: an
      assignment at the length appends. */
  function Store<T>(s: seq<Option<T>>, i: int, x: Option<T>): (t: seq<Option<T>>)
    requires 0 <= i <= |s|
    ensures |t| == if i < |s| then |s| else |s| + 1
    ensures t[i] == x && forall k :: 0 <= k < |s| && k != i ==> t[k] == s[k]
  {
    if i < |s| then s[i := x] else s + [x]
  }

  /** The entries of `s` at the positions listed in `idx`. */
  function Reads<T>(s: seq<T>, idx: seq<int>): (t: seq<T>)
    requires forall p :: 0 <= p < |idx| ==> 0 <= idx[p] < |s|
    ensures |t| == |idx| && forall p :: 0 <= p < |idx| ==> t[p] == s[idx[p]]
  {
    seq(|idx|, p requires 0 <= p < |idx| => s[idx[p]])
  }

  /** Exchanging two positions of the index list exchanges the two
      entries read there, so the entries read keep their contents. */
  lemma ReadsSwap<T>(s: seq<T>, idx: seq<int>, i: int, j: int)
    requires forall p :: 0 <= p < |idx| ==> 0 <= idx[p] < |s|
    requires 0 <= i < |idx| && 0 <= j < |idx|
    ensures forall p :: 0 <= p < |idx| ==> 0 <= Swap(idx, i, j)[p] < |s|
    ensures multiset(Reads(s, Swap(idx, i, j))) == multiset(Reads(s, idx))
  {
    var t := Reads(s, idx);
    assert Reads(s, Swap(idx, i, j)) == t[i := t[j]][j := t[i]];
    SwapPerm(t, i, j);
  }

  /** `data` after `dequeue` empties slot `index` of `n` live ones: the
      last item moves in and the last slot becomes `null`. */
  function Removed<T>(data: seq<Option<T>>, n: int, index: int): (t: seq<Option<T>>)
    requires 0 <= index < n <= |data|
    ensures |t| == |data|
  {
    data[index := data[n - 1]][n - 1 := None]
  }

  /** `Removed` takes the item at `index` out of the live items the way
      `RemoveSwapLast` does, and leaves every other slot as it was. */
  lemma RemovedItems<T>(data: seq<Option<T>>, n: int, index: int)
    requires 0 <= index < n <= |data|
    requires forall i :: 0 <= i < n ==> data[i].Some?
    ensures forall i :: 0 <= i < n - 1 ==> Removed(data, n, index)[i].Some?
    ensures Values(Removed(data, n, index)[..n - 1]) == RemoveSwapLast(Values(data[..n]), index)
  {
    var t := Removed(data, n, index);
    var items := Values(data[..n]);
    var expected := RemoveSwapLast(items, index);
    forall i | 0 <= i < n - 1
      ensures t[..n - 1][i] == Some(expected[i])
    {
      if i == index {
        assert expected[i] == items[n - 1];
      } else {
        assert expected[i] == items[i];
      }
    }
    ValuesUnique(t[..n - 1], expected);
  }

  /** `Values` is determined pointwise. */
  lemma ValuesUnique<T>(s: seq<Option<T>>, v: seq<T>)
    requires |s| == |v| && forall i :: 0 <= i < |s| ==> s[i] == Some(v[i])
    ensures forall i :: 0 <= i < |s| ==> s[i].Some?
    ensures Values(s) == v
  {
    var w := Values(s);
    assert forall i :: 0 <= i < |s| ==> w[i] == v[i];
  }

  class RandomizedQueue<T> {
    var data: seq<Option<T>>
    var size: int

    /** The live items fill `data[..size]` and every later slot is
        `null`. */
    ghost predicate Valid()
      reads this
    {
      0 <= size <= |data| &&
      (forall i :: 0 <= i < size ==> data[i].Some?) &&
      (forall i :: size <= i < |data| ==> data[i] == None)
    }

    /** The live items, in slot order. */
    function Items(): (s: seq<T>)
      reads this
      requires Valid()
      ensures |s| == size
    {
      Values(data[..size])
    }

    /** `constructor()`: one `null` slot and no items. */
    constructor()
      ensures Valid() && Items() == [] && data == [None]
    {
      data := [None];
      size := 0;
    }

    /** `isEmpty()`. */
    function IsEmpty(): (b: bool)
      reads this
      requires Valid()
      ensures b <==> Items() == []
    {
      size == 0
    }

    /** `size()`. */
    function Size(): (n: int)
      reads this
      requires Valid()
      ensures n == |Items()|
    {
      size
    }

    /** `enqueue(item)`: `null` or `undefined` is refused and nothing
        changes; otherwise a full array is doubled first and the item goes
        into the first free slot.  A zero-length array doubles to zero
        slots, and the assignment past its end makes it one slot long. */
    method Enqueue(item: Option<T>) returns (o: Outcome)
      requires Valid()
      modifies this
      ensures Valid()
      ensures item.None? ==> o == Fail(IllegalArgument) && data == old(data) && size == old(size)
      ensures item.Some? ==> o == Pass && Items() == old(Items()) + [item.value]
      ensures item.Some? ==>
        (|data| == if old(|data|) != old(size) then old(|data|)
                   else if old(|data|) == 0 then 1
                   else 2 * old(|data|))
    {
      if item.None? {
        return Fail(IllegalArgument);
      }
      if |data| == size {
        Expand();
      }
      data := Store(data, size, item);
      size := size + 1;
      assert data[..size] == old(data[..size]) + [item];
      return Pass;
    }

    /** `dequeue()` with the drawn index: fails on an empty queue;
        otherwise returns the item at `index`, moves the last item into
        its slot, clears the last slot, and halves the array once at most
        a quarter of it is in use. */
    method Dequeue(index: int) returns (r: Result<T>)
      requires Valid() && (size > 0 ==> 0 <= index < size)
      modifies this
      ensures Valid()
      ensures old(size) == 0 ==> r == Failure(NoSuchElement) && data == old(data) && size == old(size)
      ensures old(size) > 0 ==>
        r == Success(old(Items())[index]) &&
        Items() == RemoveSwapLast(old(Items()), index) &&
        |data| == (if size <= old(|data|) / 4 then old(|data|) / 2 else old(|data|))
    {
      if size == 0 {
        return Failure(NoSuchElement);
      }
      var item := data[index];
      RemovedItems(data, size, index);
      data := Removed(data, size, index);
      size := size - 1;
      if size <= |data| / 4 {
        Shrink();
      }
      return Success(item.value);
    }

    /** `sample()` with the drawn index: fails on an empty queue,
        otherwise returns the item at `index`; nothing changes. */
    method Sample(index: int) returns (r: Result<T>)
      requires Valid() && (size > 0 ==> 0 <= index < size)
      ensures size == 0 ==> r == Failure(NoSuchElement)
      ensures size > 0 ==> r == Success(Items()[index]) && r.value in Items()
    {
      if size == 0 {
        return Failure(NoSuchElement);
      }
      return Success(data[index].value);
    }

    /** `_expand()`: twice as many slots, the items kept in place. */
    method Expand()
      requires Valid()
      modifies this
      ensures Valid() && size == old(size) && Items() == old(Items())
      ensures |data| == 2 * old(|data|)
    {
      data := Resized(data, size, 2 * |data|);
    }

    /** `_shrink()`: half as many slots (rounded down), the items kept in
        place; only called once they fit. */
    method Shrink()
      requires Valid() && size <= |data| / 2
      modifies this
      ensures Valid() && size == old(size) && Items() == old(Items())
      ensures |data| == old(|data|) / 2
    {
      data := Resized(data, size, |data| / 2);
    }

    /** The index order the iterator draws: start from `[0..size)` and,
        for `i` from `size - 1` down to 1, exchange `indices[r[i]]` with
        `indices[i]`.  The source draws `r[i]` from `[0..i - 1)` (0 when
        `i` is 1); the result is a permutation of `[0..size)` for any
        choice in range, and reading the live items through it visits
        each of them once. */
    method ShuffledIndices(r: seq<int>) returns (indices: seq<int>)
      requires Valid()
      requires |r| == size && forall i :: 0 <= i < |r| ==> 0 <= r[i] < |r|
      ensures |indices| == size && forall p :: 0 <= p < size ==> 0 <= indices[p] < size
      ensures multiset(indices) == multiset(Range(size))
      ensures multiset(Reads(Items(), indices)) == multiset(Items())
    {
      var n := size;
      indices := Range(n);
      assert Reads(Items(), indices) == Items();
      var i := n - 1;
      while i > 0
        invariant i < n && |indices| == n
        invariant forall p :: 0 <= p < n ==> 0 <= indices[p] < n
        invariant multiset(indices) == multiset(Range(n))
        invariant multiset(Reads(Items(), indices)) == multiset(Items())
      {
        var j := r[i];
        ReadsSwap(Items(), indices, j, i);
        SwapPerm(indices, j, i);
        indices := Swap(indices, j, i);
        i := i - 1;
      }
    }

    /** Spreading the iterator (`[...queue]`): `next()` hands out
        `data[indices[pointer]]` for `pointer` from 0 while it is below
        `size`, so every live item comes out exactly once. */
    method Iterate(r: seq<int>) returns (out: seq<T>)
      requires Valid()
      requires |r| == size && forall i :: 0 <= i < |r| ==> 0 <= r[i] < |r|
      ensures |out| == size && multiset(out) == multiset(Items())
    {
      var indices := ShuffledIndices(r);
      out := [];
      var pointer := 0;
      while pointer < size
        invariant 0 <= pointer <= size && |out| == pointer
        invariant forall p :: 0 <= p < pointer ==> out[p] == Items()[indices[p]]
      {
        out := out + [data[indices[pointer]].value];
        pointer := pointer + 1;
      }
      assert out == Reads(Items(), indices);
    }
  }

  /** The first half of the resizing walk-through: three items fill four
      slots, six more fill sixteen. */
  method GrowScenario() returns (q: RandomizedQueue<int>, len3: int, len9: int)
    ensures fresh(q) && q.Valid() && q.size == 9 && |q.data| == 16
    ensures len3 == 4 && len9 == 16
  {
    q := new RandomizedQueue<int>();
    EnqueueThree(q, 1);
    len3 := |q.data|;
    EnqueueThree(q, 4);
    EnqueueThree(q, 7);
    len9 := |q.data|;
  }

  /** Three items `first`, `first + 1`, `first + 2` onto `q`; the array
      grows from 1 to 4, or from 4 to 8, or from 8 to 16 slots. */
  method EnqueueThree(q: RandomizedQueue<int>, first: int)
    requires q.Valid() && (q.size, |q.data|) in {(0, 1), (3, 4), (6, 8)}
    modifies q
    ensures q.Valid() && q.size == old(q.size) + 3
    ensures |q.data| == (if old(q.size) == 0 then 4 else if old(q.size) == 3 then 8 else 16)
  {
    var o := q.Enqueue(Some(first));
    o := q.Enqueue(Some(first + 1));
    o := q.Enqueue(Some(first + 2));
  }

  /** The second half: removing four of nine items keeps sixteen slots,
      removing a fifth halves them to eight, whichever items the draws
      pick. */
  method ShrinkScenario(q: RandomizedQueue<int>, picks: seq<int>) returns (len5: int, len4: int)
    requires q.Valid() && q.size == 9 && |q.data| == 16
    requires |picks| == 5 && forall j :: 0 <= j < 5 ==> 0 <= picks[j] < 9 - j
    modifies q
    ensures q.Valid() && q.size == 4
    ensures len5 == 16 && len4 == 8
  {
    var r := q.Dequeue(picks[0]);
    r := q.Dequeue(picks[1]);
    r := q.Dequeue(picks[2]);
    r := q.Dequeue(picks[3]);
    len5 := |q.data|;
    r := q.Dequeue(picks[4]);
    len4 := |q.data|;
  }

  /** The general walk-through: two items in, a sample and two removals
      that each yield one of them, then the two refusals. */
  method GeneralScenario(pick: int, first: int) returns (sampled: Result<int>, removed: seq<Result<int>>, refused: Outcome)
    requires 0 <= pick < 2 && 0 <= first < 2
    ensures sampled.Success? && sampled.value in {1, 2}
    ensures |removed| == 3 && removed[0].Success? && removed[1].Success?
    ensures multiset{removed[0].value, removed[1].value} == multiset{1, 2}
    ensures removed[2] == Failure(NoSuchElement)
    ensures refused == Fail(IllegalArgument)
  {
    var q := new RandomizedQueue<int>();
    var o := q.Enqueue(Some(1));
    o := q.Enqueue(Some(2));
    sampled := q.Sample(pick);
    var a, b := DrainTwo(q, first);
    var c;
    c, refused := Refusals(q);
    removed := [a, b, c];
  }

  /** Dequeue both items from a queue holding 1 and 2. */
  method DrainTwo(q: RandomizedQueue<int>, first: int) returns (a: Result<int>, b: Result<int>)
    requires q.Valid() && q.Items() == [1, 2] && 0 <= first < 2
    modifies q
    ensures q.Valid() && q.Items() == []
    ensures a.Success? && b.Success? && multiset{a.value, b.value} == multiset{1, 2}
  {
    a := q.Dequeue(first);
    assert q.Items() == [3 - a.value] by {
      assert q.Items() == RemoveSwapLast([1, 2], first);
      if first == 0 {
        assert RemoveSwapLast([1, 2], 0) == [2];
      } else {
        assert RemoveSwapLast([1, 2], 1) == [1];
      }
    }
    b := q.Dequeue(0);
  }

  /** On an empty queue, `dequeue` and `enqueue(null)` both fail. */
  method Refusals(q: RandomizedQueue<int>) returns (removed: Result<int>, refused: Outcome)
    requires q.Valid() && q.Items() == []
    modifies q
    ensures removed == Failure(NoSuchElement) && refused == Fail(IllegalArgument)
  {
    removed := q.Dequeue(0);
    refused := q.Enqueue(None);
  }
}
