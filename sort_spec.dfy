/** Specifications shared by the sorting and selection models: what
    "sorted" means, the pairwise scan the sources use to test it, a
    counting characterization of the k-th smallest element, the
    exchange of two entries, and the backwards shuffle driven by drawn
    indices. */
module SortSpec {

  /** Every element is at most every later one. */
  ghost predicate Sorted(s: seq<int>) {
    forall i, j :: 0 <= i < j < |s| ==> s[i] <= s[j]
  }

  /** No element is smaller than its predecessor: what the sources'
      `sorted` loops test. */
  ghost predicate AdjacentSorted(s: seq<int>) {
    forall i :: 0 < i < |s| ==> s[i - 1] <= s[i]
  }

  /** The neighbour-by-neighbour test decides sortedness. */
  lemma {:induction false} AdjacentSortedIsSorted(s: seq<int>)
    ensures AdjacentSorted(s) <==> Sorted(s)
  {
    if AdjacentSorted(s) && |s| > 1 {
      AdjacentSortedIsSorted(s[1..]);
      assert Sorted(s[1..]);
      forall i, j | 0 <= i < j < |s| ensures s[i] <= s[j] {
        if i > 0 {
          assert s[i] == s[1..][i - 1] && s[j] == s[1..][j - 1];
        } else {
          assert s[0] <= s[1];
          if j > 1 { assert s[1] == s[1..][0] && s[j] == s[1..][j - 1]; }
        }
      }
    }
  }

  /** The contents of a slice are those of its two parts. */
  lemma SplitMultiset(s: seq<int>, i: nat, j: nat, k: nat)
    requires i <= j <= k <= |s|
    ensures multiset(s[i..k]) == multiset(s[i..j]) + multiset(s[j..k])
  {
    assert s[i..k] == s[i..j] + s[j..k];
  }

  /** Permuting a slice and keeping the rest permutes the whole. */
  lemma PermInside(s: seq<int>, t: seq<int>, lo: nat, hi: nat)
    requires lo <= hi <= |s| == |t|
    requires multiset(t[lo..hi]) == multiset(s[lo..hi])
    requires forall i :: 0 <= i < |s| && !(lo <= i < hi) ==> t[i] == s[i]
    ensures multiset(t) == multiset(s)
  {
    assert s == s[..lo] + s[lo..hi] + s[hi..];
    assert t == t[..lo] + t[lo..hi] + t[hi..];
    assert t[..lo] == s[..lo] && t[hi..] == s[hi..];
  }

  /** The number of elements of `s` strictly below `x`.  Over the
      integers, `CountLess(s, x + 1)` counts the elements at most `x`. */
  function CountLess(s: seq<int>, x: int): (c: nat)
    ensures c <= |s|
  {
    if s == [] then 0 else (if s[0] < x then 1 else 0) + CountLess(s[1..], x)
  }

  /** `v` is the k-th smallest (0-based) element of `s`: fewer than k+1
      elements lie below it and more than k lie at or below it. */
  ghost predicate IsKthSmallest(s: seq<int>, k: nat, v: int) {
    CountLess(s, v) <= k < CountLess(s, v + 1)
  }

  lemma {:induction false} CountLessAppend(a: seq<int>, b: seq<int>, x: int)
    ensures CountLess(a + b, x) == CountLess(a, x) + CountLess(b, x)
  {
    if a != [] {
      assert (a + b)[1..] == a[1..] + b;
      CountLessAppend(a[1..], b, x);
    } else {
      assert a + b == b;
    }
  }

  /** Counting does not depend on the order of the elements. */
  lemma {:induction false} CountLessPerm(a: seq<int>, b: seq<int>, x: int)
    requires multiset(a) == multiset(b)
    ensures CountLess(a, x) == CountLess(b, x)
  {
    if a == [] {
      assert |multiset(b)| == 0;
    } else {
      assert a[0] in multiset(b);
      var j :| 0 <= j < |b| && b[j] == a[0];
      var rest := b[..j] + b[j + 1..];
      RemoveAt(b, j, x);
      assert a == [a[0]] + a[1..];
      assert multiset(a[1..]) == multiset(a) - multiset{a[0]};
      CountLessPerm(a[1..], rest, x);
    }
  }

  /** Taking out the element at `j` removes it from the contents and
      lowers the count by its own contribution. */
  lemma RemoveAt(b: seq<int>, j: nat, x: int)
    requires j < |b|
    ensures multiset(b[..j] + b[j + 1..]) == multiset(b) - multiset{b[j]}
    ensures CountLess(b, x) == (if b[j] < x then 1 else 0) + CountLess(b[..j] + b[j + 1..], x)
  {
    var front, back := b[..j] + [b[j]], b[j + 1..];
    assert b == front + back;
    assert multiset(b) == multiset(b[..j]) + multiset{b[j]} + multiset(back);
    CountLessAppend(front, back, x);
    CountLessAppend(b[..j], [b[j]], x);
    CountLessAppend(b[..j], back, x);
    assert [b[j]][1..] == [];
  }

  /** Raising the threshold never lowers the count. */
  lemma {:induction false} CountLessMonotone(s: seq<int>, x: int, y: int)
    requires x <= y
    ensures CountLess(s, x) <= CountLess(s, y)
  {
    if s != [] { CountLessMonotone(s[1..], x, y); }
  }

  lemma {:induction false} CountLessAll(s: seq<int>, x: int)
    requires forall i :: 0 <= i < |s| ==> s[i] < x
    ensures CountLess(s, x) == |s|
  {
    if s != [] { CountLessAll(s[1..], x); }
  }

  lemma {:induction false} CountLessNone(s: seq<int>, x: int)
    requires forall i :: 0 <= i < |s| ==> x <= s[i]
    ensures CountLess(s, x) == 0
  {
    if s != [] { CountLessNone(s[1..], x); }
  }

  /** At most one value is the k-th smallest. */
  lemma KthSmallestUnique(s: seq<int>, k: nat, v: int, w: int)
    requires IsKthSmallest(s, k, v) && IsKthSmallest(s, k, w)
    ensures v == w
  {
    if v < w { CountLessMonotone(s, v + 1, w); }
    if w < v { CountLessMonotone(s, w + 1, v); }
  }

  /** An array split around position k (nothing before k is above s[k],
      nothing after it is below) holds its k-th smallest element at k,
      and so does every permutation of it. */
  lemma SplitIsKthSmallest(s: seq<int>, k: nat, orig: seq<int>)
    requires k < |s| && multiset(s) == multiset(orig)
    requires forall i :: 0 <= i < k ==> s[i] <= s[k]
    requires forall i :: k < i < |s| ==> s[k] <= s[i]
    ensures IsKthSmallest(orig, k, s[k])
  {
    var v := s[k];
    assert s == s[..k] + s[k..];
    assert s == s[..k + 1] + s[k + 1..];
    CountLessAppend(s[..k], s[k..], v);
    CountLessNone(s[k..], v);
    CountLessAppend(s[..k + 1], s[k + 1..], v + 1);
    CountLessAll(s[..k + 1], v + 1);
    CountLessPerm(s, orig, v);
    CountLessPerm(s, orig, v + 1);
  }

  /** A sorted permutation holds the k-th smallest element at index k:
      the reference "sort, then index" selection agrees with
      `IsKthSmallest`. */
  lemma SortedIsKthSmallest(t: seq<int>, orig: seq<int>, k: nat)
    requires Sorted(t) && multiset(t) == multiset(orig) && k < |t|
    ensures IsKthSmallest(orig, k, t[k])
  {
    SplitIsKthSmallest(t, k, orig);
  }

  /** `x` inserted into `s` before the first element not below it. */
  function Insert(x: int, s: seq<int>): (t: seq<int>)
    ensures multiset(t) == multiset(s) + multiset{x}
  {
    if s == [] then [x]
    else if x <= s[0] then [x] + s
    else
      assert s == [s[0]] + s[1..];
      [s[0]] + Insert(x, s[1..])
  }

  lemma {:induction false} InsertSorted(x: int, s: seq<int>)
    requires Sorted(s)
    ensures Sorted(Insert(x, s))
  {
    if s != [] && s[0] < x {
      var rest := s[1..];
      InsertSorted(x, rest);
      var t := Insert(x, rest);
      forall i | 0 <= i < |t| ensures s[0] <= t[i] {
        assert t[i] in multiset(rest) + multiset{x};
      }
    }
  }

  /** A sorted copy of `s`, by insertion: the reference order that the
      built-in `Array.prototype.sort` with a numeric comparator yields. */
  function SortedCopy(s: seq<int>): (t: seq<int>)
    ensures multiset(t) == multiset(s) && |t| == |s|
  {
    if s == [] then []
    else
      assert s == [s[0]] + s[1..];
      Insert(s[0], SortedCopy(s[1..]))
  }

  lemma {:induction false} SortedCopySorted(s: seq<int>)
    ensures Sorted(SortedCopy(s))
  {
    if s != [] {
      SortedCopySorted(s[1..]);
      InsertSorted(s[0], SortedCopy(s[1..]));
    }
  }

  /** `s` with the entries at `i` and `j` exchanged. */
  function Swap<T>(s: seq<T>, i: nat, j: nat): (t: seq<T>)
    requires i < |s| && j < |s|
    ensures |t| == |s|
  {
    s[i := s[j]][j := s[i]]
  }

  /** Exchanging two entries keeps the contents. */
  lemma SwapPerm<T>(s: seq<T>, i: nat, j: nat)
    requires i < |s| && j < |s|
    ensures multiset(Swap(s, i, j)) == multiset(s)
  {
  }

  /** Exchanging two entries of a slice keeps the slice's contents, when
      `t` is `s` with the entries at `i` and `j` exchanged. */
  lemma SwappedSlicePerm(s: seq<int>, t: seq<int>, lo: nat, hi: nat, i: nat, j: nat)
    requires lo <= i < hi && lo <= j < hi && hi <= |s| == |t|
    requires t[i] == s[j] && t[j] == s[i]
    requires forall k :: 0 <= k < |s| && k != i && k != j ==> t[k] == s[k]
    ensures multiset(t[lo..hi]) == multiset(s[lo..hi])
  {
    assert t[lo..hi] == Swap(s[lo..hi], i - lo, j - lo);
    SwapPerm(s[lo..hi], i - lo, j - lo);
  }

  /** The indices `[0..n)` in order. */
  function Range(n: nat): (s: seq<int>)
    ensures |s| == n && forall i :: 0 <= i < n ==> s[i] == i
  {
    seq(n, i requires 0 <= i < n => i)
  }

  /** The backwards shuffle of quick-sort.js and quick-select.js
      (`randomize`) and of slider_puzzle.js (`generateRandomBoard`): for
      `i` from `n - 1` down to 1 (where `n` starts as the length),
      exchange `r[i]` with `i`. */
  function Shuffled(s: seq<int>, r: seq<int>, n: nat): (t: seq<int>)
    requires n <= |s| && ValidChoices(r, |s|)
    ensures |t| == |s|
    decreases n
  {
    if n <= 1 then s else Shuffled(Swap(s, r[n - 1], n - 1), r, n - 1)
  }

  /** Each draw lies in `[0..i)`.  `Math.floor(Math.random() * i)` always
      does.  `parseInt(Math.random() * i, 10)` (slider_puzzle.js) does
      only while the product prints in plain decimal form: a product
      below 1e-6 prints as, say, "5e-7" and parses as 5.  Such a draw is
      outside this predicate when it is i or more. */
  ghost predicate ValidChoices(r: seq<int>, len: nat) {
    |r| == len && forall i :: 0 < i < |r| ==> 0 <= r[i] < i
  }

  /** Whatever indices are drawn, the shuffle is a permutation. */
  lemma {:induction false} ShuffledPerm(s: seq<int>, r: seq<int>, n: nat)
    requires n <= |s| && ValidChoices(r, |s|)
    ensures multiset(Shuffled(s, r, n)) == multiset(s)
    decreases n
  {
    if n > 1 {
      SwapPerm(s, r[n - 1], n - 1);
      ShuffledPerm(Swap(s, r[n - 1], n - 1), r, n - 1);
    }
  }
}
