/** The `Board` of slider_puzzle.js: an n-by-n grid of tiles, 0 being the
    blank, with its blank cell found once at construction and its Hamming
    and Manhattan distances cached on first use.

    The grid is a value (`seq<seq<int>>`): the source copies it on
    construction and never writes it afterwards.  Counting is stated on
    the grid read row by row (`Flat`), where the goal has tile `i + 1` at
    index `i` and the blank last. */
module SliderBoards {
  import opened Wrappers
  import opened SortSpec

  type Grid = seq<seq<int>>

  /** `n` rows of `n` cells each. */
  ghost predicate IsSquare(g: Grid) {
    forall r :: 0 <= r < |g| ==> |g[r]| == |g|
  }

  /** The cells read row by row. */
  function Flat(g: Grid): (f: seq<int>)
  {
    if g == [] then [] else Flat(g[..|g| - 1]) + g[|g| - 1]
  }

  /** The cell at row-major index `i` of an n-wide grid. */
  function Cell(i: int, n: int): (p: (int, int))
    requires n > 0
  {
    (i / n, i % n)
  }

  /** `n * d` is at least `n` for a positive factor `d`. */
  lemma {:induction false} MulAtLeast(d: int, n: int)
    requires d >= 1 && n >= 0
    ensures n * d >= n
    decreases d
  {
    if d > 1 {
      MulAtLeast(d - 1, n);
      assert n * d == n * (d - 1) + n;
    }
  }

  /** Quotient and remainder are the unique pair with a remainder in
      `[0, n)`. */
  lemma DivUnique(i: int, q: int, m: int, n: int)
    requires n > 0 && 0 <= m < n && i == n * q + m
    ensures i / n == q && i % n == m
  {
    var d := q - i / n;
    assert i == n * (i / n) + i % n;
    assert n * d == i % n - m;
    if d >= 1 {
      MulAtLeast(d, n);
    } else if d <= -1 {
      MulAtLeast(-d, n);
    }
  }

  lemma CellOfIndex(r: int, c: int, n: int)
    requires n > 0 && 0 <= c < n
    ensures Cell(r * n + c, n) == (r, c)
  {
    DivUnique(r * n + c, r, c, n);
  }

  /** Rows `0..r` hold `r * n` cells. */
  lemma {:induction false} FlatLength(g: Grid, r: int)
    requires IsSquare(g) && 0 <= r <= |g|
    ensures |Flat(g[..r])| == r * |g|
  {
    if r > 0 {
      assert g[..r][..r - 1] == g[..r - 1];
      FlatLength(g, r - 1);
    }
  }

  /** Reading one more row appends it. */
  lemma FlatRow(g: Grid, r: int)
    requires 0 <= r < |g|
    ensures Flat(g[..r + 1]) == Flat(g[..r]) + g[r]
  {
    assert g[..r + 1][..r] == g[..r];
  }

  lemma MulStep(a: int, b: int, n: int)
    requires 0 <= a < b && n >= 0
    ensures a * n + n <= b * n
  {
    MulAtLeast(b - a, n);
    assert b * n == a * n + n * (b - a);
  }

  /** Cell `(r, c)` sits at index `r * n + c`. */
  lemma {:induction false} FlatIndex(g: Grid, r: int, c: int)
    requires IsSquare(g) && 0 <= r < |g| && 0 <= c < |g|
    ensures |Flat(g)| == |g| * |g|
    ensures 0 <= r * |g| + c < |Flat(g)| && Flat(g)[r * |g| + c] == g[r][c]
  {
    var n := |g|;
    assert g[..n] == g;
    FlatLength(g, n);
    FlatLength(g, r);
    FlatLength(g, r + 1);
    FlatRow(g, r);
    FlatPrefix(g, r + 1, n);
    MulStep(r, n, n);
  }

  /** The rows read so far are a prefix of the whole reading. */
  lemma {:induction false} FlatPrefix(g: Grid, r: int, s: int)
    requires 0 <= r <= s <= |g|
    ensures Flat(g[..r]) <= Flat(g[..s])
  {
    if r < s {
      FlatRow(g, s - 1);
      FlatPrefix(g, r, s - 1);
    }
  }

  /** An index below `n * n` is a cell of the n-by-n grid. */
  lemma CellBounds(i: int, n: int)
    requires n > 0 && 0 <= i < n * n
    ensures 0 <= Cell(i, n).0 < n && 0 <= Cell(i, n).1 < n
    ensures i == Cell(i, n).0 * n + Cell(i, n).1
  {
    var r := i / n;
    assert i == n * r + i % n;
    if r < 0 {
      MulAtLeast(-r, n);
    }
    if r >= n {
      MulAtLeast(r - n + 1, n);
    }
  }

  /** Every index of the reading is some cell. */
  lemma FlatCell(g: Grid, i: int)
    requires IsSquare(g) && |g| > 0 && 0 <= i < |g| * |g|
    ensures |Flat(g)| == |g| * |g|
    ensures 0 <= Cell(i, |g|).0 < |g| && 0 <= Cell(i, |g|).1 < |g|
    ensures Flat(g)[i] == g[Cell(i, |g|).0][Cell(i, |g|).1]
  {
    CellBounds(i, |g|);
    FlatIndex(g, Cell(i, |g|).0, Cell(i, |g|).1);
  }

  /** Two n-by-n grids with the same reading are the same grid. */
  lemma {:induction false} FlatInjective(g: Grid, h: Grid)
    requires IsSquare(g) && IsSquare(h) && |g| == |h| && Flat(g) == Flat(h)
    ensures g == h
  {
    var n := |g|;
    forall r, c | 0 <= r < n && 0 <= c < n
      ensures g[r][c] == h[r][c]
    {
      FlatIndex(g, r, c);
      FlatIndex(h, r, c);
    }
    forall r | 0 <= r < n
      ensures g[r] == h[r]
    {
    }
  }

  // ----- Counting tiles out of place -----

  /** The cells whose value is not `1 + index`: what the nested loop of
      `hamming()` counts before it takes one off. */
  function Mismatches(f: seq<int>): (m: nat)
    ensures m <= |f|
  {
    if f == [] then 0 else Mismatches(f[..|f| - 1]) + (if f[|f| - 1] != |f| then 1 else 0)
  }

  /** The number of blank cells. */
  function Blanks(f: seq<int>): (m: nat)
  {
    if f == [] then 0 else Blanks(f[..|f| - 1]) + (if f[|f| - 1] == 0 then 1 else 0)
  }

  /** JavaScript's `%`, which keeps the sign of the dividend. */
  function JsRem(a: int, n: int): (m: int)
    requires n > 0
    ensures a >= 0 ==> m == a % n
    ensures a < 0 ==> -n < m <= 0
  {
    if a >= 0 then a % n else -((-a) % n)
  }

  /** `position(v, size)`: the goal cell of tile `v`, by the floor of
      `(v - 1) / size` and JavaScript's remainder. */
  function Position(v: int, n: int): (p: (int, int))
    requires n > 0
    ensures v >= 1 ==> p == Cell(v - 1, n)
  {
    ((v - 1) / n, JsRem(v - 1, n))
  }

  /** A tile's goal cell is the cell at index `i` exactly when the tile
      is `i + 1`. */
  lemma GoalCell(v: int, i: int, n: int)
    requires n > 0 && i >= 0 && v != 0
    ensures Position(v, n) == Cell(i, n) <==> v == i + 1
  {
    if v >= 1 && Position(v, n) == Cell(i, n) {
      assert v - 1 == n * ((v - 1) / n) + (v - 1) % n;
      assert i == n * (i / n) + i % n;
    }
    if v < 1 {
      assert (v - 1) / n < 0;
    }
  }

  /** The tiles, blank excepted, that are not on their goal cell. */
  function Misplaced(f: seq<int>, n: int): (m: nat)
    requires n > 0
  {
    if f == [] then 0
    else
      var i := |f| - 1;
      Misplaced(f[..i], n) + (if f[i] != 0 && Position(f[i], n) != Cell(i, n) then 1 else 0)
  }

  /** The mismatching cells are the blank ones and the misplaced tiles. */
  lemma {:induction false} MismatchesSplit(f: seq<int>, n: int)
    requires n > 0
    ensures Mismatches(f) == Blanks(f) + Misplaced(f, n)
  {
    if f != [] {
      var i := |f| - 1;
      MismatchesSplit(f[..i], n);
      if f[i] != 0 {
        GoalCell(f[i], i, n);
      }
    }
  }

  /** How far tile `v` at index `i` is from its goal cell; 0 for the blank. */
  function Distance(v: int, i: int, n: int): (d: int)
    requires n > 0
  {
    if v == 0 then 0 else Abs(Position(v, n).0 - Cell(i, n).0) + Abs(Position(v, n).1 - Cell(i, n).1)
  }

  function Abs(x: int): (y: int)
    ensures y >= 0 && (y == x || y == -x)
  {
    if x < 0 then -x else x
  }

  /** The sum of the tiles' distances to their goal cells. */
  function ManhattanSum(f: seq<int>, n: int): (m: int)
    requires n > 0 || f == []
  {
    if f == [] then 0 else ManhattanSum(f[..|f| - 1], n) + Distance(f[|f| - 1], |f| - 1, n)
  }

  /** Each misplaced tile is at least one step from its goal cell, and a
      tile on its goal cell adds nothing. */
  lemma {:induction false} ManhattanBounds(f: seq<int>, n: int)
    requires n > 0
    ensures Misplaced(f, n) <= ManhattanSum(f, n)
    ensures ManhattanSum(f, n) == 0 <==> Misplaced(f, n) == 0
  {
    if f != [] {
      ManhattanBounds(f[..|f| - 1], n);
      ManhattanSumNonNegative(f[..|f| - 1], n);
    }
  }

  lemma {:induction false} ManhattanSumNonNegative(f: seq<int>, n: int)
    requires n > 0
    ensures ManhattanSum(f, n) >= 0
  {
    if f != [] {
      ManhattanSumNonNegative(f[..|f| - 1], n);
    }
  }

  // ----- The goal -----

  /** `hamming()`: the mismatching cells less one, the one being the
      blank, which never matches. */
  function HammingOf(g: Grid): (h: int)
    ensures -1 <= h < |Flat(g)|
  {
    Mismatches(Flat(g)) - 1
  }

  /** `manhattan()`: the tiles' summed distances to their goal cells. */
  function ManhattanOf(g: Grid): (m: int)
    ensures m >= 0
  {
    if g == [] then 0
    else
      ManhattanSumNonNegative(Flat(g), |g|);
      ManhattanSum(Flat(g), |g|)
  }

  /** The row-major goal: tiles `1 .. n*n - 1` in order and the blank last. */
  function GoalGrid(n: nat): (g: Grid)
  {
    seq(n, r => seq(n, c => if r == n - 1 && c == n - 1 then 0 else 1 + r * n + c))
  }

  ghost predicate Distinct(f: seq<int>) {
    forall a, b :: 0 <= a < b < |f| ==> f[a] != f[b]
  }

  /** A puzzle grid: n-by-n, distinct tiles in `[0, n*n)`, one of them the
      blank. */
  ghost predicate IsTiles(g: Grid) {
    IsSquare(g) && TileReading(Flat(g), |g| * |g|)
  }

  /** Distinct tiles in `[0, m)`, one of them the blank. */
  ghost predicate TileReading(f: seq<int>, m: int) {
    Distinct(f) && 0 in f && forall i :: 0 <= i < |f| ==> 0 <= f[i] < m
  }

  /** With distinct tiles there is at most one blank. */
  lemma {:induction false} BlanksOfDistinct(f: seq<int>)
    requires Distinct(f)
    ensures Blanks(f) == if 0 in f then 1 else 0
  {
    if f != [] {
      var p := f[..|f| - 1];
      assert f == p + [f[|f| - 1]];
      BlanksOfDistinct(p);
    }
  }

  /** No misplaced tile means every cell is the blank or its goal tile. */
  lemma {:induction false} MisplacedNone(f: seq<int>, n: int)
    requires n > 0
    ensures Misplaced(f, n) == 0 <==> forall i :: 0 <= i < |f| ==> f[i] == 0 || f[i] == i + 1
  {
    if f != [] {
      var i := |f| - 1;
      MisplacedNone(f[..i], n);
      if f[i] != 0 {
        GoalCell(f[i], i, n);
      }
    }
  }

  /** The goal read row by row. */
  lemma FlatGoal(n: nat)
    requires n > 0
    ensures IsSquare(GoalGrid(n)) && |Flat(GoalGrid(n))| == n * n
    ensures forall i :: 0 <= i < n * n ==> Flat(GoalGrid(n))[i] == if i == n * n - 1 then 0 else i + 1
  {
    var g := GoalGrid(n);
    assert g[..n] == g;
    FlatLength(g, n);
    forall i | 0 <= i < n * n
      ensures Flat(g)[i] == if i == n * n - 1 then 0 else i + 1
    {
      FlatCell(g, i);
      CellBounds(i, n);
      var (r, c) := Cell(i, n);
      if r == n - 1 && c == n - 1 {
        assert i == n * n - 1;
      }
      if i == n * n - 1 {
        DivUnique(i, n - 1, n - 1, n);
      }
    }
  }

  /** On a puzzle grid, no misplaced tile means the goal. */
  lemma GoalOfNoneMisplaced(g: Grid)
    requires IsTiles(g)
    ensures |g| > 0
    ensures Misplaced(Flat(g), |g|) == 0 <==> g == GoalGrid(|g|)
  {
    var n, f := |g|, Flat(g);
    FlatLength(g, n);
    assert g[..n] == g;
    var z :| 0 <= z < |f| && f[z] == 0;
    MisplacedNone(f, n);
    FlatGoal(n);
    if Misplaced(f, n) == 0 {
      assert f == Flat(GoalGrid(n));
      FlatInjective(g, GoalGrid(n));
    }
    if g == GoalGrid(n) {
      assert forall i :: 0 <= i < |f| ==> f[i] == 0 || f[i] == i + 1;
    }
  }

  /** On a grid with one blank, `hamming()` counts the misplaced tiles,
      and no more than `manhattan()`. */
  lemma HammingCountsMisplaced(g: Grid)
    requires IsSquare(g) && |g| > 0 && Blanks(Flat(g)) == 1
    ensures HammingOf(g) == Misplaced(Flat(g), |g|)
    ensures 0 <= HammingOf(g) <= ManhattanOf(g)
  {
    MismatchesSplit(Flat(g), |g|);
    ManhattanBounds(Flat(g), |g|);
  }

  /** The goal is a puzzle grid. */
  lemma GoalTiles(n: nat)
    requires n > 0
    ensures IsTiles(GoalGrid(n))
  {
    FlatGoal(n);
    var f := Flat(GoalGrid(n));
    assert f[n * n - 1] == 0;
  }

  /** `isGoal()` (Hamming 0) and a zero Manhattan distance both hold
      exactly on the row-major goal. */
  lemma GoalIff(g: Grid)
    requires IsTiles(g)
    ensures HammingOf(g) == 0 <==> g == GoalGrid(|g|)
    ensures ManhattanOf(g) == 0 <==> g == GoalGrid(|g|)
  {
    GoalOfNoneMisplaced(g);
    BlanksOfDistinct(Flat(g));
    HammingCountsMisplaced(g);
    ManhattanBounds(Flat(g), |g|);
  }

  // ----- The blank and the moves -----

  /** The index of the last blank in a reading. */
  function LastBlank(f: seq<int>): (o: Option<int>)
  {
    if f == [] then None
    else if f[|f| - 1] == 0 then Some(|f| - 1)
    else LastBlank(f[..|f| - 1])
  }

  lemma {:induction false} LastBlankSpec(f: seq<int>)
    ensures LastBlank(f).None? <==> 0 !in f
    ensures LastBlank(f).Some? ==>
      var i := LastBlank(f).value;
      0 <= i < |f| && f[i] == 0 && forall j :: i < j < |f| ==> f[j] != 0
  {
    if f != [] && f[|f| - 1] != 0 {
      var p := f[..|f| - 1];
      assert f == p + [f[|f| - 1]];
      LastBlankSpec(p);
    }
  }

  /** The cell the constructor records as `_hole`: the row-major last
      blank, or none (`null`) when there is no blank. */
  function HoleOf(g: Grid): (h: Option<(int, int)>)
  {
    HoleIn(Flat(g), |g|)
  }

  /** The cell of an n-wide grid holding the last blank of the reading
      `f`, which may be the reading of the first rows only. */
  function HoleIn(f: seq<int>, n: int): (h: Option<(int, int)>)
  {
    if n <= 0 then None
    else match LastBlank(f)
      case None => None
      case Some(i) => Some(Cell(i, n))
  }

  /** `(r, c)` comes after `(hr, hc)` in row-major order. */
  ghost predicate After(r: int, c: int, hr: int, hc: int) {
    r > hr || (r == hr && c > hc)
  }

  lemma AfterIndex(r: int, c: int, hr: int, hc: int, n: int)
    requires 0 <= hr && 0 <= c < n && 0 <= hc < n && After(r, c, hr, hc)
    ensures hr * n + hc < r * n + c
  {
    if r > hr {
      MulStep(hr, r, n);
    }
  }

  /** A blank in the reading is a blank cell of the grid. */
  lemma BlankCells(g: Grid)
    requires IsSquare(g)
    ensures 0 !in Flat(g) <==> forall r, c :: 0 <= r < |g| && 0 <= c < |g| ==> g[r][c] != 0
  {
    var n := |g|;
    if 0 in Flat(g) {
      var i :| 0 <= i < |Flat(g)| && Flat(g)[i] == 0;
      FlatLength(g, n);
      assert g[..n] == g;
      FlatCell(g, i);
    } else {
      forall r, c | 0 <= r < n && 0 <= c < n
        ensures g[r][c] != 0
      {
        FlatIndex(g, r, c);
      }
    }
  }

  /** The last blank of the reading is the row-major last blank cell. */
  lemma LastBlankCell(g: Grid, i: int)
    requires IsSquare(g) && |g| > 0 && LastBlank(Flat(g)) == Some(i)
    ensures InGrid(|g|, Cell(i, |g|)) && g[Cell(i, |g|).0][Cell(i, |g|).1] == 0
    ensures forall r, c :: 0 <= r < |g| && 0 <= c < |g| && After(r, c, Cell(i, |g|).0, Cell(i, |g|).1) ==> g[r][c] != 0
  {
    var n, f := |g|, Flat(g);
    LastBlankSpec(f);
    FlatLength(g, n);
    assert g[..n] == g;
    FlatCell(g, i);
    CellBounds(i, n);
    var (hr, hc) := Cell(i, n);
    forall r, c | 0 <= r < n && 0 <= c < n && After(r, c, hr, hc)
      ensures g[r][c] != 0
    {
      FlatIndex(g, r, c);
      AfterIndex(r, c, hr, hc, n);
    }
  }

  /** `_hole` is a blank cell with no blank after it, and is `null`
      exactly when the grid has no blank. */
  lemma HoleOfSpec(g: Grid)
    requires IsSquare(g)
    ensures HoleOf(g).None? <==> forall r, c :: 0 <= r < |g| && 0 <= c < |g| ==> g[r][c] != 0
    ensures HoleOf(g).Some? ==>
      var (hr, hc) := HoleOf(g).value;
      0 <= hr < |g| && 0 <= hc < |g| && g[hr][hc] == 0 &&
      forall r, c :: 0 <= r < |g| && 0 <= c < |g| && After(r, c, hr, hc) ==> g[r][c] != 0
  {
    LastBlankSpec(Flat(g));
    BlankCells(g);
    if HoleOf(g).Some? {
      LastBlankCell(g, LastBlank(Flat(g)).value);
    }
  }

  /** The cells the blank may move to, in the order `neighbors()` tries
      them: up, down, left, right, each only inside the grid. */
  function Targets(n: int, h: (int, int)): (ts: seq<(int, int)>)
  {
    var (r, c) := h;
    (if r > 0 then [(r - 1, c)] else []) +
    (if r < n - 1 then [(r + 1, c)] else []) +
    (if c > 0 then [(r, c - 1)] else []) +
    (if c < n - 1 then [(r, c + 1)] else [])
  }

  ghost predicate InGrid(n: int, p: (int, int)) {
    0 <= p.0 < n && 0 <= p.1 < n
  }

  ghost predicate Adjacent(p: (int, int), q: (int, int)) {
    Abs(p.0 - q.0) + Abs(p.1 - q.1) == 1
  }

  /** The targets are exactly the cells of the grid next to the blank,
      none twice: two at a corner, three on an edge, four inside. */
  lemma TargetsSpec(n: int, h: (int, int))
    requires InGrid(n, h)
    ensures forall t :: t in Targets(n, h) <==> InGrid(n, t) && Adjacent(h, t)
    ensures forall j, k :: 0 <= j < k < |Targets(n, h)| ==> Targets(n, h)[j] != Targets(n, h)[k]
    ensures |Targets(n, h)| == 4 - (if h.0 == 0 then 1 else 0) - (if h.0 == n - 1 then 1 else 0)
                                 - (if h.1 == 0 then 1 else 0) - (if h.1 == n - 1 then 1 else 0)
  {
  }

  /** The grid after sliding the tile at `t` into the blank at `h`: the
      two cells exchanged and every other cell kept. */
  function Slide(g: Grid, h: (int, int), t: (int, int)): (s: Grid)
    requires IsSquare(g) && InGrid(|g|, h) && InGrid(|g|, t)
  {
    var c := g[t.0 := g[t.0][t.1 := g[h.0][h.1]]];
    c[h.0 := c[h.0][h.1 := g[t.0][t.1]]]
  }

  /** The boards `neighbors()` yields, as grids, in its order. */
  function NeighborGrids(g: Grid, h: (int, int)): (ns: seq<Grid>)
    requires IsSquare(g) && InGrid(|g|, h)
  {
    var ts := Targets(|g|, h);
    seq(|ts|, k requires 0 <= k < |ts| => (TargetsInGrid(|g|, h); Slide(g, h, ts[k])))
  }

  lemma SlideShape(g: Grid, h: (int, int), t: (int, int))
    requires IsSquare(g) && InGrid(|g|, h) && InGrid(|g|, t)
    ensures IsSquare(Slide(g, h, t)) && |Slide(g, h, t)| == |g|
  {
  }

  /** One cell of a slid grid. */
  lemma SlideAt(g: Grid, h: (int, int), t: (int, int), r: int, c: int)
    requires IsSquare(g) && InGrid(|g|, h) && InGrid(|g|, t) && InGrid(|g|, (r, c))
    ensures Slide(g, h, t)[r][c] == if (r, c) == h then g[t.0][t.1] else if (r, c) == t then g[h.0][h.1] else g[r][c]
  {
  }

  /** A cell's index determines the cell. */
  lemma CellIndexIff(i: int, p: (int, int), n: int)
    requires n > 0 && 0 <= i < n * n && InGrid(n, p)
    ensures Cell(i, n) == p <==> i == p.0 * n + p.1
  {
    CellBounds(i, n);
    CellOfIndex(p.0, p.1, n);
  }

  lemma SwapAt(f: seq<int>, a: int, b: int, i: int)
    requires 0 <= a < |f| && 0 <= b < |f| && 0 <= i < |f|
    ensures Swap(f, a, b)[i] == if i == a then f[b] else if i == b then f[a] else f[i]
  {
  }

  /** An entry of the reading of a grid `s` that agrees with `g` but for
      the cells `h` and `t` exchanged, at the cell `p` of index `i`. */
  lemma ExchangedAt(g: Grid, s: Grid, h: (int, int), t: (int, int), i: int, p: (int, int))
    requires IsSquare(g) && IsSquare(s) && |s| == |g| > 0 && InGrid(|g|, h) && InGrid(|g|, t)
    requires 0 <= i < |g| * |g| && p == Cell(i, |g|) && InGrid(|g|, p)
    requires s[p.0][p.1] == if p == h then g[t.0][t.1] else if p == t then g[h.0][h.1] else g[p.0][p.1]
    ensures |Flat(s)| == |Flat(g)| == |g| * |g|
    ensures 0 <= h.0 * |g| + h.1 < |Flat(g)| && 0 <= t.0 * |g| + t.1 < |Flat(g)|
    ensures Flat(s)[i] == Swap(Flat(g), h.0 * |g| + h.1, t.0 * |g| + t.1)[i]
  {
    var n, f := |g|, Flat(g);
    FlatIndex(g, h.0, h.1);
    FlatIndex(g, t.0, t.1);
    FlatCell(s, i);
    FlatCell(g, i);
    CellIndexIff(i, h, n);
    CellIndexIff(i, t, n);
    SwapAt(f, h.0 * n + h.1, t.0 * n + t.1, i);
  }

  /** One entry of the reading of a slid grid. */
  lemma SlideFlatAt(g: Grid, h: (int, int), t: (int, int), i: int)
    requires IsSquare(g) && InGrid(|g|, h) && InGrid(|g|, t) && 0 <= i < |g| * |g|
    ensures IsSquare(Slide(g, h, t)) && |Flat(Slide(g, h, t))| == |Flat(g)| == |g| * |g|
    ensures 0 <= h.0 * |g| + h.1 < |Flat(g)| && 0 <= t.0 * |g| + t.1 < |Flat(g)|
    ensures Flat(Slide(g, h, t))[i] == Swap(Flat(g), h.0 * |g| + h.1, t.0 * |g| + t.1)[i]
  {
    var s := Slide(g, h, t);
    SlideShape(g, h, t);
    CellBounds(i, |g|);
    var p := Cell(i, |g|);
    SlideAt(g, h, t, p.0, p.1);
    ExchangedAt(g, s, h, t, i, p);
  }

  /** Sliding reads as exchanging two entries of the reading. */
  lemma SlideFlat(g: Grid, h: (int, int), t: (int, int))
    requires IsSquare(g) && InGrid(|g|, h) && InGrid(|g|, t)
    ensures IsSquare(Slide(g, h, t)) && |Slide(g, h, t)| == |g|
    ensures |Flat(g)| == |g| * |g|
    ensures 0 <= h.0 * |g| + h.1 < |Flat(g)| && 0 <= t.0 * |g| + t.1 < |Flat(g)|
    ensures Flat(Slide(g, h, t)) == Swap(Flat(g), h.0 * |g| + h.1, t.0 * |g| + t.1)
  {
    SlideShape(g, h, t);
    SlideFlatAt(g, h, t, 0);
    forall i | 0 <= i < |g| * |g|
      ensures Flat(Slide(g, h, t))[i] == Swap(Flat(g), h.0 * |g| + h.1, t.0 * |g| + t.1)[i]
    {
      SlideFlatAt(g, h, t, i);
    }
  }

  /** Sliding the tile back restores the grid. */
  lemma SlideBack(g: Grid, h: (int, int), t: (int, int))
    requires IsSquare(g) && InGrid(|g|, h) && InGrid(|g|, t)
    ensures IsSquare(Slide(g, h, t)) && Slide(Slide(g, h, t), t, h) == g
  {
    var s := Slide(Slide(g, h, t), t, h);
    SlideShape(g, h, t);
    forall r | 0 <= r < |g|
      ensures s[r] == g[r]
    {
      forall c | 0 <= c < |g|
        ensures s[r][c] == g[r][c]
      {
        SlideAt(g, h, t, r, c);
        SlideShape(g, h, t);
        SlideAt(Slide(g, h, t), t, h, r, c);
      }
    }
  }

  lemma SwapDistinct(f: seq<int>, a: int, b: int)
    requires Distinct(f) && 0 <= a < |f| && 0 <= b < |f|
    ensures Distinct(Swap(f, a, b)) && multiset(Swap(f, a, b)) == multiset(f)
  {
    SwapPerm(f, a, b);
    var w := Swap(f, a, b);
    forall x, y | 0 <= x < y < |w|
      ensures w[x] != w[y]
    {
      SwapAt(f, a, b, x);
      SwapAt(f, a, b, y);
    }
  }

  /** A blank that is the only one is the last one. */
  lemma OnlyBlank(f: seq<int>, j: int)
    requires Distinct(f) && 0 <= j < |f| && f[j] == 0
    ensures LastBlank(f) == Some(j)
  {
    LastBlankSpec(f);
  }

  /** Exchanging the blank with another entry of a reading of distinct
      tiles in `[0, m)` gives such a reading, whose blank is where the
      other entry was. */
  lemma SwapBlank(f: seq<int>, a: int, b: int, m: int)
    requires TileReading(f, m) && 0 <= a < |f| && 0 <= b < |f| && f[a] == 0
    ensures TileReading(Swap(f, a, b), m) && multiset(Swap(f, a, b)) == multiset(f)
    ensures LastBlank(Swap(f, a, b)) == Some(b)
  {
    var w := Swap(f, a, b);
    SwapDistinct(f, a, b);
    SwapAt(f, a, b, b);
    forall i | 0 <= i < |w|
      ensures 0 <= w[i] < m
    {
      SwapAt(f, a, b, i);
    }
    OnlyBlank(w, b);
  }

  /** The blank `HoleOf` names is a blank of the reading. */
  lemma HoleIndex(g: Grid)
    requires IsSquare(g) && HoleOf(g).Some?
    ensures InGrid(|g|, HoleOf(g).value)
    ensures |Flat(g)| == |g| * |g|
    ensures LastBlank(Flat(g)) == Some(HoleOf(g).value.0 * |g| + HoleOf(g).value.1)
  {
    var n, i := |g|, LastBlank(Flat(g)).value;
    LastBlankSpec(Flat(g));
    FlatLength(g, n);
    assert g[..n] == g;
    CellBounds(i, n);
  }

  /** Sliding a tile into the blank keeps a puzzle grid a puzzle grid,
      and the blank is then where the tile was. */
  lemma SlideTiles(g: Grid, h: (int, int), t: (int, int))
    requires IsTiles(g) && HoleOf(g) == Some(h) && InGrid(|g|, t)
    ensures InGrid(|g|, h) && IsTiles(Slide(g, h, t)) && |Slide(g, h, t)| == |g|
    ensures HoleOf(Slide(g, h, t)) == Some(t)
  {
    HoleIndex(g);
    var n, f, s := |g|, Flat(g), Slide(g, h, t);
    var hi, ti := h.0 * n + h.1, t.0 * n + t.1;
    LastBlankSpec(f);
    SlideFlat(g, h, t);
    SwapBlank(f, hi, ti, n * n);
    CellOfIndex(t.0, t.1, n);
    ReadingFacts(s, Swap(f, hi, ti), n, ti);
  }

  /** Sliding keeps the tiles of the grid. */
  lemma SlideMultiset(g: Grid, h: (int, int), t: (int, int))
    requires IsSquare(g) && InGrid(|g|, h) && InGrid(|g|, t)
    ensures multiset(Flat(Slide(g, h, t))) == multiset(Flat(g))
  {
    SlideFlat(g, h, t);
    SwapPerm(Flat(g), h.0 * |g| + h.1, t.0 * |g| + t.1);
  }

  /** What a grid's reading says about the grid. */
  lemma ReadingFacts(s: Grid, w: seq<int>, n: int, i: int)
    requires IsSquare(s) && |s| == n > 0 && Flat(s) == w && TileReading(w, n * n) && LastBlank(w) == Some(i)
    ensures IsTiles(s) && HoleOf(s) == Some(Cell(i, n))
  {
  }

  /** One move of the blank, as `neighbors()` makes it from the blank
      the constructor finds. */
  ghost predicate Step(g: Grid, h: Grid) {
    IsSquare(g) && HoleOf(g).Some? && InGrid(|g|, HoleOf(g).value) &&
    h in NeighborGrids(g, HoleOf(g).value)
  }

  /** Adjacency is symmetric: the blank can go back where it came from. */
  lemma TargetsBack(n: int, p: (int, int), t: (int, int))
    requires InGrid(n, p) && t in Targets(n, p)
    ensures InGrid(n, t) && p in Targets(n, t)
  {
    TargetsSpec(n, p);
    TargetsSpec(n, t);
  }

  /** The move to a neighbouring grid, and the move back. */
  lemma NeighborStep(g: Grid, p: (int, int), t: (int, int), k: int)
    requires IsSquare(g) && HoleOf(g) == Some(p) && InGrid(|g|, p)
    requires 0 <= k < |Targets(|g|, p)| && Targets(|g|, p)[k] == t
    ensures InGrid(|g|, t) && Step(g, Slide(g, p, t))
  {
    TargetsSpec(|g|, p);
    assert NeighborGrids(g, p)[k] == Slide(g, p, t);
  }

  /** Every move of a puzzle grid gives a puzzle grid and can be undone
      by a move. */
  lemma StepBack(g: Grid, h: Grid)
    requires IsTiles(g) && Step(g, h)
    ensures IsTiles(h) && Step(h, g)
  {
    var n, p := |g|, HoleOf(g).value;
    var ts := Targets(n, p);
    var k :| 0 <= k < |ts| && h == NeighborGrids(g, p)[k];
    var t := ts[k];
    TargetsBack(n, p, t);
    assert h == Slide(g, p, t);
    SlideTiles(g, p, t);
    SlideBack(g, p, t);
    var j :| 0 <= j < |Targets(n, t)| && Targets(n, t)[j] == p;
    NeighborStep(h, t, p, j);
  }

  /** A move keeps the grid's shape and its tiles. */
  lemma StepKeeps(g: Grid, h: Grid)
    requires Step(g, h)
    ensures IsSquare(h) && |h| == |g| && multiset(Flat(h)) == multiset(Flat(g))
  {
    var p := HoleOf(g).value;
    NeighborsAre(g, p);
    var k :| 0 <= k < |NeighborGrids(g, p)| && NeighborGrids(g, p)[k] == h;
    var t := Targets(|g|, p)[k];
    SlideShape(g, p, t);
    SlideMultiset(g, p, t);
  }

  /** A square grid with a blank in its reading has a recorded blank. */
  lemma HasHole(g: Grid)
    requires IsSquare(g) && 0 in Flat(g)
    ensures HoleOf(g).Some? && InGrid(|g|, HoleOf(g).value)
  {
    LastBlankSpec(Flat(g));
    HoleIndex(g);
  }

  // ----- Parity -----

  /** The number of entries of `t` below `x`. */
  function Below(x: int, t: seq<int>): (k: nat)
    ensures k <= |t|
  {
    if t == [] then 0 else (if t[0] < x then 1 else 0) + Below(x, t[1..])
  }

  /** The inversions of a reading: the pairs of entries out of order. */
  function Inversions(f: seq<int>): (k: nat)
  {
    if f == [] then 0 else Below(f[0], f[1..]) + Inversions(f[1..])
  }

  /** Exchanging two neighbouring entries keeps the count below `x`. */
  lemma {:induction false} BelowAdjacentSwap(x: int, t: seq<int>, i: nat)
    requires i + 1 < |t|
    ensures Below(x, Swap(t, i, i + 1)) == Below(x, t)
  {
    var s := Swap(t, i, i + 1);
    if i == 0 {
      assert s[1..][1..] == t[1..][1..];
    } else {
      assert s[1..] == Swap(t[1..], i - 1, i);
      BelowAdjacentSwap(x, t[1..], i - 1);
    }
  }

  /** Exchanging two distinct neighbouring entries adds or removes
      exactly the one inversion between them. */
  lemma {:induction false} InversionsAdjacentSwap(f: seq<int>, i: nat)
    requires i + 1 < |f| && f[i] != f[i + 1]
    ensures Inversions(Swap(f, i, i + 1)) == Inversions(f) + (if f[i] < f[i + 1] then 1 else -1)
  {
    var s := Swap(f, i, i + 1);
    if i == 0 {
      assert s[1..][1..] == f[1..][1..];
    } else {
      assert s[1..] == Swap(f[1..], i - 1, i);
      BelowAdjacentSwap(f[0], f[1..], i - 1);
      InversionsAdjacentSwap(f[1..], i - 1);
    }
  }

  /** An exchange of `a` and `b` is three exchanges: of `a` and `a + 1`,
      of `a + 1` and `b`, and of `a` and `a + 1` again. */
  lemma SwapByThree(f: seq<int>, a: nat, b: nat)
    requires a + 1 < b < |f|
    ensures Swap(Swap(Swap(f, a, a + 1), a + 1, b), a, a + 1) == Swap(f, a, b)
  {
  }

  /** Three parity flips make one. */
  lemma FlipThree(i0: int, i1: int, i2: int, i3: int)
    requires i1 == i0 + 1 || i1 == i0 - 1
    requires i2 % 2 != i1 % 2
    requires i3 == i2 + 1 || i3 == i2 - 1
    ensures i3 % 2 != i0 % 2
  {
  }

  /** Exchanging any two entries of a reading of distinct tiles changes
      the parity of its inversions: it is an odd number of exchanges of
      neighbours. */
  lemma {:induction false} SwapFlipsParity(f: seq<int>, a: nat, b: nat)
    requires Distinct(f) && a < b < |f|
    ensures Inversions(Swap(f, a, b)) % 2 != Inversions(f) % 2
    decreases b - a
  {
    if b == a + 1 {
      InversionsAdjacentSwap(f, a);
    } else {
      var f1 := Swap(f, a, a + 1);
      SwapDistinct(f, a, a + 1);
      var f2 := Swap(f1, a + 1, b);
      SwapDistinct(f1, a + 1, b);
      InversionsAdjacentSwap(f, a);
      SwapFlipsParity(f1, a + 1, b);
      InversionsAdjacentSwap(f2, a);
      SwapByThree(f, a, b);
      FlipThree(Inversions(f), Inversions(f1), Inversions(f2), Inversions(Swap(f2, a, a + 1)));
    }
  }

  /** The same for any two entries, given in either order, of which `s`
      is the exchange. */
  lemma SwapFlipsParityEither(f: seq<int>, s: seq<int>, a: int, b: int)
    requires Distinct(f) && 0 <= a < |f| && 0 <= b < |f| && a != b && s == Swap(f, a, b)
    ensures Inversions(s) % 2 != Inversions(f) % 2
  {
    if a < b {
      SwapFlipsParity(f, a, b);
    } else {
      assert Swap(f, a, b) == Swap(f, b, a);
      SwapFlipsParity(f, b, a);
    }
  }

  /** The parity no move changes: of the reading's inversions (the blank
      counted as 0) plus the blank's distance from the bottom-right cell. */
  ghost function Parity(g: Grid): (b: int)
    requires HoleOf(g).Some?
    ensures b == 0 || b == 1
  {
    ParityOf(Inversions(Flat(g)), |g|, HoleOf(g).value)
  }

  function ParityOf(inversions: int, n: int, h: (int, int)): (b: int)
  {
    (inversions + (n - 1 - h.0) + (n - 1 - h.1)) % 2
  }

  /** Flipping the inversions' parity while the blank moves one cell keeps
      the sum's parity. */
  lemma ParityOfMove(i0: int, i1: int, n: int, p: (int, int), t: (int, int))
    requires i1 % 2 != i0 % 2 && Adjacent(p, t)
    ensures ParityOf(i1, n, t) == ParityOf(i0, n, p)
  {
  }

  /** Exchanging two tiles of a puzzle grid, the blank staying where it
      is, changes its parity. */
  lemma ExchangeFlipsParity(g: Grid, h: Grid, a: nat, b: nat)
    requires Distinct(Flat(g)) && |h| == |g| && HoleOf(g).Some? && HoleOf(h) == HoleOf(g)
    requires a < b < |Flat(g)| && Flat(h) == Swap(Flat(g), a, b)
    ensures Parity(h) != Parity(g)
  {
    SwapFlipsParity(Flat(g), a, b);
    ParityOfStay(Inversions(Flat(g)), Inversions(Flat(h)), |g|, HoleOf(g).value);
  }

  lemma ParityOfStay(i0: int, i1: int, n: int, p: (int, int))
    requires i1 % 2 != i0 % 2
    ensures ParityOf(i1, n, p) != ParityOf(i0, n, p)
  {
  }

  /** Every move keeps a puzzle grid's parity: the tile and the blank
      exchange places, which flips the inversions' parity, and the blank
      moves one cell nearer to or further from the corner. */
  lemma StepParity(g: Grid, h: Grid)
    requires IsTiles(g) && Step(g, h)
    ensures IsTiles(h) && |h| == |g| && HoleOf(h).Some? && Parity(h) == Parity(g)
  {
    var n, p := |g|, HoleOf(g).value;
    var ts := Targets(n, p);
    var k :| 0 <= k < |ts| && h == NeighborGrids(g, p)[k];
    var t := ts[k];
    TargetsSpec(n, p);
    assert InGrid(n, t) && Adjacent(p, t);
    assert h == Slide(g, p, t);
    SlideTiles(g, p, t);
    SlideFlat(g, p, t);
    SwapFlipsCells(g, p, t);
    ParityOfMove(Inversions(Flat(g)), Inversions(Flat(h)), n, p, t);
  }

  /** Sliding a tile of a puzzle grid flips its inversions' parity. */
  lemma SwapFlipsCells(g: Grid, p: (int, int), t: (int, int))
    requires IsSquare(g) && Distinct(Flat(g)) && InGrid(|g|, p) && InGrid(|g|, t) && p != t
    ensures Inversions(Flat(Slide(g, p, t))) % 2 != Inversions(Flat(g)) % 2
  {
    var a, b := SlideSwaps(g, p, t);
    SwapFlipsParityEither(Flat(g), Flat(Slide(g, p, t)), a, b);
  }

  /** The two entries of the reading a slide exchanges. */
  lemma SlideSwaps(g: Grid, p: (int, int), t: (int, int)) returns (a: int, b: int)
    requires IsSquare(g) && InGrid(|g|, p) && InGrid(|g|, t) && p != t
    ensures 0 <= a < |Flat(g)| && 0 <= b < |Flat(g)| && a != b
    ensures Flat(Slide(g, p, t)) == Swap(Flat(g), a, b)
  {
    SlideFlat(g, p, t);
    CellsApart(p, t, |g|);
    a, b := p.0 * |g| + p.1, t.0 * |g| + t.1;
  }

  /** Distinct cells have distinct row-major indices. */
  lemma CellsApart(p: (int, int), t: (int, int), n: int)
    requires InGrid(n, p) && InGrid(n, t) && p != t
    ensures p.0 * n + p.1 != t.0 * n + t.1
  {
    CellOfIndex(p.0, p.1, n);
    CellOfIndex(t.0, t.1, n);
  }

  // ----- Reading the grid cell by cell, as the nested loops do -----

  /** The cells before `(r, c)` in row-major order. */
  function Prefix(g: Grid, r: int, c: int): (f: seq<int>)
    requires 0 <= r < |g| && 0 <= c <= |g[r]|
  {
    Flat(g[..r]) + g[r][..c]
  }

  /** One more cell of the row extends the prefix by that cell, which
      sits at index `r * n + c`. */
  lemma PrefixStep(g: Grid, r: int, c: int)
    requires IsSquare(g) && 0 <= r < |g| && 0 <= c < |g|
    ensures Prefix(g, r, c + 1) == Prefix(g, r, c) + [g[r][c]]
    ensures |Prefix(g, r, c)| == r * |g| + c
  {
    FlatLength(g, r);
    assert g[r][..c + 1] == g[r][..c] + [g[r][c]];
  }

  /** A whole row read is the reading of the rows up to it. */
  lemma PrefixRow(g: Grid, r: int)
    requires IsSquare(g) && 0 <= r < |g|
    ensures Prefix(g, r, |g|) == Flat(g[..r + 1]) && Prefix(g, r, 0) == Flat(g[..r])
  {
    FlatRow(g, r);
    assert g[r][..|g|] == g[r];
  }

  lemma LastBlankSnoc(f: seq<int>, x: int)
    ensures LastBlank(f + [x]) == if x == 0 then Some(|f|) else LastBlank(f)
  {
    assert (f + [x])[..|f|] == f;
  }

  lemma MismatchesSnoc(f: seq<int>, x: int)
    ensures Mismatches(f + [x]) == Mismatches(f) + if x != |f| + 1 then 1 else 0
  {
    assert (f + [x])[..|f|] == f;
  }

  lemma ManhattanSnoc(f: seq<int>, x: int, n: int)
    requires n > 0
    ensures ManhattanSum(f + [x], n) == ManhattanSum(f, n) + Distance(x, |f|, n)
  {
    assert (f + [x])[..|f|] == f;
  }

  /** One more cell read by the constructor's loop: the blank, if it is
      one, is now that cell. */
  lemma HoleStep(g: Grid, r: int, c: int)
    requires IsSquare(g) && 0 <= r < |g| && 0 <= c < |g|
    ensures HoleIn(Prefix(g, r, c + 1), |g|) == if g[r][c] == 0 then Some((r, c)) else HoleIn(Prefix(g, r, c), |g|)
  {
    PrefixStep(g, r, c);
    LastBlankSnoc(Prefix(g, r, c), g[r][c]);
    CellOfIndex(r, c, |g|);
  }

  /** One more cell read by `hamming()`'s loop. */
  lemma MismatchStep(g: Grid, r: int, c: int)
    requires IsSquare(g) && 0 <= r < |g| && 0 <= c < |g|
    ensures Mismatches(Prefix(g, r, c + 1)) == Mismatches(Prefix(g, r, c)) + if 1 + r * |g| + c != g[r][c] then 1 else 0
  {
    PrefixStep(g, r, c);
    MismatchesSnoc(Prefix(g, r, c), g[r][c]);
  }

  /** One more cell read by `manhattan()`'s loop. */
  lemma ManhattanStep(g: Grid, r: int, c: int)
    requires IsSquare(g) && 0 <= r < |g| && 0 <= c < |g|
    ensures var v, n := g[r][c], |g|;
      ManhattanSum(Prefix(g, r, c + 1), n) == ManhattanSum(Prefix(g, r, c), n) +
        if v != 0 then Abs(Position(v, n).0 - r) + Abs(Position(v, n).1 - c) else 0
  {
    PrefixStep(g, r, c);
    ManhattanSnoc(Prefix(g, r, c), g[r][c], |g|);
    CellOfIndex(r, c, |g|);
  }

  // ----- `toString()` -----

  /** The width every tile is padded to: 2, 3, 4 or 5 characters. */
  function PadWidth(n: int): (l: int)
    ensures 2 <= l <= 5
    ensures n < 4 ==> l == 2
    ensures 4 <= n < 11 ==> l == 3
    ensures 11 <= n < 31 ==> l == 4
    ensures 31 <= n ==> l == 5
  {
    if n < 4 then 2 else if n < 11 then 3 else if n < 31 then 4 else 5
  }

  /** The number of decimal digits of `v`. */
  function Digits(v: nat): (d: nat)
  {
    if v < 10 then 1 else 1 + Digits(v / 10)
  }

  /** The length of `v.toString()`: its digits and a minus sign. */
  function TextWidth(v: int): (w: nat)
  {
    if v < 0 then 1 + Digits(-v) else Digits(v)
  }

  /** A tile as `padStart(l, " ")` leaves it: `spaces` blanks in front
      of the tile's decimal text. */
  datatype Padded = Padded(spaces: nat, tile: int)

  /** The text of `toString()`: the dimension on its own line, then one
      line per row, `|`, the padded tiles separated by `,`, and ` |`. */
  datatype Rendering = Rendering(dimension: int, rows: seq<seq<Padded>>)

  /** `padStart(l, " ")` on the tile's text: blanks in front up to `l`
      characters, none when the text is already that long. */
  function Pad(v: int, l: int): (p: Padded)
  {
    Padded(if TextWidth(v) < l then l - TextWidth(v) else 0, v)
  }

  function Render(g: Grid): (s: Rendering)
  {
    var l := PadWidth(|g|);
    Rendering(|g|, seq(|g|, r requires 0 <= r < |g| => seq(|g[r]|, c requires 0 <= c < |g[r]| => Pad(g[r][c], l))))
  }

  /** Every tile's text is padded to the width the dimension picks, and
      is longer only when its own text already is. */
  lemma RenderPads(g: Grid, r: int, c: int)
    requires 0 <= r < |g| && 0 <= c < |g[r]|
    ensures |Render(g).rows| == |g| && |Render(g).rows[r]| == |g[r]| && Render(g).rows[r][c].tile == g[r][c]
    ensures var p := Render(g).rows[r][c];
      p.spaces + TextWidth(g[r][c]) >= PadWidth(|g|) &&
      (p.spaces == 0 || p.spaces + TextWidth(g[r][c]) == PadWidth(|g|))
  {
  }

  /** Two grids render alike exactly when they are the same grid. */
  lemma RenderInjective(g: Grid, h: Grid)
    ensures Render(g) == Render(h) <==> g == h
  {
    if Render(g) == Render(h) {
      assert |g| == |h|;
      forall r | 0 <= r < |g|
        ensures g[r] == h[r]
      {
        assert |g[r]| == |Render(g).rows[r]| == |h[r]|;
        forall c | 0 <= c < |g[r]|
          ensures g[r][c] == h[r][c]
        {
          assert Render(g).rows[r][c].tile == g[r][c];
          assert Render(h).rows[r][c].tile == h[r][c];
        }
      }
    }
  }

  // ----- The board -----

  /** The numbers `[0..m)` are distinct tiles in `[0, m)` with a blank. */
  lemma RangeTiles(m: nat)
    requires m > 0
    ensures TileReading(Range(m), m)
  {
    assert Range(m)[0] == 0;
  }

  /** Exchanging two entries keeps distinct tiles in `[0, m)` with a
      blank. */
  lemma SwapTiles(f: seq<int>, a: int, b: int, m: int)
    requires TileReading(f, m) && 0 <= a < |f| && 0 <= b < |f|
    ensures TileReading(Swap(f, a, b), m)
  {
    SwapDistinct(f, a, b);
    assert 0 in multiset(Swap(f, a, b));
    forall i | 0 <= i < |f|
      ensures 0 <= Swap(f, a, b)[i] < m
    {
      SwapAt(f, a, b, i);
    }
  }

  /** Whatever indices are drawn, shuffling keeps distinct tiles in
      `[0, m)` with a blank. */
  lemma {:induction false} ShuffledTiles(s: seq<int>, r: seq<int>, n: nat, m: int)
    requires n <= |s| && ValidChoices(r, |s|) && TileReading(s, m)
    ensures TileReading(Shuffled(s, r, n), m)
    decreases n
  {
    if n > 1 {
      SwapTiles(s, r[n - 1], n - 1, m);
      ShuffledTiles(Swap(s, r[n - 1], n - 1), r, n - 1, m);
    }
  }

  /** Read backwards, distinct tiles in `[0, m)` with a blank stay so. */
  lemma ReversedTiles(f: seq<int>, t: seq<int>, m: int)
    requires |f| == |t| && TileReading(t, m)
    requires forall i :: 0 <= i < |f| ==> f[i] == t[|t| - 1 - i]
    ensures TileReading(f, m)
  {
    var j :| 0 <= j < |t| && t[j] == 0;
    assert f[|t| - 1 - j] == 0;
  }

  /** `Array.prototype.reverse`, on a value. */
  function Reverse<T>(s: seq<T>): (r: seq<T>)
    ensures |r| == |s| && forall i :: 0 <= i < |s| ==> r[i] == s[|s| - 1 - i]
  {
    if s == [] then [] else [s[|s| - 1]] + Reverse(s[..|s| - 1])
  }

  /** `generateRandomBoard(size)` with the drawn indices `r`: a side
      outside `[2..127]` is refused (the bound 127 itself is accepted);
      otherwise `[0..size*size)` is shuffled and popped from the back
      into the cells, row by row.  The result is a puzzle grid for
      every sequence of in-range draws (`ValidChoices`). */
  method GenerateRandomBoard(size: int, r: seq<int>) returns (res: Result<Grid>)
    requires 2 <= size <= 127 ==> ValidChoices(r, size * size)
    ensures (size < 2 || size > 127) ==> res == Failure(IllegalArgument)
    ensures 2 <= size <= 127 ==> res.Success? && |res.value| == size && IsTiles(res.value)
    ensures 2 <= size <= 127 ==> Flat(res.value) == Reverse(Shuffled(Range(size * size), r, size * size))
  {
    if size < 2 || size > 127 {
      return Failure(IllegalArgument);
    }
    var nums := Shuffle(size * size, r);
    var board := Fill(size, nums);
    RangeTiles(size * size);
    ShuffledTiles(Range(size * size), r, size * size, size * size);
    ReversedTiles(Flat(board), nums, size * size);
    return Success(board);
  }

  /** The shuffle loop of `generateRandomBoard` on `[0..m)`. */
  method Shuffle(m: nat, r: seq<int>) returns (nums: seq<int>)
    requires ValidChoices(r, m)
    ensures nums == Shuffled(Range(m), r, m)
  {
    nums := Range(m);
    var i := m - 1;
    while i > 0
      invariant -1 <= i < m && |nums| == m
      invariant Shuffled(nums, r, if i < 0 then 0 else i + 1) == Shuffled(Range(m), r, m)
    {
      nums := Swap(nums, r[i], i);
      i := i - 1;
    }
  }

  /** The filling loops of `generateRandomBoard`: each cell, row by row,
      receives `nums.pop()`, so the cells read row by row are `nums`
      backwards. */
  method Fill(size: nat, nums0: seq<int>) returns (board: Grid)
    requires |nums0| == size * size
    ensures IsSquare(board) && |board| == size
    ensures Flat(board) == Reverse(nums0)
  {
    var nums := nums0;
    board := [];
    var row := 0;
    TimesIsProduct(size, size);
    while row < size
      invariant 0 <= row <= size && |board| == row
      invariant forall a :: 0 <= a < row ==> |board[a]| == size
      invariant |nums| == Times(size - row, size) && |nums| <= |nums0| && nums == nums0[..|nums|]
      invariant Flat(board) == Reverse(nums0[|nums|..])
    {
      var cells, rest := PopRow(nums, size);
      PopRows(nums0, |rest|, |nums|);
      assert (board + [cells])[..row] == board;
      FlatRow(board + [cells], row);
      board := board + [cells];
      nums := rest;
      row := row + 1;
    }
  }

  /** `k * n` by repeated addition, so that the filling loop's count of
      numbers left stays linear. */
  function Times(k: nat, n: nat): (p: nat)
  {
    if k == 0 then 0 else n + Times(k - 1, n)
  }

  lemma {:induction false} TimesIsProduct(k: nat, n: nat)
    ensures Times(k, n) == k * n
  {
    if k > 0 {
      TimesIsProduct(k - 1, n);
    }
  }

  /** The inner filling loop: one row's cells, each `nums.pop()`. */
  method PopRow(nums: seq<int>, size: nat) returns (cells: seq<int>, rest: seq<int>)
    requires size <= |nums|
    ensures |cells| == size && rest == nums[..|nums| - size]
    ensures cells == Reverse(nums[|rest|..])
  {
    cells := [];
    rest := nums;
    var col := 0;
    while col < size
      invariant 0 <= col <= size && |cells| == col
      invariant rest == nums[..|nums| - col]
      invariant cells == Reverse(nums[|rest|..])
    {
      PopStep(nums, |rest|);
      cells := cells + [rest[|rest| - 1]];
      rest := rest[..|rest| - 1];
      col := col + 1;
    }
  }

  /** Popping one more number off the back extends the popped numbers,
      read backwards, by that number. */
  lemma PopStep(s: seq<int>, k: int)
    requires 0 < k <= |s|
    ensures Reverse(s[k - 1..]) == Reverse(s[k..]) + [s[k - 1]]
  {
  }

  /** Popping the numbers `s[i..j)` after those from `j` on extends the
      popped numbers, read backwards, by them read backwards. */
  lemma PopRows(s: seq<int>, i: int, j: int)
    requires 0 <= i <= j <= |s|
    ensures Reverse(s[i..]) == Reverse(s[j..]) + Reverse(s[i..j])
  {
  }

  /** `Board`: the grid, copied on construction and never written
      afterwards, the blank cell found by the constructor, and the two
      cached distances, `-1` until first computed. */
  class Board {
    const board: Grid
    const hole: Option<(int, int)>
    var hamming: int
    var manhattan: int

    /** The recorded blank is the grid's, and each cache is unset or
        holds the distance. */
    ghost predicate Valid()
      reads this
    {
      IsSquare(board) && hole == HoleOf(board) &&
      (hamming == -1 || hamming == HammingOf(board)) &&
      (manhattan == -1 || manhattan == ManhattanOf(board))
    }

    /** `constructor(tiles)`: a copy of the grid, and the last blank
        cell in row-major order (`null` if none). */
    constructor(tiles: Grid)
      requires IsSquare(tiles)
      ensures Valid() && board == tiles && hamming == -1 && manhattan == -1
    {
      var copy := tiles;
      var size := |copy|;
      var h: Option<(int, int)> := None;
      for r := 0 to size
        invariant h == HoleIn(Flat(copy[..r]), size)
      {
        PrefixRow(copy, r);
        for c := 0 to size
          invariant h == HoleIn(Prefix(copy, r, c), size)
        {
          HoleStep(copy, r, c);
          if copy[r][c] == 0 {
            h := Some((r, c));
          }
        }
      }
      assert copy[..size] == copy;
      board, hole, hamming, manhattan := copy, h, -1, -1;
    }

    /** `dimension()`: the side of the grid. */
    function Dimension(): (n: int)
      ensures n == |board| >= 0
    {
      |board|
    }

    /** `toString()`: the dimension, then each row with every tile padded
        to the width the dimension picks. */
    function ToString(): (s: Rendering)
      ensures s.dimension == Dimension() && |s.rows| == |board|
      ensures forall r, c :: 0 <= r < |board| && 0 <= c < |board[r]| ==>
        c < |s.rows[r]| && s.rows[r][c] == Pad(board[r][c], PadWidth(|board|))
    {
      Render(board)
    }

    /** `equals(y)` compares the two texts, which agree exactly when the
        grids do. */
    function Equals(y: Board): (b: bool)
      ensures b <==> board == y.board
    {
      RenderInjective(board, y.board);
      ToString() == y.ToString()
    }

    /** `hamming()`: the cached value if set, otherwise the cells whose
        tile is not `1 + r * n + c`, less one for the blank, stored. */
    method Hamming() returns (d: int)
      requires Valid()
      modifies this
      ensures Valid() && d == HammingOf(board) && manhattan == old(manhattan)
      ensures hamming == if old(hamming) > -1 then old(hamming) else d
    {
      if hamming > -1 {
        return hamming;
      }
      var size := Dimension();
      hamming := 0;
      for r := 0 to size
        invariant hamming == Mismatches(Flat(board[..r])) && manhattan == old(manhattan)
      {
        PrefixRow(board, r);
        for c := 0 to size
          invariant hamming == Mismatches(Prefix(board, r, c)) && manhattan == old(manhattan)
        {
          MismatchStep(board, r, c);
          if 1 + r * size + c != board[r][c] {
            hamming := hamming + 1;
          }
        }
      }
      assert board[..size] == board;
      hamming := hamming - 1;
      return hamming;
    }

    /** `manhattan()`: the cached value if set, otherwise each tile's
        row and column distance to its goal cell, summed and stored. */
    method Manhattan() returns (d: int)
      requires Valid()
      modifies this
      ensures Valid() && d == ManhattanOf(board) && hamming == old(hamming)
      ensures manhattan == if old(manhattan) > -1 then old(manhattan) else d
    {
      if manhattan > -1 {
        return manhattan;
      }
      var size := Dimension();
      manhattan := 0;
      for r := 0 to size
        invariant manhattan == ManhattanSum(Flat(board[..r]), size) && hamming == old(hamming)
      {
        PrefixRow(board, r);
        for c := 0 to size
          invariant manhattan == ManhattanSum(Prefix(board, r, c), size) && hamming == old(hamming)
        {
          ManhattanStep(board, r, c);
          if board[r][c] != 0 {
            var (tr, tc) := Position(board[r][c], size);
            manhattan := manhattan + Abs(tr - r) + Abs(tc - c);
          }
        }
      }
      assert board[..size] == board;
      return manhattan;
    }

    /** `isGoal()`: Hamming distance 0, which on a puzzle board is the
        row-major goal. */
    method IsGoal() returns (b: bool)
      requires Valid()
      modifies this
      ensures Valid() && manhattan == old(manhattan)
      ensures hamming == if old(hamming) > -1 then old(hamming) else HammingOf(board)
      ensures b <==> HammingOf(board) == 0
      ensures IsTiles(board) ==> (b <==> board == GoalGrid(|board|))
    {
      var d := Hamming();
      b := d == 0;
      if IsTiles(board) {
        GoalIff(board);
      }
    }

    /** A board just made from the grid `g`: nothing cached yet. */
    ghost predicate MadeFrom(g: Grid)
      reads this
    {
      board == g && Valid() && hamming == -1 && manhattan == -1
    }

    /** `neighbors()`: for each cell next to the blank, up, down, left
        and right, a new board with that tile slid into the blank; this
        board is left as it is. */
    method Neighbors() returns (bs: seq<Board>)
      requires Valid() && hole.Some?
      ensures InGrid(|board|, hole.value) && |bs| == |Targets(|board|, hole.value)|
      ensures forall k :: 0 <= k < |bs| ==> fresh(bs[k]) && bs[k].MadeFrom(NeighborGrids(board, hole.value)[k])
      ensures forall j, k :: 0 <= j < k < |bs| ==> bs[j] != bs[k]
    {
      var size := Dimension();
      var h := hole.value;
      HoleIndex(board);
      var holes := Holes();
      TargetsInGrid(size, h);
      bs := [];
      for k := 0 to |holes|
        invariant |bs| == k
        invariant forall j :: 0 <= j < k ==> fresh(bs[j]) && bs[j].MadeFrom(Slide(board, h, holes[j]))
        invariant forall i, j :: 0 <= i < j < k ==> bs[i] != bs[j]
      {
        var b := Moved(holes[k]);
        bs := bs + [b];
      }
      NeighborsAre(board, h);
    }

    /** The cells `neighbors()` moves the blank to: up, down, left,
        right, each only when inside the grid. */
    method Holes() returns (holes: seq<(int, int)>)
      requires hole.Some?
      ensures holes == Targets(|board|, hole.value)
    {
      var size := Dimension();
      var h := hole.value;
      holes := [];
      if h.0 > 0 {
        holes := holes + [(h.0 - 1, h.1)];
      }
      if h.0 < size - 1 {
        holes := holes + [(h.0 + 1, h.1)];
      }
      if h.1 > 0 {
        holes := holes + [(h.0, h.1 - 1)];
      }
      if h.1 < size - 1 {
        holes := holes + [(h.0, h.1 + 1)];
      }
    }

    /** One board of `neighbors()`: a copy of the grid with the tile at
        `item` and the blank exchanged, made into a new board. */
    method Moved(item: (int, int)) returns (b: Board)
      requires Valid() && hole.Some? && InGrid(|board|, hole.value) && InGrid(|board|, item)
      ensures fresh(b) && b.MadeFrom(Slide(board, hole.value, item))
    {
      var h := hole.value;
      var copy := board;
      copy := copy[item.0 := copy[item.0][item.1 := board[h.0][h.1]]];
      copy := copy[h.0 := copy[h.0][h.1 := board[item.0][item.1]]];
      SwapCells(board, h, item);
      SlideShape(board, h, item);
      b := new Board(copy);
    }
  }

  lemma TargetsInGrid(n: int, h: (int, int))
    requires InGrid(n, h)
    ensures forall k :: 0 <= k < |Targets(n, h)| ==> InGrid(n, Targets(n, h)[k])
  {
    TargetsSpec(n, h);
  }

  lemma NeighborsAre(g: Grid, h: (int, int))
    requires IsSquare(g) && InGrid(|g|, h)
    ensures |NeighborGrids(g, h)| == |Targets(|g|, h)|
    ensures forall k :: 0 <= k < |Targets(|g|, h)| ==>
      InGrid(|g|, Targets(|g|, h)[k]) && NeighborGrids(g, h)[k] == Slide(g, h, Targets(|g|, h)[k])
  {
    TargetsSpec(|g|, h);
  }

  /** The two updates `neighbors()` makes to its copy give the slid grid. */
  lemma SwapCells(g: Grid, h: (int, int), t: (int, int))
    requires IsSquare(g) && InGrid(|g|, h) && InGrid(|g|, t)
    ensures var c := g[t.0 := g[t.0][t.1 := g[h.0][h.1]]];
      c[h.0 := c[h.0][h.1 := g[t.0][t.1]]] == Slide(g, h, t)
  {
    var c := g[t.0 := g[t.0][t.1 := g[h.0][h.1]]];
    var d := c[h.0 := c[h.0][h.1 := g[t.0][t.1]]];
    var s := Slide(g, h, t);
    forall r | 0 <= r < |g|
      ensures d[r] == s[r]
    {
      forall k | 0 <= k < |g|
        ensures d[r][k] == s[r][k]
      {
        SlideAt(g, h, t, r, k);
      }
    }
  }
}
