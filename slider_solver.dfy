/** The `Solver` of slider_puzzle.js: a best-first search from the
    initial board, always expanding a board of least Manhattan distance,
    that records each board's predecessor and the text of every board
    it has queued, and rebuilds the path from the goal it reaches.

    The priority queue is a multiset of (board, priority) pairs; which
    of several entries of least priority comes out first is left open,
    as the queue's tie-breaking is not part of this model.  The search's
    queue, predecessor map and text set are threaded through the search
    as values and stored in the solver's fields when it ends. */
module SliderSolvers {
  import opened Wrappers
  import opened SliderBoards
  import opened SortSpec

  // ----- Paths of moves -----

  /** A non-empty sequence of grids, each one move from the one before. */
  ghost predicate IsPath(p: seq<Grid>) {
    |p| > 0 && forall i :: 0 <= i < |p| - 1 ==> Step(p[i], p[i + 1])
  }

  /** `p` leads from `g` to a grid `isGoal()` accepts. */
  ghost predicate Solves(p: seq<Grid>, g: Grid) {
    IsPath(p) && p[0] == g && HammingOf(p[|p| - 1]) == 0
  }

  ghost predicate GoalReachable(g: Grid) {
    exists p :: Solves(p, g)
  }

  /** The grids of a sequence of boards. */
  function GridsOf(bs: seq<Board>): (gs: seq<Grid>)
    ensures |gs| == |bs| && forall i :: 0 <= i < |bs| ==> gs[i] == bs[i].board
  {
    if bs == [] then [] else GridsOf(bs[..|bs| - 1]) + [bs[|bs| - 1].board]
  }

  /** No path leaves a set of grids that holds `g`, is closed under
      moves and holds no goal; so no goal is reachable from `g`. */
  lemma NoGoalReachable(s: set<Grid>, g: Grid)
    requires g in s
    requires forall x :: x in s ==> HammingOf(x) != 0
    requires forall x, y :: x in s && Step(x, y) ==> y in s
    ensures !GoalReachable(g)
  {
    forall p | Solves(p, g)
      ensures false
    {
      PathInside(s, p, |p| - 1);
    }
  }

  lemma {:induction false} PathInside(s: set<Grid>, p: seq<Grid>, i: int)
    requires IsPath(p) && p[0] in s && 0 <= i < |p|
    requires forall x, y :: x in s && Step(x, y) ==> y in s
    ensures p[i] in s
  {
    if i > 0 {
      PathInside(s, p, i - 1);
    }
  }

  // ----- A finite universe of grids, for termination -----

  /** All sequences of length `k` over `xs`. */
  function Seqs<T>(k: nat, xs: set<T>): (ss: set<seq<T>>)
  {
    if k == 0 then {[]} else set s, x | s in Seqs(k - 1, xs) && x in xs :: s + [x]
  }

  lemma {:induction false} SeqsHas<T>(s: seq<T>, xs: set<T>)
    requires forall i :: 0 <= i < |s| ==> s[i] in xs
    ensures s in Seqs(|s|, xs)
  {
    if s != [] {
      var p := s[..|s| - 1];
      SeqsHas(p, xs);
      assert s == p + [s[|s| - 1]];
    }
  }

  /** The n-by-n grids over the tiles of `g`. */
  ghost function Universe(g: Grid): (u: set<Grid>)
  {
    var vs := set x | x in Flat(g);
    Seqs(|g|, Seqs(|g|, vs))
  }

  /** A grid of `g`'s shape and tiles. */
  ghost predicate LikeStart(h: Grid, g: Grid) {
    IsSquare(h) && |h| == |g| && multiset(Flat(h)) == multiset(Flat(g))
  }

  lemma InUniverse(h: Grid, g: Grid)
    requires LikeStart(h, g)
    ensures h in Universe(g)
  {
    var vs := set x | x in Flat(g);
    var n := |g|;
    forall r | 0 <= r < n
      ensures h[r] in Seqs(n, vs)
    {
      forall c | 0 <= c < n
        ensures h[r][c] in vs
      {
        FlatIndex(h, r, c);
        assert h[r][c] in multiset(Flat(h));
      }
      SeqsHas(h[r], vs);
    }
    SeqsHas(h, Seqs(n, vs));
  }

  lemma {:induction false} SubsetSize<T>(a: set<T>, b: set<T>)
    requires a <= b
    ensures |a| <= |b|
    decreases |b|
  {
    if a != {} {
      var x :| x in a;
      SubsetSize(a - {x}, b - {x});
    }
  }

  /** Like the start grid, moved once. */
  lemma StepLikeStart(x: Grid, y: Grid, g: Grid)
    requires LikeStart(x, g) && Step(x, y)
    ensures LikeStart(y, g)
  {
    StepKeeps(x, y);
  }

  /** A grid with the start's tiles has a blank when the start does. */
  lemma LikeStartHole(h: Grid, g: Grid)
    requires LikeStart(h, g) && 0 in Flat(g)
    ensures HoleOf(h).Some? && InGrid(|h|, HoleOf(h).value)
  {
    assert 0 in multiset(Flat(h));
    HasHole(h);
  }

  // ----- The queue -----

  /** A queue entry: a board and its priority. */
  type Entry = (Board, int)

  /** A non-empty set has a member. */
  lemma Member(s: set<int>)
    requires s != {}
    ensures exists y :: y in s
  {
    if forall y :: y !in s {
      assert false;
    }
  }

  /** A least element of a non-empty set of priorities. */
  ghost function Least(s: set<int>): (m: int)
    requires s != {}
    ensures m in s && forall x :: x in s ==> m <= x
    decreases |s|
  {
    Member(s);
    var y :| y in s;
    if s == {y} then y
    else
      var r := Least(s - {y});
      assert forall x :: x in s ==> x == y || x in s - {y};
      if y < r then y else r
  }

  // ----- The search's bookkeeping -----

  /** What the search has done so far, kept for the proof only: the
      boards queued, in order, each queued grid's place in that order,
      and the grids taken off the queue and expanded. */
  datatype Log = Log(queued: seq<Board>, index: map<Grid, nat>, expanded: set<Grid>)

  /** The initial board is square and has a blank. */
  ghost predicate Started(start: Board) {
    IsSquare(start.board) && 0 in Flat(start.board)
  }

  /** The initial board is queued first; every queued board has a grid of
      its own, whose place `ix` records; `processed` holds exactly the
      texts of queued grids; and every queued grid is the initial
      board's tiles rearranged. */
  ghost predicate Indexed(start: Board, processed: set<Rendering>, q: seq<Board>, ix: map<Grid, nat>) {
    |q| > 0 && q[0] == start && |ix.Keys| == |q| &&
    (forall i :: 0 <= i < |q| ==> q[i].board in ix && ix[q[i].board] == i) &&
    (forall g {:trigger ix[g]} :: g in ix ==> ix[g] < |q| && q[ix[g]].board == g) &&
    (forall g {:trigger Render(g)} :: Render(g) in processed <==> g in ix) &&
    (forall g {:trigger LikeStart(g, start.board)} :: g in ix ==> LikeStart(g, start.board))
  }

  /** The predecessor map holds exactly the queued boards: `null` for the
      initial board, otherwise a board queued earlier, one move away. */
  ghost predicate Linked(start: Board, parents: map<Board, Option<Board>>, q: seq<Board>, ix: map<Grid, nat>) {
    (forall i :: 0 <= i < |q| ==> q[i] in parents) &&
    forall b {:trigger parents[b]} :: b in parents ==>
      b.board in ix && ix[b.board] < |q| && q[ix[b.board]] == b &&
      (parents[b].None? <==> b == start) &&
      (parents[b].Some? ==>
        var p := parents[b].value;
        p in parents && p.board in ix && ix[p.board] < ix[b.board] && Step(p.board, b.board))
  }

  /** Each queue entry is a queued board with its Manhattan distance as
      priority, and each queued board is still in the queue or expanded. */
  ghost predicate Queued(pq: multiset<Entry>, parents: map<Board, Option<Board>>, q: seq<Board>, expanded: set<Grid>) {
    (forall e :: e in pq ==> e.1 == ManhattanOf(e.0.board) && e.0 in parents) &&
    forall i :: 0 <= i < |q| ==> q[i].board in expanded || (q[i], ManhattanOf(q[i].board)) in pq
  }

  /** Expanded grids are queued grids that are not goals, and every move
      from one of them, but for the one being expanded, leads to a
      queued grid. */
  ghost predicate Explored(ix: map<Grid, nat>, expanded: set<Grid>, open: Option<Grid>) {
    forall g :: g in expanded ==>
      g in ix && HammingOf(g) != 0 &&
      (open != Some(g) ==> forall h {:trigger Step(g, h)} :: Step(g, h) ==> h in ix)
  }

  /** The invariant of the search loop; `open` is the grid whose moves
      are being queued, if any. */
  ghost predicate Searching(start: Board, pq: multiset<Entry>, parents: map<Board, Option<Board>>,
                            processed: set<Rendering>, log: Log, open: Option<Grid>) {
    match log
    case Log(queued, index, expanded) =>
      Started(start) && Indexed(start, processed, queued, index) && Linked(start, parents, queued, index) &&
      Queued(pq, parents, queued, expanded) && Explored(index, expanded, open)
  }

  /** What the search leaves behind, goal or not: the texts and the
      predecessors of the queued boards. */
  ghost predicate Recorded(start: Board, parents: map<Board, Option<Board>>, processed: set<Rendering>, log: Log) {
    match log
    case Log(queued, index, _) =>
      Started(start) && Indexed(start, processed, queued, index) && Linked(start, parents, queued, index)
  }

  /** No grid is queued twice. */
  lemma QueuedOnce(start: Board, processed: set<Rendering>, log: Log)
    requires Indexed(start, processed, log.queued, log.index)
    ensures forall i, j :: 0 <= i < j < |log.queued| ==> log.queued[i].board != log.queued[j].board
  {
  }

  /** The queued grids are among the finitely many grids of the initial
      board's shape and tiles. */
  lemma Bounded(start: Board, processed: set<Rendering>, log: Log)
    requires Indexed(start, processed, log.queued, log.index)
    ensures |log.queued| <= |Universe(start.board)|
  {
    forall g | g in log.index.Keys
      ensures g in Universe(start.board)
    {
      InUniverse(g, start.board);
    }
    SubsetSize(log.index.Keys, Universe(start.board));
  }

  /** The state before the loop: the initial board queued, with its text
      seen and no predecessor. */
  lemma Initial(start: Board, d: int)
    requires Started(start) && d == ManhattanOf(start.board)
    ensures Searching(start, multiset{(start, d)}, map[start := None], {Render(start.board)},
                      Log([start], map[start.board := 0], {}), None)
  {
    var log := Log([start], map[start.board := 0], {});
    assert log.index.Keys == {start.board};
    assert forall g :: Render(g) in {Render(start.board)} <==> g in log.index by {
      forall g
        ensures Render(g) in {Render(start.board)} <==> g in log.index
      {
        RenderInjective(g, start.board);
      }
    }
  }

  /** Taking a non-goal entry off the queue marks its grid expanded, with
      its moves still to be queued. */
  lemma Popped(start: Board, pq: multiset<Entry>, parents: map<Board, Option<Board>>,
               processed: set<Rendering>, log: Log, e: Entry)
    requires Searching(start, pq, parents, processed, log, None) && e in pq && HammingOf(e.0.board) != 0
    ensures e.0 in parents && e.0.board in log.index
    ensures Searching(start, pq - multiset{e}, parents, processed,
                      log.(expanded := log.expanded + {e.0.board}), Some(e.0.board))
  {
    var log' := log.(expanded := log.expanded + {e.0.board});
    var pq' := pq - multiset{e};
    forall i | 0 <= i < |log.queued|
      ensures log.queued[i].board in log'.expanded || (log.queued[i], ManhattanOf(log.queued[i].board)) in pq'
    {
      if log.queued[i] != e.0 {
        assert (log.queued[i], ManhattanOf(log.queued[i].board)) != e;
      }
    }
  }

  /** With the queue empty every queued grid is expanded, so the queued
      grids are closed under moves and hold no goal. */
  lemma Exhausted(start: Board, parents: map<Board, Option<Board>>, processed: set<Rendering>, log: Log)
    requires Searching(start, multiset{}, parents, processed, log, None)
    ensures !GoalReachable(start.board)
  {
    forall g | g in log.index
      ensures g in log.expanded
    {
      assert log.queued[log.index[g]].board == g;
    }
    assert start.board in log.index by {
      assert log.queued[0].board in log.index;
    }
    NoGoalReachable(log.expanded, start.board);
  }

  /** Queuing a neighbour whose text is new keeps the bookkeeping. */
  lemma Added(start: Board, pq: multiset<Entry>, parents: map<Board, Option<Board>>,
              processed: set<Rendering>, log: Log, board: Board, item: Board)
    requires Searching(start, pq, parents, processed, log, Some(board.board)) && board in parents
    requires Step(board.board, item.board) && Render(item.board) !in processed
    ensures item.board !in log.index && item !in parents
    ensures Searching(start, pq + multiset{(item, ManhattanOf(item.board))}, parents[item := Some(board)],
                      processed + {Render(item.board)}, Queue(log, item), Some(board.board))
  {
    IndexedAdd(start, processed, log, board, item);
    LinkedAdd(start, parents, log, board, item);
    QueuedAdd(pq, parents, log, board, item);
  }

  /** The log with `item` queued next. */
  ghost function Queue(log: Log, item: Board): (l: Log)
    ensures l.expanded == log.expanded && l.queued == log.queued + [item]
  {
    log.(queued := log.queued + [item], index := log.index[item.board := |log.queued|])
  }

  lemma IndexedAdd(start: Board, processed: set<Rendering>, log: Log, board: Board, item: Board)
    requires Indexed(start, processed, log.queued, log.index) && board.board in log.index
    requires Step(board.board, item.board) && Render(item.board) !in processed
    ensures item.board !in log.index
    ensures Indexed(start, processed + {Render(item.board)}, log.queued + [item], log.index[item.board := |log.queued|])
  {
    var log' := Queue(log, item);
    var processed' := processed + {Render(item.board)};
    assert log'.index.Keys == log.index.Keys + {item.board};
    StepLikeStart(board.board, item.board, start.board);
    forall g
      ensures Render(g) in processed' <==> g in log'.index
    {
      RenderInjective(g, item.board);
    }
  }

  lemma LinkedAdd(start: Board, parents: map<Board, Option<Board>>, log: Log, board: Board, item: Board)
    requires Linked(start, parents, log.queued, log.index) && board in parents && |log.queued| > 0 && log.queued[0] == start
    requires Step(board.board, item.board) && item.board !in log.index
    ensures item !in parents
    ensures Linked(start, parents[item := Some(board)], log.queued + [item], log.index[item.board := |log.queued|])
  {
    var parents', log' := parents[item := Some(board)], Queue(log, item);
    var q, ix := log'.queued, log'.index;
    forall i | 0 <= i < |q|
      ensures q[i] in parents'
    {
      if i < |log.queued| {
        assert q[i] == log.queued[i];
      }
    }
    forall b | b in parents'
      ensures b.board in ix && ix[b.board] < |q| && q[ix[b.board]] == b
      ensures parents'[b].None? <==> b == start
      ensures parents'[b].Some? ==>
        var p := parents'[b].value;
        p in parents' && p.board in ix && ix[p.board] < ix[b.board] && Step(p.board, b.board)
    {
      if b == item {
        assert board.board in log.index && log.index[board.board] < |log.queued|;
        assert item != start by {
          assert log.queued[0] == start;
        }
      } else {
        assert parents'[b] == parents[b];
        assert b.board in log.index && log.index[b.board] < |log.queued|;
        assert b.board != item.board;
      }
    }
  }

  lemma QueuedAdd(pq: multiset<Entry>, parents: map<Board, Option<Board>>, log: Log, board: Board, item: Board)
    requires Queued(pq, parents, log.queued, log.expanded)
    ensures Queued(pq + multiset{(item, ManhattanOf(item.board))}, parents[item := Some(board)], log.queued + [item], log.expanded)
  {
  }

  /** The least entry of a queue. */
  method Dequeue(pq0: multiset<Entry>) returns (e: Entry, pq: multiset<Entry>)
    requires |pq0| > 0
    ensures e in pq0 && pq == pq0 - multiset{e}
    ensures forall x :: x in pq0 ==> e.1 <= x.1
  {
    var y :| y in pq0;
    var priorities := set x | x in pq0 :: x.1;
    assert y.1 in priorities;
    ghost var m := Least(priorities);
    ghost var w :| w in pq0 && w.1 == m;
    assert forall x :: x in pq0 ==> x.1 in priorities;
    e :| e in pq0 && forall x :: x in pq0 ==> e.1 <= x.1;
    pq := pq0 - multiset{e};
  }

  // ----- The search -----

  /** The loop of the constructor: take a least entry off the queue; stop
      at a goal, otherwise queue its unseen neighbours.  Ends with the
      goal taken off the queue, or with the queue empty, and then no goal
      is reachable. */
  method Search(initial: Board, d: int)
    returns (parents: map<Board, Option<Board>>, processed: set<Rendering>, target: Option<Board>, ghost log: Log)
    requires initial.Valid() && Started(initial) && d == ManhattanOf(initial.board)
    modifies initial
    ensures Recorded(initial, parents, processed, log)
    ensures target.Some? ==> target.value in parents && HammingOf(target.value.board) == 0
    ensures target.None? ==> !GoalReachable(initial.board)
    ensures HammingOf(initial.board) == 0 ==> target == Some(initial)
  {
    parents := map[initial := None];
    processed := {initial.ToString()};
    var pq := multiset{(initial, d)};
    log := Log([initial], map[initial.board := 0], {});
    Initial(initial, d);
    Bounded(initial, processed, log);
    target := None;
    while |pq| > 0 && target.None?
      invariant Recorded(initial, parents, processed, log)
      invariant target.None? ==> Searching(initial, pq, parents, processed, log, None)
      invariant forall e :: e in pq ==> e.0.Valid() && (e.0 == initial || fresh(e.0))
      invariant HammingOf(initial.board) == 0 ==> target == Some(initial) || (target.None? && pq == multiset{(initial, d)})
      invariant target.Some? ==> target.value in parents && HammingOf(target.value.board) == 0
      invariant |log.queued| <= |Universe(initial.board)|
      decreases |Universe(initial.board)| - |log.queued|, |pq|
    {
      pq, parents, processed, log, target := Round(initial, pq, parents, processed, log);
    }
    if target.None? {
      assert |pq| == 0;
      Exhausted(initial, parents, processed, log);
    }
  }

  /** One pass of the loop: dequeue a least entry; a goal ends the
      search, any other board is expanded. */
  method Round(initial: Board, pq0: multiset<Entry>, parents0: map<Board, Option<Board>>,
               processed0: set<Rendering>, ghost log0: Log)
    returns (pq: multiset<Entry>, parents: map<Board, Option<Board>>, processed: set<Rendering>, ghost log: Log,
             target: Option<Board>)
    requires Searching(initial, pq0, parents0, processed0, log0, None) && |pq0| > 0
    requires forall e :: e in pq0 ==> e.0.Valid()
    modifies set e | e in pq0 :: e.0
    ensures target.None? ==> Searching(initial, pq, parents, processed, log, None)
    ensures forall e :: e in pq ==> e.0.Valid() && (e in pq0 || fresh(e.0))
    ensures target.Some? ==> target.value in parents && HammingOf(target.value.board) == 0
    ensures target.Some? ==> parents == parents0 && processed == processed0 && log == log0
    ensures target.None? ==> |log.queued| <= |Universe(initial.board)|
    ensures |pq| + 1 - |pq0| == |log.queued| - |log0.queued| >= 0
    ensures pq0 == multiset{(initial, ManhattanOf(initial.board))} && HammingOf(initial.board) == 0 ==>
      target == Some(initial)
  {
    var e, rest, goal := Take(pq0);
    var board := e.0;
    if goal {
      pq, parents, processed, log, target := rest, parents0, processed0, log0, Some(board);
      return;
    }
    target := None;
    pq, parents, processed, log := Advance(initial, e, rest, pq0, parents0, processed0, log0);
  }

  /** `pq.dequeue()` and `isGoal()`: take a least entry off the queue and
      check whether its board is a goal. */
  method Take(pq0: multiset<Entry>) returns (e: Entry, rest: multiset<Entry>, goal: bool)
    requires |pq0| > 0 && forall x :: x in pq0 ==> x.0.Valid()
    modifies set x | x in pq0 :: x.0
    ensures e in pq0 && rest == pq0 - multiset{e} && forall x :: x in pq0 ==> e.1 <= x.1
    ensures goal <==> HammingOf(e.0.board) == 0
    ensures forall x :: x in pq0 ==> x.0.Valid()
  {
    e, rest := Dequeue(pq0);
    goal := e.0.IsGoal();
  }

  /** After a non-goal entry is taken off the queue: mark its grid
      expanded and queue its unseen neighbours. */
  method Advance(initial: Board, e: Entry, rest: multiset<Entry>, ghost pq0: multiset<Entry>,
                 parents0: map<Board, Option<Board>>, processed0: set<Rendering>, ghost log0: Log)
    returns (pq: multiset<Entry>, parents: map<Board, Option<Board>>, processed: set<Rendering>, ghost log: Log)
    requires Searching(initial, pq0, parents0, processed0, log0, None)
    requires e in pq0 && rest == pq0 - multiset{e}
    requires e.0.Valid() && HammingOf(e.0.board) != 0
    ensures Searching(initial, pq, parents, processed, log, None)
    ensures forall x :: x in pq ==> x in rest || (fresh(x.0) && x.0.Valid())
    ensures |log.queued| <= |Universe(initial.board)|
    ensures |pq| - |rest| == |log.queued| - |log0.queued| >= 0
  {
    Popped(initial, pq0, parents0, processed0, log0, e);
    pq, parents, processed, log := Expand(initial, e.0, rest, parents0, processed0,
                                          log0.(expanded := log0.expanded + {e.0.board}));
    Bounded(initial, processed, log);
  }

  /** `for (const item of board.neighbors())`: queue every neighbour
      whose text has not been seen. */
  method Expand(start: Board, board: Board, pq0: multiset<Entry>, parents0: map<Board, Option<Board>>,
                processed0: set<Rendering>, ghost log0: Log)
    returns (pq: multiset<Entry>, parents: map<Board, Option<Board>>, processed: set<Rendering>, ghost log: Log)
    requires Searching(start, pq0, parents0, processed0, log0, Some(board.board))
    requires board.Valid() && board in parents0 && board.board in log0.expanded
    ensures Searching(start, pq, parents, processed, log, None)
    ensures forall e :: e in pq ==> e in pq0 || (fresh(e.0) && e.0.Valid())
    ensures |pq| - |pq0| == |log.queued| - |log0.queued| >= 0
  {
    LikeStartHole(board.board, start.board);
    var bs := board.Neighbors();
    ghost var b0 := Book(pq0, parents0, processed0, log0);
    pq, parents, processed, log := QueueAll(board, bs, pq0, parents0, processed0, log0);
    Expanded(start, b0, board, bs);
    OfferedAllSeen(b0, board, bs);
  }

  /** Offering every neighbour of the board being expanded closes its
      expansion. */
  lemma Expanded(start: Board, b: Book, board: Board, bs: seq<Board>)
    requires Searching(start, b.pq, b.parents, b.processed, b.log, Some(board.board)) && board in b.parents
    requires IsSquare(board.board) && HoleOf(board.board).Some? && InGrid(|board.board|, HoleOf(board.board).value)
    requires |bs| == |NeighborGrids(board.board, HoleOf(board.board).value)|
    requires forall j :: 0 <= j < |bs| ==> bs[j].board == NeighborGrids(board.board, HoleOf(board.board).value)[j]
    ensures var c := OfferedAll(b, board, bs);
      Searching(start, c.pq, c.parents, c.processed, c.log, None)
  {
    var grids := NeighborGrids(board.board, HoleOf(board.board).value);
    forall j | 0 <= j < |grids|
      ensures Step(board.board, bs[j].board)
    {
      NeighborStepAt(board.board, HoleOf(board.board).value, j);
    }
    OfferedAllSearching(start, b, board, bs);
    OfferedAllSeen(b, board, bs);
    var c := OfferedAll(b, board, bs);
    forall h | h in grids
      ensures h in c.log.index
    {
      var j :| 0 <= j < |grids| && grids[j] == h;
      assert Render(bs[j].board) in c.processed;
    }
    Closed(c.log.index, c.log.expanded, board.board);
  }

  /** The loop over the neighbours: each one is offered in turn. */
  method QueueAll(board: Board, bs: seq<Board>, pq0: multiset<Entry>,
                  parents0: map<Board, Option<Board>>, processed0: set<Rendering>, ghost log0: Log)
    returns (pq: multiset<Entry>, parents: map<Board, Option<Board>>, processed: set<Rendering>, ghost log: Log)
    requires forall j :: 0 <= j < |bs| ==> bs[j].Valid()
    modifies set b | b in bs
    ensures Book(pq, parents, processed, log) == OfferedAll(Book(pq0, parents0, processed0, log0), board, bs)
    ensures forall j :: 0 <= j < |bs| ==> bs[j].Valid()
  {
    ghost var b0 := Book(pq0, parents0, processed0, log0);
    pq, parents, processed, log := pq0, parents0, processed0, log0;
    for k := 0 to |bs|
      invariant Book(pq, parents, processed, log) == OfferedAll(b0, board, bs[..k])
      invariant forall j :: 0 <= j < |bs| ==> bs[j].Valid()
    {
      pq, parents, processed, log := Offer(board, bs, k, pq, parents, processed, log);
      assert bs[..k + 1][..k] == bs[..k];
    }
    assert bs[..|bs|] == bs;
  }

  /** What the loop over the neighbours updates: the queue, the
      predecessors, the texts seen and the log. */
  datatype Book = Book(pq: multiset<Entry>, parents: map<Board, Option<Board>>, processed: set<Rendering>, log: Log)

  /** The bookkeeping after offering `item`, a neighbour of `board`: a
      text not seen before is recorded with its predecessor, and the
      neighbour is queued with its Manhattan distance as priority. */
  ghost function Offered(b: Book, board: Board, item: Board): Book {
    if Render(item.board) in b.processed then b
    else Book(b.pq + multiset{(item, ManhattanOf(item.board))}, b.parents[item := Some(board)],
              b.processed + {Render(item.board)}, Queue(b.log, item))
  }

  /** The bookkeeping after offering each of `bs` in turn. */
  ghost function OfferedAll(b: Book, board: Board, bs: seq<Board>): Book
    decreases |bs|
  {
    if bs == [] then b else Offered(OfferedAll(b, board, bs[..|bs| - 1]), board, bs[|bs| - 1])
  }

  /** Offering neighbours one move away keeps the search invariant and
      the predecessor of the board being expanded. */
  lemma {:induction false} OfferedAllSearching(start: Board, b: Book, board: Board, bs: seq<Board>)
    requires Searching(start, b.pq, b.parents, b.processed, b.log, Some(board.board)) && board in b.parents
    requires forall j :: 0 <= j < |bs| ==> Step(board.board, bs[j].board)
    ensures var c := OfferedAll(b, board, bs);
      Searching(start, c.pq, c.parents, c.processed, c.log, Some(board.board)) && board in c.parents
    decreases |bs|
  {
    if bs != [] {
      var n := |bs| - 1;
      OfferedAllSearching(start, b, board, bs[..n]);
      OfferedSearching(start, OfferedAll(b, board, bs[..n]), board, bs[n]);
    }
  }

  /** After offering, every offered text has been seen, no grid has been
      expanded, and each new queue entry is one of the offered boards,
      queued once. */
  lemma {:induction false} OfferedAllSeen(b: Book, board: Board, bs: seq<Board>)
    ensures forall j :: 0 <= j < |bs| ==> Render(bs[j].board) in OfferedAll(b, board, bs).processed
    ensures OfferedAll(b, board, bs).log.expanded == b.log.expanded
    ensures forall e :: e in OfferedAll(b, board, bs).pq ==> e in b.pq || e.0 in bs
    ensures |OfferedAll(b, board, bs).pq| - |b.pq| ==
            |OfferedAll(b, board, bs).log.queued| - |b.log.queued| >= 0
    decreases |bs|
  {
    if bs != [] {
      var n := |bs| - 1;
      OfferedAllSeen(b, board, bs[..n]);
      var c := OfferedAll(b, board, bs[..n]);
      var d := Offered(c, board, bs[n]);
      assert OfferedAll(b, board, bs) == d;
      assert c.processed <= d.processed && Render(bs[n].board) in d.processed;
      forall j | 0 <= j < |bs|
        ensures Render(bs[j].board) in d.processed
      {
        if j < n {
          assert bs[..n][j] == bs[j];
        }
      }
      assert forall x :: x in bs[..n] ==> x in bs;
    }
  }

  /** Offering one neighbour one move away keeps the search invariant
      and the predecessor of the board being expanded. */
  lemma OfferedSearching(start: Board, c: Book, board: Board, item: Board)
    requires Searching(start, c.pq, c.parents, c.processed, c.log, Some(board.board)) && board in c.parents
    requires Step(board.board, item.board)
    ensures var d := Offered(c, board, item);
      Searching(start, d.pq, d.parents, d.processed, d.log, Some(board.board)) && board in d.parents
  {
    if Render(item.board) !in c.processed {
      Added(start, c.pq, c.parents, c.processed, c.log, board, item);
    }
  }

  /** Once every move from the grid being expanded leads to a queued
      grid, no expansion is left open. */
  lemma Closed(ix: map<Grid, nat>, expanded: set<Grid>, g: Grid)
    requires Explored(ix, expanded, Some(g))
    requires IsSquare(g) && HoleOf(g).Some? && InGrid(|g|, HoleOf(g).value)
    requires forall h :: h in NeighborGrids(g, HoleOf(g).value) ==> h in ix
    ensures Explored(ix, expanded, None)
  {
  }

  /** The k-th neighbour grid is one move away. */
  lemma NeighborStepAt(g: Grid, p: (int, int), k: int)
    requires IsSquare(g) && HoleOf(g) == Some(p) && InGrid(|g|, p) && 0 <= k < |NeighborGrids(g, p)|
    ensures Step(g, NeighborGrids(g, p)[k])
  {
  }

  /** One neighbour of the board being expanded: when its text has not
      been seen, record the text, the predecessor, and queue the
      neighbour with its Manhattan distance as priority; otherwise
      change nothing. */
  method Offer(board: Board, bs: seq<Board>, k: nat,
               pq0: multiset<Entry>, parents0: map<Board, Option<Board>>, processed0: set<Rendering>, ghost log0: Log)
    returns (pq: multiset<Entry>, parents: map<Board, Option<Board>>, processed: set<Rendering>, ghost log: Log)
    requires k < |bs| && forall j :: 0 <= j < |bs| ==> bs[j].Valid()
    modifies bs[k]
    ensures Render(bs[k].board) in processed0 ==>
      pq == pq0 && parents == parents0 && processed == processed0 && log == log0
    ensures Render(bs[k].board) !in processed0 ==>
      pq == pq0 + multiset{(bs[k], ManhattanOf(bs[k].board))} && parents == parents0[bs[k] := Some(board)] &&
      processed == processed0 + {Render(bs[k].board)} && log == Queue(log0, bs[k])
    ensures forall j :: 0 <= j < |bs| ==> bs[j].Valid()
  {
    var item := bs[k];
    pq, parents, processed, log := pq0, parents0, processed0, log0;
    if item.ToString() !in processed {
      processed := processed0 + {item.ToString()};
      parents := parents0[item := Some(board)];
      var m := Prioritize(bs, k);
      pq := pq0 + multiset{(item, m)};
      log := Queue(log0, item);
    }
  }

  /** `item.manhattan()` on the k-th neighbour: it caches its distance,
      and every neighbour keeps a valid cache. */
  method Prioritize(bs: seq<Board>, k: nat) returns (m: int)
    requires k < |bs| && forall j :: 0 <= j < |bs| ==> bs[j].Valid()
    modifies bs[k]
    ensures m == ManhattanOf(bs[k].board)
    ensures forall j :: 0 <= j < |bs| ==> bs[j].Valid()
  {
    m := bs[k].Manhattan();
  }

  // ----- The path -----

  /** A path of moves from `start`'s grid to a goal grid. */
  ghost predicate IsSolution(start: Board, sol: seq<Board>) {
    |sol| > 0 && sol[0] == start && HammingOf(sol[|sol| - 1].board) == 0 &&
    forall i :: 0 <= i < |sol| - 1 ==> Step(sol[i].board, sol[i + 1].board)
  }

  /** A solution's grids witness that a goal is reachable. */
  lemma SolutionReaches(start: Board, sol: seq<Board>)
    requires IsSolution(start, sol)
    ensures GoalReachable(start.board)
  {
    assert Solves(GridsOf(sol), start.board);
  }

  /** `while (target) { push; target = parents.get(target) }`, then
      `reverse()`: the path from the initial board to `target`. */
  method Rebuild(start: Board, parents: map<Board, Option<Board>>, target: Board, ghost log: Log)
    returns (solution: seq<Board>)
    requires Linked(start, parents, log.queued, log.index) && target in parents && HammingOf(target.board) == 0
    ensures IsSolution(start, solution)
    ensures target == start ==> solution == [start]
  {
    var pushed: seq<Board> := [];
    var t := Some(target);
    while t.Some?
      invariant t.Some? ==> t.value in parents && t.value.board in log.index
      invariant pushed == [] ==> t == Some(target)
      invariant pushed != [] ==> pushed[0] == target
      invariant StepsBack(pushed)
      invariant t.Some? && pushed != [] ==> Step(t.value.board, pushed[|pushed| - 1].board)
      invariant t.None? ==> pushed != [] && pushed[|pushed| - 1] == start
      invariant target == start && pushed != [] ==> pushed == [start] && t.None?
      decreases if t.Some? then log.index[t.value.board] + 1 else 0
    {
      var b := t.value;
      ParentOf(start, parents, log, b);
      StepsBackPush(pushed, b);
      pushed := pushed + [b];
      t := parents[b];
    }
    PushedSolution(start, target, pushed);
    solution := Reverse(pushed);
  }

  /** Each board is one move from the board pushed before it. */
  ghost predicate StepsBack(pushed: seq<Board>) {
    forall i :: 0 <= i < |pushed| - 1 ==> Step(pushed[i + 1].board, pushed[i].board)
  }

  /** Pushing a board one move before the last keeps the chain. */
  lemma StepsBackPush(pushed: seq<Board>, b: Board)
    requires StepsBack(pushed) && (pushed != [] ==> Step(b.board, pushed[|pushed| - 1].board))
    ensures StepsBack(pushed + [b])
  {
    var p := pushed + [b];
    forall i | 0 <= i < |p| - 1
      ensures Step(p[i + 1].board, p[i].board)
    {
      if i < |pushed| - 1 {
        assert p[i + 1] == pushed[i + 1] && p[i] == pushed[i];
      }
    }
  }

  /** What `Linked` says of one recorded board: `null` exactly for the
      initial board, and otherwise a recorded board placed earlier and
      one move away. */
  lemma ParentOf(start: Board, parents: map<Board, Option<Board>>, log: Log, b: Board)
    requires Linked(start, parents, log.queued, log.index) && b in parents
    ensures b.board in log.index
    ensures parents[b].None? <==> b == start
    ensures parents[b].Some? ==>
      parents[b].value in parents && parents[b].value.board in log.index &&
      log.index[parents[b].value.board] < log.index[b.board] && Step(parents[b].value.board, b.board)
  {
  }

  /** The boards pushed from the goal back to the initial board, read
      backwards, are a solution. */
  lemma PushedSolution(start: Board, target: Board, pushed: seq<Board>)
    requires pushed != [] && pushed[0] == target && pushed[|pushed| - 1] == start
    requires HammingOf(target.board) == 0
    requires StepsBack(pushed)
    ensures IsSolution(start, Reverse(pushed))
  {
    var r := Reverse(pushed);
    forall i | 0 <= i < |r| - 1
      ensures Step(r[i].board, r[i + 1].board)
    {
      assert r[i] == pushed[|pushed| - 1 - i] && r[i + 1] == pushed[|pushed| - 2 - i];
    }
  }

  // ----- The solver -----

  /** What a finished search leaves: `moves` is the initial Manhattan
      distance; there is a solution exactly when a goal is reachable,
      and then it is a path of moves from the initial board to a goal;
      no grid was queued twice, and `processed` holds the texts of the
      queued grids. */
  ghost predicate Solved(start: Board, moves: int, processed: set<Rendering>, solution: seq<Board>, queued: seq<Grid>) {
    moves == ManhattanOf(start.board) &&
    (solution != [] <==> GoalReachable(start.board)) &&
    (solution != [] ==> IsSolution(start, solution)) &&
    |queued| > 0 && queued[0] == start.board &&
    (forall i, j :: 0 <= i < j < |queued| ==> queued[i] != queued[j]) &&
    (forall g :: Render(g) in processed <==> g in queued)
  }

  /** The body of the solver's constructor: `moves`, the search, and
      the rebuilt path. */
  method Solve(initial: Board)
    returns (m: int, parents: map<Board, Option<Board>>, processed: set<Rendering>, solution: seq<Board>,
             ghost queued: seq<Grid>)
    requires initial.Valid() && 0 in Flat(initial.board)
    modifies initial
    ensures Solved(initial, m, processed, solution, queued)
    ensures HammingOf(initial.board) == 0 ==> solution == [initial]
  {
    m := initial.Manhattan();
    var d := initial.Manhattan();
    var target;
    ghost var log;
    parents, processed, target, log := Search(initial, d);
    solution := [];
    if target.Some? {
      solution := Rebuild(initial, parents, target.value, log);
      SolutionReaches(initial, solution);
    }
    QueuedOnce(initial, processed, log);
    TextsSeen(initial, processed, log);
    queued := GridsOf(log.queued);
  }

  /** The constructor sets every field, and no method changes one. */
  class Solver {
    const moves: int
    const parents: map<Board, Option<Board>>
    const processed: set<Rendering>
    const solution: seq<Board>
    /** The initial board, and the grids queued during the search, in
        order. */
    ghost const start: Board
    ghost const queued: seq<Grid>

    /** What the constructor leaves (see `Solved`). */
    ghost predicate Valid()
      reads this
    {
      Solved(start, moves, processed, solution, queued)
    }

    /** `constructor(initial)`: search from `initial`, then rebuild the
        path from the goal found, if any. */
    constructor(initial: Board)
      requires initial.Valid() && 0 in Flat(initial.board)
      modifies initial
      ensures Valid() && start == initial
      ensures HammingOf(initial.board) == 0 ==> solution == [initial]
    {
      var m, ps, pr, sol, q := Solve(initial);
      moves, parents, processed, solution := m, ps, pr, sol;
      start, queued := initial, q;
    }

    /** `isSolvable()`: a solution was found. */
    function IsSolvable(): (b: bool)
      reads this
      requires Valid()
      ensures b <==> GoalReachable(start.board)
    {
      |solution| > 0
    }

    /** `moves()`: the initial board's Manhattan distance, not the length
        of the solution. */
    function Moves(): (m: int)
      reads this
      requires Valid()
      ensures m == ManhattanOf(start.board)
    {
      moves
    }

    /** `solution()`: the boards from the initial board to a goal, each
        one move from the last; empty when no goal is reachable. */
    function Solution(): (s: seq<Board>)
      reads this
      requires Valid()
      ensures s == [] <==> !GoalReachable(start.board)
      ensures s != [] ==> s[0] == start && HammingOf(s[|s| - 1].board) == 0
      ensures forall i :: 0 <= i < |s| - 1 ==> Step(s[i].board, s[i + 1].board)
    {
      solution
    }
  }

  /** The texts seen are those of the queued grids. */
  lemma TextsSeen(start: Board, processed: set<Rendering>, log: Log)
    requires Indexed(start, processed, log.queued, log.index)
    ensures var q := GridsOf(log.queued);
      |q| > 0 && q[0] == start.board && forall g :: Render(g) in processed <==> g in q
  {
    var q := GridsOf(log.queued);
    forall g
      ensures Render(g) in processed <==> g in q
    {
      if g in log.index {
        assert q[log.index[g]] == g;
      }
    }
  }

  // ----- Parity along paths -----

  /** Along a path from a puzzle grid every grid is a puzzle grid of the
      same side and the same parity. */
  lemma {:induction false} PathParity(p: seq<Grid>, i: int)
    requires IsPath(p) && IsTiles(p[0]) && 0 <= i < |p|
    ensures IsTiles(p[i]) && |p[i]| == |p[0]| && HoleOf(p[i]).Some? && HoleOf(p[0]).Some?
    ensures Parity(p[i]) == Parity(p[0])
  {
    HasHole(p[0]);
    if i > 0 {
      PathParity(p, i - 1);
      StepParity(p[i - 1], p[i]);
    }
  }

  /** A goal is reachable only from a puzzle grid of the goal's parity. */
  lemma GoalNeedsParity(g: Grid)
    requires IsTiles(g) && GoalReachable(g)
    ensures HoleOf(g).Some? && HoleOf(GoalGrid(|g|)).Some?
    ensures Parity(g) == Parity(GoalGrid(|g|))
  {
    var p :| Solves(p, g);
    PathParity(p, |p| - 1);
    GoalIff(p[|p| - 1]);
  }

  // ----- The two example runs -----

  const T1: Grid := [[0, 1, 3], [4, 2, 5], [7, 8, 6]]
  const T2: Grid := [[1, 2, 3], [4, 5, 6], [8, 7, 0]]

  /** A three-row grid reads as its rows one after another. */
  lemma FlatThree(g: Grid)
    requires |g| == 3
    ensures Flat(g) == g[0] + g[1] + g[2]
  {
    var two, one := g[..2], g[..2][..1];
    assert one[..0] == [];
    assert Flat(one) == Flat(one[..0]) + one[0] == g[0];
    assert two[..1] == one;
    assert Flat(two) == Flat(one) + two[1] == g[0] + g[1];
    assert Flat(g) == Flat(two) + g[2];
  }

  /** The blank the constructor records is the last 0 of the reading. */
  lemma HoleAt(g: Grid, i: int)
    requires |g| > 0 && 0 <= i < |Flat(g)| && Flat(g)[i] == 0
    requires forall j :: i < j < |Flat(g)| ==> Flat(g)[j] != 0
    ensures HoleOf(g) == Some(Cell(i, |g|))
  {
    LastBlankSpec(Flat(g));
  }

  /** Sliding the tile at `t` into the blank at `p`, index `i` of the
      reading of a 3-by-3 grid, is a move. */
  lemma MoveOf(g: Grid, i: int, p: (int, int), t: (int, int), h: Grid)
    requires |g| == 3 && IsSquare(g) && 0 <= i < 9 && p == Cell(i, 3)
    requires (g[0] + g[1] + g[2])[i] == 0 && forall j :: i < j < 9 ==> (g[0] + g[1] + g[2])[j] != 0
    requires t in Targets(3, p) && InGrid(3, t) && InGrid(3, p)
    requires Slide(g, p, t) == h
    ensures Step(g, h)
  {
    FlatThree(g);
    HoleAt(g, i);
    var k :| 0 <= k < |Targets(|g|, p)| && Targets(|g|, p)[k] == t;
    NeighborStep(g, p, t, k);
  }

  /** The grids after each move of t1's solution. */
  const T1a: Grid := [[1, 0, 3], [4, 2, 5], [7, 8, 6]]
  const T1b: Grid := [[1, 2, 3], [4, 0, 5], [7, 8, 6]]
  const T1c: Grid := [[1, 2, 3], [4, 5, 0], [7, 8, 6]]
  const T1d: Grid := [[1, 2, 3], [4, 5, 6], [7, 8, 0]]

  /** 1 left. */
  lemma T1Move1()
    ensures Step(T1, T1a)
  {
    assert Slide(T1, (0, 0), (0, 1))[0] == T1a[0];
    MoveOf(T1, 0, (0, 0), (0, 1), T1a);
  }

  /** 2 up. */
  lemma T1Move2()
    ensures Step(T1a, T1b)
  {
    assert Slide(T1a, (0, 1), (1, 1))[0] == T1b[0];
    assert Slide(T1a, (0, 1), (1, 1))[1] == T1b[1];
    MoveOf(T1a, 1, (0, 1), (1, 1), T1b);
  }

  /** 5 left. */
  lemma T1Move3()
    ensures Step(T1b, T1c)
  {
    assert Slide(T1b, (1, 1), (1, 2))[1] == T1c[1];
    MoveOf(T1b, 4, (1, 1), (1, 2), T1c);
  }

  /** 6 up. */
  lemma T1Move4()
    ensures Step(T1c, T1d)
  {
    assert Slide(T1c, (1, 2), (2, 2))[1] == T1d[1];
    assert Slide(T1c, (1, 2), (2, 2))[2] == T1d[2];
    MoveOf(T1c, 5, (1, 2), (2, 2), T1d);
  }

  /** The last grid of t1's solution is the 3-by-3 goal. */
  lemma GoalOfThree()
    ensures GoalGrid(3) == T1d && IsTiles(T1d) && HammingOf(T1d) == 0
  {
    var g := GoalGrid(3);
    FlatGoal(3);
    FlatThree(g);
    FlatThree(T1d);
    assert g[0] == Flat(g)[..3] == Flat(T1d)[..3] == T1d[0];
    assert g[1] == Flat(g)[3..6] == Flat(T1d)[3..6] == T1d[1];
    assert g[2] == Flat(g)[6..] == Flat(T1d)[6..] == T1d[2];
    GoalTiles(3);
    GoalIff(g);
  }

  /** t1 is solved by four moves: 1 left, 2 up, 5 left, 6 up. */
  lemma T1Solvable()
    ensures GoalReachable(T1)
  {
    T1Move1();
    T1Move2();
    T1Move3();
    T1Move4();
    GoalOfThree();
    var p := [T1, T1a, T1b, T1c, T1d];
    assert forall i :: 0 <= i < |p| - 1 ==> Step(p[i], p[i + 1]);
    assert Solves(p, T1);
  }

  /** t2 is the goal with 7 and 8 exchanged. */
  lemma T2Swapped()
    ensures |Flat(T1d)| == 9 && Flat(T2) == Swap(Flat(T1d), 6, 7) && IsTiles(T2)
  {
    GoalOfThree();
    FlatThree(T2);
    FlatThree(T1d);
    SwapTiles(Flat(T1d), 6, 7, 9);
  }

  /** Both have the blank in the bottom-right corner. */
  lemma CornerHoles()
    ensures HoleOf(T2) == Some((2, 2)) && HoleOf(T1d) == Some((2, 2))
  {
    FlatThree(T2);
    FlatThree(T1d);
    HoleAt(T2, 8);
    HoleAt(T1d, 8);
  }

  /** t2 and the goal have opposite parities: one exchange of tiles
      apart, with the blank in the same cell. */
  lemma ExampleParities()
    ensures IsTiles(T2) && HoleOf(T2).Some? && HoleOf(GoalGrid(3)).Some?
    ensures Parity(T2) != Parity(GoalGrid(3))
  {
    GoalOfThree();
    T2Swapped();
    CornerHoles();
    ExchangeFlipsParity(T1d, T2, 6, 7);
  }

  /** No sequence of moves solves t2. */
  lemma T2Unsolvable()
    ensures IsTiles(T2) && !GoalReachable(T2)
  {
    ExampleParities();
    if GoalReachable(T2) {
      GoalNeedsParity(T2);
    }
  }

  /** The `for (const b of s.solution())` loop: each board's text. */
  method Show(sol: seq<Board>) returns (shown: seq<Rendering>)
    ensures |shown| == |sol| && forall i :: 0 <= i < |sol| ==> shown[i] == Render(sol[i].board)
  {
    shown := [];
    for i := 0 to |sol|
      invariant |shown| == i && forall j :: 0 <= j < i ==> shown[j] == Render(sol[j].board)
    {
      shown := shown + [sol[i].ToString()];
    }
  }

  /** The renderings of a solution's boards are those of a path that
      solves its first grid. */
  lemma ShownSolves(sol: seq<Board>, t: Grid, shown: seq<Rendering>)
    requires |sol| > 0 && sol[0].board == t && HammingOf(sol[|sol| - 1].board) == 0
    requires forall i :: 0 <= i < |sol| - 1 ==> Step(sol[i].board, sol[i + 1].board)
    requires |shown| == |sol| && forall i :: 0 <= i < |sol| ==> shown[i] == Render(sol[i].board)
    ensures exists p :: Solves(p, t) && |p| == |shown| && forall i :: 0 <= i < |p| ==> shown[i] == Render(p[i])
  {
    var p := GridsOf(sol);
    assert Solves(p, t);
  }

  /** One example run: solve `t`; if it is solvable, show every board
      of the solution, otherwise show the initial board. */
  method Run(t: Grid) returns (solvable: bool, shown: seq<Rendering>)
    requires IsSquare(t) && 0 in Flat(t)
    ensures solvable <==> GoalReachable(t)
    ensures solvable ==>
      (exists p :: Solves(p, t) && |p| == |shown| && forall i :: 0 <= i < |p| ==> shown[i] == Render(p[i]))
    ensures !solvable ==> shown == [Render(t)]
  {
    var initial := new Board(t);
    var s := new Solver(initial);
    solvable := s.IsSolvable();
    if solvable {
      var sol := s.Solution();
      shown := Show(sol);
      ShownSolves(sol, t, shown);
    } else {
      var b := new Board(t);
      shown := [b.ToString()];
    }
  }

  /** The two runs: t1 is solved and its solution shown, t2 is reported
      unsolvable. */
  method ExampleRuns() returns (solvable1: bool, solvable2: bool, shown2: seq<Rendering>)
    ensures solvable1 && !solvable2 && shown2 == [Render(T2)]
  {
    T1Solvable();
    T2Unsolvable();
    var shown1;
    solvable1, shown1 := Run(T1);
    solvable2, shown2 := Run(T2);
  }
}
