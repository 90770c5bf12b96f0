/** Union-find with path halving (class `UnionFindCompressed` of
    percolation.js).

    `parents` is the source's array of parent links.  The ghost `depth`
    is a ranking that strictly drops from every non-root to its parent;
    it witnesses that the links form a forest, which is what makes
    `_root`'s walk end.  Roots are given by `RootOf`, a function of the
    parent links. */
module UnionFinding {

  /** Every link stays inside `[0..|p|)` and leads to a lower rank. */
  ghost predicate Forest(p: seq<int>, d: seq<nat>) {
    |p| == |d| &&
    (forall i :: 0 <= i < |p| ==> 0 <= p[i] < |p|) &&
    (forall i :: 0 <= i < |p| && p[i] != i ==> d[p[i]] < d[i])
  }

  /** The self-parented index reached by following links from `i`. */
  ghost function RootOf(p: seq<int>, d: seq<nat>, i: int): (r: int)
    requires Forest(p, d) && 0 <= i < |p|
    ensures 0 <= r < |p| && p[r] == r
    decreases d[i]
  {
    if p[i] == i then i else RootOf(p, d, p[i])
  }

  /** One path-halving step, `p[x] := p[p[x]]`, keeps the forest and
      changes no index's root. */
  lemma HalveStep(p: seq<int>, d: seq<nat>, x: int)
    requires Forest(p, d) && 0 <= x < |p|
    ensures Forest(p[x := p[p[x]]], d)
    ensures forall j :: 0 <= j < |p| ==> RootOf(p[x := p[p[x]]], d, j) == RootOf(p, d, j)
  {
    var q := p[x := p[p[x]]];
    forall j | 0 <= j < |p| ensures RootOf(q, d, j) == RootOf(p, d, j) {
      HalveRoot(p, d, x, j);
    }
  }

  lemma {:induction false} HalveRoot(p: seq<int>, d: seq<nat>, x: int, j: int)
    requires Forest(p, d) && 0 <= x < |p| && 0 <= j < |p|
    ensures Forest(p[x := p[p[x]]], d)
    ensures RootOf(p[x := p[p[x]]], d, j) == RootOf(p, d, j)
    decreases d[j]
  {
    var q := p[x := p[p[x]]];
    if p[j] != j {
      HalveRoot(p, d, x, p[j]);
      if j == x && p[p[x]] != p[x] {
        HalveRoot(p, d, x, p[p[x]]);
        assert RootOf(p, d, p[x]) == RootOf(p, d, p[p[x]]);
      }
    }
  }

  /** The ranks after linking root `ra` under root `rb`: everything in
      `ra`'s tree moves above `rb`'s rank. */
  ghost function Relinked(p: seq<int>, d: seq<nat>, ra: int, rb: int): (d': seq<nat>)
    requires Forest(p, d) && 0 <= ra < |p| && 0 <= rb < |p|
    ensures |d'| == |d|
  {
    seq(|d|, j requires 0 <= j < |d| =>
      if RootOf(p, d, j) == ra then d[j] + d[rb] + 1 else d[j])
  }

  /** Linking root `ra` under root `rb` keeps a forest, with the ranks of
      `Relinked`, and sends exactly `ra`'s tree to the root `rb`. */
  lemma LinkRoots(p: seq<int>, d: seq<nat>, ra: int, rb: int)
    requires Forest(p, d) && 0 <= ra < |p| && 0 <= rb < |p| && p[ra] == ra && p[rb] == rb
    ensures Forest(p[ra := rb], Relinked(p, d, ra, rb))
    ensures forall j :: 0 <= j < |p| ==>
      RootOf(p[ra := rb], Relinked(p, d, ra, rb), j) ==
      (if RootOf(p, d, j) == ra then rb else RootOf(p, d, j))
  {
    var q, e := p[ra := rb], Relinked(p, d, ra, rb);
    forall i | 0 <= i < |q| && q[i] != i ensures e[q[i]] < e[i] {
      if i != ra {
        assert RootOf(p, d, i) == RootOf(p, d, p[i]);
      }
    }
    forall j | 0 <= j < |p|
      ensures RootOf(q, e, j) == (if RootOf(p, d, j) == ra then rb else RootOf(p, d, j))
    {
      LinkRoot(p, d, ra, rb, j);
    }
  }

  lemma {:induction false} LinkRoot(p: seq<int>, d: seq<nat>, ra: int, rb: int, j: int)
    requires Forest(p, d) && 0 <= ra < |p| && 0 <= rb < |p| && p[ra] == ra && p[rb] == rb
    requires Forest(p[ra := rb], Relinked(p, d, ra, rb)) && 0 <= j < |p|
    ensures RootOf(p[ra := rb], Relinked(p, d, ra, rb), j) ==
      (if RootOf(p, d, j) == ra then rb else RootOf(p, d, j))
    decreases d[j]
  {
    if p[j] != j {
      LinkRoot(p, d, ra, rb, p[j]);
    }
  }

  class UnionFindCompressed {
    var parents: array<int>
    ghost var depth: seq<nat>

    ghost predicate Valid()
      reads this, parents
    {
      Forest(parents[..], depth)
    }

    /** The root of `i` in the current forest. */
    ghost function Root(i: int): (r: int)
      reads this, parents
      requires Valid() && 0 <= i < parents.Length
      ensures 0 <= r < parents.Length && parents[r] == r
    {
      RootOf(parents[..], depth, i)
    }

    /** `constructor(n)`: `n` singletons, each its own parent. */
    constructor(n: nat)
      ensures Valid() && fresh(parents) && parents.Length == n
      ensures forall i :: 0 <= i < n ==> parents[i] == i && Root(i) == i
    {
      parents := new int[n](i => i);
      depth := seq(n, i => 0);
    }

    /** `_root(index)`: walk to the root, pointing every visited node at
        its grandparent on the way; no index changes root. */
    method FindRoot(index: int) returns (r: int)
      requires Valid() && 0 <= index < parents.Length
      modifies parents
      ensures Valid()
      ensures r == old(Root(index))
      ensures forall j :: 0 <= j < parents.Length ==> Root(j) == old(Root(j))
    {
      ghost var p0 := parents[..];
      var i := index;
      while parents[i] != i
        invariant Valid() && 0 <= i < parents.Length
        invariant Root(i) == RootOf(p0, depth, index)
        invariant forall j :: 0 <= j < parents.Length ==> Root(j) == RootOf(p0, depth, j)
        decreases depth[i]
      {
        ghost var p := parents[..];
        HalveStep(p, depth, i);
        parents[i] := parents[parents[i]];
        assert parents[..] == p[i := p[p[i]]];
        assert RootOf(p, depth, i) == RootOf(p, depth, p[i]);
        i := parents[i];
      }
      return i;
    }

    /** `connected(a, b)`: whether `a` and `b` share a root. */
    method Connected(a: int, b: int) returns (c: bool)
      requires Valid() && 0 <= a < parents.Length && 0 <= b < parents.Length
      modifies parents
      ensures Valid()
      ensures c <==> old(Root(a)) == old(Root(b))
      ensures forall j :: 0 <= j < parents.Length ==> Root(j) == old(Root(j))
    {
      var ra := FindRoot(a);
      var rb := FindRoot(b);
      c := ra == rb;
    }

    /** `union(a, b)`: link the root of `a` under the root of `b`.  The
        only change in connectivity is that `a`'s class joins `b`'s. */
    method Union(a: int, b: int)
      requires Valid() && 0 <= a < parents.Length && 0 <= b < parents.Length
      modifies this, parents
      ensures Valid() && parents == old(parents)
      ensures forall j :: 0 <= j < parents.Length ==>
        Root(j) == if old(Root(j)) == old(Root(a)) then old(Root(b)) else old(Root(j))
    {
      var ra := FindRoot(a);
      var rb := FindRoot(b);
      ghost var p, d := parents[..], depth;
      LinkRoots(p, d, ra, rb);
      parents[ra] := rb;
      depth := Relinked(p, d, ra, rb);
      assert parents[..] == p[ra := rb];
    }
  }

  /** The scenario at the end of percolation.js: ten unions over sixteen
      sites, then four pairs that are connected and three that are not. */
  method Scenario() returns (connected: seq<bool>)
    ensures connected == [true, true, true, true, false, false, false]
  {
    var u := BuildScenario();
    MidScenario(u);
    FinishScenario(u);
    var c := ConnectedPairs(u);
    var d := DisconnectedPairs(u);
    connected := c + d;
  }

  /** The `k`-th union of the scenario (from 0). */
  function ScenarioPair(k: nat): (int, int)
    requires k < 10
  {
    [(0, 1), (1, 2), (1, 5), (6, 5), (6, 10), (3, 7), (4, 9), (12, 9), (14, 9), (14, 15)][k]
  }

  /** The root of site `j` after the first `k` unions of the scenario. */
  function ScenarioRoot(k: nat, j: int): int
    requires k <= 10
  {
    var first := [{}, {0, 1}, {0, 1, 2}, {0, 1, 2, 5}, {0, 1, 2, 5, 6}][if k < 5 then k else 0];
    var firstRoot := [0, 1, 2, 5, 5][if k < 5 then k else 0];
    var third := [{}, {4, 9}, {4, 9, 12}, {4, 9, 12, 14}, {4, 9, 12, 14, 15}][if k < 7 then 0 else k - 6];
    if k < 5 && j in first then firstRoot
    else if 5 <= k && j in {0, 1, 2, 5, 6, 10} then 10
    else if 6 <= k && j in {3, 7} then 7
    else if j in third then (if k == 10 then 15 else 9)
    else j
  }

  /** Each union of the scenario merges the class of its first site into
      the class of its second. */
  lemma ScenarioStep(k: nat)
    requires k < 10
    ensures var (a, b) := ScenarioPair(k);
      forall j :: 0 <= j < 16 ==>
        ScenarioRoot(k + 1, j) ==
        (if ScenarioRoot(k, j) == ScenarioRoot(k, a) then ScenarioRoot(k, b) else ScenarioRoot(k, j))
  {
  }

  /** `u` is the scenario's structure after its first `k` unions. */
  ghost predicate AtStage(u: UnionFindCompressed, k: nat)
    requires k <= 10
    reads u, u.parents
  {
    u.Valid() && u.parents.Length == 16 &&
    forall j :: 0 <= j < 16 ==> u.Root(j) == ScenarioRoot(k, j)
  }

  /** The `k`-th union of the scenario. */
  method ScenarioUnion(u: UnionFindCompressed, k: nat)
    requires k < 10 && AtStage(u, k)
    modifies u, u.parents
    ensures AtStage(u, k + 1) && u.parents == old(u.parents)
  {
    var (a, b) := ScenarioPair(k);
    u.Union(a, b);
    ScenarioStep(k);
  }

  /** The scenario's sixteen sites after its first five unions. */
  method BuildScenario() returns (u: UnionFindCompressed)
    ensures fresh(u) && fresh(u.parents) && AtStage(u, 5)
  {
    u := new UnionFindCompressed(16);
    ScenarioUnion(u, 0);
    ScenarioUnion(u, 1);
    ScenarioUnion(u, 2);
    ScenarioUnion(u, 3);
    ScenarioUnion(u, 4);
  }

  /** The scenario's sixth to eighth unions. */
  method MidScenario(u: UnionFindCompressed)
    requires AtStage(u, 5)
    modifies u, u.parents
    ensures AtStage(u, 8) && u.parents == old(u.parents)
  {
    ScenarioUnion(u, 5);
    ScenarioUnion(u, 6);
    ScenarioUnion(u, 7);
  }

  /** The scenario's last two unions. */
  method FinishScenario(u: UnionFindCompressed)
    requires AtStage(u, 8)
    modifies u, u.parents
    ensures AtStage(u, 10) && u.parents == old(u.parents)
  {
    ScenarioUnion(u, 8);
    ScenarioUnion(u, 9);
  }

  /** The four pairs the scenario reports as connected. */
  method ConnectedPairs(u: UnionFindCompressed) returns (r: seq<bool>)
    requires AtStage(u, 10)
    modifies u.parents
    ensures AtStage(u, 10) && r == [true, true, true, true]
  {
    var c0 := u.Connected(0, 6);
    var c1 := u.Connected(5, 2);
    var c2 := u.Connected(9, 14);
    var c3 := u.Connected(12, 15);
    r := [c0, c1, c2, c3];
  }

  /** The three pairs the scenario reports as not connected. */
  method DisconnectedPairs(u: UnionFindCompressed) returns (r: seq<bool>)
    requires AtStage(u, 10)
    modifies u.parents
    ensures AtStage(u, 10) && r == [false, false, false]
  {
    var d0 := u.Connected(0, 11);
    var d1 := u.Connected(8, 13);
    var d2 := u.Connected(12, 10);
    r := [d0, d1, d2];
  }
}
