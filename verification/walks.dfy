/** Tree walks over the containment graph: `run_on_tree` (model.py:84-98)
    applying `increment_seen` (model.py:100-104) at every visited node, the
    number of walks that counts its visits, and the bookkeeping identity
    behind the incrementally maintained seen counts. */
module Walks {
  import opened Ids
  import opened Sums
  import opened Graph

  function Ind(b: bool): int
  {
    if b then 1 else 0
  }

  /** Number of walks from `a` to `x` of at most `fuel` steps: how many
      times a walk started at `a` visits `x`. */
  function Paths(g: Graph, up: bool, a: Node, x: Node, fuel: nat): int
    decreases fuel, 1
  {
    Ind(a == x) + if fuel == 0 then 0 else Sum(g.nodes, Step(g, up, a, x, fuel - 1))
  }

  /** Walks to `x` that start with the step a -> y, for each y. */
  function Step(g: Graph, up: bool, a: Node, x: Node, fuel: nat): Node -> int
    decreases fuel, 2
  {
    y => if Edge(g, up, a, y) then Paths(g, up, y, x, fuel) else 0
  }

  /** Walks from `a` that end with the step q -> x, for each q. */
  function Back(g: Graph, up: bool, a: Node, x: Node, fuel: nat): Node -> int
  {
    q => if Edge(g, up, q, x) then Paths(g, up, a, q, fuel) else 0
  }

  /** A seen count, zero for nodes without one. */
  function Get(seen: map<Node, int>, x: Node): int
  {
    if x in seen then seen[x] else 0
  }

  /** `increment_seen(current, amount)`. */
  function Bump(seen: map<Node, int>, x: Node, amount: int): (r: map<Node, int>)
    ensures r.Keys == seen.Keys
  {
    if x in seen then seen[x := seen[x] + amount] else seen
  }

  /** `run_on_tree(current, is_searching_up, increment_seen(amount))`: bump
      the current node, then walk each next-layer node in matrix order. A
      node reached along several walks is bumped once per walk. */
  function RunOnTree(g: Graph, up: bool, current: Node, amount: int, fuel: nat, seen: map<Node, int>): map<Node, int>
    decreases fuel, 0
  {
    var bumped := Bump(seen, current, amount);
    if fuel == 0 then bumped else RunOnLayer(g, up, current, g.nodes, amount, fuel - 1, bumped)
  }

  function RunOnLayer(g: Graph, up: bool, current: Node, ys: seq<Node>, amount: int, fuel: nat, seen: map<Node, int>): map<Node, int>
    decreases fuel, |ys| + 1
  {
    if ys == [] then seen
    else
      var next := if Edge(g, up, current, ys[0]) then RunOnTree(g, up, ys[0], amount, fuel, seen) else seen;
      RunOnLayer(g, up, current, ys[1..], amount, fuel, next)
  }

  /** Sum of the seen counts of the direct parents of `x`. */
  function ParentSum(g: Graph, seen: map<Node, int>, x: Node): int
  {
    Sum(g.nodes, ParentTerms(g, seen, x))
  }

  function ParentTerms(g: Graph, seen: map<Node, int>, x: Node): Node -> int
  {
    q => if Edge(g, false, q, x) then Get(seen, q) else 0
  }

  /** How far the seen count of `x` is from its own roots (`base`) plus its
      parents' seen counts; zero everywhere is the seen invariant. */
  function Defect(g: Graph, base: int, seen: map<Node, int>, x: Node): int
  {
    Get(seen, x) - base - ParentSum(g, seen, x)
  }

  // ---------------------------------------------------------------------
  // The walk adds `amount` once per walk

  lemma {:induction false} RunOnTreeKeys(g: Graph, up: bool, current: Node, amount: int, fuel: nat, seen: map<Node, int>)
    ensures RunOnTree(g, up, current, amount, fuel, seen).Keys == seen.Keys
    decreases fuel, 0
  {
    if fuel > 0 {
      RunOnLayerKeys(g, up, current, g.nodes, amount, fuel - 1, Bump(seen, current, amount));
    }
  }

  lemma {:induction false} RunOnLayerKeys(g: Graph, up: bool, current: Node, ys: seq<Node>, amount: int, fuel: nat, seen: map<Node, int>)
    ensures RunOnLayer(g, up, current, ys, amount, fuel, seen).Keys == seen.Keys
    decreases fuel, |ys| + 1
  {
    if ys != [] {
      var next := if Edge(g, up, current, ys[0]) then RunOnTree(g, up, ys[0], amount, fuel, seen) else seen;
      if Edge(g, up, current, ys[0]) {
        RunOnTreeKeys(g, up, ys[0], amount, fuel, seen);
      }
      RunOnLayerKeys(g, up, current, ys[1..], amount, fuel, next);
    }
  }

  /** Walks from `current` with `fuel` steps to spare bump `x` once per walk. */
  lemma {:induction false} RunOnTreeEffect(g: Graph, up: bool, current: Node, amount: int, fuel: nat, seen: map<Node, int>, x: Node)
    requires x in seen
    ensures RunOnTree(g, up, current, amount, fuel, seen).Keys == seen.Keys
    ensures RunOnTree(g, up, current, amount, fuel, seen)[x] == seen[x] + amount * Paths(g, up, current, x, fuel)
    decreases fuel, 0
  {
    RunOnTreeKeys(g, up, current, amount, fuel, seen);
    var bumped := Bump(seen, current, amount);
    assert bumped[x] == seen[x] + amount * Ind(current == x);
    if fuel > 0 {
      RunOnLayerEffect(g, up, current, g.nodes, amount, fuel - 1, bumped, x);
      var s := Sum(g.nodes, Step(g, up, current, x, fuel - 1));
      assert Paths(g, up, current, x, fuel) == Ind(current == x) + s;
      assert amount * (Ind(current == x) + s) == amount * Ind(current == x) + amount * s;
    }
  }

  lemma {:induction false} RunOnLayerEffect(g: Graph, up: bool, current: Node, ys: seq<Node>, amount: int, fuel: nat, seen: map<Node, int>, x: Node)
    requires x in seen
    ensures RunOnLayer(g, up, current, ys, amount, fuel, seen).Keys == seen.Keys
    ensures RunOnLayer(g, up, current, ys, amount, fuel, seen)[x]
      == seen[x] + amount * Sum(ys, Step(g, up, current, x, fuel))
    decreases fuel, |ys| + 1
  {
    RunOnLayerKeys(g, up, current, ys, amount, fuel, seen);
    if ys != [] {
      var next := if Edge(g, up, current, ys[0]) then RunOnTree(g, up, ys[0], amount, fuel, seen) else seen;
      var head := if Edge(g, up, current, ys[0]) then Paths(g, up, ys[0], x, fuel) else 0;
      if Edge(g, up, current, ys[0]) {
        RunOnTreeEffect(g, up, ys[0], amount, fuel, seen, x);
      }
      assert x in next && next[x] == seen[x] + amount * head;
      RunOnLayerEffect(g, up, current, ys[1..], amount, fuel, next, x);
      var rest := Sum(ys[1..], Step(g, up, current, x, fuel));
      assert Sum(ys, Step(g, up, current, x, fuel)) == head + rest;
      assert amount * (head + rest) == amount * head + amount * rest;
    }
  }

  // ---------------------------------------------------------------------
  // Counting walks

  /** Without a successful search there is no walk. */
  lemma {:induction false} PathsZero(g: Graph, up: bool, a: Node, x: Node, f: nat)
    requires !Reach(g, up, a, x, f)
    ensures Paths(g, up, a, x, f) == 0
    decreases f
  {
    if f > 0 {
      forall y | y in g.nodes && Edge(g, up, a, y) ensures Paths(g, up, y, x, f - 1) == 0 {
        PathsZero(g, up, y, x, f - 1);
      }
      SumZero(g.nodes, Step(g, up, a, x, f - 1));
    }
  }

  /** Beyond the depth of `a`'s descendants, more fuel finds no more walks. */
  lemma {:induction false} PathsStable(g: Graph, up: bool, a: Node, x: Node, f: nat, f': nat)
    requires WellFormed(g) && AcyclicDir(g, up)
    requires f >= |Desc(g, up, a)| && f' >= |Desc(g, up, a)|
    ensures Paths(g, up, a, x, f) == Paths(g, up, a, x, f')
    decreases f
  {
    forall y | y in g.nodes && Edge(g, up, a, y)
      ensures f > 0 && f' > 0 && Paths(g, up, y, x, f - 1) == Paths(g, up, y, x, f' - 1)
    {
      DescStrict(g, up, a, y);
      PathsStable(g, up, y, x, f - 1, f' - 1);
    }
    if f > 0 && f' > 0 {
      SumExt(g.nodes, Step(g, up, a, x, f - 1), Step(g, up, a, x, f' - 1));
    } else if f > 0 {
      SumZero(g.nodes, Step(g, up, a, x, f - 1));
    } else if f' > 0 {
      SumZero(g.nodes, Step(g, up, a, x, f' - 1));
    }
  }

  /** The walks of length one. */
  function Direct(g: Graph, up: bool, a: Node, x: Node): Node -> int
  {
    y => if Edge(g, up, a, y) then Ind(y == x) else 0
  }

  lemma BackwardBase(g: Graph, up: bool, a: Node, x: Node)
    requires WellFormed(g) && a in g.nodes && x in g.nodes
    ensures Sum(g.nodes, Step(g, up, a, x, 0)) == Sum(g.nodes, Back(g, up, a, x, 0))
  {
    SumExt(g.nodes, Step(g, up, a, x, 0), Direct(g, up, a, x));
    SumSingle(g.nodes, Direct(g, up, a, x), x);
    SumSingle(g.nodes, Back(g, up, a, x, 0), a);
  }

  /** Walks of length two or more, grouped by their first step. */
  function RowTotals(g: Graph, up: bool, a: Node, x: Node, f: nat): Node -> int
  {
    y => if Edge(g, up, a, y) then Sum(g.nodes, Back(g, up, y, x, f)) else 0
  }

  /** Walks of length two or more, grouped by their last step. */
  function ColTotals(g: Graph, up: bool, a: Node, x: Node, f: nat): Node -> int
  {
    q => if Edge(g, up, q, x) then Sum(g.nodes, Step(g, up, a, q, f)) else 0
  }

  lemma FirstSplit(g: Graph, up: bool, a: Node, x: Node, f: nat)
    requires WellFormed(g) && x in g.nodes && f > 0
    requires forall y :: y in g.nodes ==> Sum(g.nodes, Step(g, up, y, x, f - 1)) == Sum(g.nodes, Back(g, up, y, x, f - 1))
    ensures Sum(g.nodes, Step(g, up, a, x, f)) == Ind(Edge(g, up, a, x)) + Sum(g.nodes, RowTotals(g, up, a, x, f - 1))
  {
    var N := g.nodes;
    var d := Direct(g, up, a, x);
    SumSingle(N, d, x);
    forall y | y in N ensures Step(g, up, a, x, f)(y) == d(y) + 1 * RowTotals(g, up, a, x, f - 1)(y) {
      assert Paths(g, up, y, x, f) == Ind(y == x) + Sum(N, Step(g, up, y, x, f - 1));
    }
    SumLinear(N, d, RowTotals(g, up, a, x, f - 1), 1, Step(g, up, a, x, f));
  }

  lemma LastSplit(g: Graph, up: bool, a: Node, x: Node, f: nat)
    requires WellFormed(g) && a in g.nodes && f > 0
    ensures Sum(g.nodes, Back(g, up, a, x, f)) == Ind(Edge(g, up, a, x)) + Sum(g.nodes, ColTotals(g, up, a, x, f - 1))
  {
    var N := g.nodes;
    var d := q => if Edge(g, up, q, x) then Ind(a == q) else 0;
    SumSingle(N, d, a);
    forall q | q in N ensures Back(g, up, a, x, f)(q) == d(q) + 1 * ColTotals(g, up, a, x, f - 1)(q) {
      assert Paths(g, up, a, q, f) == Ind(a == q) + Sum(N, Step(g, up, a, q, f - 1));
    }
    SumLinear(N, d, ColTotals(g, up, a, x, f - 1), 1, Back(g, up, a, x, f));
  }

  /** Both groupings count the same walks. */
  lemma TotalsAgree(g: Graph, up: bool, a: Node, x: Node, f: nat)
    ensures Sum(g.nodes, RowTotals(g, up, a, x, f)) == Sum(g.nodes, ColTotals(g, up, a, x, f))
  {
    var N := g.nodes;
    var rowT := y => q => if Edge(g, up, a, y) && Edge(g, up, q, x) then Paths(g, up, y, q, f) else 0;
    var colT := q => y => if Edge(g, up, a, y) && Edge(g, up, q, x) then Paths(g, up, y, q, f) else 0;
    forall y | y in N ensures RowTotals(g, up, a, x, f)(y) == Sum(N, rowT(y)) {
      SumGuard(N, Edge(g, up, a, y), Back(g, up, y, x, f), rowT(y));
    }
    forall q | q in N ensures ColTotals(g, up, a, x, f)(q) == Sum(N, colT(q)) {
      SumGuard(N, Edge(g, up, q, x), Step(g, up, a, q, f), colT(q));
    }
    SumSwapBy(N, N, rowT, colT, RowTotals(g, up, a, x, f), ColTotals(g, up, a, x, f));
  }

  /** Walks counted by their last step instead of their first. */
  lemma {:induction false} PathsBackward(g: Graph, up: bool, a: Node, x: Node, f: nat)
    requires WellFormed(g) && a in g.nodes && x in g.nodes
    ensures Paths(g, up, a, x, f + 1) == Ind(a == x) + Sum(g.nodes, Back(g, up, a, x, f))
    decreases f
  {
    if f == 0 {
      BackwardBase(g, up, a, x);
    } else {
      forall y | y in g.nodes ensures Sum(g.nodes, Step(g, up, y, x, f - 1)) == Sum(g.nodes, Back(g, up, y, x, f - 1)) {
        PathsBackward(g, up, y, x, f - 1);
      }
      FirstSplit(g, up, a, x, f);
      LastSplit(g, up, a, x, f);
      TotalsAgree(g, up, a, x, f - 1);
    }
  }

  /** With enough fuel, the walk count from `a` satisfies the same balance
      equation as the seen counts: one for `a` itself plus the counts of the
      parents. */
  lemma PathsBalanced(g: Graph, a: Node, x: Node)
    requires WellFormed(g) && Acyclic(g) && a in g.nodes && x in g.nodes
    ensures Paths(g, false, a, x, |g.nodes|) == Ind(a == x) + Sum(g.nodes, Back(g, false, a, x, |g.nodes|))
  {
    var n := |g.nodes|;
    DescBound(g, false, a);
    PathsBackward(g, false, a, x, n - 1);
    forall q | q in g.nodes ensures Paths(g, false, a, q, n - 1) == Paths(g, false, a, q, n) {
      PathsStable(g, false, a, q, n - 1, n);
    }
    SumExt(g.nodes, Back(g, false, a, x, n - 1), Back(g, false, a, x, n));
  }

  /** A walk from `a` that never meets `p` does not see edges leaving `p`. */
  lemma {:induction false} PathsFromUnaffected(g1: Graph, g2: Graph, p: Node, a: Node, x: Node, f: nat)
    requires AgreeOutside(g1, g2, p)
    requires forall h: nat :: !Reach(g1, false, a, p, h)
    ensures Paths(g1, false, a, x, f) == Paths(g2, false, a, x, f)
    decreases f
  {
    if f > 0 {
      assert Reach(g1, false, a, a, 0);
      forall y | y in g1.nodes
        ensures (if Edge(g1, false, a, y) then Paths(g1, false, y, x, f - 1) else 0)
             == (if Edge(g2, false, a, y) then Paths(g2, false, y, x, f - 1) else 0)
      {
        if Edge(g1, false, a, y) {
          forall h: nat ensures !Reach(g1, false, y, p, h) {
            if Reach(g1, false, y, p, h) {
              ReachStep(g1, false, a, y, p, h);
            }
          }
          PathsFromUnaffected(g1, g2, p, y, x, f - 1);
        }
      }
      SumExt(g1.nodes, Step(g1, false, a, x, f - 1), Step(g2, false, a, x, f - 1));
    }
  }

  // ---------------------------------------------------------------------
  // The seen bookkeeping identities

  /** Adding `amount` walks from a new root occurrence `r` keeps every
      node's defect, once `r`'s own root count moves by `amount`. This is
      the rack and stage case (model.py:240-272). */
  lemma RootWalkDefect(g: Graph, r: Node, amount: int, seen: map<Node, int>, seen': map<Node, int>, x: Node, base: int)
    requires WellFormed(g) && Acyclic(g) && r in g.nodes && x in g.nodes
    requires forall q :: q in g.nodes ==> q in seen && q in seen'
    requires forall q :: q in g.nodes ==> seen'[q] == seen[q] + amount * Paths(g, false, r, q, |g.nodes|)
    ensures Defect(g, base + (if x == r then amount else 0), seen', x) == Defect(g, base, seen, x)
  {
    var n := |g.nodes|;
    var walks := Back(g, false, r, x, n);
    var w := Sum(g.nodes, walks);
    assert ParentSum(g, seen', x) == ParentSum(g, seen, x) + amount * w by {
      RootWalkParents(g, r, amount, seen, seen', x);
    }
    assert Get(seen', x) == Get(seen, x) + (if x == r then amount else 0) + amount * w by {
      PathsBalanced(g, r, x);
      MulSplit(amount, Ind(r == x), w);
    }
  }

  /** The parents of `x` gain `amount` per walk from `r` to them. */
  lemma RootWalkParents(g: Graph, r: Node, amount: int, seen: map<Node, int>, seen': map<Node, int>, x: Node)
    requires forall q :: q in g.nodes ==> q in seen && q in seen'
    requires forall q :: q in g.nodes ==> seen'[q] == seen[q] + amount * Paths(g, false, r, q, |g.nodes|)
    ensures ParentSum(g, seen', x) == ParentSum(g, seen, x) + amount * Sum(g.nodes, Back(g, false, r, x, |g.nodes|))
  {
    var walks := Back(g, false, r, x, |g.nodes|);
    forall q | q in g.nodes ensures ParentTerms(g, seen', x)(q) == ParentTerms(g, seen, x)(q) + amount * walks(q) {
    }
    SumLinear(g.nodes, ParentTerms(g, seen, x), walks, amount, ParentTerms(g, seen', x));
  }

  lemma MulNeg(a: int, b: int)
    ensures (-a) * b == -(a * b)
  {
  }

  lemma MulSplit(a: int, b: int, c: int)
    ensures a * (b + c) == a * b + a * c
  {
  }

  /** A new edge p -> c adds `p`'s count to the parent sum of `c` only. */
  lemma ParentSumAfterAdd(g: Graph, p: Node, c: Node, seen: map<Node, int>, x: Node)
    requires WellFormed(g) && p in g.nodes && (p, c) !in g.edges
    ensures ParentSum(AddEdge(g, p, c), seen, x) == ParentSum(g, seen, x) + (if x == c then Get(seen, p) else 0)
  {
    var added := q => if q == p && x == c then Get(seen, q) else 0;
    forall q | q in g.nodes ensures ParentTerms(AddEdge(g, p, c), seen, x)(q) == ParentTerms(g, seen, x)(q) + 1 * added(q) {
    }
    SumLinear(g.nodes, ParentTerms(g, seen, x), added, 1, ParentTerms(AddEdge(g, p, c), seen, x));
    if x == c {
      SumSingle(g.nodes, added, p);
    } else {
      SumZero(g.nodes, added);
    }
  }

  /** Adding the edge p -> c together with `seen[p]` walks from `c` keeps
      every node's defect. Read backwards it is the removal case. This is
      the nesting case (model.py:169-170, 187-188, 214-215, 232-233). */
  lemma EdgeWalkDefect(g: Graph, p: Node, c: Node, seen: map<Node, int>, seen': map<Node, int>, x: Node, base: int)
    requires WellFormed(g) && Acyclic(g) && p in g.nodes && c in g.nodes && x in g.nodes
    requires (p, c) !in g.edges && !Reach(g, false, c, p, |g.nodes|)
    requires forall q :: q in g.nodes ==> q in seen && q in seen'
    requires forall q :: q in g.nodes ==> seen'[q] == seen[q] + seen[p] * Paths(g, false, c, q, |g.nodes|)
    ensures Defect(AddEdge(g, p, c), base, seen', x) == Defect(g, base, seen, x)
  {
    var k := seen[p];
    var extra := if x == c then k else 0;
    assert Get(seen', p) == k by {
      PathsZero(g, false, c, p, |g.nodes|);
      assert seen'[p] == k + k * 0;
    }
    assert ParentSum(AddEdge(g, p, c), seen', x) == ParentSum(g, seen', x) + extra by {
      ParentSumAfterAdd(g, p, c, seen', x);
    }
    assert Defect(g, base + extra, seen', x) == Defect(g, base, seen, x) by {
      RootWalkDefect(g, c, k, seen, seen', x, base);
    }
  }

  /** Removing the edge p -> c together with minus `seen[p]` walks from `c`
      (the counts `w`) keeps every node's defect, whether the walks run in
      the graph with the edge or without it: from `c` they never meet `p`. */
  lemma RemoveWalkDefect(d: Graph, p: Node, c: Node, walked: Graph, seen: map<Node, int>, amount: int, w: map<Node, int>, x: Node, base: int)
    requires WellFormed(d) && Acyclic(AddEdge(d, p, c)) && p in d.nodes && c in d.nodes && x in d.nodes
    requires (p, c) !in d.edges && p in seen && amount == -seen[p]
    requires walked == d || walked == AddEdge(d, p, c)
    requires forall q :: q in d.nodes ==> q in seen
    requires forall q :: q in d.nodes ==> q in w && w[q] == seen[q] + amount * Paths(walked, false, c, q, |d.nodes|)
    ensures Defect(d, base, w, x) == Defect(AddEdge(d, p, c), base, seen, x)
  {
    var e := AddEdge(d, p, c);
    var n := |d.nodes|;
    assert Acyclic(d) && !Reach(d, false, c, p, n) by {
      AcyclicSub(d, e);
      if Reach(d, false, c, p, n) {
        assert Edge(e, false, p, c);
        ReachSub(d, e, false, c, p, n);
        assert false;
      }
    }
    assert forall q :: q in d.nodes ==> Paths(walked, false, c, q, n) == Paths(d, false, c, q, n) by {
      forall q | q in d.nodes ensures Paths(walked, false, c, q, n) == Paths(d, false, c, q, n) {
        if walked == e {
          assert Edge(e, false, p, c);
          PathsFromUnaffected(e, d, p, c, q, n);
        }
      }
    }
    assert p in w && w[p] == seen[p] by {
      PathsZero(d, false, c, p, n);
      assert w[p] == seen[p] + amount * 0;
    }
    forall q | q in d.nodes ensures q in w && seen[q] == w[q] + w[p] * Paths(d, false, c, q, n) {
      MulNeg(w[p], Paths(d, false, c, q, n));
    }
    EdgeWalkDefect(d, p, c, w, seen, x, base);
  }
}
