/** The containment graph behind the nesting matrix, and the reachability
    search `check_tree_for` (model.py:65-82) used to refuse circular nesting.

    An edge (a, b) means that b is a direct child of a: a shelf holding a
    task, or a task holding a shelf. Searching "up" follows edges backwards.
    The source's search is unbounded and relies on the graph being acyclic
    to terminate; here it carries a depth bound (fuel), and the lemmas below
    show that the number of nodes is always enough fuel in an acyclic graph. */
module Graph {
  import opened Ids
  import opened Sums

  datatype Graph = Graph(nodes: seq<Node>, edges: set<(Node, Node)>)

  /** Nodes are listed once and every edge joins two listed nodes. */
  predicate WellFormed(g: Graph)
  {
    && Distinct(g.nodes)
    && forall e {:trigger e in g.edges} :: e in g.edges ==> e.0 in g.nodes && e.1 in g.nodes
  }

  /** One step of the search: downwards from a parent to a child, or
      upwards from a child to a parent. */
  predicate Edge(g: Graph, up: bool, a: Node, b: Node)
  {
    if up then (b, a) in g.edges else (a, b) in g.edges
  }

  /** `b` can be reached from `a` in at most `fuel` steps. The source's
      `check_tree_for` visits the next layer in matrix order and stops at
      the first hit; for its boolean answer only existence matters. */
  predicate Reach(g: Graph, up: bool, a: Node, b: Node, fuel: nat)
    decreases fuel
  {
    a == b || (fuel > 0 && exists y :: y in g.nodes && Edge(g, up, a, y) && Reach(g, up, y, b, fuel - 1))
  }

  /** `check_tree_for(current, target, is_searching_up)`, with as much
      depth as there are nodes. */
  function CheckTreeFor(g: Graph, current: Node, target: Node, up: bool): bool
  {
    Reach(g, up, current, target, |g.nodes|)
  }

  /** No node reaches itself through one or more steps. */
  ghost predicate AcyclicDir(g: Graph, up: bool)
  {
    forall a, b, f: nat :: Edge(g, up, a, b) ==> !Reach(g, up, b, a, f)
  }

  ghost predicate Acyclic(g: Graph)
  {
    AcyclicDir(g, false)
  }

  /** The graph with one more edge. */
  function AddEdge(g: Graph, p: Node, c: Node): Graph
  {
    Graph(g.nodes, g.edges + {(p, c)})
  }

  /** Two graphs over the same nodes whose edges differ only in edges
      leaving `p`. */
  ghost predicate AgreeOutside(g1: Graph, g2: Graph, p: Node)
  {
    && g1.nodes == g2.nodes
    && forall x, y {:trigger (x, y) in g1.edges} {:trigger (x, y) in g2.edges} :: x != p ==> ((x, y) in g1.edges <==> (x, y) in g2.edges)
  }

  /** Nodes reachable from `a` through at least one step. In an acyclic
      graph it shrinks strictly along every edge, which bounds search depth. */
  ghost function Desc(g: Graph, up: bool, a: Node): set<Node>
  {
    set b | b in g.nodes && exists y, f: nat :: y in g.nodes && Edge(g, up, a, y) && Reach(g, up, y, b, f)
  }

  // ---------------------------------------------------------------------
  // Basic facts about Reach

  lemma {:induction false} ReachMono(g: Graph, up: bool, a: Node, b: Node, f: nat, f': nat)
    requires f <= f' && Reach(g, up, a, b, f)
    ensures Reach(g, up, a, b, f')
    decreases f
  {
    if a != b {
      var y :| y in g.nodes && Edge(g, up, a, y) && Reach(g, up, y, b, f - 1);
      ReachMono(g, up, y, b, f - 1, f' - 1);
    }
  }

  lemma {:induction false} ReachTrans(g: Graph, up: bool, a: Node, b: Node, c: Node, f1: nat, f2: nat)
    requires Reach(g, up, a, b, f1) && Reach(g, up, b, c, f2)
    ensures Reach(g, up, a, c, f1 + f2)
    decreases f1
  {
    if a == b {
      ReachMono(g, up, b, c, f2, f1 + f2);
    } else {
      var y :| y in g.nodes && Edge(g, up, a, y) && Reach(g, up, y, b, f1 - 1);
      ReachTrans(g, up, y, b, c, f1 - 1, f2);
    }
  }

  lemma ReachStep(g: Graph, up: bool, a: Node, y: Node, b: Node, f: nat)
    requires y in g.nodes && Edge(g, up, a, y) && Reach(g, up, y, b, f)
    ensures Reach(g, up, a, b, f + 1)
  {
  }

  /** A search that succeeds after a first step ends with a last step. */
  lemma {:induction false} ReachLast(g: Graph, up: bool, a: Node, b: Node, f: nat)
    requires WellFormed(g)
    requires Reach(g, up, a, b, f) && a != b
    ensures f > 0 && exists y :: y in g.nodes && Reach(g, up, a, y, f - 1) && Edge(g, up, y, b)
    decreases f
  {
    var z :| z in g.nodes && Edge(g, up, a, z) && Reach(g, up, z, b, f - 1);
    if z == b {
      assert a in g.nodes by { if up { assert (z, a) in g.edges; } else { assert (a, z) in g.edges; } }
      assert Reach(g, up, a, a, f - 1);
    } else {
      ReachLast(g, up, z, b, f - 1);
      var y :| y in g.nodes && Reach(g, up, z, y, f - 2) && Edge(g, up, y, b);
      ReachStep(g, up, a, z, y, f - 2);
    }
  }

  /** Searching upwards from `a` for `b` is searching downwards from `b`
      for `a`, with the same depth. */
  lemma {:induction false} ReachReverse(g: Graph, a: Node, b: Node, f: nat)
    requires WellFormed(g)
    ensures Reach(g, true, a, b, f) == Reach(g, false, b, a, f)
    decreases f
  {
    if a != b && f > 0 {
      if Reach(g, true, a, b, f) {
        var y :| y in g.nodes && Edge(g, true, a, y) && Reach(g, true, y, b, f - 1);
        ReachReverse(g, y, b, f - 1);
        assert (y, a) in g.edges;
        assert Reach(g, false, a, a, 0);
        ReachStep(g, false, y, a, a, 0);
        ReachTrans(g, false, b, y, a, f - 1, 1);
      }
      if Reach(g, false, b, a, f) {
        ReachLast(g, false, b, a, f);
        var y :| y in g.nodes && Reach(g, false, b, y, f - 1) && Edge(g, false, y, a);
        ReachReverse(g, y, b, f - 1);
      }
    }
  }

  /** The upward half of the double check in the position functions adds
      nothing to the downward half. */
  lemma CheckUpMirrorsDown(g: Graph, shelf: Node, task: Node)
    requires WellFormed(g)
    ensures CheckTreeFor(g, shelf, task, true) == CheckTreeFor(g, task, shelf, false)
  {
    ReachReverse(g, shelf, task, |g.nodes|);
  }

  lemma AcyclicBothWays(g: Graph)
    requires WellFormed(g) && Acyclic(g)
    ensures AcyclicDir(g, true)
  {
    forall a, b, f: nat | Edge(g, true, a, b) ensures !Reach(g, true, b, a, f) {
      ReachReverse(g, b, a, f);
    }
  }

  // ---------------------------------------------------------------------
  // Depth bound

  lemma DescStrict(g: Graph, up: bool, a: Node, y: Node)
    requires WellFormed(g) && AcyclicDir(g, up)
    requires y in g.nodes && Edge(g, up, a, y)
    ensures Desc(g, up, y) < Desc(g, up, a)
    ensures |Desc(g, up, y)| < |Desc(g, up, a)|
  {
    forall b | b in Desc(g, up, y) ensures b in Desc(g, up, a) {
      var z, f: nat :| z in g.nodes && Edge(g, up, y, z) && Reach(g, up, z, b, f);
      ReachStep(g, up, y, z, b, f);
    }
    assert Reach(g, up, y, y, 0);
    assert y in Desc(g, up, a);
    assert forall z, f: nat :: Edge(g, up, y, z) ==> !Reach(g, up, z, y, f);
    assert y !in Desc(g, up, y);
    StrictSubsetSmaller(Desc(g, up, y), Desc(g, up, a));
  }

  lemma DescBound(g: Graph, up: bool, a: Node)
    requires WellFormed(g) && AcyclicDir(g, up) && a in g.nodes
    ensures |Desc(g, up, a)| < |g.nodes|
  {
    var all := set x | x in g.nodes;
    assert forall z, f: nat :: Edge(g, up, a, z) ==> !Reach(g, up, z, a, f);
    assert a !in Desc(g, up, a);
    assert Desc(g, up, a) < all;
    StrictSubsetSmaller(Desc(g, up, a), all);
    SetOfSeqBound(g.nodes);
  }

  /** Beyond the depth of `a`'s descendants, more fuel changes nothing. */
  lemma {:induction false} ReachStable(g: Graph, up: bool, a: Node, b: Node, f: nat, f': nat)
    requires WellFormed(g) && AcyclicDir(g, up)
    requires f >= |Desc(g, up, a)| && f' >= |Desc(g, up, a)|
    ensures Reach(g, up, a, b, f) == Reach(g, up, a, b, f')
    decreases f
  {
    if a != b {
      forall y | y in g.nodes && Edge(g, up, a, y)
        ensures f > 0 && f' > 0 && Reach(g, up, y, b, f - 1) == Reach(g, up, y, b, f' - 1)
      {
        DescStrict(g, up, a, y);
        ReachStable(g, up, y, b, f - 1, f' - 1);
      }
    }
  }

  /** Any successful search also succeeds with the bound `check_tree_for`
      uses. */
  lemma ReachWithin(g: Graph, up: bool, a: Node, b: Node, f: nat)
    requires WellFormed(g) && AcyclicDir(g, up) && a in g.nodes
    requires Reach(g, up, a, b, f)
    ensures CheckTreeFor(g, a, b, up)
  {
    DescBound(g, up, a);
    if f <= |g.nodes| {
      ReachMono(g, up, a, b, f, |g.nodes|);
    } else {
      ReachStable(g, up, a, b, f, |g.nodes|);
    }
  }

  // ---------------------------------------------------------------------
  // Acyclicity under adding and removing an edge

  lemma {:induction false} ReachAfterAdd(g: Graph, p: Node, c: Node, a: Node, b: Node, f: nat)
    requires forall h: nat :: !Reach(g, false, c, p, h)
    requires Reach(AddEdge(g, p, c), false, a, b, f)
    ensures Reach(g, false, a, b, f) || (Reach(g, false, a, p, f) && Reach(g, false, c, b, f))
    decreases f
  {
    var gg := AddEdge(g, p, c);
    if a != b {
      var y :| y in gg.nodes && Edge(gg, false, a, y) && Reach(gg, false, y, b, f - 1);
      ReachAfterAdd(g, p, c, y, b, f - 1);
      if Edge(g, false, a, y) {
        if Reach(g, false, y, b, f - 1) {
          ReachStep(g, false, a, y, b, f - 1);
        } else {
          ReachStep(g, false, a, y, p, f - 1);
          ReachMono(g, false, c, b, f - 1, f);
        }
      } else {
        assert a == p && y == c;
        ReachMono(g, false, c, b, f - 1, f);
      }
    }
  }

  /** Adding the edge p -> c keeps the graph acyclic when the downward
      search from c for p fails: the condition the position functions test
      before inserting. */
  lemma AcyclicAfterAdd(g: Graph, p: Node, c: Node)
    requires WellFormed(g) && Acyclic(g) && c in g.nodes
    requires !CheckTreeFor(g, c, p, false)
    ensures Acyclic(AddEdge(g, p, c))
  {
    var gg := AddEdge(g, p, c);
    forall h: nat ensures !Reach(g, false, c, p, h) {
      if Reach(g, false, c, p, h) {
        ReachWithin(g, false, c, p, h);
      }
    }
    forall a, b, f: nat | Edge(gg, false, a, b) ensures !Reach(gg, false, b, a, f) {
      if Reach(gg, false, b, a, f) {
        ReachAfterAdd(g, p, c, b, a, f);
        if (a, b) in g.edges {
          if !Reach(g, false, b, a, f) {
            assert Reach(g, false, b, p, f) && Reach(g, false, c, a, f);
            assert Reach(g, false, b, b, 0);
            ReachStep(g, false, a, b, b, 0);
            ReachTrans(g, false, c, a, b, f, 1);
            ReachTrans(g, false, c, b, p, f + 1, f);
          }
        }
      }
    }
  }

  /** The check is exact: with the edge p -> c added, an acyclic graph
      stays acyclic if and only if the search from c for p comes back
      empty. */
  lemma AddEdgeAcyclicIff(g: Graph, p: Node, c: Node)
    requires WellFormed(g) && Acyclic(g) && c in g.nodes
    ensures Acyclic(AddEdge(g, p, c)) <==> !CheckTreeFor(g, c, p, false)
  {
    if CheckTreeFor(g, c, p, false) {
      var gg := AddEdge(g, p, c);
      ReachSub(g, gg, false, c, p, |g.nodes|);
      assert Edge(gg, false, p, c);
    } else {
      AcyclicAfterAdd(g, p, c);
    }
  }

  lemma {:induction false} ReachSub(g: Graph, gg: Graph, up: bool, a: Node, b: Node, f: nat)
    requires g.nodes == gg.nodes && g.edges <= gg.edges
    requires Reach(g, up, a, b, f)
    ensures Reach(gg, up, a, b, f)
    decreases f
  {
    if a != b {
      var y :| y in g.nodes && Edge(g, up, a, y) && Reach(g, up, y, b, f - 1);
      ReachSub(g, gg, up, y, b, f - 1);
    }
  }

  /** Removing edges keeps the graph acyclic. */
  lemma AcyclicSub(g: Graph, gg: Graph)
    requires g.nodes == gg.nodes && g.edges <= gg.edges && Acyclic(gg)
    ensures Acyclic(g)
  {
    forall a, b, f: nat | Edge(g, false, a, b) ensures !Reach(g, false, b, a, f) {
      if Reach(g, false, b, a, f) {
        ReachSub(g, gg, false, b, a, f);
      }
    }
  }

  // ---------------------------------------------------------------------
  // Searches that cannot see a change

  /** A downward search from `a` that never meets `p` does not see edges
      leaving `p`. */
  lemma {:induction false} ReachFromUnaffected(g1: Graph, g2: Graph, p: Node, a: Node, b: Node, f: nat)
    requires AgreeOutside(g1, g2, p)
    requires forall h: nat :: !Reach(g1, false, a, p, h)
    ensures Reach(g1, false, a, b, f) == Reach(g2, false, a, b, f)
    decreases f
  {
    assert Reach(g1, false, a, a, 0);
    if a != b && f > 0 {
      forall y | y in g1.nodes && Edge(g1, false, a, y)
        ensures forall h: nat :: !Reach(g1, false, y, p, h)
      {
        forall h: nat ensures !Reach(g1, false, y, p, h) {
          if Reach(g1, false, y, p, h) {
            ReachStep(g1, false, a, y, p, h);
          }
        }
      }
      forall y | y in g1.nodes && Edge(g1, false, a, y)
        ensures Reach(g1, false, y, b, f - 1) == Reach(g2, false, y, b, f - 1)
      {
        ReachFromUnaffected(g1, g2, p, y, b, f - 1);
      }
    }
  }

  /** Whether `p` can be reached does not depend on the edges leaving `p`. */
  lemma {:induction false} ReachIntoUnaffected(g1: Graph, g2: Graph, p: Node, a: Node, f: nat)
    requires AgreeOutside(g1, g2, p)
    ensures Reach(g1, false, a, p, f) == Reach(g2, false, a, p, f)
    decreases f
  {
    if a != p && f > 0 {
      forall y | y in g1.nodes ensures Reach(g1, false, y, p, f - 1) == Reach(g2, false, y, p, f - 1) {
        ReachIntoUnaffected(g1, g2, p, y, f - 1);
      }
    }
  }

  /** The graphs differ at most in edges entering `c`. */
  ghost predicate AgreeInto(g1: Graph, g2: Graph, c: Node)
  {
    && g1.nodes == g2.nodes
    && forall x, y {:trigger (x, y) in g1.edges} {:trigger (x, y) in g2.edges} :: y != c ==> ((x, y) in g1.edges <==> (x, y) in g2.edges)
  }

  /** A downward search from a node that reaches `c` in neither graph
      cannot see the edges entering `c`. */
  lemma {:induction false} ReachAvoiding(g1: Graph, g2: Graph, c: Node, a: Node, b: Node, f: nat)
    requires AgreeInto(g1, g2, c)
    requires forall h: nat :: !Reach(g1, false, a, c, h) && !Reach(g2, false, a, c, h)
    ensures Reach(g1, false, a, b, f) == Reach(g2, false, a, b, f)
    decreases f
  {
    assert Reach(g1, false, c, c, 0) && Reach(g2, false, c, c, 0);
    if a != b && f > 0 {
      forall y | y in g1.nodes && (Edge(g1, false, a, y) || Edge(g2, false, a, y))
        ensures y != c && Edge(g1, false, a, y) && Edge(g2, false, a, y)
        ensures forall h: nat :: !Reach(g1, false, y, c, h) && !Reach(g2, false, y, c, h)
      {
        assert y != c by {
          if y == c {
            if Edge(g1, false, a, y) {
              ReachStep(g1, false, a, c, c, 0);
            } else {
              ReachStep(g2, false, a, c, c, 0);
            }
          }
        }
        forall h: nat ensures !Reach(g1, false, y, c, h) && !Reach(g2, false, y, c, h) {
          if Reach(g1, false, y, c, h) {
            ReachStep(g1, false, a, y, c, h);
          }
          if Reach(g2, false, y, c, h) {
            ReachStep(g2, false, a, y, c, h);
          }
        }
      }
      forall y | y in g1.nodes && Edge(g1, false, a, y)
        ensures Reach(g1, false, y, b, f - 1) == Reach(g2, false, y, b, f - 1)
      {
        ReachAvoiding(g1, g2, c, y, b, f - 1);
      }
    }
  }

  /** In two acyclic graphs that differ only in edges entering `c`, the
      searches from `c` agree: no walk from `c` comes back to it. */
  lemma ReachFromTarget(g1: Graph, g2: Graph, c: Node, b: Node, f: nat)
    requires AgreeInto(g1, g2, c) && Acyclic(g1) && Acyclic(g2)
    ensures Reach(g1, false, c, b, f) == Reach(g2, false, c, b, f)
  {
    if c != b && f > 0 {
      forall y | y in g1.nodes && (Edge(g1, false, c, y) || Edge(g2, false, c, y))
        ensures Edge(g1, false, c, y) && Edge(g2, false, c, y)
        ensures forall h: nat :: !Reach(g1, false, y, c, h) && !Reach(g2, false, y, c, h)
      {
        assert Reach(g1, false, c, c, 0) && Reach(g2, false, c, c, 0);
        assert y != c;
      }
      forall y | y in g1.nodes && Edge(g1, false, c, y)
        ensures Reach(g1, false, y, b, f - 1) == Reach(g2, false, y, b, f - 1)
      {
        ReachAvoiding(g1, g2, c, y, b, f - 1);
      }
    }
  }

  lemma AgreeIntoTrans(g1: Graph, g2: Graph, g3: Graph, c: Node)
    requires AgreeInto(g1, g2, c) && AgreeInto(g2, g3, c)
    ensures AgreeInto(g1, g3, c)
  {
  }

  lemma AgreeOutsideTrans(g1: Graph, g2: Graph, g3: Graph, p: Node)
    requires AgreeOutside(g1, g2, p) && AgreeOutside(g2, g3, p)
    ensures AgreeOutside(g1, g3, p)
  {
  }
}
