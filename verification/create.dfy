/** Creating an empty task or shelf (model.py:108-134): a fresh label, the
    default row with a seen count of 0, and a zero column or row of the
    nesting matrix. The new node has no edges, so the graph keeps its
    edges and every other node keeps its seen count and its position. */
module Create {
  import opened Ids
  import opened Sums
  import opened Graph
  import opened Walks
  import opened Positions
  import opened Values
  import opened State

  /** Every task id reads "t<digits>" and every shelf id "s<digits>", as
      the labels `generate_next_label` hands out. */
  predicate Labelled(m: Model)
  {
    (forall i :: 0 <= i < |m.tasks| ==> IsLabel(m.tasks[i], "t")) &&
    (forall i :: 0 <= i < |m.shelves| ==> IsLabel(m.shelves[i], "s"))
  }

  /** `create_empty_task`: the label is drawn with the random `offset`; the
      matrix gains a zero column, which the sparse nest already reads. */
  function CreateEmptyTask(m: Model, offset: int): (r: (Model, TaskId))
    requires 1 <= offset <= 25 && Labelled(m)
    ensures r.1 !in m.tasks && IsLabel(r.1, "t")
    ensures forall i :: 0 <= i < |m.tasks| ==> Suffix(m.tasks[i], "t") < Suffix(r.1, "t")
    ensures r.0.tasks == m.tasks + [r.1] && r.0.taskData == m.taskData[r.1 := EmptyTask]
    ensures r.0.seen == m.seen[TaskNode(r.1) := 0]
    ensures r.0.shelves == m.shelves && r.0.shelfData == m.shelfData && r.0.nest == m.nest
    ensures r.0.rack == m.rack && r.0.stage == m.stage
  {
    var t := GenerateNextLabel(m.tasks, "t", offset);
    (m.(tasks := m.tasks + [t], taskData := m.taskData[t := EmptyTask], seen := m.seen[TaskNode(t) := 0]), t)
  }

  /** `create_empty_shelf`: the same with prefix "s" and a zero row. */
  function CreateEmptyShelf(m: Model, offset: int): (r: (Model, ShelfId))
    requires 1 <= offset <= 25 && Labelled(m)
    ensures r.1 !in m.shelves && IsLabel(r.1, "s")
    ensures forall i :: 0 <= i < |m.shelves| ==> Suffix(m.shelves[i], "s") < Suffix(r.1, "s")
    ensures r.0.shelves == m.shelves + [r.1] && r.0.shelfData == m.shelfData[r.1 := EmptyShelf]
    ensures r.0.seen == m.seen[ShelfNode(r.1) := 0]
    ensures r.0.tasks == m.tasks && r.0.taskData == m.taskData && r.0.nest == m.nest
    ensures r.0.rack == m.rack && r.0.stage == m.stage
  {
    var s := GenerateNextLabel(m.shelves, "s", offset);
    (m.(shelves := m.shelves + [s], shelfData := m.shelfData[s := EmptyShelf], seen := m.seen[ShelfNode(s) := 0]), s)
  }

  // ---------------------------------------------------------------------
  // A node without edges

  lemma {:induction false} ReachSameEdges(g: Graph, gg: Graph, up: bool, a: Node, b: Node, f: nat)
    requires g.edges == gg.edges
    requires forall e :: e in g.edges ==> e.0 in gg.nodes && e.1 in gg.nodes
    requires Reach(g, up, a, b, f)
    ensures Reach(gg, up, a, b, f)
    decreases f
  {
    if a != b {
      var y :| y in g.nodes && Edge(g, up, a, y) && Reach(g, up, y, b, f - 1);
      ReachSameEdges(g, gg, up, y, b, f - 1);
      assert y in gg.nodes && Edge(gg, up, a, y);
    }
  }

  /** Listing more nodes but no more edges keeps the graph acyclic. */
  lemma AcyclicSameEdges(g: Graph, gg: Graph)
    requires g.edges == gg.edges && WellFormed(g) && Acyclic(g)
    ensures Acyclic(gg)
  {
    forall a, b, f: nat | Edge(gg, false, a, b) ensures !Reach(gg, false, b, a, f) {
      if Reach(gg, false, b, a, f) {
        ReachSameEdges(gg, g, false, b, a, f);
      }
    }
  }

  /** A node `y` listed between `a` and `b` with no edge and a seen count
      of 0 has no defect, and leaves every other defect as it was. */
  lemma IsolatedDefect(a: seq<Node>, y: Node, b: seq<Node>, edges: set<(Node, Node)>, seen: map<Node, int>, x: Node, base: int)
    requires forall e :: e in edges ==> e.0 != y && e.1 != y
    ensures x != y ==> Defect(Graph(a + [y] + b, edges), base, seen[y := 0], x) == Defect(Graph(a + b, edges), base, seen, x)
    ensures Defect(Graph(a + [y] + b, edges), 0, seen[y := 0], y) == 0
  {
    var g := Graph(a + b, edges);
    var gg := Graph(a + [y] + b, edges);
    var seen' := seen[y := 0];
    var t := ParentTerms(g, seen, x);
    var t' := ParentTerms(gg, seen', x);
    forall q ensures t'(q) == t(q) {
    }
    SumExt(gg.nodes, t', t);
    SumAppend(a + [y], b, t);
    SumAppend(a, [y], t);
    SumAppend(a, b, t);
    assert ParentSum(gg, seen', x) == ParentSum(g, seen, x);
    forall q | q in gg.nodes ensures ParentTerms(gg, seen', y)(q) == 0 {
    }
    SumZero(gg.nodes, ParentTerms(gg, seen', y));
  }

  // ---------------------------------------------------------------------
  // Lines that gain a zero cell

  /** A dense line that gains cells at position 0 stays dense with the
      same tail. */
  lemma DenseGrow(nest: Nest, side: Side, line: seq<Cell>, line': seq<Cell>)
    requires Dense(nest, side, line, Tail(nest, side, line))
    requires forall c :: c in line ==> c in line'
    requires forall c :: c in line' ==> c in line || Pos(nest, side, c) == 0
    ensures Dense(nest, side, line', Tail(nest, side, line'))
    ensures Tail(nest, side, line') == Tail(nest, side, line)
  {
    var n := Tail(nest, side, line);
    forall i | 1 <= i <= n ensures Filled(nest, side, line', i) {
      assert Filled(nest, side, line, i);
      var c :| c in line && Pos(nest, side, c) == i;
      assert c in line';
    }
    assert Dense(nest, side, line', n);
    DenseTail(nest, side, line', n);
  }

  /** A line of zero cells is dense with tail 0. */
  lemma DenseEmpty(nest: Nest, side: Side, line: seq<Cell>)
    requires forall c :: c in line ==> Pos(nest, side, c) == 0
    ensures Dense(nest, side, line, Tail(nest, side, line)) && Tail(nest, side, line) == 0
  {
    assert Dense(nest, side, line, 0);
    DenseTail(nest, side, line, 0);
  }

  // ---------------------------------------------------------------------
  // The invariant after a creation

  lemma TaskNodesAppend(tasks: seq<TaskId>, t: TaskId)
    ensures TaskNodes(tasks + [t]) == TaskNodes(tasks) + [TaskNode(t)]
  {
    var l := TaskNodes(tasks + [t]);
    var r := TaskNodes(tasks) + [TaskNode(t)];
    assert |l| == |r|;
    forall i | 0 <= i < |l| ensures l[i] == r[i] {
      if i < |tasks| {
        assert l[i] == TaskNode((tasks + [t])[i]);
      }
    }
  }

  lemma ShelfNodesAppend(shelves: seq<ShelfId>, s: ShelfId)
    ensures ShelfNodes(shelves + [s]) == ShelfNodes(shelves) + [ShelfNode(s)]
  {
    var l := ShelfNodes(shelves + [s]);
    var r := ShelfNodes(shelves) + [ShelfNode(s)];
    assert |l| == |r|;
    forall i | 0 <= i < |l| ensures l[i] == r[i] {
      if i < |shelves| {
        assert l[i] == ShelfNode((shelves + [s])[i]);
      }
    }
  }

  lemma DistinctAppend<T>(s: seq<T>, x: T)
    requires Distinct(s) && x !in s
    ensures Distinct(s + [x])
  {
    forall i, j | 0 <= i < j < |s + [x]| ensures (s + [x])[i] != (s + [x])[j] {
      if j == |s| {
        assert (s + [x])[i] == s[i];
      }
    }
  }

  /** The model after a creation: `m'` lists one more node `y`, which has
      no cells, a seen count of 0 and no roots. */
  lemma FreshNodeKeepsSeen(m: Model, m': Model, a: seq<Node>, y: Node, b: seq<Node>)
    requires Acyclic(GraphOf(m)) && SeenOk(m) && Distinct(m.tasks) && Distinct(m.shelves)
    requires Nodes(m) == a + b && Nodes(m') == a + [y] + b && y !in Nodes(m)
    requires EdgesOf(m') == EdgesOf(m) && m'.seen == m.seen[y := 0]
    requires forall x :: x in Nodes(m) ==> Base(m', x) == Base(m, x)
    requires Base(m', y) == 0
    ensures Acyclic(GraphOf(m')) && SeenOk(m')
  {
    GraphWellFormed(m);
    AcyclicSameEdges(GraphOf(m), GraphOf(m'));
    forall e | e in EdgesOf(m) ensures e.0 != y && e.1 != y {
    }
    forall x | x in Nodes(m') ensures Defect(GraphOf(m'), Base(m', x), m'.seen, x) == 0 {
      IsolatedDefect(a, y, b, EdgesOf(m), m.seen, x, Base(m', x));
      if x != y {
        assert x in Nodes(m);
      }
    }
  }

  /** A task id appended to the table: the structure stays consistent. */
  lemma TaskAddedWF(m: Model, r: Model, t: TaskId)
    requires WF(m) && t !in m.tasks
    requires r == m.(tasks := m.tasks + [t], taskData := m.taskData[t := EmptyTask], seen := m.seen[TaskNode(t) := 0])
    ensures WF(r) && Nodes(r) == TaskNodes(m.tasks) + [TaskNode(t)] + ShelfNodes(m.shelves)
  {
    TaskNodesAppend(m.tasks, t);
    DistinctAppend(m.tasks, t);
  }

  /** A task id appended to the table: every row gains a zero cell and the
      new column is all zeros. */
  lemma TaskAddedDense(m: Model, t: TaskId)
    requires AllDense(m) && t !in m.tasks
    requires forall s :: (s, t) !in m.nest
    ensures DenseNest(m.tasks + [t], m.shelves, m.nest)
  {
    forall s | s in m.shelves ensures Dense(m.nest, Row, RowLine(m.tasks + [t], s), Tail(m.nest, Row, RowLine(m.tasks + [t], s))) {
      DenseGrow(m.nest, Row, RowLine(m.tasks, s), RowLine(m.tasks + [t], s));
    }
    DenseEmpty(m.nest, Column, ColumnLine(m.shelves, t));
  }

  lemma ShelfAddedWF(m: Model, r: Model, s: ShelfId)
    requires WF(m) && s !in m.shelves
    requires r == m.(shelves := m.shelves + [s], shelfData := m.shelfData[s := EmptyShelf], seen := m.seen[ShelfNode(s) := 0])
    ensures WF(r) && Nodes(r) == Nodes(m) + [ShelfNode(s)] + []
  {
    ShelfNodesAppend(m.shelves, s);
    DistinctAppend(m.shelves, s);
  }

  lemma ShelfAddedDense(m: Model, s: ShelfId)
    requires AllDense(m) && s !in m.shelves
    requires forall t :: (s, t) !in m.nest
    ensures DenseNest(m.tasks, m.shelves + [s], m.nest)
  {
    forall t | t in m.tasks ensures Dense(m.nest, Column, ColumnLine(m.shelves + [s], t), Tail(m.nest, Column, ColumnLine(m.shelves + [s], t))) {
      DenseGrow(m.nest, Column, ColumnLine(m.shelves, t), ColumnLine(m.shelves + [s], t));
    }
    DenseEmpty(m.nest, Row, RowLine(m.tasks, s));
  }

  /** A node with no cells adds no edge. */
  lemma SameEdges(m: Model, r: Model)
    requires r.nest == m.nest && (forall c :: c in m.nest ==> c.0 in m.shelves && c.1 in m.tasks)
    requires forall t :: t in m.tasks ==> t in r.tasks
    requires forall s :: s in m.shelves ==> s in r.shelves
    ensures EdgesOf(r) == EdgesOf(m)
  {
    forall a, b ensures IsEdge(r, a, b) <==> IsEdge(m, a, b) {
      if a.ShelfNode? && b.TaskNode? {
        assert (a.shelf, b.task) in m.nest <==> (a.shelf, b.task) in r.nest;
      } else if a.TaskNode? && b.ShelfNode? {
        assert (b.shelf, a.task) in m.nest <==> (b.shelf, a.task) in r.nest;
      }
    }
  }

  lemma CreateEmptyTaskInv(m: Model, offset: int)
    requires Inv(m) && 1 <= offset <= 25 && Labelled(m)
    ensures Inv(CreateEmptyTask(m, offset).0)
  {
    var (r, t) := CreateEmptyTask(m, offset);
    TaskAddedWF(m, r, t);
    TaskAddedDense(m, t);
    SameEdges(m, r);
    FreshNodeKeepsSeen(m, r, TaskNodes(m.tasks), TaskNode(t), ShelfNodes(m.shelves));
  }

  lemma CreateEmptyShelfInv(m: Model, offset: int)
    requires Inv(m) && 1 <= offset <= 25 && Labelled(m)
    ensures Inv(CreateEmptyShelf(m, offset).0)
  {
    var (r, s) := CreateEmptyShelf(m, offset);
    ShelfAddedWF(m, r, s);
    ShelfAddedDense(m, s);
    SameEdges(m, r);
    CountMultiset(m.rack, s);
    assert s !in multiset(m.rack);
    FreshNodeKeepsSeen(m, r, Nodes(m), ShelfNode(s), []);
  }

  /** The new node is isolated: no cell of its row or column holds a
      position, so it has no parent and no child. */
  lemma CreatedTaskIsolated(m: Model, offset: int)
    requires WF(m) && 1 <= offset <= 25 && Labelled(m)
    ensures var (r, t) := CreateEmptyTask(m, offset);
      forall x :: !IsEdge(r, x, TaskNode(t)) && !IsEdge(r, TaskNode(t), x)
  {
  }

  lemma CreatedShelfIsolated(m: Model, offset: int)
    requires WF(m) && 1 <= offset <= 25 && Labelled(m)
    ensures var (r, s) := CreateEmptyShelf(m, offset);
      forall x :: !IsEdge(r, x, ShelfNode(s)) && !IsEdge(r, ShelfNode(s), x)
  {
  }
}
