/** The state of `Model` (model.py:35-62): the task and shelf tables, the
    nesting matrix, the seen counts, the rack and the stage; the containment
    graph the matrix encodes; and the invariant every operation keeps. */
module State {
  import opened Ids
  import opened Sums
  import opened Graph
  import opened Walks
  import opened Positions
  import opened Values

  /** `tasks` and `shelves` are the table indexes in creation order, which
      is also the column and row order of the nesting matrix. The `seen`
      column of both tables is kept in `seen`, keyed by graph node. */
  datatype Model = Model(
    tasks: seq<TaskId>,
    shelves: seq<ShelfId>,
    taskData: map<TaskId, Record>,
    shelfData: map<ShelfId, Record>,
    nest: Nest,
    seen: map<Node, int>,
    rack: seq<ShelfId>,
    stage: Option<TaskId>)

  /** The model `__init__` builds: everything empty. */
  const Empty: Model := Model([], [], map[], map[], map[], map[], [], None)

  function TaskNodes(tasks: seq<TaskId>): (r: seq<Node>)
    ensures |r| == |tasks|
    ensures forall x {:trigger x in r} :: x in r <==> x.TaskNode? && x.task in tasks
  {
    var r := seq(|tasks|, i requires 0 <= i < |tasks| => TaskNode(tasks[i]));
    assert forall t :: t in tasks ==> TaskNode(t) in r by {
      forall t | t in tasks ensures TaskNode(t) in r {
        var i :| 0 <= i < |tasks| && tasks[i] == t;
        assert r[i] == TaskNode(t);
      }
    }
    r
  }

  function ShelfNodes(shelves: seq<ShelfId>): (r: seq<Node>)
    ensures |r| == |shelves|
    ensures forall x {:trigger x in r} :: x in r <==> x.ShelfNode? && x.shelf in shelves
  {
    var r := seq(|shelves|, i requires 0 <= i < |shelves| => ShelfNode(shelves[i]));
    assert forall s :: s in shelves ==> ShelfNode(s) in r by {
      forall s | s in shelves ensures ShelfNode(s) in r {
        var i :| 0 <= i < |shelves| && shelves[i] == s;
        assert r[i] == ShelfNode(s);
      }
    }
    r
  }

  /** Every task and every shelf, as graph nodes. */
  function Nodes(m: Model): (r: seq<Node>)
    ensures forall x {:trigger x in r} :: x in r <==> (x.TaskNode? && x.task in m.tasks) || (x.ShelfNode? && x.shelf in m.shelves)
  {
    TaskNodes(m.tasks) + ShelfNodes(m.shelves)
  }

  /** The row of shelf `s`: one cell per task, in column order. */
  function RowLine(tasks: seq<TaskId>, s: ShelfId): (r: seq<Cell>)
    ensures forall c {:trigger c in r} :: c in r <==> c.0 == s && c.1 in tasks
  {
    var r := seq(|tasks|, i requires 0 <= i < |tasks| => (s, tasks[i]));
    assert forall t :: t in tasks ==> (s, t) in r by {
      forall t | t in tasks ensures (s, t) in r {
        var i :| 0 <= i < |tasks| && tasks[i] == t;
        assert r[i] == (s, t);
      }
    }
    r
  }

  /** The column of task `t`: one cell per shelf, in row order. */
  function ColumnLine(shelves: seq<ShelfId>, t: TaskId): (r: seq<Cell>)
    ensures forall c {:trigger c in r} :: c in r <==> c.1 == t && c.0 in shelves
  {
    var r := seq(|shelves|, i requires 0 <= i < |shelves| => (shelves[i], t));
    assert forall s :: s in shelves ==> (s, t) in r by {
      forall s | s in shelves ensures (s, t) in r {
        var i :| 0 <= i < |shelves| && shelves[i] == s;
        assert r[i] == (s, t);
      }
    }
    r
  }

  /** The containment edges the matrix encodes: shelf -> task for a
      positive cell, task -> shelf for a negative one. */
  predicate IsEdge(m: Model, a: Node, b: Node)
  {
    match (a, b)
    case (ShelfNode(s), TaskNode(t)) => s in m.shelves && t in m.tasks && At(m.nest, (s, t)) > 0
    case (TaskNode(t), ShelfNode(s)) => s in m.shelves && t in m.tasks && At(m.nest, (s, t)) < 0
    case _ => false
  }

  function EdgesOf(m: Model): (r: set<(Node, Node)>)
    ensures forall a, b {:trigger (a, b) in r} {:trigger IsEdge(m, a, b)} :: (a, b) in r <==> IsEdge(m, a, b)
  {
    var down := set s, t | s in m.shelves && t in m.tasks && At(m.nest, (s, t)) > 0 :: (ShelfNode(s), TaskNode(t));
    var up := set s, t | s in m.shelves && t in m.tasks && At(m.nest, (s, t)) < 0 :: (TaskNode(t), ShelfNode(s));
    assert forall a, b :: IsEdge(m, a, b) ==> (a, b) in down + up by {
      forall a, b | IsEdge(m, a, b) ensures (a, b) in down + up {
        if a.ShelfNode? {
          assert (ShelfNode(a.shelf), TaskNode(b.task)) in down;
        } else {
          assert (TaskNode(a.task), ShelfNode(b.shelf)) in up;
        }
      }
    }
    down + up
  }

  /** The containment graph `check_tree_for` and `run_on_tree` search. */
  function GraphOf(m: Model): Graph
  {
    Graph(Nodes(m), EdgesOf(m))
  }

  /** The roots a node has of its own: each rack occurrence of a shelf, and
      the stage for its task. */
  function Base(m: Model, x: Node): int
  {
    match x
    case ShelfNode(s) => Count(m.rack, s)
    case TaskNode(t) => if m.stage == Some(t) then 1 else 0
  }

  /** Structural consistency of the tables, the matrix, the rack and the
      stage. */
  predicate WF(m: Model)
  {
    Distinct(m.tasks) && Distinct(m.shelves) &&
    m.taskData.Keys == (set t | t in m.tasks) &&
    m.shelfData.Keys == (set s | s in m.shelves) &&
    (forall c {:trigger c in m.nest} :: c in m.nest ==> c.0 in m.shelves && c.1 in m.tasks) &&
    m.seen.Keys == (set x | x in Nodes(m)) &&
    (forall s :: s in m.rack ==> s in m.shelves) &&
    (m.stage.Some? ==> m.stage.value in m.tasks)
  }

  /** The part of `WF` the graph and walk proofs need: the nodes are
      listed once and each has a seen count. */
  predicate Shape(m: Model)
  {
    Distinct(m.tasks) && Distinct(m.shelves) && forall x :: x in Nodes(m) ==> x in m.seen
  }

  /** Every container numbers its children 1..tail. */
  predicate AllDense(m: Model)
  {
    DenseNest(m.tasks, m.shelves, m.nest)
  }

  predicate DenseNest(tasks: seq<TaskId>, shelves: seq<ShelfId>, nest: Nest)
  {
    (forall s :: s in shelves ==> Dense(nest, Row, RowLine(tasks, s), Tail(nest, Row, RowLine(tasks, s)))) &&
    (forall t :: t in tasks ==> Dense(nest, Column, ColumnLine(shelves, t), Tail(nest, Column, ColumnLine(shelves, t))))
  }

  /** Every node's seen count is its own roots plus its parents' counts. */
  predicate SeenOk(m: Model)
  {
    forall x :: x in Nodes(m) ==> Defect(GraphOf(m), Base(m, x), m.seen, x) == 0
  }

  /** The invariant of the model. */
  ghost predicate Inv(m: Model)
  {
    WF(m) && AllDense(m) && Acyclic(GraphOf(m)) && SeenOk(m)
  }

  lemma NodesDistinct(m: Model)
    requires Distinct(m.tasks) && Distinct(m.shelves)
    ensures Distinct(Nodes(m))
  {
    var a := TaskNodes(m.tasks);
    var b := ShelfNodes(m.shelves);
    forall i, j | 0 <= i < j < |a + b| ensures (a + b)[i] != (a + b)[j] {
      if j < |a| {
        assert a[i] == TaskNode(m.tasks[i]) && a[j] == TaskNode(m.tasks[j]);
      } else if i >= |a| {
        assert b[i - |a|] == ShelfNode(m.shelves[i - |a|]) && b[j - |a|] == ShelfNode(m.shelves[j - |a|]);
      } else {
        assert (a + b)[i] in a && (a + b)[j] in b;
      }
    }
  }

  lemma GraphWellFormed(m: Model)
    requires Distinct(m.tasks) && Distinct(m.shelves)
    ensures WellFormed(GraphOf(m))
  {
    NodesDistinct(m);
  }

  /** The empty model satisfies the invariant. */
  lemma EmptyInv()
    ensures Inv(Empty)
  {
    assert Nodes(Empty) == [];
  }

  /** The two edges a cell can encode. */
  predicate OnCell(c: Cell, a: Node, b: Node)
  {
    (a == ShelfNode(c.0) && b == TaskNode(c.1)) || (a == TaskNode(c.1) && b == ShelfNode(c.0))
  }

  /** Cells that keep their sign keep their edge. */
  lemma EdgesFromSigns(m1: Model, m2: Model, cell: Cell)
    requires m1.tasks == m2.tasks && m1.shelves == m2.shelves
    requires forall c :: c != cell ==> (At(m1.nest, c) > 0 <==> At(m2.nest, c) > 0) && (At(m1.nest, c) < 0 <==> At(m2.nest, c) < 0)
    ensures forall a, b :: !OnCell(cell, a, b) ==> (IsEdge(m1, a, b) <==> IsEdge(m2, a, b))
  {
    forall a, b | !OnCell(cell, a, b) ensures IsEdge(m1, a, b) <==> IsEdge(m2, a, b) {
      if a.ShelfNode? && b.TaskNode? {
        assert (a.shelf, b.task) != cell;
      } else if a.TaskNode? && b.ShelfNode? {
        assert (b.shelf, a.task) != cell;
      }
    }
  }

  /** A model whose cells all keep their sign has the same graph. */
  lemma GraphFromSigns(m1: Model, m2: Model)
    requires m1.tasks == m2.tasks && m1.shelves == m2.shelves
    requires forall c :: (At(m1.nest, c) > 0 <==> At(m2.nest, c) > 0) && (At(m1.nest, c) < 0 <==> At(m2.nest, c) < 0)
    ensures GraphOf(m1) == GraphOf(m2)
  {
    forall a, b ensures IsEdge(m1, a, b) <==> IsEdge(m2, a, b) {
    }
    assert EdgesOf(m1) == EdgesOf(m2);
  }
}
