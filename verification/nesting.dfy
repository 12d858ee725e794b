/** `position_task_in_shelf` (model.py:139-192) and
    `position_shelf_in_task` (model.py:197-237): refusal checks, the shift
    of the siblings, the seen walk of the nested subtree, and the write of
    the new position. */
module Nesting {
  import opened Ids
  import opened Sums
  import opened Graph
  import opened Walks
  import opened Positions
  import opened Values
  import opened State
  import opened Sorting

  /** What a position function returns: the resulting model, the success
      flag and the refusal message ("" on success). */
  datatype Reply = Reply(model: Model, ok: bool, msg: string)

  /** The container side of a cell: a shelf's row or a task's column. */
  function LineOf(m: Model, side: Side, cell: Cell): seq<Cell>
  {
    if side == Row then RowLine(m.tasks, cell.0) else ColumnLine(m.shelves, cell.1)
  }

  /** The container and the contained node of a cell seen from `side`. */
  function ParentOf(side: Side, cell: Cell): Node
  {
    if side == Row then ShelfNode(cell.0) else TaskNode(cell.1)
  }

  function ChildOf(side: Side, cell: Cell): Node
  {
    if side == Row then TaskNode(cell.1) else ShelfNode(cell.0)
  }

  /** The index bound as written: `index < 0 or index > tail_idx + 1` is
      refused (model.py:156-157). */
  predicate IndexAllowedAsWritten(index: int, tail: int)
  {
    0 <= index <= tail + 1
  }

  /** The bound the model uses: tail + 1 only for a child not yet present,
      tail for one already there. */
  predicate IndexAllowed(index: int, prev: int, tail: int)
  {
    0 <= index <= (if prev > 0 then tail else tail + 1)
  }

  /** The accepted change: shift the siblings, walk the subtree of the
      child, then write the new position. */
  function Commit(m: Model, side: Side, cell: Cell, index: int): (r: Model)
    requires Pos(m.nest, side, cell) >= 0 && index >= 0
    ensures r.nest == Reposition(m.nest, side, LineOf(m, side, cell), cell, index)
    ensures r.tasks == m.tasks && r.shelves == m.shelves && r.taskData == m.taskData && r.shelfData == m.shelfData
    ensures r.rack == m.rack && r.stage == m.stage
  {
    var shifted := Shifted(m.nest, side, LineOf(m, side, cell), cell, index);
    m.(nest := Put(shifted, side, cell, index), seen := Walked(m, side, cell, index))
  }

  /** The seen counts after the walk: when the child joins or leaves, its
      subtree is walked with plus or minus the parent's seen count, on the
      matrix as it is between the shift and the write; a move walks
      nothing. */
  function Walked(m: Model, side: Side, cell: Cell, index: int): map<Node, int>
    requires Pos(m.nest, side, cell) >= 0 && index >= 0
  {
    if (Pos(m.nest, side, cell) == 0) == (index == 0) then m.seen
    else RunOnTree(WalkGraph(m, side, cell, index), false, ChildOf(side, cell), WalkAmount(m, side, cell, index), |Nodes(m)|, m.seen)
  }

  /** What the walk adds: the parent's seen count on an insertion, minus
      it on a removal. */
  function WalkAmount(m: Model, side: Side, cell: Cell, index: int): int
  {
    if index == 0 then -Get(m.seen, ParentOf(side, cell)) else Get(m.seen, ParentOf(side, cell))
  }

  /** The graph the walk runs on: the matrix after the shift, before the
      write. */
  function WalkGraph(m: Model, side: Side, cell: Cell, index: int): Graph
    requires Pos(m.nest, side, cell) >= 0 && index >= 0
  {
    GraphOf(m.(nest := Shifted(m.nest, side, LineOf(m, side, cell), cell, index)))
  }

  /** The index asked for: `idx`, or one past the tail when it is `None`. */
  function EndOr(idx: Option<int>, tail: int): int
  {
    if idx.None? then tail + 1 else idx.value
  }

  /** Whether the shelf is a sorter (or a filter) for this call: the flag
      is set and not overridden. */
  predicate Flag(m: Model, shelf: ShelfId, column: string, override: bool)
  {
    shelf in m.shelfData && Truthy(Field(m.shelfData[shelf], column)) && !override
  }

  /** The index a call asks for: a sorter picks its own unless removing;
      otherwise `idx`, or the end when it is `None`. `None` here means the
      sorter refused an explicit position. */
  function RequestedIndex(m: Model, task: TaskId, shelf: ShelfId, idx: Option<int>, sorterOverride: bool): Option<int>
  {
    var tail := Tail(m.nest, Row, RowLine(m.tasks, shelf));
    if Flag(m, shelf, "is_sorter", sorterOverride) then
      if idx.None? then Some(SortTaskIntoShelf(m, task, shelf))
      else if idx.value == 0 then Some(0)
      else None
    else Some(EndOr(idx, tail))
  }

  /** `position_task_in_shelf(task, shelf, idx, filter_override,
      sorter_override)`. Both ids must be in the tables (the matrix lookup
      raises otherwise). A refusal returns the model unchanged; a success
      changes nothing but the matrix and the seen counts. */
  function PositionTaskInShelf(m: Model, task: TaskId, shelf: ShelfId, idx: Option<int>, filterOverride: bool, sorterOverride: bool): (r: Reply)
    requires shelf in m.shelves && task in m.tasks
    ensures !r.ok ==> r.model == m
    ensures r.ok ==> r.msg == "" && r.model.tasks == m.tasks && r.model.shelves == m.shelves
    ensures r.ok ==> r.model.taskData == m.taskData && r.model.shelfData == m.shelfData
    ensures r.ok ==> r.model.rack == m.rack && r.model.stage == m.stage
  {
    var cell := (shelf, task);
    var prev := At(m.nest, cell);
    var tail := Tail(m.nest, Row, RowLine(m.tasks, shelf));
    var requested := RequestedIndex(m, task, shelf, idx, sorterOverride);
    if requested.None? then Reply(m, false, "Can't insert tasks into specific position in sorters")
    else
      var index := requested.value;
      if !IndexAllowed(index, prev, tail) then Reply(m, false, "Invalid index given for insertion")
      else if prev < 0 then Reply(m, false, "Shelf is within task")
      else if prev != 0 && index == 0 && Flag(m, shelf, "is_filter", filterOverride) then
        Reply(m, false, "Can't remove task from filter shelf")
      else if prev == 0 && index != 0 && Flag(m, shelf, "is_filter", filterOverride) then
        Reply(m, false, "Can't add task to filter shelf")
      else if prev == 0 && index != 0 &&
        (CheckTreeFor(GraphOf(m), TaskNode(task), ShelfNode(shelf), false) || CheckTreeFor(GraphOf(m), ShelfNode(shelf), TaskNode(task), true)) then
        Reply(m, false, "Addition would create circular nesting")
      else Reply(Commit(m, Row, cell, index), true, "")
  }

  /** `position_shelf_in_task(shelf, task, idx)`: the mirror on the task's
      column, read negated, with no filter or sorter checks. */
  function PositionShelfInTask(m: Model, shelf: ShelfId, task: TaskId, idx: Option<int>): (r: Reply)
    requires shelf in m.shelves && task in m.tasks
    ensures !r.ok ==> r.model == m
    ensures r.ok ==> r.msg == "" && r.model.tasks == m.tasks && r.model.shelves == m.shelves
    ensures r.ok ==> r.model.taskData == m.taskData && r.model.shelfData == m.shelfData
    ensures r.ok ==> r.model.rack == m.rack && r.model.stage == m.stage
  {
    var cell := (shelf, task);
    var prev := -At(m.nest, cell);
    var tail := Tail(m.nest, Column, ColumnLine(m.shelves, task));
    var index := EndOr(idx, tail);
    if !IndexAllowed(index, prev, tail) then Reply(m, false, "Invalid index given for insertion")
    else if prev < 0 then Reply(m, false, "Task is within shelf")
    else if prev == 0 && index != 0 &&
      (CheckTreeFor(GraphOf(m), ShelfNode(shelf), TaskNode(task), false) || CheckTreeFor(GraphOf(m), TaskNode(task), ShelfNode(shelf), true)) then
      Reply(m, false, "Addition would create circular nesting")
    else Reply(Commit(m, Column, cell, index), true, "")
  }

  // ---------------------------------------------------------------------
  // The graph around one cell

  /** The graph of `m` without the edges the cell can encode. */
  function Detached(m: Model, cell: Cell): Graph
  {
    Graph(Nodes(m), EdgesOf(m) - {(ShelfNode(cell.0), TaskNode(cell.1)), (TaskNode(cell.1), ShelfNode(cell.0))})
  }

  /** A model that agrees with `m` on every sign but the cell's has the
      detached graph, plus the edge parent -> child when the cell holds a
      position on `side`. */
  lemma GraphByCell(m: Model, m2: Model, side: Side, cell: Cell)
    requires m2.tasks == m.tasks && m2.shelves == m.shelves
    requires cell.0 in m.shelves && cell.1 in m.tasks
    requires forall c :: c != cell ==> (At(m.nest, c) > 0 <==> At(m2.nest, c) > 0) && (At(m.nest, c) < 0 <==> At(m2.nest, c) < 0)
    requires Pos(m2.nest, side, cell) >= 0
    ensures GraphOf(m2) == if Pos(m2.nest, side, cell) > 0 then AddEdge(Detached(m, cell), ParentOf(side, cell), ChildOf(side, cell)) else Detached(m, cell)
  {
    EdgesFromSigns(m, m2, cell);
    var want := if Pos(m2.nest, side, cell) > 0 then AddEdge(Detached(m, cell), ParentOf(side, cell), ChildOf(side, cell)) else Detached(m, cell);
    forall a, b ensures (a, b) in EdgesOf(m2) <==> (a, b) in want.edges {
      EdgeByCell(m, m2, side, cell, a, b);
    }
    assert EdgesOf(m2) == want.edges;
  }

  /** One pair of nodes of `GraphByCell`. */
  lemma EdgeByCell(m: Model, m2: Model, side: Side, cell: Cell, a: Node, b: Node)
    requires m2.tasks == m.tasks && m2.shelves == m.shelves
    requires cell.0 in m.shelves && cell.1 in m.tasks
    requires !OnCell(cell, a, b) ==> (IsEdge(m, a, b) <==> IsEdge(m2, a, b))
    requires Pos(m2.nest, side, cell) >= 0
    ensures (a, b) in EdgesOf(m2) <==> (a, b) in (if Pos(m2.nest, side, cell) > 0 then AddEdge(Detached(m, cell), ParentOf(side, cell), ChildOf(side, cell)) else Detached(m, cell)).edges
  {
    if !OnCell(cell, a, b) {
      assert (a, b) != (ShelfNode(cell.0), TaskNode(cell.1)) && (a, b) != (TaskNode(cell.1), ShelfNode(cell.0));
    }
  }

  /** Every cell but `cell` keeps its sign. */
  ghost predicate SignsKept(n1: Nest, n2: Nest, cell: Cell)
  {
    forall c :: c != cell ==> (At(n1, c) > 0 <==> At(n2, c) > 0) && (At(n1, c) < 0 <==> At(n2, c) < 0)
  }

  /** The line of the cell numbers its children 1..tail. */
  predicate LineDense(m: Model, side: Side, cell: Cell)
  {
    Dense(m.nest, side, LineOf(m, side, cell), Tail(m.nest, side, LineOf(m, side, cell)))
  }

  /** The line of the cell is dense in a model whose lines all are. */
  lemma OwnLine(m: Model, side: Side, cell: Cell)
    requires AllDense(m) && cell.0 in m.shelves && cell.1 in m.tasks
    ensures cell in LineOf(m, side, cell) && LineDense(m, side, cell)
  {
  }

  /** The shift and the final write leave every other cell's sign alone,
      and the cell itself never takes the opposite sign. */
  lemma RepositionSigns(nest: Nest, side: Side, line: seq<Cell>, cell: Cell, index: int)
    requires cell in line && Dense(nest, side, line, Tail(nest, side, line))
    requires Pos(nest, side, cell) >= 0 && index >= 0
    ensures var sh := Shifted(nest, side, line, cell, index);
      SignsKept(nest, sh, cell) && Pos(sh, side, cell) >= 0 &&
      SignsKept(nest, Reposition(nest, side, line, cell, index), cell)
  {
    var n := Tail(nest, side, line);
    var sh := Shifted(nest, side, line, cell, index);
    OthersKeepSigns(nest, sh, side, line, cell, n, index);
    OthersKeepSigns(nest, Reposition(nest, side, line, cell, index), side, line, cell, n, index);
  }

  lemma CommitSigns(m: Model, side: Side, cell: Cell, index: int)
    requires LineDense(m, side, cell) && cell.0 in m.shelves && cell.1 in m.tasks
    requires Pos(m.nest, side, cell) >= 0 && index >= 0
    ensures var sh := Shifted(m.nest, side, LineOf(m, side, cell), cell, index);
      SignsKept(m.nest, sh, cell) && Pos(sh, side, cell) >= 0 &&
      SignsKept(m.nest, Commit(m, side, cell, index).nest, cell)
  {
    RepositionSigns(m.nest, side, LineOf(m, side, cell), cell, index);
  }

  /** The three graphs of an accepted change: before, between shift and
      write (where the walk runs), and after. Each is the detached graph,
      with the edge parent -> child exactly when the cell holds a position. */
  lemma CommitGraphs(m: Model, side: Side, cell: Cell, index: int)
    requires LineDense(m, side, cell) && cell.0 in m.shelves && cell.1 in m.tasks
    requires Pos(m.nest, side, cell) >= 0 && index >= 0
    ensures var d := Detached(m, cell);
      var e := AddEdge(d, ParentOf(side, cell), ChildOf(side, cell));
      var sh := Shifted(m.nest, side, LineOf(m, side, cell), cell, index);
      && GraphOf(m) == (if Pos(m.nest, side, cell) > 0 then e else d)
      && GraphOf(m.(nest := sh)) == (if Pos(sh, side, cell) > 0 then e else d)
      && GraphOf(Commit(m, side, cell, index)) == (if index > 0 then e else d)
  {
    var sh := Shifted(m.nest, side, LineOf(m, side, cell), cell, index);
    CommitSigns(m, side, cell, index);
    GraphByCell(m, m, side, cell);
    GraphByCell(m, m.(nest := sh), side, cell);
    GraphByCell(m, Commit(m, side, cell, index), side, cell);
  }

  lemma CellNodes(m: Model, side: Side, cell: Cell)
    requires Shape(m) && cell.0 in m.shelves && cell.1 in m.tasks
    ensures var d := Detached(m, cell);
      WellFormed(GraphOf(m)) && WellFormed(d) && d.nodes == Nodes(m) && d.edges <= EdgesOf(m) &&
      ParentOf(side, cell) in d.nodes && ChildOf(side, cell) in d.nodes &&
      ParentOf(side, cell) in m.seen && ParentOf(side, cell) != ChildOf(side, cell)
  {
    GraphWellFormed(m);
  }

  // ---------------------------------------------------------------------
  // An accepted change keeps the invariant

  /** The containment graph stays acyclic: a removal or a move only drops
      or keeps the edge, and an insertion adds it only after the search
      from the child for the parent came back empty. */
  lemma CommitAcyclic(m: Model, side: Side, cell: Cell, index: int)
    requires Shape(m) && LineDense(m, side, cell) && Acyclic(GraphOf(m)) && cell.0 in m.shelves && cell.1 in m.tasks
    requires Pos(m.nest, side, cell) >= 0 && index >= 0
    requires Pos(m.nest, side, cell) == 0 && index != 0 ==> !CheckTreeFor(GraphOf(m), ChildOf(side, cell), ParentOf(side, cell), false)
    ensures Acyclic(GraphOf(Commit(m, side, cell, index)))
  {
    var d := Detached(m, cell);
    var e := AddEdge(d, ParentOf(side, cell), ChildOf(side, cell));
    CommitGraphs(m, side, cell, index);
    CellNodes(m, side, cell);
    if index > 0 && Pos(m.nest, side, cell) == 0 {
      AcyclicAfterAdd(d, ParentOf(side, cell), ChildOf(side, cell));
    } else if index == 0 && Pos(m.nest, side, cell) > 0 {
      AcyclicSub(d, e);
    }
  }

  /** An insertion walks the child's subtree with the parent's count: in
      the graph with the new edge each node's seen count still equals its
      roots plus its parents' counts. */
  lemma InsertSeen(m: Model, side: Side, cell: Cell, index: int, x: Node, base: int)
    requires Shape(m) && LineDense(m, side, cell) && Acyclic(GraphOf(m)) && cell.0 in m.shelves && cell.1 in m.tasks
    requires Pos(m.nest, side, cell) == 0 && index > 0
    requires !CheckTreeFor(GraphOf(m), ChildOf(side, cell), ParentOf(side, cell), false)
    requires x in Nodes(m)
    ensures Defect(AddEdge(Detached(m, cell), ParentOf(side, cell), ChildOf(side, cell)), base, Walked(m, side, cell, index), x) == Defect(GraphOf(m), base, m.seen, x)
  {
    var w := Walked(m, side, cell, index);
    var p := ParentOf(side, cell);
    var c := ChildOf(side, cell);
    var g := GraphOf(m);
    CommitGraphs(m, side, cell, index);
    CellNodes(m, side, cell);
    var sh := Shifted(m.nest, side, LineOf(m, side, cell), cell, index);
    assert GraphOf(m.(nest := sh)) == g == Detached(m, cell);
    assert w == RunOnTree(g, false, c, m.seen[p], |g.nodes|, m.seen);
    forall q | q in g.nodes ensures q in w && w[q] == m.seen[q] + m.seen[p] * Paths(g, false, c, q, |g.nodes|) {
      RunOnTreeEffect(g, false, c, m.seen[p], |g.nodes|, m.seen, q);
    }
    EdgeWalkDefect(g, p, c, m.seen, w, x, base);
  }

  /** The graphs of a removal: before it the edge is there, and the walk
      runs with or without it. */
  lemma RemoveGraphs(m: Model, side: Side, cell: Cell)
    requires LineDense(m, side, cell) && cell.0 in m.shelves && cell.1 in m.tasks
    requires Pos(m.nest, side, cell) > 0
    ensures var d := Detached(m, cell);
      var e := AddEdge(d, ParentOf(side, cell), ChildOf(side, cell));
      var gsh := WalkGraph(m, side, cell, 0);
      GraphOf(m) == e && (gsh == d || gsh == e)
  {
    CommitGraphs(m, side, cell, 0);
  }

  /** The walk a removal makes: minus the parent's count, once per walk
      from the child in the matrix between shift and write. */
  lemma WalkedRemove(m: Model, side: Side, cell: Cell, q: Node)
    requires Shape(m)
    requires Pos(m.nest, side, cell) > 0 && q in Nodes(m)
    ensures var w := Walked(m, side, cell, 0);
      q in m.seen && q in w &&
      w[q] == m.seen[q] + WalkAmount(m, side, cell, 0) * Paths(WalkGraph(m, side, cell, 0), false, ChildOf(side, cell), q, |Nodes(m)|)
  {
    WalkedMoving(m, side, cell, 0);
    RunOnTreeEffect(WalkGraph(m, side, cell, 0), false, ChildOf(side, cell), WalkAmount(m, side, cell, 0), |Nodes(m)|, m.seen, q);
  }

  /** When the child joins or leaves, the counts are one walk from it. */
  lemma WalkedMoving(m: Model, side: Side, cell: Cell, index: int)
    requires Pos(m.nest, side, cell) >= 0 && index >= 0
    requires (Pos(m.nest, side, cell) == 0) != (index == 0)
    ensures Walked(m, side, cell, index) == RunOnTree(WalkGraph(m, side, cell, index), false, ChildOf(side, cell), WalkAmount(m, side, cell, index), |Nodes(m)|, m.seen)
  {
  }

  /** A removal walks the child's subtree with minus the parent's count:
      read backwards, this is an insertion. The walk may or may not still
      see the edge being removed; the child never reaches its parent, so
      it counts the same walks either way. */
  lemma RemoveSeen(m: Model, side: Side, cell: Cell, x: Node, base: int)
    requires Shape(m) && LineDense(m, side, cell) && Acyclic(GraphOf(m)) && cell.0 in m.shelves && cell.1 in m.tasks
    requires Pos(m.nest, side, cell) > 0
    requires x in Nodes(m)
    ensures Defect(Detached(m, cell), base, Walked(m, side, cell, 0), x) == Defect(GraphOf(m), base, m.seen, x)
  {
    var w := Walked(m, side, cell, 0);
    var gsh := WalkGraph(m, side, cell, 0);
    var amount := WalkAmount(m, side, cell, 0);
    forall q | q in Nodes(m)
      ensures q in w && w[q] == m.seen[q] + amount * Paths(gsh, false, ChildOf(side, cell), q, |Nodes(m)|)
    {
      WalkedRemove(m, side, cell, q);
    }
    RemoveGraphs(m, side, cell);
    CellNodes(m, side, cell);
    RemoveSeenBy(m, side, cell, gsh, amount, w, x, base);
  }

  lemma RemoveSeenBy(m: Model, side: Side, cell: Cell, gsh: Graph, amount: int, w: map<Node, int>, x: Node, base: int)
    requires x in Nodes(m) && forall q :: q in Nodes(m) ==> q in m.seen
    requires WellFormed(Detached(m, cell)) && (ParentOf(side, cell), ChildOf(side, cell)) !in Detached(m, cell).edges
    requires ParentOf(side, cell) in Nodes(m) && ChildOf(side, cell) in Nodes(m)
    requires GraphOf(m) == AddEdge(Detached(m, cell), ParentOf(side, cell), ChildOf(side, cell)) && Acyclic(GraphOf(m))
    requires gsh == Detached(m, cell) || gsh == GraphOf(m)
    requires amount == -Get(m.seen, ParentOf(side, cell))
    requires forall q :: q in Nodes(m) ==> q in w && w[q] == m.seen[q] + amount * Paths(gsh, false, ChildOf(side, cell), q, |Nodes(m)|)
    ensures Defect(Detached(m, cell), base, w, x) == Defect(GraphOf(m), base, m.seen, x)
  {
    RemoveWalkDefect(Detached(m, cell), ParentOf(side, cell), ChildOf(side, cell), gsh, m.seen, amount, w, x, base);
  }

  // ---------------------------------------------------------------------
  // Density, structure and seen counts after an accepted change

  /** Every line stays dense: the changed one by the insertion, removal or
      move argument, every other one because its children keep their
      positions. */
  lemma CommitDense(m: Model, side: Side, cell: Cell, index: int)
    requires AllDense(m) && cell.0 in m.shelves && cell.1 in m.tasks
    requires Pos(m.nest, side, cell) >= 0
    requires IndexAllowed(index, Pos(m.nest, side, cell), Tail(m.nest, side, LineOf(m, side, cell)))
    ensures DenseNest(m.tasks, m.shelves, Reposition(m.nest, side, LineOf(m, side, cell), cell, index))
  {
    var line := LineOf(m, side, cell);
    var n := Tail(m.nest, side, line);
    var r := Reposition(m.nest, side, line, cell, index);
    OwnLine(m, side, cell);
    forall s | s in m.shelves ensures Dense(r, Row, RowLine(m.tasks, s), Tail(r, Row, RowLine(m.tasks, s))) {
      var l2 := RowLine(m.tasks, s);
      if side == Row && s == cell.0 {
        OwnLineKeepsDense(m.nest, side, line, cell, index);
      } else {
        OtherLineKeepsDense(m.nest, r, side, line, cell, n, index, Row, l2, Tail(m.nest, Row, l2));
        DenseTail(r, Row, l2, Tail(m.nest, Row, l2));
      }
    }
    forall t | t in m.tasks ensures Dense(r, Column, ColumnLine(m.shelves, t), Tail(r, Column, ColumnLine(m.shelves, t))) {
      var l2 := ColumnLine(m.shelves, t);
      if side == Column && t == cell.1 {
        OwnLineKeepsDense(m.nest, side, line, cell, index);
      } else {
        OtherLineKeepsDense(m.nest, r, side, line, cell, n, index, Column, l2, Tail(m.nest, Column, l2));
        DenseTail(r, Column, l2, Tail(m.nest, Column, l2));
      }
    }
  }

  /** The walks only change counts, never which nodes have one. */
  lemma WalkedKeys(m: Model, side: Side, cell: Cell, index: int)
    requires Pos(m.nest, side, cell) >= 0 && index >= 0
    ensures Walked(m, side, cell, index).Keys == m.seen.Keys
  {
    if (Pos(m.nest, side, cell) == 0) != (index == 0) {
      WalkedMoving(m, side, cell, index);
      RunOnTreeKeys(WalkGraph(m, side, cell, index), false, ChildOf(side, cell), WalkAmount(m, side, cell, index), |Nodes(m)|, m.seen);
    } else {
      WalkedIdle(m, side, cell, index);
    }
  }

  /** The tables keep their shape: the one new matrix key is the cell, and
      the seen counts keep their keys. */
  lemma CommitWF(m: Model, side: Side, cell: Cell, index: int)
    requires WF(m) && cell.0 in m.shelves && cell.1 in m.tasks
    requires Pos(m.nest, side, cell) >= 0 && index >= 0
    ensures WF(Commit(m, side, cell, index))
  {
    WalkedKeys(m, side, cell, index);
  }

  /** A move, or a removal of something absent, walks nothing. */
  lemma WalkedIdle(m: Model, side: Side, cell: Cell, index: int)
    requires Pos(m.nest, side, cell) >= 0 && index >= 0
    requires (Pos(m.nest, side, cell) == 0) == (index == 0)
    ensures Walked(m, side, cell, index) == m.seen
  {
  }

  /** Every node's seen count still equals its own roots plus its parents'
      counts: the insertion and removal walks repair exactly what the new
      or dropped edge changed, and a move changes neither the graph nor
      the counts. */
  lemma CommitSeen(m: Model, side: Side, cell: Cell, index: int)
    requires Shape(m) && LineDense(m, side, cell) && Acyclic(GraphOf(m)) && SeenOk(m)
    requires cell.0 in m.shelves && cell.1 in m.tasks
    requires Pos(m.nest, side, cell) >= 0 && index >= 0
    requires Pos(m.nest, side, cell) == 0 && index != 0 ==> !CheckTreeFor(GraphOf(m), ChildOf(side, cell), ParentOf(side, cell), false)
    ensures SeenOk(Commit(m, side, cell, index))
  {
    var r := Commit(m, side, cell, index);
    var prev := Pos(m.nest, side, cell);
    assert r.seen == Walked(m, side, cell, index);
    CommitGraphs(m, side, cell, index);
    forall x | x in Nodes(r) ensures Defect(GraphOf(r), Base(r, x), r.seen, x) == 0 {
      assert Base(r, x) == Base(m, x) && x in Nodes(m);
      assert Defect(GraphOf(m), Base(m, x), m.seen, x) == 0;
      if prev == 0 && index > 0 {
        InsertSeen(m, side, cell, index, x, Base(m, x));
      } else if prev > 0 && index == 0 {
        RemoveSeen(m, side, cell, x, Base(m, x));
      } else {
        WalkedIdle(m, side, cell, index);
      }
    }
  }

  /** An accepted change keeps the whole invariant. */
  lemma CommitInv(m: Model, side: Side, cell: Cell, index: int)
    requires Inv(m) && cell.0 in m.shelves && cell.1 in m.tasks
    requires Pos(m.nest, side, cell) >= 0
    requires IndexAllowed(index, Pos(m.nest, side, cell), Tail(m.nest, side, LineOf(m, side, cell)))
    requires Pos(m.nest, side, cell) == 0 && index != 0 ==> !CheckTreeFor(GraphOf(m), ChildOf(side, cell), ParentOf(side, cell), false)
    ensures Inv(Commit(m, side, cell, index))
  {
    assert Shape(m);
    OwnLine(m, side, cell);
    CommitWF(m, side, cell, index);
    CommitDense(m, side, cell, index);
    CommitAcyclic(m, side, cell, index);
    CommitSeen(m, side, cell, index);
  }

  // ---------------------------------------------------------------------
  // The position functions keep the invariant

  /** What an accepted `position_task_in_shelf` has checked and done: the
      requested index passed the bound, the task was not holding the shelf,
      an insertion passed the cycle search, and the result is the commit of
      that index. */
  lemma TaskInShelfAccepted(m: Model, task: TaskId, shelf: ShelfId, idx: Option<int>, filterOverride: bool, sorterOverride: bool)
    requires shelf in m.shelves && task in m.tasks
    requires PositionTaskInShelf(m, task, shelf, idx, filterOverride, sorterOverride).ok
    ensures RequestedIndex(m, task, shelf, idx, sorterOverride).Some?
    ensures var index := RequestedIndex(m, task, shelf, idx, sorterOverride).value;
      var prev := At(m.nest, (shelf, task));
      && prev >= 0 && IndexAllowed(index, prev, Tail(m.nest, Row, RowLine(m.tasks, shelf)))
      && (prev == 0 && index != 0 ==> !CheckTreeFor(GraphOf(m), TaskNode(task), ShelfNode(shelf), false))
      && PositionTaskInShelf(m, task, shelf, idx, filterOverride, sorterOverride).model == Commit(m, Row, (shelf, task), index)
  {
  }

  /** `position_task_in_shelf` keeps every container dense, the
      containment graph acyclic and every seen count equal to its number of
      root paths, whether it refuses or accepts. */
  lemma PositionTaskInShelfInv(m: Model, task: TaskId, shelf: ShelfId, idx: Option<int>, filterOverride: bool, sorterOverride: bool)
    requires Inv(m) && shelf in m.shelves && task in m.tasks
    ensures Inv(PositionTaskInShelf(m, task, shelf, idx, filterOverride, sorterOverride).model)
  {
    var r := PositionTaskInShelf(m, task, shelf, idx, filterOverride, sorterOverride);
    if r.ok {
      TaskInShelfAccepted(m, task, shelf, idx, filterOverride, sorterOverride);
      CommitInv(m, Row, (shelf, task), RequestedIndex(m, task, shelf, idx, sorterOverride).value);
    }
  }

  /** What an accepted `position_shelf_in_task` has checked and done. */
  lemma ShelfInTaskAccepted(m: Model, shelf: ShelfId, task: TaskId, idx: Option<int>)
    requires shelf in m.shelves && task in m.tasks
    requires PositionShelfInTask(m, shelf, task, idx).ok
    ensures var tail := Tail(m.nest, Column, ColumnLine(m.shelves, task));
      var index := EndOr(idx, tail);
      var prev := -At(m.nest, (shelf, task));
      && prev >= 0 && IndexAllowed(index, prev, tail)
      && (prev == 0 && index != 0 ==> !CheckTreeFor(GraphOf(m), ShelfNode(shelf), TaskNode(task), false))
      && PositionShelfInTask(m, shelf, task, idx).model == Commit(m, Column, (shelf, task), index)
  {
  }

  /** `position_shelf_in_task` keeps the invariant too. */
  lemma PositionShelfInTaskInv(m: Model, shelf: ShelfId, task: TaskId, idx: Option<int>)
    requires Inv(m) && shelf in m.shelves && task in m.tasks
    ensures Inv(PositionShelfInTask(m, shelf, task, idx).model)
  {
    if PositionShelfInTask(m, shelf, task, idx).ok {
      ShelfInTaskAccepted(m, shelf, task, idx);
      var tail := Tail(m.nest, Column, ColumnLine(m.shelves, task));
      CommitInv(m, Column, (shelf, task), EndOr(idx, tail));
    }
  }
}
