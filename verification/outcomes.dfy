/** What the position functions promise their callers: which calls they
    accept (model.py:143-161, 166-167, 180-185, 204-209, 228-230), what an
    accepted insertion, removal or move does to the container's children
    (model.py:164-190, 212-235), and the index bound of model.py:153-157. */
module Outcomes {
  import opened Ids
  import opened Graph
  import opened Walks
  import opened Positions
  import opened State
  import opened Nesting

  /** The checks an index must pass once it is known: the bound, the
      opposite nest, the filter (`filtered` is whether the container is a
      filter for this call), and for an insertion the absence of a cycle
      in the graph with the new edge. */
  ghost predicate Acceptable(m: Model, side: Side, cell: Cell, index: int, filtered: bool)
  {
    var prev := Pos(m.nest, side, cell);
    && prev >= 0
    && IndexAllowed(index, prev, Tail(m.nest, side, LineOf(m, side, cell)))
    && (prev != 0 && index == 0 ==> !filtered)
    && (prev == 0 && index != 0 ==> !filtered && Acyclic(AddEdge(GraphOf(m), ParentOf(side, cell), ChildOf(side, cell))))
  }

  /** The double search of the position functions answers exactly whether
      the new edge would close a cycle. */
  lemma SearchIsCycleTest(m: Model, side: Side, cell: Cell)
    requires Inv(m) && cell.0 in m.shelves && cell.1 in m.tasks
    ensures (CheckTreeFor(GraphOf(m), ChildOf(side, cell), ParentOf(side, cell), false) ||
             CheckTreeFor(GraphOf(m), ParentOf(side, cell), ChildOf(side, cell), true))
      <==> !Acyclic(AddEdge(GraphOf(m), ParentOf(side, cell), ChildOf(side, cell)))
  {
    GraphWellFormed(m);
    CheckUpMirrorsDown(GraphOf(m), ParentOf(side, cell), ChildOf(side, cell));
    AddEdgeAcyclicIff(GraphOf(m), ParentOf(side, cell), ChildOf(side, cell));
  }

  /** `position_task_in_shelf` accepts exactly the calls whose requested
      index passes every check, refuses with "circular nesting" exactly when
      the new edge would close a cycle, and an accepted call is the commit of
      the requested index. */
  lemma TaskInShelfOkIff(m: Model, task: TaskId, shelf: ShelfId, idx: Option<int>, filterOverride: bool, sorterOverride: bool)
    requires Inv(m) && shelf in m.shelves && task in m.tasks
    ensures var r := PositionTaskInShelf(m, task, shelf, idx, filterOverride, sorterOverride);
      var req := RequestedIndex(m, task, shelf, idx, sorterOverride);
      var filtered := Flag(m, shelf, "is_filter", filterOverride);
      && (r.ok <==> req.Some? && Acceptable(m, Row, (shelf, task), req.value, filtered))
      && (r.ok ==> r.model == Commit(m, Row, (shelf, task), req.value))
      && (r.msg == "Addition would create circular nesting" <==>
          req.Some? && At(m.nest, (shelf, task)) == 0 && req.value != 0 && !filtered &&
          IndexAllowed(req.value, 0, Tail(m.nest, Row, RowLine(m.tasks, shelf))) &&
          !Acyclic(AddEdge(GraphOf(m), ShelfNode(shelf), TaskNode(task))))
  {
    SearchIsCycleTest(m, Row, (shelf, task));
  }

  /** `position_shelf_in_task`: the same on the task's column, with no
      filter check. */
  lemma ShelfInTaskOkIff(m: Model, shelf: ShelfId, task: TaskId, idx: Option<int>)
    requires Inv(m) && shelf in m.shelves && task in m.tasks
    ensures var r := PositionShelfInTask(m, shelf, task, idx);
      var index := EndOr(idx, Tail(m.nest, Column, ColumnLine(m.shelves, task)));
      && (r.ok <==> Acceptable(m, Column, (shelf, task), index, false))
      && (r.ok ==> r.model == Commit(m, Column, (shelf, task), index))
      && (r.msg == "Addition would create circular nesting" <==>
          At(m.nest, (shelf, task)) == 0 && index != 0 &&
          IndexAllowed(index, 0, Tail(m.nest, Column, ColumnLine(m.shelves, task))) &&
          !Acyclic(AddEdge(GraphOf(m), TaskNode(task), ShelfNode(shelf))))
  {
    SearchIsCycleTest(m, Column, (shelf, task));
  }

  // ---------------------------------------------------------------------
  // The effect of an accepted change on the container

  /** Inserting an absent child at i in 1..n+1 of a container holding
      1..n: siblings at i or beyond move up by one, the child takes i, the
      container holds 1..n+1, and no other container changes. */
  lemma CommitInsert(m: Model, side: Side, cell: Cell, i: int)
    requires LineDense(m, side, cell) && cell.0 in m.shelves && cell.1 in m.tasks
    requires Pos(m.nest, side, cell) == 0 && 1 <= i <= Tail(m.nest, side, LineOf(m, side, cell)) + 1
    ensures var r := Commit(m, side, cell, i).nest;
      var line := LineOf(m, side, cell);
      && Pos(r, side, cell) == i
      && (forall c :: c in line && c != cell ==> Pos(r, side, c) == if Pos(m.nest, side, c) >= i then Pos(m.nest, side, c) + 1 else Pos(m.nest, side, c))
      && (forall c :: c !in line ==> At(r, c) == At(m.nest, c))
      && Dense(r, side, line, Tail(m.nest, side, line) + 1)
  {
    var line := LineOf(m, side, cell);
    var r := Commit(m, side, cell, i).nest;
    InsertKeepsDense(m.nest, r, side, line, cell, Tail(m.nest, side, line), i);
  }

  /** Removing the child at p >= 1 of a container holding 1..n: siblings
      above p move down by one, the cell reads 0, the container holds
      1..n-1, and no other container changes. */
  lemma CommitRemove(m: Model, side: Side, cell: Cell)
    requires LineDense(m, side, cell) && cell.0 in m.shelves && cell.1 in m.tasks
    requires Pos(m.nest, side, cell) > 0
    ensures var r := Commit(m, side, cell, 0).nest;
      var line := LineOf(m, side, cell);
      var p := Pos(m.nest, side, cell);
      && Pos(r, side, cell) == 0
      && (forall c :: c in line && c != cell ==> Pos(r, side, c) == if Pos(m.nest, side, c) > p then Pos(m.nest, side, c) - 1 else Pos(m.nest, side, c))
      && (forall c :: c !in line ==> At(r, c) == At(m.nest, c))
      && Dense(r, side, line, Tail(m.nest, side, line) - 1)
  {
    var line := LineOf(m, side, cell);
    var r := Commit(m, side, cell, 0).nest;
    var p := Pos(m.nest, side, cell);
    forall c | c in line && c != cell ensures Pos(m.nest, side, c) != p {
    }
    RemoveKeepsDense(m.nest, r, side, line, cell, Tail(m.nest, side, line));
  }

  /** Moving the child at p >= 1 to i in 1..n: only the siblings between
      the two positions move, one step towards p; the container still holds
      1..n; no other container and no seen count changes. */
  lemma CommitMove(m: Model, side: Side, cell: Cell, i: int)
    requires LineDense(m, side, cell) && cell.0 in m.shelves && cell.1 in m.tasks
    requires Pos(m.nest, side, cell) > 0 && 1 <= i <= Tail(m.nest, side, LineOf(m, side, cell))
    ensures var r := Commit(m, side, cell, i);
      var line := LineOf(m, side, cell);
      var p := Pos(m.nest, side, cell);
      && Pos(r.nest, side, cell) == i
      && (forall c :: c in line && c != cell ==>
            Pos(r.nest, side, c) ==
              (if p < i && p < Pos(m.nest, side, c) <= i then Pos(m.nest, side, c) - 1
               else if i < p && i <= Pos(m.nest, side, c) < p then Pos(m.nest, side, c) + 1
               else Pos(m.nest, side, c)))
      && (forall c :: c !in line ==> At(r.nest, c) == At(m.nest, c))
      && Dense(r.nest, side, line, Tail(m.nest, side, line))
      && r.seen == m.seen
  {
    var line := LineOf(m, side, cell);
    var r := Commit(m, side, cell, i).nest;
    var p := Pos(m.nest, side, cell);
    forall c | c in line && c != cell ensures Pos(m.nest, side, c) != p {
    }
    MoveKeepsDense(m.nest, r, side, line, cell, Tail(m.nest, side, line), i);
    WalkedIdle(m, side, cell, i);
  }

  /** Asking for the position a child already holds changes nothing: no
      branch of the shift fires, the write stores the same value, and the
      walk does not run. */
  lemma TaskInShelfInPlace(m: Model, task: TaskId, shelf: ShelfId, filterOverride: bool, sorterOverride: bool)
    requires shelf in m.shelves && task in m.tasks
    requires At(m.nest, (shelf, task)) > 0 && !Flag(m, shelf, "is_sorter", sorterOverride)
    ensures PositionTaskInShelf(m, task, shelf, Some(At(m.nest, (shelf, task))), filterOverride, sorterOverride) == Reply(m, true, "")
  {
    var cell := (shelf, task);
    var p := At(m.nest, cell);
    WalkedIdle(m, Row, cell, p);
    assert Commit(m, Row, cell, p).nest == m.nest;
  }

  /** The mirror for a shelf already in a task. */
  lemma ShelfInTaskInPlace(m: Model, shelf: ShelfId, task: TaskId)
    requires shelf in m.shelves && task in m.tasks
    requires At(m.nest, (shelf, task)) < 0
    ensures PositionShelfInTask(m, shelf, task, Some(-At(m.nest, (shelf, task)))) == Reply(m, true, "")
  {
    var cell := (shelf, task);
    var p := -At(m.nest, cell);
    WalkedIdle(m, Column, cell, p);
    assert Commit(m, Column, cell, p).nest == m.nest;
  }

  // ---------------------------------------------------------------------
  // The move to tail + 1

  /** As written, the bound check of `position_task_in_shelf` lets a task
      already in the shelf move to tail + 1, which the corrected bound
      refuses; the matrix that move writes (`Commit` writes `Reposition`)
      has the task past the end and a gap at the tail, so no count makes
      the row dense. */
  lemma AsWrittenMoveToEnd(m: Model, task: TaskId, shelf: ShelfId)
    requires shelf in m.shelves && task in m.tasks
    requires Dense(m.nest, Row, RowLine(m.tasks, shelf), Tail(m.nest, Row, RowLine(m.tasks, shelf)))
    requires At(m.nest, (shelf, task)) > 0
    ensures var tail := Tail(m.nest, Row, RowLine(m.tasks, shelf));
      var r := Reposition(m.nest, Row, RowLine(m.tasks, shelf), (shelf, task), tail + 1);
      && IndexAllowedAsWritten(tail + 1, tail)
      && !IndexAllowed(tail + 1, At(m.nest, (shelf, task)), tail)
      && forall k: nat :: !Dense(r, Row, RowLine(m.tasks, shelf), k)
  {
    var line := RowLine(m.tasks, shelf);
    var tail := Tail(m.nest, Row, line);
    assert !IndexAllowed(tail + 1, At(m.nest, (shelf, task)), tail);
    MoveToTailGap(m.nest, Row, line, (shelf, task), tail);
  }

  /** The same defect in `position_shelf_in_task`: a shelf already in the
      task may be moved to tail + 1 of the task's column, leaving a gap. */
  lemma AsWrittenShelfMoveToEnd(m: Model, shelf: ShelfId, task: TaskId)
    requires shelf in m.shelves && task in m.tasks
    requires Dense(m.nest, Column, ColumnLine(m.shelves, task), Tail(m.nest, Column, ColumnLine(m.shelves, task)))
    requires At(m.nest, (shelf, task)) < 0
    ensures var tail := Tail(m.nest, Column, ColumnLine(m.shelves, task));
      var r := Reposition(m.nest, Column, ColumnLine(m.shelves, task), (shelf, task), tail + 1);
      && IndexAllowedAsWritten(tail + 1, tail)
      && !IndexAllowed(tail + 1, -At(m.nest, (shelf, task)), tail)
      && forall k: nat :: !Dense(r, Column, ColumnLine(m.shelves, task), k)
  {
    var line := ColumnLine(m.shelves, task);
    var tail := Tail(m.nest, Column, line);
    assert !IndexAllowed(tail + 1, -At(m.nest, (shelf, task)), tail);
    MoveToTailGap(m.nest, Column, line, (shelf, task), tail);
  }

  /** With the corrected bound, a child already in a plain shelf asked to go
      to the end (no index, or tail + 1) is refused before anything is
      written. */
  lemma MoveToEndRefused(m: Model, task: TaskId, shelf: ShelfId, filterOverride: bool, sorterOverride: bool)
    requires shelf in m.shelves && task in m.tasks
    requires At(m.nest, (shelf, task)) > 0 && !Flag(m, shelf, "is_sorter", sorterOverride)
    ensures var tail := Tail(m.nest, Row, RowLine(m.tasks, shelf));
      && PositionTaskInShelf(m, task, shelf, None, filterOverride, sorterOverride) == Reply(m, false, "Invalid index given for insertion")
      && PositionTaskInShelf(m, task, shelf, Some(tail + 1), filterOverride, sorterOverride) == Reply(m, false, "Invalid index given for insertion")
  {
  }

  /** With the corrected bound, a shelf already in a task asked to go to
      the end of the task's column (no index, or tail + 1) is refused
      before anything is written. */
  lemma ShelfMoveToEndRefused(m: Model, shelf: ShelfId, task: TaskId)
    requires shelf in m.shelves && task in m.tasks
    requires At(m.nest, (shelf, task)) < 0
    ensures var tail := Tail(m.nest, Column, ColumnLine(m.shelves, task));
      && PositionShelfInTask(m, shelf, task, None) == Reply(m, false, "Invalid index given for insertion")
      && PositionShelfInTask(m, shelf, task, Some(tail + 1)) == Reply(m, false, "Invalid index given for insertion")
  {
  }
}
