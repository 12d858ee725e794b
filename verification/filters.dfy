/** Filter upkeep: `check_against_filters` (model.py:378-389) brings one
    task into or out of every filter shelf, and `refilter_shelf`
    (model.py:391-400) brings every task into or out of one filter shelf.
    Both go through `position_task_in_shelf` with the filter check
    overridden, so an addition that would close a cycle is still refused. */
module Filters {
  import opened Ids
  import opened Sums
  import opened Graph
  import opened Positions
  import opened Values
  import opened State
  import opened Sorting
  import opened Nesting
  import opened Views
  import opened Sorters

  /** `run_filter_on(task, filter_string)`: a task passes while it is not
      completed; the filter string is not read. */
  predicate Passes(m: Model, task: TaskId)
  {
    !Truthy(Field(if task in m.taskData then m.taskData[task] else map[], "completed"))
  }

  /** `is_filter` as stored for the shelf. */
  predicate IsFilter(m: Model, s: ShelfId)
  {
    Flag(m, s, "is_filter", false)
  }

  /** The shelf already lies below the task, so putting the task into the
      shelf would close a cycle. */
  predicate Above(m: Model, shelf: ShelfId, task: TaskId)
  {
    CheckTreeFor(GraphOf(m), TaskNode(task), ShelfNode(shelf), false)
  }

  /** The body shared by both loops: a passing task missing from the shelf
      is appended (or sorted in, when the shelf is a sorter); a failing task
      holding a position there is removed. */
  function FilterStep(m: Model, shelf: ShelfId, task: TaskId): (r: Model)
    requires shelf in m.shelves && task in m.tasks
    ensures r.tasks == m.tasks && r.shelves == m.shelves && r.taskData == m.taskData && r.shelfData == m.shelfData
    ensures r.rack == m.rack && r.stage == m.stage
  {
    var at := At(m.nest, (shelf, task));
    if Passes(m, task) && at == 0 then PositionTaskInShelf(m, task, shelf, None, true, false).model
    else if !Passes(m, task) && at != 0 then PositionTaskInShelf(m, task, shelf, Some(0), true, false).model
    else m
  }

  /** The loop of `refilter_shelf` over the tasks `ts`. */
  function RefilterWith(m: Model, shelf: ShelfId, ts: seq<TaskId>): (r: Model)
    requires shelf in m.shelves && forall t :: t in ts ==> t in m.tasks
    ensures r.tasks == m.tasks && r.shelves == m.shelves && r.taskData == m.taskData && r.shelfData == m.shelfData
    ensures r.rack == m.rack && r.stage == m.stage
    decreases |ts|
  {
    if ts == [] then m
    else RefilterWith(FilterStep(m, shelf, ts[0]), shelf, ts[1..])
  }

  /** `refilter_shelf(shelf)`: every task, in table order. */
  function RefilterShelf(m: Model, shelf: ShelfId): (r: Model)
    requires shelf in m.shelves
    ensures r.tasks == m.tasks && r.shelves == m.shelves && r.taskData == m.taskData && r.shelfData == m.shelfData
  {
    RefilterWith(m, shelf, m.tasks)
  }

  /** The filter shelves, in table order (`shelfdf.loc[shelfdf["is_filter"]]`). */
  function FilterShelves(m: Model): (r: seq<ShelfId>)
    ensures forall s :: s in r <==> s in m.shelves && IsFilter(m, s)
    ensures Distinct(m.shelves) ==> Distinct(r)
  {
    Those(m.shelves, s => IsFilter(m, s))
  }

  /** The loop of `check_against_filters` over the filters `fs`. */
  function CheckFilters(m: Model, task: TaskId, fs: seq<ShelfId>): (r: Model)
    requires task in m.tasks && forall s :: s in fs ==> s in m.shelves
    ensures r.tasks == m.tasks && r.shelves == m.shelves && r.taskData == m.taskData && r.shelfData == m.shelfData
    ensures r.rack == m.rack && r.stage == m.stage
    decreases |fs|
  {
    if fs == [] then m
    else CheckFilters(FilterStep(m, fs[0], task), task, fs[1..])
  }

  /** `check_against_filters(task)`, reading the matrix at the filter's own
      row as the comments around it describe. */
  function CheckAgainstFilters(m: Model, task: TaskId): (r: Model)
    requires task in m.tasks
    ensures r.tasks == m.tasks && r.shelves == m.shelves && r.taskData == m.taskData && r.shelfData == m.shelfData
  {
    CheckFilters(m, task, FilterShelves(m))
  }

  /** How a call ends: normally with a model, or with a Python exception. */
  datatype Run = Done(model: Model) | Raised(error: string)

  /** `check_against_filters(task)` as written: the matrix is read at row
      `id` (Python's builtin function, not the loop's `dfid`), which is no
      shelf id, so the first filter raises `KeyError` before any change. */
  function CheckAgainstFiltersAsWritten(m: Model, task: TaskId): (r: Run)
    requires task in m.tasks
  {
    if FilterShelves(m) == [] then Done(m) else Raised("KeyError")
  }

  // ---------------------------------------------------------------------
  // What one step does

  /** The cell of a shelf and a task after a step: a shelf inside the task
      stays there; otherwise the task ends in the shelf exactly when it
      passes and either was there already or its addition closes no cycle
      (judged on the model before the step). */
  predicate FilterOutcome(m: Model, r: Model, shelf: ShelfId, task: TaskId)
  {
    var before := At(m.nest, (shelf, task));
    var after := At(r.nest, (shelf, task));
    if before < 0 then after < 0
    else after >= 0 && (after > 0 <==> Passes(m, task) && (before > 0 || !Above(m, shelf, task)))
  }

  /** The cell keeps its sign, or flips between empty and positive. */
  predicate CellSign(n1: Nest, n2: Nest, cell: Cell)
  {
    At(n1, cell) < 0 <==> At(n2, cell) < 0
  }

  /** The index an addition asks for: the end, or the sorted index when
      the shelf is a sorter; either way within 1..tail + 1. */
  lemma AddIndex(m: Model, shelf: ShelfId, task: TaskId)
    requires Distinct(m.tasks) && RowDense(m, shelf)
    ensures var req := RequestedIndex(m, task, shelf, None, false);
      req.Some? && 1 <= req.value <= Tail(m.nest, Row, RowLine(m.tasks, shelf)) + 1
  {
    ChildrenCount(m, shelf);
  }

  /** With the filter check overridden, an addition within range is
      refused for a cycle and otherwise committed. */
  lemma AddReply(m: Model, shelf: ShelfId, task: TaskId, index: int)
    requires shelf in m.shelves && task in m.tasks && At(m.nest, (shelf, task)) == 0
    requires RequestedIndex(m, task, shelf, None, false) == Some(index)
    requires 1 <= index <= Tail(m.nest, Row, RowLine(m.tasks, shelf)) + 1
    requires CheckTreeFor(GraphOf(m), ShelfNode(shelf), TaskNode(task), true) == Above(m, shelf, task)
    ensures PositionTaskInShelf(m, task, shelf, None, true, false) ==
      if Above(m, shelf, task) then Reply(m, false, "Addition would create circular nesting")
      else Reply(Commit(m, Row, (shelf, task), index), true, "")
  {
  }

  /** With the filter check overridden, removing a child is committed. */
  lemma RemoveReply(m: Model, shelf: ShelfId, task: TaskId)
    requires shelf in m.shelves && task in m.tasks && At(m.nest, (shelf, task)) > 0
    ensures PositionTaskInShelf(m, task, shelf, Some(0), true, false) == Reply(Commit(m, Row, (shelf, task), 0), true, "")
  {
    assert RequestedIndex(m, task, shelf, Some(0), false) == Some(0);
    assert IndexAllowed(0, At(m.nest, (shelf, task)), Tail(m.nest, Row, RowLine(m.tasks, shelf)));
  }

  /** The model a step produces, as a commit or as the model itself. */
  lemma StepShape(m: Model, shelf: ShelfId, task: TaskId)
    requires Distinct(m.tasks) && Distinct(m.shelves) && RowDense(m, shelf)
    requires shelf in m.shelves && task in m.tasks
    ensures var at := At(m.nest, (shelf, task));
      var r := FilterStep(m, shelf, task);
      var index := RequestedIndex(m, task, shelf, None, false);
      && index.Some? && 1 <= index.value <= Tail(m.nest, Row, RowLine(m.tasks, shelf)) + 1
      && r == (if Passes(m, task) && at == 0 && !Above(m, shelf, task) then Commit(m, Row, (shelf, task), index.value)
               else if !Passes(m, task) && at > 0 then Commit(m, Row, (shelf, task), 0)
               else m)
  {
    var at := At(m.nest, (shelf, task));
    AddIndex(m, shelf, task);
    var index := RequestedIndex(m, task, shelf, None, false).value;
    if Passes(m, task) && at == 0 {
      GraphWellFormed(m);
      CheckUpMirrorsDown(GraphOf(m), ShelfNode(shelf), TaskNode(task));
      AddReply(m, shelf, task, index);
    } else if !Passes(m, task) && at > 0 {
      RemoveReply(m, shelf, task);
    }
  }

  /** One step leaves the cell as `FilterOutcome` says, changes no sign
      but that of its own cell (and that one never to negative), and no
      row but the shelf's. */
  lemma FilterStepCell(m: Model, shelf: ShelfId, task: TaskId)
    requires Distinct(m.tasks) && Distinct(m.shelves) && RowDense(m, shelf)
    requires shelf in m.shelves && task in m.tasks
    ensures var r := FilterStep(m, shelf, task);
      && FilterOutcome(m, r, shelf, task)
      && SignsKept(m.nest, r.nest, (shelf, task)) && CellSign(m.nest, r.nest, (shelf, task))
      && (forall c: Cell :: c.0 != shelf ==> At(r.nest, c) == At(m.nest, c))
  {
    var cell := (shelf, task);
    var at := At(m.nest, cell);
    StepShape(m, shelf, task);
    var index := RequestedIndex(m, task, shelf, None, false).value;
    assert cell in RowLine(m.tasks, shelf);
    if Passes(m, task) && at == 0 && !Above(m, shelf, task) {
      CommitSigns(m, Row, cell, index);
    } else if !Passes(m, task) && at > 0 {
      CommitSigns(m, Row, cell, 0);
    }
  }

  /** One step keeps the invariant. */
  lemma FilterStepInv(m: Model, shelf: ShelfId, task: TaskId)
    requires Inv(m) && shelf in m.shelves && task in m.tasks
    ensures Inv(FilterStep(m, shelf, task))
  {
    var cell := (shelf, task);
    var at := At(m.nest, cell);
    assert Distinct(m.tasks) && Distinct(m.shelves) && RowDense(m, shelf);
    StepShape(m, shelf, task);
    var index := RequestedIndex(m, task, shelf, None, false).value;
    if Passes(m, task) && at == 0 && !Above(m, shelf, task) {
      CommitInv(m, Row, cell, index);
    } else if !Passes(m, task) && at > 0 {
      CommitInv(m, Row, cell, 0);
    }
  }

  /** A step moves at most the edge from the shelf to the task, so the
      graph agrees with the old one on every edge that leaves another node
      and on every edge that enters another node. */
  lemma StepGraph(m: Model, r: Model, shelf: ShelfId, task: TaskId)
    requires r.tasks == m.tasks && r.shelves == m.shelves
    requires SignsKept(m.nest, r.nest, (shelf, task)) && CellSign(m.nest, r.nest, (shelf, task))
    ensures AgreeOutside(GraphOf(m), GraphOf(r), ShelfNode(shelf))
    ensures AgreeInto(GraphOf(m), GraphOf(r), TaskNode(task))
  {
    EdgesFromSigns(m, r, (shelf, task));
    forall x, y | (x, y) != (ShelfNode(shelf), TaskNode(task))
      ensures IsEdge(m, x, y) <==> IsEdge(r, x, y)
    {
    }
  }

  /** The cell is empty, positive or negative in both nests alike. */
  predicate SameSign(n1: Nest, n2: Nest, c: Cell)
  {
    (At(n1, c) > 0 <==> At(n2, c) > 0) && (At(n1, c) < 0 <==> At(n2, c) < 0)
  }

  /** An outcome survives later steps that leave the cell's sign alone. */
  lemma OutcomeKept(m: Model, m1: Model, r: Model, shelf: ShelfId, task: TaskId)
    requires FilterOutcome(m, m1, shelf, task) && SameSign(m1.nest, r.nest, (shelf, task))
    ensures FilterOutcome(m, r, shelf, task)
  {
  }

  /** An outcome judged from an intermediate model holds from the start
      when the earlier steps kept the cell's sign, the task data and the
      answer of the cycle search. */
  lemma OutcomeCarried(m: Model, m1: Model, r: Model, shelf: ShelfId, task: TaskId)
    requires FilterOutcome(m1, r, shelf, task) && SameSign(m.nest, m1.nest, (shelf, task))
    requires m1.taskData == m.taskData && Above(m1, shelf, task) == Above(m, shelf, task)
    ensures FilterOutcome(m, r, shelf, task)
  {
  }

  // ---------------------------------------------------------------------
  // refilter_shelf

  /** The loop keeps the invariant. */
  lemma {:induction false} RefilterWithInv(m: Model, shelf: ShelfId, ts: seq<TaskId>)
    requires Inv(m) && shelf in m.shelves && forall t :: t in ts ==> t in m.tasks
    ensures Inv(RefilterWith(m, shelf, ts))
    decreases |ts|
  {
    if ts != [] {
      assert ts[0] in ts;
      FilterStepInv(m, shelf, ts[0]);
      assert forall t :: t in ts[1..] ==> t in ts;
      RefilterWithInv(FilterStep(m, shelf, ts[0]), shelf, ts[1..]);
    }
  }

  /** The loop over distinct tasks leaves each of their cells as
      `FilterOutcome` says, judged on the model before the loop; it changes
      no other row, no sign outside the tasks' cells, and no edge leaving a
      node other than the shelf. */
  lemma {:induction false} RefilterWithCells(m: Model, shelf: ShelfId, ts: seq<TaskId>)
    requires Inv(m) && shelf in m.shelves && Distinct(ts) && forall t :: t in ts ==> t in m.tasks
    ensures var r := RefilterWith(m, shelf, ts);
      && (forall t :: t in ts ==> FilterOutcome(m, r, shelf, t))
      && (forall t :: t !in ts ==> SameSign(m.nest, r.nest, (shelf, t)))
      && (forall c: Cell :: c.0 != shelf ==> At(r.nest, c) == At(m.nest, c))
      && AgreeOutside(GraphOf(m), GraphOf(r), ShelfNode(shelf))
    decreases |ts|
  {
    var r := RefilterWith(m, shelf, ts);
    if ts == [] {
      assert GraphOf(r) == GraphOf(m);
    } else {
      var t0 := ts[0];
      assert t0 in ts;
      var m1 := FilterStep(m, shelf, t0);
      assert Distinct(m.tasks) && Distinct(m.shelves) && RowDense(m, shelf);
      FilterStepCell(m, shelf, t0);
      FilterStepInv(m, shelf, t0);
      StepGraph(m, m1, shelf, t0);
      DistinctTail(ts);
      assert forall t :: t in ts[1..] ==> t in ts && t != t0;
      RefilterWithCells(m1, shelf, ts[1..]);
      assert r == RefilterWith(m1, shelf, ts[1..]);
      AgreeOutsideTrans(GraphOf(m), GraphOf(m1), GraphOf(r), ShelfNode(shelf));
      RowOutcomes(m, m1, r, shelf, t0, ts[1..]);
      assert forall t :: t in ts <==> t == t0 || t in ts[1..];
    }
  }

  /** The outcomes of a first step and of the rest of a row's loop make
      the outcomes of the whole loop. */
  lemma RowOutcomes(m: Model, m1: Model, r: Model, shelf: ShelfId, t0: TaskId, rest: seq<TaskId>)
    requires m1.tasks == m.tasks && m1.shelves == m.shelves && m1.taskData == m.taskData
    requires FilterOutcome(m, m1, shelf, t0) && SignsKept(m.nest, m1.nest, (shelf, t0))
    requires AgreeOutside(GraphOf(m), GraphOf(m1), ShelfNode(shelf))
    requires t0 !in rest
    requires forall t :: t in rest ==> FilterOutcome(m1, r, shelf, t)
    requires forall t :: t !in rest ==> SameSign(m1.nest, r.nest, (shelf, t))
    ensures forall t :: t == t0 || t in rest ==> FilterOutcome(m, r, shelf, t)
    ensures forall t :: t != t0 && t !in rest ==> SameSign(m.nest, r.nest, (shelf, t))
  {
    forall t | t == t0 || t in rest ensures FilterOutcome(m, r, shelf, t) {
      if t == t0 {
        OutcomeKept(m, m1, r, shelf, t);
      } else {
        ReachIntoUnaffected(GraphOf(m), GraphOf(m1), ShelfNode(shelf), TaskNode(t), |Nodes(m)|);
        OutcomeCarried(m, m1, r, shelf, t);
      }
    }
  }

  /** `refilter_shelf` keeps the invariant and leaves the shelf holding
      exactly the passing tasks, except those whose addition would close a
      cycle (and shelves nested in a task keep that place); no other row
      changes. */
  lemma RefilterShelfEffect(m: Model, shelf: ShelfId)
    requires Inv(m) && shelf in m.shelves
    ensures var r := RefilterShelf(m, shelf);
      && Inv(r)
      && (forall t :: t in m.tasks ==> FilterOutcome(m, r, shelf, t))
      && (forall c: Cell :: c.0 != shelf ==> At(r.nest, c) == At(m.nest, c))
  {
    RefilterWithInv(m, shelf, m.tasks);
    RefilterWithCells(m, shelf, m.tasks);
  }

  /** A step changes nothing when the cell already agrees with the filter:
      a passing task is present (or would close a cycle), a failing one is
      absent (or the task holds the shelf). */
  lemma StepIdle(m: Model, shelf: ShelfId, task: TaskId)
    requires Distinct(m.tasks) && Distinct(m.shelves) && RowDense(m, shelf)
    requires shelf in m.shelves && task in m.tasks
    requires Passes(m, task) && At(m.nest, (shelf, task)) == 0 ==> Above(m, shelf, task)
    requires !Passes(m, task) ==> At(m.nest, (shelf, task)) <= 0
    ensures FilterStep(m, shelf, task) == m
  {
    StepShape(m, shelf, task);
  }

  lemma {:induction false} RefilterWithIdle(m: Model, shelf: ShelfId, ts: seq<TaskId>)
    requires Distinct(m.tasks) && Distinct(m.shelves) && RowDense(m, shelf)
    requires shelf in m.shelves && forall t :: t in ts ==> t in m.tasks
    requires forall t :: t in ts ==> FilterStep(m, shelf, t) == m
    ensures RefilterWith(m, shelf, ts) == m
    decreases |ts|
  {
    if ts != [] {
      assert ts[0] in ts;
      assert forall t :: t in ts[1..] ==> t in ts;
      RefilterWithIdle(m, shelf, ts[1..]);
    }
  }

  /** Refiltering a shelf twice is refiltering it once. */
  lemma RefilterShelfIdempotent(m: Model, shelf: ShelfId)
    requires Inv(m) && shelf in m.shelves
    ensures RefilterShelf(RefilterShelf(m, shelf), shelf) == RefilterShelf(m, shelf)
  {
    var r := RefilterShelf(m, shelf);
    RefilterWithInv(m, shelf, m.tasks);
    RefilterWithCells(m, shelf, m.tasks);
    assert Distinct(r.tasks) && Distinct(r.shelves) && RowDense(r, shelf);
    forall t | t in r.tasks ensures FilterStep(r, shelf, t) == r {
      IdleAfter(m, r, shelf, t);
    }
    RefilterWithIdle(r, shelf, r.tasks);
  }

  /** A task whose cell already shows the outcome of filtering is left
      alone by a second step, since the step leaves the graph into the
      shelf as it was. */
  lemma IdleAfter(m: Model, r: Model, shelf: ShelfId, t: TaskId)
    requires Distinct(r.tasks) && Distinct(r.shelves) && RowDense(r, shelf)
    requires shelf in r.shelves && t in r.tasks && r.taskData == m.taskData
    requires FilterOutcome(m, r, shelf, t)
    requires AgreeOutside(GraphOf(m), GraphOf(r), ShelfNode(shelf))
    ensures FilterStep(r, shelf, t) == r
  {
    ReachIntoUnaffected(GraphOf(m), GraphOf(r), ShelfNode(shelf), TaskNode(t), |GraphOf(m).nodes|);
    StepIdle(r, shelf, t);
  }

  // ---------------------------------------------------------------------
  // check_against_filters

  lemma {:induction false} CheckFiltersInv(m: Model, task: TaskId, fs: seq<ShelfId>)
    requires Inv(m) && task in m.tasks && forall s :: s in fs ==> s in m.shelves
    ensures Inv(CheckFilters(m, task, fs))
    decreases |fs|
  {
    if fs != [] {
      assert fs[0] in fs;
      FilterStepInv(m, fs[0], task);
      assert forall s :: s in fs[1..] ==> s in fs;
      CheckFiltersInv(FilterStep(m, fs[0], task), task, fs[1..]);
    }
  }

  /** The loop over distinct filters leaves the task's cell in each as
      `FilterOutcome` says, judged on the model before the loop; it changes
      no row of another shelf, no sign of another task's cell, and no edge
      entering a node other than the task. */
  lemma {:induction false} CheckFiltersCells(m: Model, task: TaskId, fs: seq<ShelfId>)
    requires Inv(m) && task in m.tasks && Distinct(fs) && forall s :: s in fs ==> s in m.shelves
    ensures var r := CheckFilters(m, task, fs);
      && (forall f :: f in fs ==> FilterOutcome(m, r, f, task))
      && (forall c: Cell :: c.0 !in fs ==> At(r.nest, c) == At(m.nest, c))
      && (forall c: Cell :: c.1 != task ==> SameSign(m.nest, r.nest, c))
      && AgreeInto(GraphOf(m), GraphOf(r), TaskNode(task))
    decreases |fs|
  {
    var r := CheckFilters(m, task, fs);
    if fs == [] {
      assert GraphOf(r) == GraphOf(m);
    } else {
      var f0 := fs[0];
      assert f0 in fs;
      var m1 := FilterStep(m, f0, task);
      ColumnStep(m, f0, task);
      DistinctTail(fs);
      assert forall f :: f in fs[1..] ==> f in fs && f != f0;
      CheckFiltersCells(m1, task, fs[1..]);
      assert r == CheckFilters(m1, task, fs[1..]);
      AgreeIntoTrans(GraphOf(m), GraphOf(m1), GraphOf(r), TaskNode(task));
      ColumnOutcomes(m, m1, r, task, f0, fs[1..]);
      ColumnFrames(m, m1, r, task, f0, fs[1..]);
    }
  }

  /** What one step of the column loop gives the next. */
  lemma ColumnStep(m: Model, f: ShelfId, task: TaskId)
    requires Inv(m) && f in m.shelves && task in m.tasks
    ensures var m1 := FilterStep(m, f, task);
      && Inv(m1) && Acyclic(GraphOf(m)) && Acyclic(GraphOf(m1))
      && FilterOutcome(m, m1, f, task)
      && SignsKept(m.nest, m1.nest, (f, task))
      && (forall c: Cell :: c.0 != f ==> At(m1.nest, c) == At(m.nest, c))
      && AgreeInto(GraphOf(m), GraphOf(m1), TaskNode(task))
  {
    var m1 := FilterStep(m, f, task);
    assert Distinct(m.tasks) && Distinct(m.shelves) && RowDense(m, f);
    FilterStepCell(m, f, task);
    FilterStepInv(m, f, task);
    StepGraph(m, m1, f, task);
  }

  /** The frames of a first step and of the rest of a column's loop make
      the frames of the whole loop. */
  lemma ColumnFrames(m: Model, m1: Model, r: Model, task: TaskId, f0: ShelfId, rest: seq<ShelfId>)
    requires SignsKept(m.nest, m1.nest, (f0, task))
    requires forall c: Cell :: c.0 != f0 ==> At(m1.nest, c) == At(m.nest, c)
    requires forall c: Cell :: c.0 !in rest ==> At(r.nest, c) == At(m1.nest, c)
    requires forall c: Cell :: c.1 != task ==> SameSign(m1.nest, r.nest, c)
    ensures forall c: Cell :: c.0 !in [f0] + rest ==> At(r.nest, c) == At(m.nest, c)
    ensures forall c: Cell :: c.1 != task ==> SameSign(m.nest, r.nest, c)
  {
  }

  /** The outcomes of a first step and of the rest of a column's loop make
      the outcomes of the whole loop: the searches from the task see only
      edges that leave it, which no step touches. */
  lemma ColumnOutcomes(m: Model, m1: Model, r: Model, task: TaskId, f0: ShelfId, rest: seq<ShelfId>)
    requires m1.tasks == m.tasks && m1.shelves == m.shelves && m1.taskData == m.taskData
    requires FilterOutcome(m, m1, f0, task)
    requires AgreeInto(GraphOf(m), GraphOf(m1), TaskNode(task)) && Acyclic(GraphOf(m)) && Acyclic(GraphOf(m1))
    requires SignsKept(m.nest, m1.nest, (f0, task)) && f0 !in rest
    requires forall f :: f in rest ==> FilterOutcome(m1, r, f, task)
    requires forall c: Cell :: c.0 !in rest ==> At(r.nest, c) == At(m1.nest, c)
    ensures forall f :: f == f0 || f in rest ==> FilterOutcome(m, r, f, task)
  {
    forall f | f == f0 || f in rest ensures FilterOutcome(m, r, f, task) {
      if f == f0 {
        OutcomeKept(m, m1, r, f, task);
      } else {
        ReachFromTarget(GraphOf(m), GraphOf(m1), TaskNode(task), ShelfNode(f), |Nodes(m)|);
        OutcomeCarried(m, m1, r, f, task);
      }
    }
  }

  /** `check_against_filters` keeps the invariant and leaves the task in
      exactly the filters it passes, except those it would close a cycle
      with (and filters nested in the task keep that place); no other
      shelf's row changes, and no other task's cell changes its sign. */
  lemma CheckAgainstFiltersEffect(m: Model, task: TaskId)
    requires Inv(m) && task in m.tasks
    ensures var r := CheckAgainstFilters(m, task);
      && Inv(r)
      && (forall f :: f in m.shelves && IsFilter(m, f) ==> FilterOutcome(m, r, f, task))
      && (forall c: Cell :: !IsFilter(m, c.0) ==> At(r.nest, c) == At(m.nest, c))
      && (forall c: Cell :: c.1 != task ==> SameSign(m.nest, r.nest, c))
  {
    var fs := FilterShelves(m);
    CheckFiltersInv(m, task, fs);
    CheckFiltersCells(m, task, fs);
  }

  lemma {:induction false} CheckFiltersIdle(m: Model, task: TaskId, fs: seq<ShelfId>)
    requires task in m.tasks && forall s :: s in fs ==> s in m.shelves
    requires forall f :: f in fs ==> FilterStep(m, f, task) == m
    ensures CheckFilters(m, task, fs) == m
    decreases |fs|
  {
    if fs != [] {
      assert fs[0] in fs;
      assert forall f :: f in fs[1..] ==> f in fs;
      CheckFiltersIdle(m, task, fs[1..]);
    }
  }

  /** Checking a task against the filters twice is checking it once. */
  lemma CheckAgainstFiltersIdempotent(m: Model, task: TaskId)
    requires Inv(m) && task in m.tasks
    ensures CheckAgainstFilters(CheckAgainstFilters(m, task), task) == CheckAgainstFilters(m, task)
  {
    var r := CheckAgainstFilters(m, task);
    CheckFiltersInv(m, task, FilterShelves(m));
    CheckFiltersCells(m, task, FilterShelves(m));
    assert Distinct(r.tasks) && Distinct(r.shelves) && AllDense(r) && Acyclic(GraphOf(r)) && Acyclic(GraphOf(m));
    forall f | f in FilterShelves(r) ensures FilterStep(r, f, task) == r {
      ColumnIdle(m, r, task, f);
    }
    CheckFiltersIdle(r, task, FilterShelves(r));
  }

  /** A filter whose cell already has its outcome is left alone by a
      second step. */
  lemma ColumnIdle(m: Model, r: Model, task: TaskId, f: ShelfId)
    requires r.tasks == m.tasks && r.shelves == m.shelves && r.taskData == m.taskData
    requires Distinct(r.tasks) && Distinct(r.shelves) && AllDense(r) && f in r.shelves && task in r.tasks
    requires FilterOutcome(m, r, f, task)
    requires AgreeInto(GraphOf(m), GraphOf(r), TaskNode(task)) && Acyclic(GraphOf(m)) && Acyclic(GraphOf(r))
    ensures FilterStep(r, f, task) == r
  {
    assert RowDense(r, f);
    ReachFromTarget(GraphOf(m), GraphOf(r), TaskNode(task), ShelfNode(f), |Nodes(m)|);
    StepIdle(r, f, task);
  }

  /** As written, checking a passing task against a filter it is missing
      from raises instead of adding it, which the corrected loop does. */
  lemma AsWrittenFiltersRaise(m: Model, task: TaskId, f: ShelfId)
    requires Inv(m) && task in m.tasks && f in m.shelves && IsFilter(m, f)
    requires Passes(m, task) && At(m.nest, (f, task)) == 0 && !Above(m, f, task)
    ensures CheckAgainstFiltersAsWritten(m, task) == Raised("KeyError")
    ensures At(CheckAgainstFilters(m, task).nest, (f, task)) > 0
  {
    CheckAgainstFiltersEffect(m, task);
  }
}
