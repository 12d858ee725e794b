/** Sorter upkeep: `check_parent_sorters` (model.py:407-415) puts a task
    where `sort_task_into_shelf` says in every sorter that holds it, and
    `resort_shelf` (model.py:418-425) reorders a whole shelf so that keys do
    not increase with position. Both only move children that are already
    present, so no seen count and no sign of the matrix changes. */
module Sorters {
  import opened Ids
  import opened Sums
  import opened Positions
  import opened Values
  import opened State
  import opened Sorting
  import opened Nesting
  import opened Outcomes
  import opened Views

  /** Every cell keeps its sign. */
  ghost predicate SameSigns(n1: Nest, n2: Nest)
  {
    forall c :: (At(n1, c) > 0 <==> At(n2, c) > 0) && (At(n1, c) < 0 <==> At(n2, c) < 0)
  }

  /** The shelves of `ss` for which `p` holds, in order. */
  function Those(ss: seq<ShelfId>, p: ShelfId -> bool): (r: seq<ShelfId>)
    ensures forall s {:trigger s in r} :: s in r <==> s in ss && p(s)
    ensures Distinct(ss) ==> Distinct(r)
  {
    if ss == [] then []
    else
      var rest := Those(ss[1..], p);
      assert forall s :: s in ss <==> s == ss[0] || s in ss[1..];
      if Distinct(ss) then
        DistinctTail(ss);
        Prepend(ss[0], rest, p(ss[0]))
      else Prepend(ss[0], rest, p(ss[0]))
  }

  /** `is_sorter` as stored for the shelf. */
  predicate IsSorter(m: Model, s: ShelfId)
  {
    Flag(m, s, "is_sorter", false)
  }

  /** The sorters holding the task, in row order (`strip.values > 0`
      filtered by `is_sorter`). */
  function SorterParents(m: Model, task: TaskId): (r: seq<ShelfId>)
    ensures forall s :: s in r <==> s in m.shelves && At(m.nest, (s, task)) > 0 && IsSorter(m, s)
  {
    Those(m.shelves, s => At(m.nest, (s, task)) > 0 && IsSorter(m, s))
  }

  /** One round of the loop of `check_parent_sorters`: compute the sorted
      index and reposition (with the sorter check overridden) when it
      differs from the stored one. */
  function SortStep(m: Model, task: TaskId, s: ShelfId): (r: Model)
    requires task in m.tasks && s in m.shelves
    ensures r.tasks == m.tasks && r.shelves == m.shelves && r.taskData == m.taskData && r.shelfData == m.shelfData
    ensures r.rack == m.rack && r.stage == m.stage
  {
    var index := SortTaskIntoShelf(m, task, s);
    if index != At(m.nest, (s, task)) then PositionTaskInShelf(m, task, s, Some(index), false, true).model else m
  }

  /** The loop of `check_parent_sorters` over `ss`. */
  function CheckSorters(m: Model, task: TaskId, ss: seq<ShelfId>): (r: Model)
    requires task in m.tasks && forall s :: s in ss ==> s in m.shelves
    ensures r.tasks == m.tasks && r.shelves == m.shelves && r.taskData == m.taskData && r.shelfData == m.shelfData
    ensures r.rack == m.rack && r.stage == m.stage
    decreases |ss|
  {
    if ss == [] then m
    else CheckSorters(SortStep(m, task, ss[0]), task, ss[1..])
  }

  /** `check_parent_sorters(task)`. */
  function CheckParentSorters(m: Model, task: TaskId): (r: Model)
    requires task in m.tasks
    ensures r.tasks == m.tasks && r.shelves == m.shelves && r.taskData == m.taskData && r.shelfData == m.shelfData
  {
    CheckSorters(m, task, SorterParents(m, task))
  }

  // ---------------------------------------------------------------------
  // Moving a child within its shelf

  /** With the sorter check overridden, a child asked to move to a
      position in 1..tail of its shelf is moved there: the call is
      accepted, repositions the child within its row, and walks nothing. */
  lemma MoveIsReposition(m: Model, task: TaskId, shelf: ShelfId, index: int)
    requires shelf in m.shelves && task in m.tasks
    requires At(m.nest, (shelf, task)) > 0
    requires 1 <= index <= Tail(m.nest, Row, RowLine(m.tasks, shelf))
    ensures var r := PositionTaskInShelf(m, task, shelf, Some(index), false, true);
      && r.ok && r.model.nest == Reposition(m.nest, Row, RowLine(m.tasks, shelf), (shelf, task), index)
      && r.model.seen == m.seen && r.model == m.(nest := r.model.nest)
  {
    WalkedIdle(m, Row, (shelf, task), index);
  }

  /** Repositioning a child within its dense row: it lands at the index,
      no other row changes, and every sign stays. */
  lemma MoveSigns(nest: Nest, tasks: seq<TaskId>, shelf: ShelfId, task: TaskId, index: int)
    requires task in tasks && Dense(nest, Row, RowLine(tasks, shelf), Tail(nest, Row, RowLine(tasks, shelf)))
    requires At(nest, (shelf, task)) > 0 && 1 <= index
    ensures var n2 := Reposition(nest, Row, RowLine(tasks, shelf), (shelf, task), index);
      && At(n2, (shelf, task)) == index
      && SameSigns(nest, n2)
      && (forall c: Cell :: c.0 != shelf ==> At(n2, c) == At(nest, c))
  {
    assert (shelf, task) in RowLine(tasks, shelf);
    RepositionSigns(nest, Row, RowLine(tasks, shelf), (shelf, task), index);
  }

  /** The siblings move as the shift says. */
  lemma MoveSiblings(nest: Nest, tasks: seq<TaskId>, shelf: ShelfId, task: TaskId, index: int)
    requires At(nest, (shelf, task)) > 0 && 1 <= index
    ensures var n2 := Reposition(nest, Row, RowLine(tasks, shelf), (shelf, task), index);
      forall t :: t in tasks && t != task ==> At(n2, (shelf, t)) == Moved(At(nest, (shelf, t)), At(nest, (shelf, task)), index)
  {
    var n2 := Reposition(nest, Row, RowLine(tasks, shelf), (shelf, task), index);
    forall t | t in tasks && t != task ensures At(n2, (shelf, t)) == Moved(At(nest, (shelf, t)), At(nest, (shelf, task)), index) {
      assert (shelf, t) in RowLine(tasks, shelf);
    }
  }

  /** A row holding 1..n still holds 1..n after a move within it. */
  lemma MoveDense(nest: Nest, tasks: seq<TaskId>, shelf: ShelfId, task: TaskId, n: nat, index: int)
    requires task in tasks && Dense(nest, Row, RowLine(tasks, shelf), n)
    requires At(nest, (shelf, task)) > 0 && 1 <= index <= n
    ensures Dense(Reposition(nest, Row, RowLine(tasks, shelf), (shelf, task), index), Row, RowLine(tasks, shelf), n)
  {
    assert (shelf, task) in RowLine(tasks, shelf);
    MoveKeepsDense(nest, Reposition(nest, Row, RowLine(tasks, shelf), (shelf, task), index), Row, RowLine(tasks, shelf), (shelf, task), n, index);
  }

  // ---------------------------------------------------------------------
  // The sorted index only depends on which tasks are children

  lemma {:induction false} ChildrenSame(tasks: seq<TaskId>, n1: Nest, n2: Nest, s: ShelfId)
    requires forall t :: t in tasks ==> (At(n1, (s, t)) > 0 <==> At(n2, (s, t)) > 0)
    ensures ChildrenOf(tasks, n1, s) == ChildrenOf(tasks, n2, s)
  {
    if tasks != [] {
      assert tasks[0] in tasks;
      assert forall t :: t in tasks[1..] ==> t in tasks;
      ChildrenSame(tasks[1..], n1, n2, s);
    }
  }

  lemma {:induction false} CountIfSame<T>(s: seq<T>, p: T -> bool, q: T -> bool)
    requires forall x :: x in s ==> p(x) == q(x)
    ensures CountIf(s, p) == CountIf(s, q)
  {
    if s != [] {
      assert s[0] in s;
      assert forall x :: x in s[1..] ==> x in s;
      CountIfSame(s[1..], p, q);
    }
  }

  /** Models with the same task data and the same children in a shelf
      give every task the same sorted index there. */
  lemma SortIndexStable(m: Model, m': Model, task: TaskId, s: ShelfId)
    requires m'.tasks == m.tasks && m'.taskData == m.taskData
    requires forall t :: At(m'.nest, (s, t)) > 0 <==> At(m.nest, (s, t)) > 0
    ensures SortTaskIntoShelf(m', task, s) == SortTaskIntoShelf(m, task, s)
  {
    ChildrenSame(m.tasks, m.nest, m'.nest, s);
    CountIfSame(Children(m, s), HeavierThan(m, KeyOf(m, task)), HeavierThan(m', KeyOf(m', task)));
  }

  lemma {:induction false} CountIfMiss<T>(s: seq<T>, p: T -> bool, x: T)
    requires x in s && !p(x)
    ensures CountIf(s, p) < |s|
  {
    if s[0] != x {
      CountIfMiss(s[1..], p, x);
    } else {
      CountIfBound(s[1..], p);
    }
  }

  lemma {:induction false} CountIfBound<T>(s: seq<T>, p: T -> bool)
    ensures CountIf(s, p) <= |s|
  {
    if s != [] {
      CountIfBound(s[1..], p);
    }
  }

  /** For a child of a dense shelf the sorted index is a position the
      child can move to: 1..tail. */
  lemma SortIndexInRange(m: Model, task: TaskId, shelf: ShelfId)
    requires Distinct(m.tasks) && task in m.tasks && At(m.nest, (shelf, task)) > 0
    requires Dense(m.nest, Row, RowLine(m.tasks, shelf), Tail(m.nest, Row, RowLine(m.tasks, shelf)))
    ensures 1 <= SortTaskIntoShelf(m, task, shelf) <= Tail(m.nest, Row, RowLine(m.tasks, shelf))
  {
    ChildrenCount(m, shelf);
    CountIfMiss(Children(m, shelf), HeavierThan(m, KeyOf(m, task)), task);
  }

  // ---------------------------------------------------------------------
  // check_parent_sorters

  /** Density of every container and distinct task ids: what the moves
      below need of a model. */
  predicate Orderly(m: Model)
  {
    Distinct(m.tasks) && AllDense(m)
  }

  /** One round: the task sits at its sorted index in `s` afterwards, and
      nothing else changes but the order within `s`. */
  lemma SortStepPlaces(m: Model, task: TaskId, s: ShelfId)
    requires Orderly(m) && s in m.shelves && task in m.tasks && At(m.nest, (s, task)) > 0
    ensures var next := SortStep(m, task, s);
      && Orderly(next) && next.seen == m.seen && SameSigns(m.nest, next.nest)
      && At(next.nest, (s, task)) == SortTaskIntoShelf(next, task, s)
      && (forall c: Cell :: c.0 != s ==> At(next.nest, c) == At(m.nest, c))
  {
    var index := SortTaskIntoShelf(m, task, s);
    if index != At(m.nest, (s, task)) {
      OwnLine(m, Row, (s, task));
      SortIndexInRange(m, task, s);
      MoveIsReposition(m, task, s, index);
      MoveSigns(m.nest, m.tasks, s, task, index);
      CommitDense(m, Row, (s, task), index);
      var next := SortStep(m, task, s);
      SortIndexStable(m, next, task, s);
    }
  }

  lemma {:induction false} CheckSortersPlaces(m: Model, task: TaskId, ss: seq<ShelfId>)
    requires Orderly(m) && task in m.tasks && Distinct(ss)
    requires forall s :: s in ss ==> s in m.shelves && At(m.nest, (s, task)) > 0
    ensures var r := CheckSorters(m, task, ss);
      && Orderly(r) && r.seen == m.seen && SameSigns(m.nest, r.nest)
      && (forall c: Cell :: c.0 !in ss ==> At(r.nest, c) == At(m.nest, c))
      && (forall s :: s in ss ==> At(r.nest, (s, task)) == SortTaskIntoShelf(r, task, s))
    decreases |ss|
  {
    if ss != [] {
      var s := ss[0];
      var next := SortStep(m, task, s);
      SortStepPlaces(m, task, s);
      DistinctTail(ss);
      assert forall x :: x in ss[1..] ==> x in ss && x != s;
      CheckSortersPlaces(next, task, ss[1..]);
      var r := CheckSorters(next, task, ss[1..]);
      SortIndexStable(next, r, task, s);
    }
  }

  lemma {:induction false} CheckSortersInv(m: Model, task: TaskId, ss: seq<ShelfId>)
    requires Inv(m) && task in m.tasks && forall s :: s in ss ==> s in m.shelves
    ensures Inv(CheckSorters(m, task, ss))
    decreases |ss|
  {
    if ss != [] {
      var index := SortTaskIntoShelf(m, task, ss[0]);
      PositionTaskInShelfInv(m, task, ss[0], Some(index), false, true);
      assert forall x :: x in ss[1..] ==> x in ss;
      CheckSortersInv(SortStep(m, task, ss[0]), task, ss[1..]);
    }
  }

  /** After `check_parent_sorters` the task sits at its sorted index in
      every sorter that holds it; only those rows change, no sign and no
      seen count changes, and the invariant holds. */
  lemma CheckParentSortersPlaces(m: Model, task: TaskId)
    requires Inv(m) && task in m.tasks
    ensures var r := CheckParentSorters(m, task);
      && Inv(r) && r.seen == m.seen && SameSigns(m.nest, r.nest)
      && (forall c: Cell :: !(c.0 in m.shelves && At(m.nest, (c.0, task)) > 0 && IsSorter(m, c.0)) ==> At(r.nest, c) == At(m.nest, c))
      && (forall s :: s in m.shelves && At(r.nest, (s, task)) > 0 && IsSorter(r, s) ==> At(r.nest, (s, task)) == SortTaskIntoShelf(r, task, s))
  {
    var ss := SorterParents(m, task);
    CheckSortersPlaces(m, task, ss);
    CheckSortersInv(m, task, ss);
  }

  lemma {:induction false} CheckSortersIdle(m: Model, task: TaskId, ss: seq<ShelfId>)
    requires task in m.tasks
    requires forall s :: s in ss ==> s in m.shelves && SortTaskIntoShelf(m, task, s) == At(m.nest, (s, task))
    ensures CheckSorters(m, task, ss) == m
    decreases |ss|
  {
    if ss != [] {
      assert ss[0] in ss;
      assert forall x :: x in ss[1..] ==> x in ss;
      CheckSortersIdle(m, task, ss[1..]);
    }
  }

  /** Running `check_parent_sorters` twice is running it once. */
  lemma CheckParentSortersIdempotent(m: Model, task: TaskId)
    requires Inv(m) && task in m.tasks
    ensures CheckParentSorters(CheckParentSorters(m, task), task) == CheckParentSorters(m, task)
  {
    var r := CheckParentSorters(m, task);
    CheckParentSortersPlaces(m, task);
    CheckSortersIdle(r, task, SorterParents(r, task));
  }

  // ---------------------------------------------------------------------
  // resort_shelf

  /** The shelf numbers its children 1..tail. */
  predicate RowDense(m: Model, shelf: ShelfId)
  {
    Dense(m.nest, Row, RowLine(m.tasks, shelf), Tail(m.nest, Row, RowLine(m.tasks, shelf)))
  }

  /** What the loop of `resort_shelf` keeps after placing `asc[..i]`: the
      j-th lightest child sits at len - j, and the rest of the model is as
      before up to the order within the shelf. */
  ghost predicate Resorting(m: Model, r: Model, shelf: ShelfId, asc: seq<TaskId>, i: int)
  {
    && 0 <= i <= |asc| && Distinct(m.tasks)
    && r == m.(nest := r.nest)
    && Dense(r.nest, Row, RowLine(m.tasks, shelf), |asc|) && SameSigns(m.nest, r.nest)
    && (forall c: Cell :: c.0 != shelf ==> At(r.nest, c) == At(m.nest, c))
    && (forall j :: 0 <= j < i ==> At(r.nest, (shelf, asc[j])) == |asc| - j)
  }

  /** The lightest-first order the loop runs through: `sort_values(
      ascending=False)` reversed, so the children with a missing key come
      first and then the others by ascending number. */
  function Ascending(m: Model, shelf: ShelfId): (r: seq<TaskId>)
    ensures multiset(r) == multiset(Children(m, shelf))
    ensures forall i, j :: 0 <= i < j < |r| ==> NoHeavier(KeyOf(m, r[i]), KeyOf(m, r[j]))
  {
    var children := Children(m, shelf);
    var numbered := SortBy(Filter(children, IsNumbered(m)), t => NumberOf(m, t));
    FilterSplit(children, IsMissing(m), IsNumbered(m));
    AscendingOrdered(m, Filter(children, IsMissing(m)), numbered, Filter(children, IsNumbered(m)));
    Filter(children, IsMissing(m)) + numbered
  }

  /** Tasks whose key is a number. */
  function IsNumbered(m: Model): TaskId -> bool
  {
    t => KeyOf(m, t).Num?
  }

  /** Missing keys, then numbers in ascending order, is ascending. */
  lemma AscendingOrdered(m: Model, missing: seq<TaskId>, numbered: seq<TaskId>, numeric: seq<TaskId>)
    requires forall t :: t in missing ==> KeyOf(m, t).Missing?
    requires forall t :: t in numeric ==> KeyOf(m, t).Num?
    requires multiset(numbered) == multiset(numeric) && SortedBy(numbered, t => NumberOf(m, t))
    ensures var r := missing + numbered;
      forall i, j :: 0 <= i < j < |r| ==> NoHeavier(KeyOf(m, r[i]), KeyOf(m, r[j]))
  {
    var r := missing + numbered;
    forall i, j | 0 <= i < j < |r| ensures NoHeavier(KeyOf(m, r[i]), KeyOf(m, r[j])) {
      if i < |missing| {
        assert r[i] in missing;
      } else {
        var a, b := numbered[i - |missing|], numbered[j - |missing|];
        assert a in multiset(numeric) && b in multiset(numeric);
        assert (t => NumberOf(m, t))(a) <= (t => NumberOf(m, t))(b);
      }
    }
  }

  /** The facts a round of the loop needs about the order: the children
      are listed once each, and there are as many as the shelf's tail. */
  lemma AscendingFacts(m: Model, r: Model, shelf: ShelfId, asc: seq<TaskId>, i: int)
    requires multiset(asc) == multiset(Children(m, shelf)) && shelf in m.shelves
    requires Resorting(m, r, shelf, asc, i) && i < |asc|
    ensures Distinct(asc) && asc[i] in r.tasks && At(r.nest, (shelf, asc[i])) > 0
    ensures |asc| == Tail(r.nest, Row, RowLine(r.tasks, shelf))
    ensures forall j :: 0 <= j < |asc| ==> asc[j] in r.tasks
  {
    PermDistinct(Children(m, shelf), asc);
    forall j | 0 <= j < |asc| ensures asc[j] in Children(m, shelf) {
      assert asc[j] in multiset(asc);
    }
    assert |asc| == |Children(m, shelf)| by {
      assert |multiset(asc)| == |multiset(Children(m, shelf))|;
    }
    ChildrenSame(m.tasks, m.nest, r.nest, shelf);
    assert asc[i] in Children(m, shelf);
    DenseTail(r.nest, Row, RowLine(r.tasks, shelf), |asc|);
  }

  /** Before the loop, the shelf holds 1..len for its len children. */
  lemma ResortStart(m: Model, shelf: ShelfId, asc: seq<TaskId>)
    requires multiset(asc) == multiset(Children(m, shelf)) && Inv(m) && shelf in m.shelves
    ensures Resorting(m, m, shelf, asc, 0)
  {
    assert |asc| == |Children(m, shelf)| by {
      assert |multiset(asc)| == |multiset(Children(m, shelf))|;
    }
    assert RowDense(m, shelf);
    ChildrenCount(m, shelf);
  }

  /** The i-th lightest child sits at or below len - i: the places above
      are taken by the children already placed. */
  lemma BelowPlaced(r: Model, shelf: ShelfId, asc: seq<TaskId>, i: int)
    requires Distinct(asc) && 0 <= i < |asc| && forall j :: 0 <= j < |asc| ==> asc[j] in r.tasks
    requires Dense(r.nest, Row, RowLine(r.tasks, shelf), |asc|)
    requires forall j :: 0 <= j < i ==> At(r.nest, (shelf, asc[j])) == |asc| - j
    ensures At(r.nest, (shelf, asc[i])) <= |asc| - i
  {
    var p := At(r.nest, (shelf, asc[i]));
    assert (shelf, asc[i]) in RowLine(r.tasks, shelf);
    if p > |asc| - i {
      NotPlaced(r, shelf, asc, i, |asc| - p);
      assert false;
    }
  }

  /** Position len - j, for j < i, belongs to the j-th child, not the i-th. */
  lemma NotPlaced(r: Model, shelf: ShelfId, asc: seq<TaskId>, i: int, j: int)
    requires Distinct(asc) && 0 <= j < i < |asc| && asc[i] in r.tasks && asc[j] in r.tasks
    requires Dense(r.nest, Row, RowLine(r.tasks, shelf), |asc|)
    requires At(r.nest, (shelf, asc[j])) == |asc| - j
    ensures At(r.nest, (shelf, asc[i])) != |asc| - j
  {
    assert (shelf, asc[i]) in RowLine(r.tasks, shelf) && (shelf, asc[j]) in RowLine(r.tasks, shelf);
  }

  lemma SameSignsTrans(n1: Nest, n2: Nest, n3: Nest)
    requires SameSigns(n1, n2) && SameSigns(n2, n3)
    ensures SameSigns(n1, n3)
  {
  }

  /** The children placed before round i keep their places when the i-th
      moves up from p to len - i. */
  lemma PlacedStay(n1: Nest, n2: Nest, tasks: seq<TaskId>, shelf: ShelfId, asc: seq<TaskId>, i: int)
    requires Distinct(asc) && 0 <= i < |asc| && forall j :: 0 <= j < |asc| ==> asc[j] in tasks
    requires 0 < At(n1, (shelf, asc[i])) <= |asc| - i && At(n2, (shelf, asc[i])) == |asc| - i
    requires forall t :: t in tasks && t != asc[i] ==> At(n2, (shelf, t)) == Moved(At(n1, (shelf, t)), At(n1, (shelf, asc[i])), |asc| - i)
    requires forall j :: 0 <= j < i ==> At(n1, (shelf, asc[j])) == |asc| - j
    ensures forall j :: 0 <= j <= i ==> At(n2, (shelf, asc[j])) == |asc| - j
  {
    forall j | 0 <= j < i ensures At(n2, (shelf, asc[j])) == |asc| - j {
      assert asc[j] != asc[i];
      MovedAbove(|asc| - j, At(n1, (shelf, asc[i])), |asc| - i);
    }
  }

  /** A move from p up to k leaves the places above k alone. */
  lemma MovedAbove(q: int, p: int, k: int)
    requires 0 < p <= k < q
    ensures Moved(q, p, k) == q
  {
  }

  /** One round of the loop keeps `Resorting`, given what the move does
      to the shelf's matrix. */
  lemma ResortStep(m: Model, r: Model, shelf: ShelfId, asc: seq<TaskId>, i: int, n2: Nest)
    requires Resorting(m, r, shelf, asc, i) && i < |asc|
    requires Dense(n2, Row, RowLine(r.tasks, shelf), |asc|) && SameSigns(r.nest, n2)
    requires forall c: Cell :: c.0 != shelf ==> At(n2, c) == At(r.nest, c)
    requires forall j :: 0 <= j <= i ==> At(n2, (shelf, asc[j])) == |asc| - j
    ensures Resorting(m, r.(nest := n2), shelf, asc, i + 1)
  {
    SameSignsTrans(m.nest, r.nest, n2);
  }

  /** `resort_shelf(shelf)`: the children, lightest first, are put at
      len, len - 1, ..., 1 (with the sorter check overridden). Afterwards
      the shelf holds the same children, keys do not increase with
      position (a missing key counting below every number), nothing outside the shelf's row and no seen count has
      changed, and the invariant holds. Ties are broken by the sort. */
  method ResortShelf(m: Model, shelf: ShelfId) returns (r: Model)
    requires Inv(m) && shelf in m.shelves
    ensures Inv(r) && r.seen == m.seen && SameSigns(m.nest, r.nest)
    ensures r.tasks == m.tasks && r.shelves == m.shelves && r.taskData == m.taskData && r.shelfData == m.shelfData
    ensures r.rack == m.rack && r.stage == m.stage
    ensures forall c: Cell :: c.0 != shelf ==> At(r.nest, c) == At(m.nest, c)
    ensures forall a, b :: a in m.tasks && b in m.tasks && 0 < At(r.nest, (shelf, a)) < At(r.nest, (shelf, b)) ==> NoHeavier(KeyOf(m, b), KeyOf(m, a))
  {
    var asc := Ascending(m, shelf);
    ResortStart(m, shelf, asc);
    r := m;
    var i := 0;
    while i < |asc|
      invariant Inv(r) && Resorting(m, r, shelf, asc, i)
      decreases |asc| - i
    {
      r := PlaceNext(m, r, shelf, asc, i);
      i := i + 1;
    }
    ResortOrdered(m, r, shelf, asc);
  }

  /** The body of the loop of `resort_shelf`: the i-th lightest child goes
      to len - i. */
  method PlaceNext(m: Model, r: Model, shelf: ShelfId, asc: seq<TaskId>, i: int) returns (next: Model)
    requires multiset(asc) == multiset(Children(m, shelf)) && shelf in m.shelves
    requires Inv(r) && Resorting(m, r, shelf, asc, i) && i < |asc|
    ensures Inv(next) && Resorting(m, next, shelf, asc, i + 1)
    ensures At(next.nest, (shelf, asc[i])) == |asc| - i
  {
    var task, index := asc[i], |asc| - i;
    PlaceRound(m, r, shelf, asc, i, task, index);
    PositionTaskInShelfInv(r, task, shelf, Some(index), false, true);
    next := PositionTaskInShelf(r, task, shelf, Some(index), false, true).model;
  }

  /** Where a round of the loop leaves the children placed so far. */
  lemma PlaceNest(r: Model, shelf: ShelfId, asc: seq<TaskId>, i: int)
    requires Distinct(asc) && 0 <= i < |asc| && forall j :: 0 <= j < |asc| ==> asc[j] in r.tasks
    requires 0 < At(r.nest, (shelf, asc[i])) <= |asc| - i
    requires forall j :: 0 <= j < i ==> At(r.nest, (shelf, asc[j])) == |asc| - j
    ensures var n2 := Reposition(r.nest, Row, RowLine(r.tasks, shelf), (shelf, asc[i]), |asc| - i);
      forall j :: 0 <= j <= i ==> At(n2, (shelf, asc[j])) == |asc| - j
  {
    var len := |asc|;
    var n2 := Reposition(r.nest, Row, RowLine(r.tasks, shelf), (shelf, asc[i]), len - i);
    MoveSiblings(r.nest, r.tasks, shelf, asc[i], len - i);
    PlacedStay(r.nest, n2, r.tasks, shelf, asc, i);
  }

  /** A round of the loop on the matrix alone: the i-th lightest child
      (`task`) moved to len - i (`index`) keeps `Resorting`. */
  /** Moving one child of a dense row keeps the row dense and every sign,
      and touches no other row. */
  lemma PlaceMove(r: Model, shelf: ShelfId, task: TaskId, n: nat, index: int)
    requires task in r.tasks && Dense(r.nest, Row, RowLine(r.tasks, shelf), n)
    requires n == Tail(r.nest, Row, RowLine(r.tasks, shelf))
    requires At(r.nest, (shelf, task)) > 0 && 1 <= index <= n
    ensures var n2 := Reposition(r.nest, Row, RowLine(r.tasks, shelf), (shelf, task), index);
      && Dense(n2, Row, RowLine(r.tasks, shelf), n) && SameSigns(r.nest, n2) && At(n2, (shelf, task)) == index
      && (forall c: Cell :: c.0 != shelf ==> At(n2, c) == At(r.nest, c))
  {
    MoveSigns(r.nest, r.tasks, shelf, task, index);
    MoveDense(r.nest, r.tasks, shelf, task, n, index);
  }

  /** Placing `asc[i]` at len - i keeps the earlier ones where they are. */
  lemma PlaceKeeps(r: Model, shelf: ShelfId, asc: seq<TaskId>, i: int, task: TaskId, index: int)
    requires Distinct(asc) && 0 <= i < |asc| && task == asc[i] && index == |asc| - i
    requires forall j :: 0 <= j < |asc| ==> asc[j] in r.tasks
    requires Dense(r.nest, Row, RowLine(r.tasks, shelf), |asc|) && At(r.nest, (shelf, task)) > 0
    requires forall j :: 0 <= j < i ==> At(r.nest, (shelf, asc[j])) == |asc| - j
    ensures var n2 := Reposition(r.nest, Row, RowLine(r.tasks, shelf), (shelf, task), index);
      forall j :: 0 <= j <= i ==> At(n2, (shelf, asc[j])) == |asc| - j
  {
    BelowPlaced(r, shelf, asc, i);
    PlaceNest(r, shelf, asc, i);
  }

  lemma PlacedNest(m: Model, r: Model, shelf: ShelfId, asc: seq<TaskId>, i: int, task: TaskId, index: int)
    requires Resorting(m, r, shelf, asc, i) && i < |asc| && task == asc[i] && index == |asc| - i
    requires Distinct(asc) && task in r.tasks && At(r.nest, (shelf, task)) > 0
    requires |asc| == Tail(r.nest, Row, RowLine(r.tasks, shelf))
    requires forall j :: 0 <= j < |asc| ==> asc[j] in r.tasks
    ensures var n2 := Reposition(r.nest, Row, RowLine(r.tasks, shelf), (shelf, task), index);
      Resorting(m, r.(nest := n2), shelf, asc, i + 1) && At(n2, (shelf, task)) == index
  {
    PlaceMove(r, shelf, task, |asc|, index);
    PlaceKeeps(r, shelf, asc, i, task, index);
    ResortStep(m, r, shelf, asc, i, Reposition(r.nest, Row, RowLine(r.tasks, shelf), (shelf, task), index));
  }

  /** The nest side of one round: the child is placed and `Resorting`
      moves on by one. */
  lemma PlaceStep(m: Model, r: Model, shelf: ShelfId, asc: seq<TaskId>, i: int, task: TaskId, index: int)
    requires multiset(asc) == multiset(Children(m, shelf)) && shelf in m.shelves
    requires Resorting(m, r, shelf, asc, i) && i < |asc| && task == asc[i] && index == |asc| - i
    ensures shelf in r.shelves && task in r.tasks && At(r.nest, (shelf, task)) > 0
    ensures 1 <= index <= Tail(r.nest, Row, RowLine(r.tasks, shelf))
    ensures var n2 := Reposition(r.nest, Row, RowLine(r.tasks, shelf), (shelf, task), index);
      Resorting(m, r.(nest := n2), shelf, asc, i + 1) && At(n2, (shelf, task)) == index
  {
    AscendingFacts(m, r, shelf, asc, i);
    PlacedNest(m, r, shelf, asc, i, task, index);
  }

  /** What a round of the loop does, apart from the invariant. */
  lemma PlaceRound(m: Model, r: Model, shelf: ShelfId, asc: seq<TaskId>, i: int, task: TaskId, index: int)
    requires multiset(asc) == multiset(Children(m, shelf)) && shelf in m.shelves
    requires Resorting(m, r, shelf, asc, i) && i < |asc| && task == asc[i] && index == |asc| - i
    ensures task in r.tasks
    ensures var next := PositionTaskInShelf(r, task, shelf, Some(index), false, true).model;
      Resorting(m, next, shelf, asc, i + 1) && At(next.nest, (shelf, task)) == index
  {
    PlaceStep(m, r, shelf, asc, i, task, index);
    MoveIsReposition(r, task, shelf, index);
    ResortingSame(m, r.(nest := Reposition(r.nest, Row, RowLine(r.tasks, shelf), (shelf, task), index)),
      PositionTaskInShelf(r, task, shelf, Some(index), false, true).model, shelf, asc, i + 1);
  }

  /** `Resorting` carried over to an equal model. */
  lemma ResortingSame(m: Model, r: Model, r': Model, shelf: ShelfId, asc: seq<TaskId>, i: int)
    requires Resorting(m, r, shelf, asc, i) && r' == r
    ensures Resorting(m, r', shelf, asc, i) && r'.nest == r.nest
  {
  }

  /** Once every child is placed, position order is key order. */
  lemma ResortOrdered(m: Model, r: Model, shelf: ShelfId, asc: seq<TaskId>)
    requires multiset(asc) == multiset(Children(m, shelf)) && Resorting(m, r, shelf, asc, |asc|)
    requires forall i, j :: 0 <= i < j < |asc| ==> NoHeavier(KeyOf(m, asc[i]), KeyOf(m, asc[j]))
    ensures forall a, b :: a in m.tasks && b in m.tasks && 0 < At(r.nest, (shelf, a)) < At(r.nest, (shelf, b)) ==> NoHeavier(KeyOf(m, b), KeyOf(m, a))
  {
    forall a, b | a in m.tasks && b in m.tasks && 0 < At(r.nest, (shelf, a)) < At(r.nest, (shelf, b)) ensures NoHeavier(KeyOf(m, b), KeyOf(m, a)) {
      assert a in Children(m, shelf) && b in Children(m, shelf);
      assert a in multiset(asc) && b in multiset(asc);
      var ja :| 0 <= ja < |asc| && asc[ja] == a;
      var jb :| 0 <= jb < |asc| && asc[jb] == b;
      assert jb < ja;
    }
  }
}
