/** Editing a task or a shelf (`edit_task`, model.py:276-302, and
    `edit_shelf`, model.py:306-336): the keyword arguments are checked key
    by key against the table's columns and types, `seen` is refused, the
    row is written, and the filters and sorters the change concerns are
    brought up to date. */
module Edits {
  import opened Ids
  import opened Sums
  import opened Graph
  import opened Walks
  import opened Positions
  import opened Values
  import opened State
  import opened Sorting
  import opened Nesting
  import opened Sorters
  import opened Filters

  /** Keyword arguments in the order given; Python never repeats a key. */
  type Kwargs = seq<(string, Value)>

  predicate DistinctKeys(kw: Kwargs)
  {
    forall i, j :: 0 <= i < j < |kw| ==> kw[i].0 != kw[j].0
  }

  predicate HasKey(kw: Kwargs, key: string)
  {
    exists i :: 0 <= i < |kw| && kw[i].0 == key
  }

  /** The argument is a column of the schema and is `None` or of the
      column's type. */
  predicate Fits(schema: Schema, arg: (string, Value))
  {
    var kind := KindOf(schema, arg.0);
    kind.Some? && (arg.1 == VNone || IsInstance(arg.1, kind.value))
  }

  /** Why the argument does not fit: an unknown key, or a value of the
      wrong type. `what` is "task" or "shelf". */
  function Misfit(schema: Schema, what: string, arg: (string, Value)): (r: string)
    ensures arg.0 < r
  {
    match KindOf(schema, arg.0)
    case None => arg.0 + " is not a " + what + " parameter"
    case Some(kind) => arg.0 + " must have type " + TypeName(kind)
  }

  /** The loop over the keys: where it stops, at the first argument that
      does not fit, or past the end. */
  function MisfitIndex(schema: Schema, kw: Kwargs): (r: nat)
    ensures r <= |kw| && (r < |kw| ==> !Fits(schema, kw[r]))
    ensures forall j :: 0 <= j < r ==> Fits(schema, kw[j])
    decreases |kw|
  {
    if kw == [] || !Fits(schema, kw[0]) then 0
    else 1 + MisfitIndex(schema, kw[1..])
  }

  /** The message for the first argument that does not fit, or `None`. */
  function FirstMisfit(schema: Schema, what: string, kw: Kwargs): (r: Option<string>)
    ensures r.None? <==> forall i :: 0 <= i < |kw| ==> Fits(schema, kw[i])
    ensures r.Some? ==> exists i :: 0 <= i < |kw| && !Fits(schema, kw[i]) && r.value == Misfit(schema, what, kw[i]) &&
                                    forall j :: 0 <= j < i ==> Fits(schema, kw[j])
  {
    var i := MisfitIndex(schema, kw);
    if i < |kw| then Some(Misfit(schema, what, kw[i])) else None
  }

  /** Every refusal of the edit functions, in the order they are checked:
      the type loop, then the internal `seen` column (message spelled as
      in the source). */
  function Refusal(schema: Schema, what: string, kw: Kwargs): (r: Option<string>)
    ensures r.None? <==> (forall i :: 0 <= i < |kw| ==> Fits(schema, kw[i])) && !HasKey(kw, "seen")
    ensures r.Some? ==> r.value != ""
  {
    var misfit := FirstMisfit(schema, what, kw);
    if misfit.Some? then misfit
    else if HasKey(kw, "seen") then Some("seen is an internal paramter")
    else None
  }

  /** `self.taskdf.loc[task, kwargs.keys()] = kwargs.values()`. */
  function Write(rec: Record, kw: Kwargs): (r: Record)
    ensures forall k :: k in r <==> k in rec || HasKey(kw, k)
    decreases |kw|
  {
    if kw == [] then rec
    else
      var r := Write(rec[kw[0].0 := kw[0].1], kw[1..]);
      assert forall k :: HasKey(kw, k) <==> k == kw[0].0 || HasKey(kw[1..], k) by {
        forall k ensures HasKey(kw, k) <==> k == kw[0].0 || HasKey(kw[1..], k) {
          if HasKey(kw, k) && k != kw[0].0 {
            var i :| 0 <= i < |kw| && kw[i].0 == k;
            assert kw[1..][i - 1].0 == k;
          }
          if HasKey(kw[1..], k) {
            var i :| 0 <= i < |kw[1..]| && kw[1..][i].0 == k;
            assert kw[i + 1].0 == k;
          }
        }
      }
      r
  }

  /** The written row holds every argument's value and keeps every other
      field. */
  lemma {:induction false} WriteFields(rec: Record, kw: Kwargs)
    requires DistinctKeys(kw)
    ensures forall i :: 0 <= i < |kw| ==> Field(Write(rec, kw), kw[i].0) == kw[i].1
    ensures forall k :: !HasKey(kw, k) ==> Field(Write(rec, kw), k) == Field(rec, k)
    decreases |kw|
  {
    if kw != [] {
      var rest := kw[1..];
      assert DistinctKeys(rest) by {
        forall i, j | 0 <= i < j < |rest| ensures rest[i].0 != rest[j].0 {
          assert rest[i] == kw[i + 1] && rest[j] == kw[j + 1];
        }
      }
      WriteFields(rec[kw[0].0 := kw[0].1], rest);
      assert !HasKey(rest, kw[0].0) by {
        forall i | 0 <= i < |rest| ensures rest[i].0 != kw[0].0 {
          assert rest[i] == kw[i + 1];
        }
      }
      forall i | 0 <= i < |kw| ensures Field(Write(rec, kw), kw[i].0) == kw[i].1 {
        if i > 0 {
          assert kw[i] == rest[i - 1];
        }
      }
      forall k | !HasKey(kw, k) ensures Field(Write(rec, kw), k) == Field(rec, k) {
        assert k != kw[0].0;
        forall i | 0 <= i < |rest| ensures rest[i].0 != k {
          assert rest[i] == kw[i + 1];
        }
      }
    }
  }

  /** `kwargs["due"] = pd.Timestamp(kwargs["due"])` unless it is `None`;
      `stamp` is how `pd.Timestamp` reads the value. */
  function Coerce(kw: Kwargs, stamp: Value -> int): (r: Kwargs)
    ensures |r| == |kw|
    ensures forall i :: 0 <= i < |kw| ==> r[i].0 == kw[i].0
    ensures forall i :: 0 <= i < |kw| ==> r[i].1 == if kw[i].0 == "due" && kw[i].1 != VNone then VTime(stamp(kw[i].1)) else kw[i].1
  {
    seq(|kw|, i requires 0 <= i < |kw| => if kw[i].0 == "due" && kw[i].1 != VNone then ("due", VTime(stamp(kw[i].1))) else kw[i])
  }

  function RowOf<K>(data: map<K, Record>, id: K): Record
  {
    if id in data then data[id] else map[]
  }

  // ---------------------------------------------------------------------
  // edit_task

  /** The model after the task's row is written, before any upkeep. */
  function TaskWritten(m: Model, task: TaskId, kw: Kwargs): (r: Model)
    ensures r.tasks == m.tasks && r.shelves == m.shelves && r.nest == m.nest && r.seen == m.seen
    ensures r.shelfData == m.shelfData && r.rack == m.rack && r.stage == m.stage
    ensures r.taskData.Keys == m.taskData.Keys + {task}
  {
    m.(taskData := m.taskData[task := Write(RowOf(m.taskData, task), kw)])
  }

  /** `edit_task(task, **kwargs)`: a refusal leaves the model as it was;
      an accepted edit writes the row, checks the task against every
      filter, then re-sorts it in every sorter holding it. */
  function EditTask(m: Model, task: TaskId, kw: Kwargs, stamp: Value -> int): (r: Reply)
    requires task in m.tasks
    ensures r.ok <==> (forall i :: 0 <= i < |kw| ==> Fits(TaskColumns, Coerce(kw, stamp)[i])) && !HasKey(kw, "seen")
    ensures !r.ok ==> r.model == m && r.msg != ""
    ensures r.ok ==> r.msg == "" && r.model.taskData == TaskWritten(m, task, Coerce(kw, stamp)).taskData
    ensures r.model.tasks == m.tasks && r.model.shelves == m.shelves && r.model.shelfData == m.shelfData
  {
    var kw' := Coerce(kw, stamp);
    assert HasKey(kw', "seen") == HasKey(kw, "seen") by {
      if HasKey(kw, "seen") {
        var i :| 0 <= i < |kw| && kw[i].0 == "seen";
        assert kw'[i].0 == "seen";
      }
    }
    var refusal := Refusal(TaskColumns, "task", kw');
    if refusal.Some? then
      Reply(m, false, refusal.value)
    else
      var m1 := TaskWritten(m, task, kw');
      Reply(CheckParentSorters(CheckAgainstFilters(m1, task), task), true, "")
  }

  /** Writing table rows touches neither the matrix, nor the seen counts,
      nor the rack, so the invariant holds as long as the rows keep their
      ids. */
  lemma DataWriteInv(m: Model, r: Model)
    requires Inv(m)
    requires r.tasks == m.tasks && r.shelves == m.shelves && r.nest == m.nest && r.seen == m.seen
    requires r.rack == m.rack && r.stage == m.stage
    requires r.taskData.Keys == m.taskData.Keys && r.shelfData.Keys == m.shelfData.Keys
    ensures Inv(r) && GraphOf(r) == GraphOf(m)
  {
    GraphFromSigns(m, r);
    assert Nodes(r) == Nodes(m);
    forall x | x in Nodes(r) ensures Defect(GraphOf(r), Base(r, x), r.seen, x) == 0 {
      BaseSame(m, r, x);
    }
  }

  lemma BaseSame(m: Model, r: Model, x: Node)
    requires r.rack == m.rack && r.stage == m.stage
    ensures Base(r, x) == Base(m, x)
  {
  }

  /** What the upkeep after writing a task's row leaves, judged from the
      written model `m`: the invariant; the task in every filter its data
      passes (unless that would close a cycle) and in none it fails; the
      task at its sorted index in every sorter holding it; the rows of
      shelves that are neither filters nor sorters untouched; and every
      cell keeps its sign except the task's own cells in filters. */
  ghost predicate TaskKept(m: Model, r: Model, task: TaskId)
  {
    Inv(r) && Filtered(m, r, task) && Sorted(m, r, task) && Untouched(m, r) && SignsFramed(m, r, task)
  }

  /** Only the task's cells in filters may change sign: sorters only move
      children, and other tasks are not refiltered. */
  ghost predicate SignsFramed(m: Model, r: Model, task: TaskId)
  {
    forall c: Cell :: c.1 != task || !IsFilter(m, c.0) ==> SameSign(m.nest, r.nest, c)
  }

  ghost predicate Filtered(m: Model, r: Model, task: TaskId)
  {
    forall f :: f in m.shelves && IsFilter(m, f) ==> FilterOutcome(m, r, f, task)
  }

  ghost predicate Sorted(m: Model, r: Model, task: TaskId)
  {
    forall s :: s in m.shelves && At(r.nest, (s, task)) > 0 && IsSorter(r, s) ==>
      At(r.nest, (s, task)) == SortTaskIntoShelf(r, task, s)
  }

  /** The rows of shelves that are neither filters nor sorters. */
  ghost predicate Untouched(m: Model, r: Model)
  {
    forall c: Cell :: !IsFilter(m, c.0) && !IsSorter(m, c.0) ==> At(r.nest, c) == At(m.nest, c)
  }

  /** An accepted `edit_task` keeps the invariant and leaves the model as
      `TaskKept` says of the written one; a refused one keeps it too. */
  lemma EditTaskEffect(m: Model, task: TaskId, kw: Kwargs, stamp: Value -> int)
    requires Inv(m) && task in m.tasks
    ensures var r := EditTask(m, task, kw, stamp);
      && Inv(r.model)
      && (r.ok ==> TaskKept(TaskWritten(m, task, Coerce(kw, stamp)), r.model, task))
  {
    EditTaskAccepted(m, task, kw, stamp);
    WrittenUpkeep(m, task, Coerce(kw, stamp));
  }

  /** Writing the row keeps the invariant, so the upkeep applies. */
  lemma WrittenUpkeep(m: Model, task: TaskId, kw: Kwargs)
    requires Inv(m) && task in m.tasks
    ensures var m1 := TaskWritten(m, task, kw);
      TaskKept(m1, CheckParentSorters(CheckAgainstFilters(m1, task), task), task)
  {
    TaskWrittenInv(m, task, kw);
    TaskUpkeep(TaskWritten(m, task, kw), task);
  }

  /** Writing a task's row keeps the invariant. */
  lemma TaskWrittenInv(m: Model, task: TaskId, kw: Kwargs)
    requires Inv(m) && task in m.tasks
    ensures Inv(TaskWritten(m, task, kw))
  {
    assert task in m.taskData;
    RowWriteInv(m, task, Write(RowOf(m.taskData, task), kw));
  }

  lemma RowWriteInv(m: Model, task: TaskId, row: Record)
    requires Inv(m) && task in m.taskData
    ensures Inv(m.(taskData := m.taskData[task := row]))
  {
    DataWriteInv(m, m.(taskData := m.taskData[task := row]));
  }

  /** An accepted edit is the upkeep of the written model. */
  lemma EditTaskAccepted(m: Model, task: TaskId, kw: Kwargs, stamp: Value -> int)
    requires task in m.tasks
    ensures var r := EditTask(m, task, kw, stamp);
      r.ok ==> r.model == CheckParentSorters(CheckAgainstFilters(TaskWritten(m, task, Coerce(kw, stamp)), task), task)
  {
  }

  /** The upkeep after a task's row is written: filters first, then the
      sorters holding the task. */
  lemma TaskUpkeep(m: Model, task: TaskId)
    requires Inv(m) && task in m.tasks
    ensures TaskKept(m, CheckParentSorters(CheckAgainstFilters(m, task), task), task)
  {
    var m2 := CheckAgainstFilters(m, task);
    CheckAgainstFiltersEffect(m, task);
    CheckParentSortersPlaces(m2, task);
    SortersKeepFilters(m, m2, CheckParentSorters(m2, task), task);
    assert forall s :: IsSorter(m2, s) == IsSorter(m, s);
    SignsComposed(m, m2, CheckParentSorters(m2, task), task);
  }

  /** Filtering keeps the signs outside the task's filter cells, and the
      sorters keep every sign. */
  lemma SignsComposed(m: Model, m2: Model, r: Model, task: TaskId)
    requires forall c: Cell :: !IsFilter(m, c.0) ==> At(m2.nest, c) == At(m.nest, c)
    requires forall c: Cell :: c.1 != task ==> SameSign(m.nest, m2.nest, c)
    requires SameSigns(m2.nest, r.nest)
    ensures SignsFramed(m, r, task)
  {
  }

  /** The sorters only move children, so the filter outcomes survive them. */
  lemma SortersKeepFilters(m1: Model, m2: Model, r: Model, task: TaskId)
    requires forall f :: f in m1.shelves && IsFilter(m1, f) ==> FilterOutcome(m1, m2, f, task)
    requires SameSigns(m2.nest, r.nest)
    ensures forall f :: f in m1.shelves && IsFilter(m1, f) ==> FilterOutcome(m1, r, f, task)
  {
    forall f | f in m1.shelves && IsFilter(m1, f) ensures FilterOutcome(m1, r, f, task) {
      OutcomeKept(m1, m2, r, f, task);
    }
  }

  // ---------------------------------------------------------------------
  // edit_shelf

  /** The model after the shelf's row is written, before any upkeep. */
  function ShelfWritten(m: Model, shelf: ShelfId, kw: Kwargs): (r: Model)
    ensures r.tasks == m.tasks && r.shelves == m.shelves && r.nest == m.nest && r.seen == m.seen
    ensures r.taskData == m.taskData && r.rack == m.rack && r.stage == m.stage
    ensures r.shelfData.Keys == m.shelfData.Keys + {shelf}
  {
    m.(shelfData := m.shelfData[shelf := Write(RowOf(m.shelfData, shelf), kw)])
  }

  /** What the upkeep after writing a shelf's row leaves, judged from the
      written model `m`: the invariant; no table and no other row changed;
      a filter holding exactly the passing tasks (bar those that would
      close a cycle); a sorter whose children's keys do not increase with
      position; a shelf that is no filter keeps every sign and `seen`, and
      one that is neither filter nor sorter keeps the whole nesting. */
  ghost predicate ShelfKept(m: Model, r: Model, shelf: ShelfId)
  {
    && Inv(r)
    && r.tasks == m.tasks && r.shelves == m.shelves && r.taskData == m.taskData && r.shelfData == m.shelfData
    && (forall c: Cell :: c.0 != shelf ==> At(r.nest, c) == At(m.nest, c))
    && (IsFilter(m, shelf) ==> forall t :: t in m.tasks ==> FilterOutcome(m, r, shelf, t))
    && (IsSorter(m, shelf) ==>
          forall a, b :: a in m.tasks && b in m.tasks && 0 < At(r.nest, (shelf, a)) < At(r.nest, (shelf, b)) ==>
            NoHeavier(KeyOf(m, b), KeyOf(m, a)))
    && (!IsFilter(m, shelf) ==> SameSigns(m.nest, r.nest) && r.seen == m.seen)
    && (!IsFilter(m, shelf) && !IsSorter(m, shelf) ==> r.nest == m.nest)
  }

  /** `edit_shelf(shelf, **kwargs)`: a refusal leaves the model as it was;
      an accepted edit writes the row and leaves what `ShelfKept` says. */
  method EditShelf(m: Model, shelf: ShelfId, kw: Kwargs) returns (r: Reply)
    requires Inv(m) && shelf in m.shelves
    ensures r.ok <==> (forall i :: 0 <= i < |kw| ==> Fits(ShelfColumns, kw[i])) && !HasKey(kw, "seen")
    ensures !r.ok ==> r.model == m && r.msg != ""
    ensures r.ok ==> r.msg == "" && ShelfKept(ShelfWritten(m, shelf, kw), r.model, shelf)
    ensures Inv(r.model)
  {
    var refusal := Refusal(ShelfColumns, "shelf", kw);
    if refusal.Some? {
      return Reply(m, false, refusal.value);
    }
    ShelfWrittenInv(m, shelf, kw);
    var next := ShelfUpkeep(ShelfWritten(m, shelf, kw), shelf);
    r := Reply(next, true, "");
  }

  /** Writing a shelf's row keeps the invariant. */
  lemma ShelfWrittenInv(m: Model, shelf: ShelfId, kw: Kwargs)
    requires Inv(m) && shelf in m.shelves
    ensures Inv(ShelfWritten(m, shelf, kw))
  {
    assert shelf in m.shelfData;
    ShelfRowWriteInv(m, shelf, Write(RowOf(m.shelfData, shelf), kw));
  }

  lemma ShelfRowWriteInv(m: Model, shelf: ShelfId, row: Record)
    requires Inv(m) && shelf in m.shelfData
    ensures Inv(m.(shelfData := m.shelfData[shelf := row]))
  {
    DataWriteInv(m, m.(shelfData := m.shelfData[shelf := row]));
  }

  /** The upkeep after a shelf's row is written: refilter it when it is a
      filter, then resort it when it is a sorter. */
  method ShelfUpkeep(m: Model, shelf: ShelfId) returns (r: Model)
    requires Inv(m) && shelf in m.shelves
    ensures ShelfKept(m, r, shelf)
  {
    var filter, sorter := IsFilter(m, shelf), IsSorter(m, shelf);
    var filtered := m;
    if filter {
      filtered := RefilterShelf(m, shelf);
      RefilterShelfEffect(m, shelf);
    }
    r := filtered;
    if sorter {
      r := ResortShelf(filtered, shelf);
      OrderCarried(m, filtered, r, shelf);
      if filter {
        ResortKeepsFilters(m, filtered, r, shelf);
      }
    }
  }

  /** Resorting only moves children, so the filter outcomes survive it. */
  lemma ResortKeepsFilters(m: Model, m2: Model, r: Model, shelf: ShelfId)
    requires forall t :: t in m.tasks ==> FilterOutcome(m, m2, shelf, t)
    requires SameSigns(m2.nest, r.nest)
    ensures forall t :: t in m.tasks ==> FilterOutcome(m, r, shelf, t)
  {
    forall t | t in m.tasks ensures FilterOutcome(m, r, shelf, t) {
      OutcomeKept(m, m2, r, shelf, t);
    }
  }

  /** The keys are read from the task data, which the upkeep never writes. */
  lemma OrderCarried(m: Model, pre: Model, r: Model, shelf: ShelfId)
    requires pre.taskData == m.taskData && pre.tasks == m.tasks
    requires forall a, b :: a in pre.tasks && b in pre.tasks && 0 < At(r.nest, (shelf, a)) < At(r.nest, (shelf, b)) ==> NoHeavier(KeyOf(pre, b), KeyOf(pre, a))
    ensures forall a, b :: a in m.tasks && b in m.tasks && 0 < At(r.nest, (shelf, a)) < At(r.nest, (shelf, b)) ==> NoHeavier(KeyOf(m, b), KeyOf(m, a))
  {
    assert forall t :: KeyOf(pre, t) == KeyOf(m, t);
  }
}
