/** The rack and the stage (model.py:240-272): the roots of the containment
    graph. Adding a root occurrence walks its subtree with +1, dropping one
    walks it with -1, and moving a shelf within the rack walks nothing. */
module Rack {
  import opened Ids
  import opened Sums
  import opened Graph
  import opened Walks
  import opened State

  /** The slot `list.insert(i, x)` uses in a list of length `n`: a
      negative index counts from the end, and both ends clamp. */
  function InsertSlot(i: int, n: nat): (r: nat)
    ensures r <= n
    ensures 0 <= i <= n ==> r == i
    ensures i < 0 <= i + n ==> r == i + n
    ensures i > n ==> r == n
    ensures i + n < 0 ==> r == 0
  {
    if i < 0 then (if i + n < 0 then 0 else i + n)
    else if i > n then n
    else i
  }

  /** `x` inserted before position `k`. */
  function InsertAt<T>(s: seq<T>, k: nat, x: T): (r: seq<T>)
    requires k <= |s|
    ensures |r| == |s| + 1 && r[k] == x
    ensures r[..k] == s[..k] && r[k + 1..] == s[k..]
    ensures multiset(r) == multiset(s) + multiset{x}
  {
    assert s == s[..k] + s[k..];
    s[..k] + [x] + s[k..]
  }

  /** `s` without the element at position `k`. */
  function DropAt<T>(s: seq<T>, k: nat): (r: seq<T>)
    requires k < |s|
    ensures |r| == |s| - 1
    ensures r[..k] == s[..k] && r[k..] == s[k + 1..]
    ensures multiset(r) == multiset(s) - multiset{s[k]}
  {
    assert s == s[..k] + [s[k]] + s[k + 1..];
    s[..k] + s[k + 1..]
  }

  /** The position of the first occurrence of `x` (what `list.remove`
      drops). */
  function FirstIndex<T(==)>(s: seq<T>, x: T): (r: nat)
    requires x in s
    ensures r < |s| && s[r] == x && x !in s[..r]
  {
    if s[0] == x then 0
    else
      var k := FirstIndex(s[1..], x);
      assert s[..k + 1] == [s[0]] + s[1..][..k];
      k + 1
  }

  /** `run_on_tree(root, ..., increment_seen(amount))` on the model's graph. */
  function Walk(m: Model, seen: map<Node, int>, root: Node, amount: int): map<Node, int>
  {
    RunOnTree(GraphOf(m), false, root, amount, |Nodes(m)|, seen)
  }

  /** Where `add_shelf_to_rack` puts the shelf: the end by default. */
  function AddSlot(m: Model, insertAt: Option<int>): (r: nat)
    ensures r <= |m.rack|
    ensures insertAt.None? ==> r == |m.rack|
  {
    if insertAt.None? then |m.rack| else InsertSlot(insertAt.value, |m.rack|)
  }

  /** `add_shelf_to_rack(shelf, insert_at)`: one more occurrence of the
      shelf in the rack, and one more walk for its subtree. The shelf must
      be in the table (its matrix row is read). */
  function AddShelfToRack(m: Model, shelf: ShelfId, insertAt: Option<int>): (r: Model)
    requires shelf in m.shelves
    ensures |r.rack| == |m.rack| + 1 && r.rack[AddSlot(m, insertAt)] == shelf
    ensures var k := AddSlot(m, insertAt); r.rack[..k] == m.rack[..k] && r.rack[k + 1..] == m.rack[k..]
    ensures multiset(r.rack) == multiset(m.rack) + multiset{shelf}
    ensures r.tasks == m.tasks && r.shelves == m.shelves && r.nest == m.nest && r.stage == m.stage
    ensures r.taskData == m.taskData && r.shelfData == m.shelfData
  {
    m.(rack := InsertAt(m.rack, AddSlot(m, insertAt), shelf), seen := Walk(m, m.seen, ShelfNode(shelf), 1))
  }

  /** The position `list.pop(index)` removes: a negative index counts from
      the end. */
  function PopSlot(index: int, n: nat): (r: nat)
    requires 0 <= index + n && index < n
    ensures r < n && (r == index || r == index + n)
  {
    if index < 0 then index + n else index
  }

  /** `remove_shelf_from_rack(index)`: the occurrence at `index` leaves the
      rack and its subtree is walked with -1. `pop` raises on an index out
      of range, before anything changes. */
  function RemoveShelfFromRack(m: Model, index: int): (r: Model)
    requires 0 <= index + |m.rack| && index < |m.rack|
    ensures |r.rack| == |m.rack| - 1
    ensures var k := PopSlot(index, |m.rack|); r.rack == m.rack[..k] + m.rack[k + 1..]
    ensures multiset(r.rack) == multiset(m.rack) - multiset{m.rack[PopSlot(index, |m.rack|)]}
    ensures r.tasks == m.tasks && r.shelves == m.shelves && r.nest == m.nest && r.stage == m.stage
    ensures r.taskData == m.taskData && r.shelfData == m.shelfData
  {
    var k := PopSlot(index, |m.rack|);
    m.(rack := DropAt(m.rack, k), seen := Walk(m, m.seen, ShelfNode(m.rack[k]), -1))
  }

  /** `move_shelf_in_rack(shelf, index)`: the first occurrence of the shelf
      is taken out and put back at `index` of the shorter rack. `remove`
      raises when the shelf is not in the rack. Nothing is walked. */
  function MoveShelfInRack(m: Model, shelf: ShelfId, index: int): (r: Model)
    requires shelf in m.rack
    ensures |r.rack| == |m.rack| && multiset(r.rack) == multiset(m.rack)
    ensures r.rack[InsertSlot(index, |m.rack| - 1)] == shelf
    ensures DropAt(r.rack, InsertSlot(index, |m.rack| - 1)) == DropAt(m.rack, FirstIndex(m.rack, shelf))
    ensures r.tasks == m.tasks && r.shelves == m.shelves && r.nest == m.nest && r.stage == m.stage
    ensures r.taskData == m.taskData && r.shelfData == m.shelfData && r.seen == m.seen
  {
    m.(rack := Reinsert(m.rack, FirstIndex(m.rack, shelf), InsertSlot(index, |m.rack| - 1)))
  }

  /** The element at `from` taken out and put back at `to` of the shorter
      sequence: the rest keep their order. */
  function Reinsert<T>(s: seq<T>, from: nat, to: nat): (r: seq<T>)
    requires from < |s| && to < |s|
    ensures |r| == |s| && r[to] == s[from]
    ensures multiset(r) == multiset(s)
    ensures DropAt(r, to) == DropAt(s, from)
  {
    var rest := DropAt(s, from);
    DropInsert(rest, to, s[from]);
    InsertAt(rest, to, s[from])
  }

  /** Dropping what was just inserted gives back the sequence. */
  lemma DropInsert<T>(s: seq<T>, k: nat, x: T)
    requires k <= |s|
    ensures DropAt(InsertAt(s, k, x), k) == s
  {
    var t := InsertAt(s, k, x);
    assert DropAt(t, k) == t[..k] + t[k + 1..];
    assert s == s[..k] + s[k..];
  }

  /** `replace_task_in_stage(new_task)`: the old stage task's subtree is
      walked with -1, then the new one's with +1. The walk raises for a
      task not in the table, so a new task must be one. */
  function ReplaceTaskInStage(m: Model, newTask: Option<TaskId>): (r: Model)
    requires newTask.Some? ==> newTask.value in m.tasks
    ensures r.stage == newTask && r.rack == m.rack
    ensures r.tasks == m.tasks && r.shelves == m.shelves && r.nest == m.nest
    ensures r.taskData == m.taskData && r.shelfData == m.shelfData
  {
    var s1 := if m.stage.Some? then Walk(m, m.seen, TaskNode(m.stage.value), -1) else m.seen;
    var s2 := if newTask.Some? then Walk(m, s1, TaskNode(newTask.value), 1) else s1;
    m.(stage := newTask, seen := s2)
  }

  // ---------------------------------------------------------------------
  // The walks

  /** A walk adds `amount` to each count once per walk from the root and
      keeps the keys. */
  lemma WalkEffect(m: Model, seen: map<Node, int>, root: Node, amount: int, q: Node)
    requires q in seen
    ensures Walk(m, seen, root, amount).Keys == seen.Keys
    ensures Walk(m, seen, root, amount)[q] == seen[q] + amount * Paths(GraphOf(m), false, root, q, |Nodes(m)|)
  {
    RunOnTreeEffect(GraphOf(m), false, root, amount, |Nodes(m)|, seen, q);
  }

  /** A walk with `amount` undone by a walk with `-amount` from the same
      root. */
  lemma WalkUndone(m: Model, seen: map<Node, int>, root: Node, amount: int)
    ensures Walk(m, Walk(m, seen, root, amount), root, -amount) == seen
  {
    var s1 := Walk(m, seen, root, amount);
    var s2 := Walk(m, s1, root, -amount);
    RunOnTreeKeys(GraphOf(m), false, root, amount, |Nodes(m)|, seen);
    RunOnTreeKeys(GraphOf(m), false, root, -amount, |Nodes(m)|, s1);
    forall q | q in seen ensures s2[q] == seen[q] {
      var k := Paths(GraphOf(m), false, root, q, |Nodes(m)|);
      WalkEffect(m, seen, root, amount, q);
      WalkEffect(m, s1, root, -amount, q);
      MulNeg(amount, k);
    }
  }

  /** Adding `amount` root occurrences to `root` together with the walk of
      its subtree keeps the invariant. */
  lemma RootWalkKeepsInv(m: Model, m': Model, root: Node, amount: int)
    requires Inv(m) && root in Nodes(m)
    requires m'.tasks == m.tasks && m'.shelves == m.shelves && m'.nest == m.nest
    requires m'.taskData == m.taskData && m'.shelfData == m.shelfData
    requires (forall s :: s in m'.rack ==> s in m.shelves) && (m'.stage.Some? ==> m'.stage.value in m.tasks)
    requires m'.seen == Walk(m, m.seen, root, amount)
    requires forall x :: x in Nodes(m) ==> Base(m', x) == Base(m, x) + (if x == root then amount else 0)
    ensures Inv(m')
  {
    var g := GraphOf(m);
    assert Nodes(m') == Nodes(m);
    assert WF(m') by {
      RunOnTreeKeys(g, false, root, amount, |Nodes(m)|, m.seen);
    }
    assert AllDense(m');
    assert GraphOf(m') == g;
    assert SeenOk(m') by {
      WalkKeepsSeenOk(m, m', root, amount);
    }
  }

  lemma WalkKeepsSeenOk(m: Model, m': Model, root: Node, amount: int)
    requires SeenOk(m) && Acyclic(GraphOf(m)) && Distinct(m.tasks) && Distinct(m.shelves)
    requires forall x :: x in Nodes(m) ==> x in m.seen
    requires root in Nodes(m) && GraphOf(m') == GraphOf(m) && Nodes(m') == Nodes(m)
    requires m'.seen == Walk(m, m.seen, root, amount)
    requires forall x :: x in Nodes(m) ==> Base(m', x) == Base(m, x) + (if x == root then amount else 0)
    ensures SeenOk(m')
  {
    var g := GraphOf(m);
    GraphWellFormed(m);
    forall q | q in g.nodes ensures q in m'.seen && m'.seen[q] == m.seen[q] + amount * Paths(g, false, root, q, |g.nodes|) {
      WalkEffect(m, m.seen, root, amount, q);
    }
    forall x | x in Nodes(m') ensures Defect(GraphOf(m'), Base(m', x), m'.seen, x) == 0 {
      assert Defect(g, Base(m, x), m.seen, x) == 0;
      RootWalkDefect(g, root, amount, m.seen, m'.seen, x, Base(m, x));
    }
  }

  /** A rack whose counts moved by `amount` at one shelf moves the base of
      that shelf's node and of no other. */
  lemma RackBase(m: Model, m': Model, shelf: ShelfId, amount: int)
    requires m'.stage == m.stage
    requires forall s :: multiset(m'.rack)[s] == multiset(m.rack)[s] + (if s == shelf then amount else 0)
    ensures forall x :: Base(m', x) == Base(m, x) + (if x == ShelfNode(shelf) then amount else 0)
  {
    forall x ensures Base(m', x) == Base(m, x) + (if x == ShelfNode(shelf) then amount else 0) {
      if x.ShelfNode? {
        CountMultiset(m'.rack, x.shelf);
        CountMultiset(m.rack, x.shelf);
      }
    }
  }

  /** A rack with the same occurrences gives every node the same base. */
  lemma RackSameBase(m: Model, m': Model)
    requires m'.stage == m.stage && multiset(m'.rack) == multiset(m.rack)
    ensures forall x :: Base(m', x) == Base(m, x)
  {
    forall x ensures Base(m', x) == Base(m, x) {
      if x.ShelfNode? {
        CountMultiset(m'.rack, x.shelf);
        CountMultiset(m.rack, x.shelf);
      }
    }
  }

  // ---------------------------------------------------------------------
  // The invariant under the rack and stage operations

  lemma AddShelfToRackInv(m: Model, shelf: ShelfId, insertAt: Option<int>)
    requires Inv(m) && shelf in m.shelves
    ensures Inv(AddShelfToRack(m, shelf, insertAt))
  {
    var r := AddShelfToRack(m, shelf, insertAt);
    forall s | s in r.rack ensures s in m.shelves {
      assert s in multiset(r.rack);
    }
    RackBase(m, r, shelf, 1);
    RootWalkKeepsInv(m, r, ShelfNode(shelf), 1);
  }

  lemma RemoveShelfFromRackInv(m: Model, index: int)
    requires Inv(m) && 0 <= index + |m.rack| && index < |m.rack|
    ensures Inv(RemoveShelfFromRack(m, index))
  {
    var r := RemoveShelfFromRack(m, index);
    var shelf := m.rack[PopSlot(index, |m.rack|)];
    forall s | s in r.rack ensures s in m.shelves {
      assert s in multiset(r.rack);
      assert s in multiset(m.rack);
    }
    RackBase(m, r, shelf, -1);
    RootWalkKeepsInv(m, r, ShelfNode(shelf), -1);
  }

  lemma MoveShelfInRackInv(m: Model, shelf: ShelfId, index: int)
    requires Inv(m) && shelf in m.rack
    ensures Inv(MoveShelfInRack(m, shelf, index))
  {
    var r := MoveShelfInRack(m, shelf, index);
    forall s | s in r.rack ensures s in m.shelves {
      assert s in multiset(r.rack);
    }
    RackSameBase(m, r);
    assert GraphOf(r) == GraphOf(m);
  }

  /** The stage's half of a replacement: taking the old task off the stage
      with its walk, or putting the new one on. */
  lemma StageWalkInv(m: Model, m': Model, t: TaskId, amount: int)
    requires Inv(m) && t in m.tasks && (amount == 1 || amount == -1)
    requires amount == 1 ==> m.stage == None && m'.stage == Some(t)
    requires amount == -1 ==> m.stage == Some(t) && m'.stage == None
    requires m' == m.(stage := m'.stage, seen := Walk(m, m.seen, TaskNode(t), amount))
    ensures Inv(m')
  {
    RootWalkKeepsInv(m, m', TaskNode(t), amount);
  }

  lemma ReplaceTaskInStageInv(m: Model, newTask: Option<TaskId>)
    requires Inv(m) && (newTask.Some? ==> newTask.value in m.tasks)
    ensures Inv(ReplaceTaskInStage(m, newTask))
  {
    var mid := if m.stage.Some? then m.(stage := None, seen := Walk(m, m.seen, TaskNode(m.stage.value), -1)) else m;
    if m.stage.Some? {
      StageWalkInv(m, mid, m.stage.value, -1);
    }
    assert GraphOf(mid) == GraphOf(m);
    if newTask.Some? {
      StageWalkInv(mid, ReplaceTaskInStage(m, newTask), newTask.value, 1);
    }
  }
  // ---------------------------------------------------------------------
  // Round trips

  /** Popping the slot a shelf was just inserted at gives back the model. */
  lemma AddThenRemove(m: Model, shelf: ShelfId, k: nat)
    requires shelf in m.shelves && k <= |m.rack|
    ensures RemoveShelfFromRack(AddShelfToRack(m, shelf, Some(k)), k) == m
  {
    var a := AddShelfToRack(m, shelf, Some(k));
    assert a.rack[k] == shelf;
    assert DropAt(a.rack, k) == m.rack;
    assert GraphOf(a) == GraphOf(m);
    WalkUndone(m, m.seen, ShelfNode(shelf), 1);
  }

  /** Putting the previous stage task back gives back the model. */
  lemma StageRoundTrip(m: Model, newTask: Option<TaskId>)
    requires newTask.Some? ==> newTask.value in m.tasks
    requires m.stage.Some? ==> m.stage.value in m.tasks
    ensures ReplaceTaskInStage(ReplaceTaskInStage(m, newTask), m.stage) == m
  {
    var a := ReplaceTaskInStage(m, newTask);
    assert GraphOf(a) == GraphOf(m) && Nodes(a) == Nodes(m);
    var s1 := if m.stage.Some? then Walk(m, m.seen, TaskNode(m.stage.value), -1) else m.seen;
    if newTask.Some? {
      WalkUndone(m, s1, TaskNode(newTask.value), 1);
    }
    if m.stage.Some? {
      WalkUndone(m, m.seen, TaskNode(m.stage.value), -1);
    }
  }
}
