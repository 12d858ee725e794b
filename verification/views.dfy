/** The ordered views of a container (`get_subtasks`, model.py:463-467, and
    `get_subshelves`, model.py:445-450): the children with a position, in
    position order. In a dense container the i-th child holds position i. */
module Views {
  import opened Ids
  import opened Sums
  import opened Positions
  import opened State
  import opened Sorting

  /** The cells of `line` holding a position, in line order. */
  function Occupied(nest: Nest, side: Side, line: seq<Cell>): (r: seq<Cell>)
    ensures forall c {:trigger c in r} :: c in r <==> c in line && Pos(nest, side, c) > 0
    ensures Distinct(line) ==> Distinct(r)
  {
    if line == [] then []
    else
      var rest := Occupied(nest, side, line[1..]);
      assert forall c :: c in line <==> c == line[0] || c in line[1..];
      if Distinct(line) then
        DistinctTail(line);
        Prepend(line[0], rest, Pos(nest, side, line[0]) > 0)
      else Prepend(line[0], rest, Pos(nest, side, line[0]) > 0)
  }

  /** The occupied cells sorted by position (`sorted(..., key=series.get)`). */
  function InOrder(nest: Nest, side: Side, line: seq<Cell>): (r: seq<Cell>)
    ensures multiset(r) == multiset(Occupied(nest, side, line))
    ensures SortedBy(r, c => Pos(nest, side, c))
  {
    SortBy(Occupied(nest, side, line), c => Pos(nest, side, c))
  }

  /** A dense line with n positions has exactly n occupied cells, whichever
      way they are listed. */
  lemma CountPositions(nest: Nest, side: Side, line: seq<Cell>, xs: seq<Cell>, n: nat)
    requires Dense(nest, side, line, n) && Distinct(xs)
    requires forall c :: c in xs <==> c in line && Pos(nest, side, c) > 0
    ensures |xs| == n
  {
    var ps := seq(|xs|, i requires 0 <= i < |xs| => Pos(nest, side, xs[i]));
    forall i, j | 0 <= i < j < |ps| ensures ps[i] != ps[j] {
      assert xs[i] in xs && xs[j] in xs;
    }
    forall i | 0 <= i < |ps| ensures 1 <= ps[i] <= n {
      assert xs[i] in xs;
    }
    DistinctBounded(ps, n);
    forall k | 1 <= k <= n ensures k in ps {
      assert Filled(nest, side, line, k);
      var c :| c in line && Pos(nest, side, c) == k;
      var i :| 0 <= i < |xs| && xs[i] == c;
      assert ps[i] == k;
    }
    CoverBound(ps, n);
  }

  /** The cells in position order are the occupied cells, each once. */
  lemma InOrderMembers(nest: Nest, side: Side, line: seq<Cell>)
    requires Distinct(line)
    ensures var r := InOrder(nest, side, line);
      && Distinct(r)
      && forall c :: c in r <==> c in line && Pos(nest, side, c) > 0
  {
    var occ := Occupied(nest, side, line);
    var r := InOrder(nest, side, line);
    PermDistinct(occ, r);
    forall c ensures c in r <==> c in occ {
      assert c in r <==> c in multiset(r);
      assert c in occ <==> c in multiset(occ);
    }
  }

  /** Sorted distinct cells of a dense line have increasing positions. */
  lemma SortedIncreasing(nest: Nest, side: Side, line: seq<Cell>, r: seq<Cell>, n: nat)
    requires Dense(nest, side, line, n) && Distinct(r)
    requires forall c :: c in r ==> c in line && Pos(nest, side, c) > 0
    requires SortedBy(r, c => Pos(nest, side, c))
    ensures forall i, j :: 0 <= i < j < |r| ==> Pos(nest, side, r[i]) < Pos(nest, side, r[j])
  {
    forall i, j | 0 <= i < j < |r| ensures Pos(nest, side, r[i]) < Pos(nest, side, r[j]) {
      assert r[i] in r && r[j] in r;
      assert (c => Pos(nest, side, c))(r[i]) <= (c => Pos(nest, side, c))(r[j]);
    }
  }

  /** In a dense line without repeated cells, the i-th cell in position
      order holds position i + 1, and every position is listed. */
  lemma InOrderPositions(nest: Nest, side: Side, line: seq<Cell>)
    requires Distinct(line) && Dense(nest, side, line, Tail(nest, side, line))
    ensures var r := InOrder(nest, side, line);
      && |r| == Tail(nest, side, line)
      && forall i :: 0 <= i < |r| ==> Pos(nest, side, r[i]) == i + 1
  {
    var n := Tail(nest, side, line);
    var r := InOrder(nest, side, line);
    InOrderMembers(nest, side, line);
    CountPositions(nest, side, line, r, n);
    SortedIncreasing(nest, side, line, r, n);
    var ps := seq(|r|, i requires 0 <= i < |r| => Pos(nest, side, r[i]));
    forall i | 0 <= i < |ps| ensures 1 <= ps[i] <= n {
      assert r[i] in r;
    }
    assert Increasing(ps);
    IncreasingRange(ps, n);
    forall i | 0 <= i < |r| ensures Pos(nest, side, r[i]) == i + 1 {
      assert ps[i] == Pos(nest, side, r[i]);
    }
  }

  function Second(cs: seq<Cell>): (r: seq<TaskId>)
    ensures |r| == |cs| && forall i :: 0 <= i < |cs| ==> r[i] == cs[i].1
  {
    seq(|cs|, i requires 0 <= i < |cs| => cs[i].1)
  }

  function First(cs: seq<Cell>): (r: seq<ShelfId>)
    ensures |r| == |cs| && forall i :: 0 <= i < |cs| ==> r[i] == cs[i].0
  {
    seq(|cs|, i requires 0 <= i < |cs| => cs[i].0)
  }

  /** `get_subtasks(shelf)`: the tasks in the shelf, by position. */
  function Subtasks(m: Model, shelf: ShelfId): seq<TaskId>
  {
    Second(InOrder(m.nest, Row, RowLine(m.tasks, shelf)))
  }

  /** `get_subshelves(task)`: the shelves in the task, by position (the
      column's negative entries sorted ascending, then reversed). */
  function Subshelves(m: Model, task: TaskId): seq<ShelfId>
  {
    First(InOrder(m.nest, Column, ColumnLine(m.shelves, task)))
  }

  lemma RowLineDistinct(tasks: seq<TaskId>, s: ShelfId)
    requires Distinct(tasks)
    ensures Distinct(RowLine(tasks, s))
  {
    var l := RowLine(tasks, s);
    forall i, j | 0 <= i < j < |l| ensures l[i] != l[j] {
      assert l[i] == (s, tasks[i]) && l[j] == (s, tasks[j]);
    }
  }

  lemma ColumnLineDistinct(shelves: seq<ShelfId>, t: TaskId)
    requires Distinct(shelves)
    ensures Distinct(ColumnLine(shelves, t))
  {
    var l := ColumnLine(shelves, t);
    forall i, j | 0 <= i < j < |l| ensures l[i] != l[j] {
      assert l[i] == (shelves[i], t) && l[j] == (shelves[j], t);
    }
  }

  lemma SecondMembers(cs: seq<Cell>, shelf: ShelfId)
    requires forall c :: c in cs ==> c.0 == shelf
    ensures forall i :: 0 <= i < |cs| ==> cs[i] == (shelf, Second(cs)[i])
    ensures forall t :: t in Second(cs) <==> (shelf, t) in cs
  {
    var r := Second(cs);
    forall i | 0 <= i < |cs| ensures cs[i] == (shelf, r[i]) {
      assert cs[i] in cs;
    }
    forall t | (shelf, t) in cs ensures t in r {
      var i :| 0 <= i < |cs| && cs[i] == (shelf, t);
      assert r[i] == t;
    }
  }

  lemma FirstMembers(cs: seq<Cell>, task: TaskId)
    requires forall c :: c in cs ==> c.1 == task
    ensures forall i :: 0 <= i < |cs| ==> cs[i] == (First(cs)[i], task)
    ensures forall s :: s in First(cs) <==> (s, task) in cs
  {
    var r := First(cs);
    forall i | 0 <= i < |cs| ensures cs[i] == (r[i], task) {
      assert cs[i] in cs;
    }
    forall s | (s, task) in cs ensures s in r {
      var i :| 0 <= i < |cs| && cs[i] == (s, task);
      assert r[i] == s;
    }
  }

  /** The i-th subtask is the shelf's child at position i + 1, and the
      subtasks are exactly the shelf's children. */
  lemma SubtasksInOrder(m: Model, shelf: ShelfId)
    requires Distinct(m.tasks)
    requires Dense(m.nest, Row, RowLine(m.tasks, shelf), Tail(m.nest, Row, RowLine(m.tasks, shelf)))
    ensures var r := Subtasks(m, shelf);
      && |r| == Tail(m.nest, Row, RowLine(m.tasks, shelf))
      && (forall i :: 0 <= i < |r| ==> At(m.nest, (shelf, r[i])) == i + 1)
      && (forall t :: t in r <==> t in m.tasks && At(m.nest, (shelf, t)) > 0)
  {
    var line := RowLine(m.tasks, shelf);
    RowLineDistinct(m.tasks, shelf);
    InOrderPositions(m.nest, Row, line);
    InOrderMembers(m.nest, Row, line);
    SecondMembers(InOrder(m.nest, Row, line), shelf);
  }

  /** The mirror: the i-th subshelf is the task's child at position i + 1
      (its cell holds -(i + 1)). */
  lemma SubshelvesInOrder(m: Model, task: TaskId)
    requires Distinct(m.shelves)
    requires Dense(m.nest, Column, ColumnLine(m.shelves, task), Tail(m.nest, Column, ColumnLine(m.shelves, task)))
    ensures var r := Subshelves(m, task);
      && |r| == Tail(m.nest, Column, ColumnLine(m.shelves, task))
      && (forall i :: 0 <= i < |r| ==> At(m.nest, (r[i], task)) == -(i + 1))
      && (forall s :: s in r <==> s in m.shelves && At(m.nest, (s, task)) < 0)
  {
    var line := ColumnLine(m.shelves, task);
    ColumnLineDistinct(m.shelves, task);
    InOrderPositions(m.nest, Column, line);
    InOrderMembers(m.nest, Column, line);
    FirstMembers(InOrder(m.nest, Column, line), task);
  }

  /** A dense shelf has as many children as its tail. */
  lemma ChildrenCount(m: Model, shelf: ShelfId)
    requires Distinct(m.tasks)
    requires Dense(m.nest, Row, RowLine(m.tasks, shelf), Tail(m.nest, Row, RowLine(m.tasks, shelf)))
    ensures |Children(m, shelf)| == Tail(m.nest, Row, RowLine(m.tasks, shelf))
  {
    var ch := Children(m, shelf);
    var xs := seq(|ch|, i requires 0 <= i < |ch| => (shelf, ch[i]));
    forall i, j | 0 <= i < j < |xs| ensures xs[i] != xs[j] {
      assert xs[i] == (shelf, ch[i]) && xs[j] == (shelf, ch[j]);
    }
    forall c ensures c in xs <==> c in RowLine(m.tasks, shelf) && At(m.nest, c) > 0 {
      if c in xs {
        var i :| 0 <= i < |xs| && xs[i] == c;
        assert ch[i] in ch;
      }
      if c in RowLine(m.tasks, shelf) && At(m.nest, c) > 0 {
        assert c.1 in ch;
        var i :| 0 <= i < |ch| && ch[i] == c.1;
        assert xs[i] == c;
      }
    }
    CountPositions(m.nest, Row, RowLine(m.tasks, shelf), xs, Tail(m.nest, Row, RowLine(m.tasks, shelf)));
  }
}
