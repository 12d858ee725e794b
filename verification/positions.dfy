/** The positional half of the nesting matrix: each container (a shelf's row
    read with its sign, or a task's column read negated) numbers its
    children 1..n, and `Reposition` is the common core of
    `position_task_in_shelf` (model.py:139-192) and `position_shelf_in_task`
    (model.py:197-237) once their refusal checks have passed. */
module Positions {
  import opened Ids

  /** The nesting matrix: a missing cell reads as 0. */
  type Nest = map<Cell, int>

  function At(nest: Nest, c: Cell): int
  {
    if c in nest then nest[c] else 0
  }

  /** A shelf reads its row as stored; a task reads its column negated. */
  datatype Side = Row | Column

  /** Position of the cell's member within the container on `side`:
      positive for a child, zero or negative otherwise. */
  function Pos(nest: Nest, side: Side, c: Cell): int
  {
    if side == Row then At(nest, c) else -At(nest, c)
  }

  /** `tail_idx`: the largest position in the line, or 0. */
  function Tail(nest: Nest, side: Side, line: seq<Cell>): (r: nat)
    ensures forall c :: c in line ==> Pos(nest, side, c) <= r
    ensures r == 0 || exists c :: c in line && Pos(nest, side, c) == r
  {
    if line == [] then 0
    else
      var rest := Tail(nest, side, line[1..]);
      assert forall c :: c in line[1..] ==> c in line;
      var p := Pos(nest, side, line[0]);
      if p > rest then p else rest
  }

  /** Some child of the line sits at position `i`. */
  predicate Filled(nest: Nest, side: Side, line: seq<Cell>, i: int)
  {
    exists c :: c in line && Pos(nest, side, c) == i
  }

  /** The children of the container hold exactly the positions 1..n, one
      each. */
  predicate Dense(nest: Nest, side: Side, line: seq<Cell>, n: nat)
  {
    (forall c :: c in line ==> Pos(nest, side, c) <= n) &&
    (forall i :: 1 <= i <= n ==> Filled(nest, side, line, i)) &&
    (forall c, d :: c in line && d in line && Pos(nest, side, c) > 0 && Pos(nest, side, c) == Pos(nest, side, d) ==> c == d)
  }

  /** In a dense line the tail is the number of children. */
  lemma DenseTail(nest: Nest, side: Side, line: seq<Cell>, n: nat)
    requires Dense(nest, side, line, n)
    ensures Tail(nest, side, line) == n
  {
    var t := Tail(nest, side, line);
    if n > 0 {
      assert Filled(nest, side, line, n);
    }
  }

  /** Which positions a shift selects: `>= lo`, or `lo <= p <= hi`. */
  datatype Band = AtLeast(lo: int) | Between(lo: int, hi: int)

  predicate InBand(p: int, b: Band)
  {
    match b
    case AtLeast(lo) => lo <= p
    case Between(lo, hi) => lo <= p <= hi
  }

  /** Add `delta` to the position of every child of the line in `band`
      (`nestmat.loc[shelf, mask] += delta`, or its negated column form). */
  function Shift(nest: Nest, side: Side, line: seq<Cell>, band: Band, delta: int): (r: Nest)
    requires band.lo >= 1
    ensures forall c :: Pos(r, side, c) == if c in line && InBand(Pos(nest, side, c), band) then Pos(nest, side, c) + delta else Pos(nest, side, c)
    ensures forall c :: c !in line ==> At(r, c) == At(nest, c)
    ensures r.Keys == nest.Keys
  {
    map c | c in nest.Keys :: if c in line && InBand(Pos(nest, side, c), band) then (if side == Row then nest[c] + delta else nest[c] - delta) else nest[c]
  }

  /** Store position `p` in the cell, with the side's sign. */
  function Put(nest: Nest, side: Side, c: Cell, p: int): Nest
  {
    nest[c := if side == Row then p else -p]
  }

  /** Where a sibling at position `p` ends up when the repositioned child
      goes from `prev` to `index`. */
  function Moved(p: int, prev: int, index: int): int
  {
    if prev != 0 && index == 0 then (if p >= prev then p - 1 else p)
    else if 0 < prev < index then (if prev <= p <= index then p - 1 else p)
    else if prev > index then (if index <= p <= prev then p + 1 else p)
    else if prev == 0 && index != 0 then (if p >= index then p + 1 else p)
    else p
  }

  /** The four branches of the position functions: removal, move right,
      move left and insertion shift the siblings in between; when
      `prev == index` none of them fires. */
  function Shifted(nest: Nest, side: Side, line: seq<Cell>, cell: Cell, index: int): (r: Nest)
    requires Pos(nest, side, cell) >= 0 && index >= 0
    ensures forall c :: c in line ==> Pos(r, side, c) == Moved(Pos(nest, side, c), Pos(nest, side, cell), index)
    ensures forall c :: c !in line ==> At(r, c) == At(nest, c)
    ensures r.Keys == nest.Keys
  {
    var prev := Pos(nest, side, cell);
    if prev != 0 && index == 0 then Shift(nest, side, line, AtLeast(prev), -1)
    else if 0 < prev < index then Shift(nest, side, line, Between(prev, index), -1)
    else if prev > index then Shift(nest, side, line, Between(index, prev), 1)
    else if prev == 0 && index != 0 then Shift(nest, side, line, AtLeast(index), 1)
    else nest
  }

  /** The shift followed by the final write of `index` into the cell. */
  function Reposition(nest: Nest, side: Side, line: seq<Cell>, cell: Cell, index: int): (r: Nest)
    requires Pos(nest, side, cell) >= 0 && index >= 0
    ensures Pos(r, side, cell) == index
    ensures forall c :: c in line && c != cell ==> Pos(r, side, c) == Moved(Pos(nest, side, c), Pos(nest, side, cell), index)
    ensures forall c :: c !in line && c != cell ==> At(r, c) == At(nest, c)
    ensures r.Keys == nest.Keys + {cell}
  {
    Put(Shifted(nest, side, line, cell, index), side, cell, index)
  }

  // ---------------------------------------------------------------------
  // Density under insertion, removal and moves

  /** `r` holds the line of `nest` after its child in `cell` went to
      `index`: what `Reposition` promises. */
  ghost predicate Relocated(nest: Nest, r: Nest, side: Side, line: seq<Cell>, cell: Cell, index: int)
  {
    Pos(r, side, cell) == index && MovedOthers(nest, r, side, line, cell, index)
  }

  /** Inserting an absent child at 1..n+1 of a line holding 1..n gives a
      line holding 1..n+1. */
  lemma InsertKeepsDense(nest: Nest, r: Nest, side: Side, line: seq<Cell>, cell: Cell, n: nat, index: int)
    requires Dense(nest, side, line, n) && cell in line && Relocated(nest, r, side, line, cell, index)
    requires Pos(nest, side, cell) == 0 && 1 <= index <= n + 1
    ensures Dense(r, side, line, n + 1)
  {
    forall i | 1 <= i <= n + 1 ensures Filled(r, side, line, i) {
      if i < index {
        assert Filled(nest, side, line, i);
        var c :| c in line && Pos(nest, side, c) == i;
        assert Pos(r, side, c) == i;
      } else if i > index {
        assert Filled(nest, side, line, i - 1);
        var c :| c in line && Pos(nest, side, c) == i - 1;
        assert Pos(r, side, c) == i;
      } else {
        assert Pos(r, side, cell) == i;
      }
    }
  }

  /** Removing the child at position p >= 1 of a line holding 1..n closes
      the gap: the line then holds 1..n-1. */
  lemma RemoveKeepsDense(nest: Nest, r: Nest, side: Side, line: seq<Cell>, cell: Cell, n: nat)
    requires Dense(nest, side, line, n) && cell in line && Relocated(nest, r, side, line, cell, 0)
    requires Pos(nest, side, cell) >= 1
    ensures n >= 1 && Dense(r, side, line, n - 1)
  {
    var p := Pos(nest, side, cell);
    forall i | 1 <= i <= n - 1 ensures Filled(r, side, line, i) {
      var j := if i < p then i else i + 1;
      assert Filled(nest, side, line, j);
      var c :| c in line && Pos(nest, side, c) == j;
      assert Pos(r, side, c) == i;
    }
  }

  /** Moving a child to a position in 1..n keeps the line holding 1..n. */
  lemma MoveKeepsDense(nest: Nest, r: Nest, side: Side, line: seq<Cell>, cell: Cell, n: nat, index: int)
    requires Dense(nest, side, line, n) && cell in line && Relocated(nest, r, side, line, cell, index)
    requires Pos(nest, side, cell) >= 1 && 1 <= index <= n
    ensures Dense(r, side, line, n)
  {
    var p := Pos(nest, side, cell);
    if p < index {
      MoveRightKeepsDense(nest, r, side, line, cell, n, index);
    } else if p > index {
      MoveLeftKeepsDense(nest, r, side, line, cell, n, index);
    } else {
      DenseFrame(nest, r, side, line, n);
    }
  }

  lemma MoveRightKeepsDense(nest: Nest, r: Nest, side: Side, line: seq<Cell>, cell: Cell, n: nat, index: int)
    requires Dense(nest, side, line, n) && cell in line && Relocated(nest, r, side, line, cell, index)
    requires 1 <= Pos(nest, side, cell) < index <= n
    ensures Dense(r, side, line, n)
  {
    var p := Pos(nest, side, cell);
    assert forall c :: c in line && c != cell ==> Pos(r, side, c) == if p <= Pos(nest, side, c) <= index then Pos(nest, side, c) - 1 else Pos(nest, side, c);
    forall c | c in line ensures Pos(r, side, c) <= n {
    }
    forall c, d | c in line && d in line && Pos(r, side, c) > 0 && Pos(r, side, c) == Pos(r, side, d) ensures c == d {
      if c != cell && d != cell {
        assert Pos(nest, side, c) == Pos(nest, side, d);
      }
    }
    forall i | 1 <= i <= n ensures Filled(r, side, line, i) {
      if i == index {
        assert Pos(r, side, cell) == i;
      } else {
        var j := if p <= i < index then i + 1 else i;
        assert Filled(nest, side, line, j);
        var c :| c in line && Pos(nest, side, c) == j;
        assert Pos(r, side, c) == i;
      }
    }
  }

  lemma MoveLeftKeepsDense(nest: Nest, r: Nest, side: Side, line: seq<Cell>, cell: Cell, n: nat, index: int)
    requires Dense(nest, side, line, n) && cell in line && Relocated(nest, r, side, line, cell, index)
    requires 1 <= index < Pos(nest, side, cell) <= n
    ensures Dense(r, side, line, n)
  {
    var p := Pos(nest, side, cell);
    forall i | 1 <= i <= n ensures Filled(r, side, line, i) {
      if i == index {
        assert Pos(r, side, cell) == i;
      } else {
        var j := if index < i <= p then i - 1 else i;
        assert Filled(nest, side, line, j);
        var c :| c in line && Pos(nest, side, c) == j;
        assert Pos(r, side, c) == i;
      }
    }
  }

  /** Moving a child to its own position changes nothing in the line. */
  lemma MoveInPlace(nest: Nest, side: Side, line: seq<Cell>, cell: Cell)
    requires Pos(nest, side, cell) >= 0
    ensures forall c :: Pos(Reposition(nest, side, line, cell, Pos(nest, side, cell)), side, c) == Pos(nest, side, c)
  {
  }

  /** `r` moved the other cells of the line as `Moved` says and left the
      cells outside the line alone. */
  ghost predicate MovedOthers(nest: Nest, r: Nest, side: Side, line: seq<Cell>, cell: Cell, index: int)
  {
    (forall c :: c in line && c != cell ==> Pos(r, side, c) == Moved(Pos(nest, side, c), Pos(nest, side, cell), index)) &&
    (forall c :: c !in line && c != cell ==> At(r, c) == At(nest, c))
  }

  /** In a dense line every cell other than the repositioned one keeps its
      sign: a child stays a child, and nothing else moves. */
  lemma OthersKeepSigns(nest: Nest, r: Nest, side: Side, line: seq<Cell>, cell: Cell, n: nat, index: int)
    requires Dense(nest, side, line, n) && cell in line
    requires Pos(nest, side, cell) >= 0 && index >= 0
    requires MovedOthers(nest, r, side, line, cell, index)
    ensures forall c :: c != cell ==> (At(nest, c) > 0 <==> At(r, c) > 0) && (At(nest, c) < 0 <==> At(r, c) < 0)
    ensures forall c :: c != cell && Pos(nest, side, c) <= 0 ==> At(r, c) == At(nest, c)
  {
  }

  /** A line whose children keep their positions stays dense, whatever
      happens to the cells that are not its children. */
  lemma DenseFrame(nest: Nest, nest': Nest, side: Side, line: seq<Cell>, n: nat)
    requires Dense(nest, side, line, n)
    requires forall c :: c in line && Pos(nest, side, c) > 0 ==> Pos(nest', side, c) == Pos(nest, side, c)
    requires forall c :: c in line && Pos(nest', side, c) > 0 ==> Pos(nest', side, c) == Pos(nest, side, c)
    ensures Dense(nest', side, line, n)
  {
    forall i | 1 <= i <= n ensures Filled(nest', side, line, i) {
      assert Filled(nest, side, line, i);
      var c :| c in line && Pos(nest, side, c) == i;
      assert Pos(nest', side, c) == i;
    }
  }

  /** The line being changed stays dense, with the new number of
      children, for every index the bound check lets through. */
  lemma OwnLineKeepsDense(nest: Nest, side: Side, line: seq<Cell>, cell: Cell, index: int)
    requires cell in line && Dense(nest, side, line, Tail(nest, side, line))
    requires Pos(nest, side, cell) >= 0 && 0 <= index
    requires index <= (if Pos(nest, side, cell) > 0 then Tail(nest, side, line) else Tail(nest, side, line) + 1)
    ensures var r := Reposition(nest, side, line, cell, index);
      Dense(r, side, line, Tail(r, side, line))
  {
    var n := Tail(nest, side, line);
    var prev := Pos(nest, side, cell);
    var r := Reposition(nest, side, line, cell, index);
    if prev == 0 && index > 0 {
      InsertKeepsDense(nest, r, side, line, cell, n, index);
      DenseTail(r, side, line, n + 1);
    } else if prev > 0 && index == 0 {
      RemoveKeepsDense(nest, r, side, line, cell, n);
      DenseTail(r, side, line, n - 1);
    } else if prev > 0 {
      MoveKeepsDense(nest, r, side, line, cell, n, index);
      DenseTail(r, side, line, n);
    } else {
      DenseFrame(nest, r, side, line, n);
      DenseTail(r, side, line, n);
    }
  }

  /** Any other line, read from either side, keeps its children and their
      positions: a different line of the same side shares no cell with the
      changed one, and a crossing line only meets cells whose sign stays. */
  lemma OtherLineKeepsDense(nest: Nest, r: Nest, side: Side, line: seq<Cell>, cell: Cell, n: nat, index: int, side2: Side, line2: seq<Cell>, n2: nat)
    requires Dense(nest, side, line, n) && cell in line
    requires Pos(nest, side, cell) >= 0 && index >= 0 && Pos(r, side, cell) == index
    requires MovedOthers(nest, r, side, line, cell, index)
    requires Dense(nest, side2, line2, n2)
    requires side2 == side ==> forall c :: c in line2 ==> c !in line
    ensures Dense(r, side2, line2, n2)
  {
    OthersKeepSigns(nest, r, side, line, cell, n, index);
    forall c | c in line2 && (Pos(nest, side2, c) > 0 || Pos(r, side2, c) > 0)
      ensures Pos(r, side2, c) == Pos(nest, side2, c)
    {
      if side2 == side {
        assert c !in line;
      } else {
        assert c != cell;
      }
    }
    DenseFrame(nest, r, side2, line2, n2);
  }

  // ---------------------------------------------------------------------
  // The move to tail + 1

  /** A child already in a dense line that is moved to `tail + 1` (what the
      bound check `index > tail_idx + 1` lets through, and what `idx=None`
      asks for) ends past the end and leaves position n empty: the line is
      no longer dense for any count. */
  lemma MoveToTailGap(nest: Nest, side: Side, line: seq<Cell>, cell: Cell, n: nat)
    requires Dense(nest, side, line, n) && cell in line
    requires Pos(nest, side, cell) >= 1
    ensures var r := Reposition(nest, side, line, cell, n + 1);
      Pos(r, side, cell) == n + 1 && !Filled(r, side, line, n) &&
      forall k: nat :: !Dense(r, side, line, k)
  {
    var r := Reposition(nest, side, line, cell, n + 1);
    forall c | c in line ensures Pos(r, side, c) != n {
    }
    GapNotDense(r, side, line, cell, n);
  }

  /** A line whose child sits at n + 1 while n is empty is dense for no
      count. */
  lemma GapNotDense(nest: Nest, side: Side, line: seq<Cell>, cell: Cell, n: nat)
    requires cell in line && Pos(nest, side, cell) == n + 1 && 1 <= n && !Filled(nest, side, line, n)
    ensures forall k: nat :: !Dense(nest, side, line, k)
  {
    forall k: nat ensures !Dense(nest, side, line, k) {
      if k >= n + 1 {
        assert !Filled(nest, side, line, n);
      }
    }
  }
}
