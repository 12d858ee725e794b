/** Sorter support: the sort key of a task (`run_sorter_on`,
    model.py:403-404), the children of a shelf, an ascending sort by key,
    and `sort_task_into_shelf` (model.py:427-434). */
module Sorting {
  import opened Ids
  import opened Sums
  import opened Positions
  import opened Values
  import opened State

  /** How many elements satisfy `p`. */
  function CountIf<T>(s: seq<T>, p: T -> bool): nat
  {
    if s == [] then 0 else (if p(s[0]) then 1 else 0) + CountIf(s[1..], p)
  }

  predicate SortedBy<T>(s: seq<T>, key: T -> int)
  {
    forall i, j :: 0 <= i < j < |s| ==> key(s[i]) <= key(s[j])
  }

  /** Insert `x` into an ascending sequence, after the elements whose key
      does not exceed its own. */
  function InsertBy<T>(x: T, s: seq<T>, key: T -> int): (r: seq<T>)
    requires SortedBy(s, key)
    ensures SortedBy(r, key)
    ensures multiset(r) == multiset(s) + multiset{x}
  {
    if s == [] then [x]
    else if key(x) < key(s[0]) then [x] + s
    else
      var rest := InsertBy(x, s[1..], key);
      InsertByHead(x, s, rest, key);
      [s[0]] + rest
  }

  lemma InsertByHead<T>(x: T, s: seq<T>, rest: seq<T>, key: T -> int)
    requires SortedBy(s, key) && s != [] && key(x) >= key(s[0])
    requires SortedBy(rest, key)
    requires multiset(rest) == multiset(s[1..]) + multiset{x}
    ensures SortedBy([s[0]] + rest, key)
    ensures multiset([s[0]] + rest) == multiset(s) + multiset{x}
  {
    assert s == [s[0]] + s[1..];
    forall i | 0 <= i < |rest| ensures key(s[0]) <= key(rest[i]) {
      assert rest[i] in multiset(rest);
      if rest[i] != x {
        assert rest[i] in multiset(s[1..]);
        assert rest[i] in s[1..];
        var k :| 0 <= k < |s[1..]| && s[1..][k] == rest[i];
        assert s[k + 1] == rest[i];
      }
    }
    var r := [s[0]] + rest;
    forall i, j | 0 <= i < j < |r| ensures key(r[i]) <= key(r[j]) {
      if i > 0 {
        assert r[i] == rest[i - 1] && r[j] == rest[j - 1];
      } else {
        assert r[j] == rest[j - 1];
      }
    }
  }

  /** An ascending sort by key: the result is a permutation of the input
      with non-decreasing keys. */
  function SortBy<T>(s: seq<T>, key: T -> int): (r: seq<T>)
    ensures SortedBy(r, key)
    ensures multiset(r) == multiset(s)
  {
    if s == [] then []
    else
      assert s == [s[0]] + s[1..];
      InsertBy(s[0], SortBy(s[1..], key), key)
  }

  lemma {:induction false} CountIfInsert<T>(x: T, s: seq<T>, key: T -> int, p: T -> bool)
    requires SortedBy(s, key)
    ensures CountIf(InsertBy(x, s, key), p) == (if p(x) then 1 else 0) + CountIf(s, p)
  {
    if s != [] && key(x) >= key(s[0]) {
      CountIfInsert(x, s[1..], key, p);
      assert ([s[0]] + InsertBy(x, s[1..], key))[1..] == InsertBy(x, s[1..], key);
    } else if s != [] {
      assert ([x] + s)[1..] == s;
    }
  }

  /** Sorting does not change how many elements satisfy a condition. */
  lemma {:induction false} CountIfSort<T>(s: seq<T>, key: T -> int, p: T -> bool)
    ensures CountIf(SortBy(s, key), p) == CountIf(s, p)
  {
    if s != [] {
      CountIfSort(s[1..], key, p);
      CountIfInsert(s[0], SortBy(s[1..], key), key, p);
    }
  }

  /** A sort key: the task's `value` (`run_sorter_on`, model.py:403-404).
      The column holds floats; a `None` written by `edit_task` is stored as
      NaN, here `Missing`. */
  datatype Key = Missing | Num(x: int)

  function KeyOf(m: Model, t: TaskId): Key
  {
    if t in m.taskData then
      match Field(m.taskData[t], "value")
      case VNum(x) => Num(x)
      case _ => Missing
    else Missing
  }

  /** `searchsorted` ranks NaN above every number and level with another
      NaN: is `a` strictly above `b` in that order? */
  predicate SearchAbove(a: Key, b: Key)
  {
    match b
    case Missing => false
    case Num(y) => a.Missing? || a.x > y
  }

  /** `sort_values(ascending=False)` puts NaN after every number, that
      is, below them: is `a` at most `b` in that order? */
  predicate NoHeavier(a: Key, b: Key)
  {
    a.Missing? || (b.Num? && a.x <= b.x)
  }

  /** The number of a task with a numeric key (0 for a missing one). */
  function NumberOf(m: Model, t: TaskId): int
  {
    match KeyOf(m, t)
    case Num(x) => x
    case Missing => 0
  }

  /** The tasks holding a positive position in the row of `s`, in column
      order (`strip[strip.values > 0]`). */
  function Children(m: Model, s: ShelfId): (r: seq<TaskId>)
    ensures forall t {:trigger t in r} :: t in r <==> t in m.tasks && At(m.nest, (s, t)) > 0
  {
    ChildrenOf(m.tasks, m.nest, s)
  }

  function ChildrenOf(tasks: seq<TaskId>, nest: Nest, s: ShelfId): (r: seq<TaskId>)
    ensures forall t {:trigger t in r} :: t in r <==> t in tasks && At(nest, (s, t)) > 0
    ensures |r| <= |tasks|
    ensures Distinct(tasks) ==> Distinct(r)
  {
    if tasks == [] then []
    else
      var rest := ChildrenOf(tasks[1..], nest, s);
      assert forall t :: t in tasks <==> t == tasks[0] || t in tasks[1..];
      if Distinct(tasks) then DistinctTail(tasks); Pick(tasks[0], rest, At(nest, (s, tasks[0])) > 0)
      else Pick(tasks[0], rest, At(nest, (s, tasks[0])) > 0)
  }

  /** `rest`, with `x` in front when `keep` holds. */
  function Pick(x: TaskId, rest: seq<TaskId>, keep: bool): (r: seq<TaskId>)
    ensures forall t :: t in r <==> (keep && t == x) || t in rest
    ensures |r| <= |rest| + 1 && (!keep ==> r == rest)
    ensures Distinct(rest) && x !in rest ==> Distinct(r)
  {
    if keep then [x] + rest else rest
  }

  /** The elements of `s` satisfying `p`, in order. */
  function Filter<T(==,!new)>(s: seq<T>, p: T -> bool): (r: seq<T>)
    ensures forall x {:trigger x in r} :: x in r <==> x in s && p(x)
  {
    if s == [] then []
    else
      assert forall x :: x in s <==> x == s[0] || x in s[1..];
      (if p(s[0]) then [s[0]] else []) + Filter(s[1..], p)
  }

  /** The elements satisfying `p` and those that do not make up `s`. */
  lemma {:induction false} FilterSplit<T(!new)>(s: seq<T>, p: T -> bool, q: T -> bool)
    requires forall x :: q(x) == !p(x)
    ensures multiset(Filter(s, p)) + multiset(Filter(s, q)) == multiset(s)
  {
    if s != [] {
      FilterSplit(s[1..], p, q);
      assert s == [s[0]] + s[1..];
    }
  }

  /** `searchsorted(key, side="right")` on an ascending sequence: the first
      index whose element exceeds `key`. */
  function SearchSortedRight(a: seq<int>, key: int): (r: nat)
    requires forall i, j :: 0 <= i < j < |a| ==> a[i] <= a[j]
    ensures r <= |a|
    ensures forall i :: 0 <= i < r ==> a[i] <= key
    ensures forall i :: r <= i < |a| ==> a[i] > key
  {
    if a == [] || a[0] > key then 0
    else 1 + SearchSortedRight(a[1..], key)
  }

  /** Tasks whose key is missing. */
  function IsMissing(m: Model): TaskId -> bool
  {
    t => KeyOf(m, t).Missing?
  }

  /** The numeric keys of `ts`, in order; the missing ones are dropped. */
  function NumericKeys(m: Model, ts: seq<TaskId>): (r: seq<int>)
    ensures |r| + CountIf(ts, IsMissing(m)) == |ts|
  {
    if ts == [] then []
    else (match KeyOf(m, ts[0]) case Num(x) => [x] case Missing => []) + NumericKeys(m, ts[1..])
  }

  /** Keys strictly greater than `k`. */
  function Above(k: int): int -> bool
  {
    v => v > k
  }

  /** Tasks whose key `searchsorted` ranks strictly above `k`. */
  function HeavierThan(m: Model, k: Key): TaskId -> bool
  {
    t => SearchAbove(KeyOf(m, t), k)
  }

  lemma {:induction false} CountIfSplit(a: seq<int>, k: int, r: nat)
    requires r <= |a|
    requires forall i :: 0 <= i < r ==> a[i] <= k
    requires forall i :: r <= i < |a| ==> a[i] > k
    ensures CountIf(a, Above(k)) == |a| - r
  {
    if a != [] {
      if r > 0 {
        CountIfSplit(a[1..], k, r - 1);
      } else {
        CountIfSplit(a[1..], k, 0);
      }
    }
  }

  /** Above a number lie the larger numbers and every missing key. */
  lemma {:induction false} CountIfKeys(m: Model, ts: seq<TaskId>, k: int)
    ensures CountIf(NumericKeys(m, ts), Above(k)) + CountIf(ts, IsMissing(m)) == CountIf(ts, HeavierThan(m, Num(k)))
  {
    if ts != [] {
      CountIfKeys(m, ts[1..], k);
      if KeyOf(m, ts[0]).Num? {
        assert NumericKeys(m, ts) == [KeyOf(m, ts[0]).x] + NumericKeys(m, ts[1..]);
        assert NumericKeys(m, ts)[1..] == NumericKeys(m, ts[1..]);
      } else {
        assert NumericKeys(m, ts) == NumericKeys(m, ts[1..]);
      }
    }
  }

  /** Nothing lies above a missing key. */
  lemma {:induction false} CountIfMissing(m: Model, ts: seq<TaskId>)
    ensures CountIf(ts, HeavierThan(m, Missing)) == 0
  {
    if ts != [] {
      CountIfMissing(m, ts[1..]);
    }
  }

  /** `sort_task_into_shelf`: the current children's keys sorted ascending
      (the numbers first, the NaN keys after them), and the position
      counted from the end just past the last key `searchsorted` does not
      rank above the task's own. The result is one more than the number of
      children ranked strictly above, so the task goes before the children
      with an equal key, and a task whose key is missing goes first; it
      lies in 1..m+1 for m children. */
  function SortTaskIntoShelf(m: Model, task: TaskId, shelf: ShelfId): (r: int)
    ensures r == 1 + CountIf(Children(m, shelf), HeavierThan(m, KeyOf(m, task)))
    ensures 1 <= r <= |Children(m, shelf)| + 1
  {
    var children := Children(m, shelf);
    var numbers := SortBy(NumericKeys(m, children), k => k);
    assert forall i, j :: 0 <= i < j < |numbers| ==> numbers[i] <= numbers[j] by {
      assert SortedBy(numbers, k => k);
    }
    assert |numbers| == |NumericKeys(m, children)| by {
      assert |multiset(numbers)| == |multiset(NumericKeys(m, children))|;
    }
    if KeyOf(m, task).Missing? then
      // NaN goes after every key, NaN ones included
      var at := |children|;
      CountIfMissing(m, children);
      |children| - at + 1
    else
      var k := KeyOf(m, task).x;
      var at := SearchSortedRight(numbers, k);
      CountIfSplit(numbers, k, at);
      CountIfSort(NumericKeys(m, children), k => k, Above(k));
      CountIfKeys(m, children, k);
      |children| - at + 1
  }
}
