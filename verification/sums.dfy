/** Finite sums over sequences and a few counting facts used by the
    path-count and position proofs. */
module Sums {

  /** Sum of `f` over the elements of `s`, in order. */
  function Sum<T>(s: seq<T>, f: T -> int): int
  {
    if s == [] then 0 else f(s[0]) + Sum(s[1..], f)
  }

  /** Dropping the head of a sequence without repetitions. */
  lemma DistinctTail<T>(s: seq<T>)
    requires Distinct(s) && s != []
    ensures Distinct(s[1..]) && s[0] !in s[1..]
  {
    forall k | 0 <= k < |s| - 1 ensures s[1..][k] != s[0] {
      assert s[1..][k] == s[k + 1];
    }
    forall i, j | 0 <= i < j < |s| - 1 ensures s[1..][i] != s[1..][j] {
      assert s[1..][i] == s[i + 1] && s[1..][j] == s[j + 1];
    }
  }

  /** How many times `x` occurs in `s`. */
  function Count<T(==)>(s: seq<T>, x: T): nat
  {
    if s == [] then 0 else (if s[0] == x then 1 else 0) + Count(s[1..], x)
  }

  /** No element occurs twice. */
  predicate Distinct<T(==)>(s: seq<T>)
  {
    forall i, j :: 0 <= i < j < |s| ==> s[i] != s[j]
  }

  lemma {:induction false} SumExt<T>(s: seq<T>, f: T -> int, g: T -> int)
    requires forall x :: x in s ==> f(x) == g(x)
    ensures Sum(s, f) == Sum(s, g)
  {
    if s != [] {
      assert s[0] in s;
      assert forall x :: x in s[1..] ==> x in s;
      SumExt(s[1..], f, g);
    }
  }

  lemma {:induction false} SumZero<T>(s: seq<T>, f: T -> int)
    requires forall x :: x in s ==> f(x) == 0
    ensures Sum(s, f) == 0
  {
    if s != [] {
      assert s[0] in s;
      assert forall x :: x in s[1..] ==> x in s;
      SumZero(s[1..], f);
    }
  }

  /** Sums are linear: pointwise h = f + c * g gives Sum h = Sum f + c * Sum g. */
  lemma {:induction false} SumLinear<T>(s: seq<T>, f: T -> int, g: T -> int, c: int, h: T -> int)
    requires forall x :: x in s ==> h(x) == f(x) + c * g(x)
    ensures Sum(s, h) == Sum(s, f) + c * Sum(s, g)
  {
    if s != [] {
      assert s[0] in s;
      assert forall x :: x in s[1..] ==> x in s;
      SumLinear(s[1..], f, g, c, h);
      calc {
        Sum(s, h);
        h(s[0]) + Sum(s[1..], h);
        f(s[0]) + c * g(s[0]) + Sum(s[1..], f) + c * Sum(s[1..], g);
        { assert c * g(s[0]) + c * Sum(s[1..], g) == c * (g(s[0]) + Sum(s[1..], g)); }
        Sum(s, f) + c * Sum(s, g);
      }
    }
  }

  /** In a sequence without repetitions, a sum that is zero away from `y`
      collapses to its value at `y`. */
  lemma {:induction false} SumSingle<T>(s: seq<T>, f: T -> int, y: T)
    requires Distinct(s) && y in s
    requires forall x :: x in s && x != y ==> f(x) == 0
    ensures Sum(s, f) == f(y)
  {
    if s[0] == y {
      assert forall x :: x in s[1..] ==> x in s && x != y by {
        forall x | x in s[1..] ensures x in s && x != y {
          var i :| 0 <= i < |s[1..]| && s[1..][i] == x;
          assert s[i + 1] == x;
        }
      }
      SumZero(s[1..], f);
    } else {
      assert forall x :: x in s[1..] ==> x in s;
      assert y in s[1..] by {
        var i :| 0 <= i < |s| && s[i] == y;
        assert s[1..][i - 1] == y;
      }
      assert Distinct(s[1..]) by {
        forall i, j | 0 <= i < j < |s[1..]| ensures s[1..][i] != s[1..][j] {
          assert s[1..][i] == s[i + 1] && s[1..][j] == s[j + 1];
        }
      }
      SumSingle(s[1..], f, y);
    }
  }

  /** Without `y` in the sequence, a sum that is zero away from `y` is zero. */
  lemma SumAbsent<T>(s: seq<T>, f: T -> int, y: T)
    requires y !in s
    requires forall x :: x in s && x != y ==> f(x) == 0
    ensures Sum(s, f) == 0
  {
    SumZero(s, f);
  }

  /** A sum whose every term is guarded by the same condition. */
  lemma SumGuard<T>(s: seq<T>, b: bool, f: T -> int, h: T -> int)
    requires forall x :: x in s ==> h(x) == (if b then f(x) else 0)
    ensures Sum(s, h) == (if b then Sum(s, f) else 0)
  {
    if b {
      SumExt(s, h, f);
    } else {
      SumZero(s, h);
    }
  }

  /** The order of a double sum can be exchanged. */
  lemma {:induction false} SumSwap<T, U>(s: seq<T>, t: seq<U>, g: (T, U) -> int)
    ensures Sum(s, x => Sum(t, y => g(x, y))) == Sum(t, y => Sum(s, x => g(x, y)))
  {
    if s != [] {
      var outer := x => Sum(t, y => g(x, y));
      var head := y => g(s[0], y);
      var tail := y => Sum(s[1..], x => g(x, y));
      var whole := y => Sum(s, x => g(x, y));
      SumSwap(s[1..], t, g);
      assert Sum(s, outer) == Sum(t, head) + Sum(s[1..], outer);
      assert Sum(s[1..], outer) == Sum(t, tail);
      forall y | y in t ensures whole(y) == head(y) + 1 * tail(y) {
        assert Sum(s, x => g(x, y)) == g(s[0], y) + Sum(s[1..], x => g(x, y));
      }
      SumLinear(t, head, tail, 1, whole);
      SumExt(s, x => Sum(t, y => g(x, y)), outer);
      SumExt(t, y => Sum(s, x => g(x, y)), whole);
    } else {
      SumZero(t, y => Sum(s, x => g(x, y)));
    }
  }

  /** Double counting: the row totals and the column totals of a table
      add up to the same amount. */
  lemma SumSwapBy<T, U>(s: seq<T>, t: seq<U>, rowT: T -> U -> int, colT: U -> T -> int, row: T -> int, col: U -> int)
    requires forall x, y :: x in s && y in t ==> rowT(x)(y) == colT(y)(x)
    requires forall x :: x in s ==> row(x) == Sum(t, rowT(x))
    requires forall y :: y in t ==> col(y) == Sum(s, colT(y))
    ensures Sum(s, row) == Sum(t, col)
  {
    var g := (x, y) => rowT(x)(y);
    SumSwap(s, t, g);
    forall x | x in s ensures row(x) == Sum(t, y => g(x, y)) {
      SumExt(t, rowT(x), y => g(x, y));
    }
    forall y | y in t ensures col(y) == Sum(s, x => g(x, y)) {
      SumExt(s, colT(y), x => g(x, y));
    }
    SumExt(s, row, x => Sum(t, y => g(x, y)));
    SumExt(t, col, y => Sum(s, x => g(x, y)));
  }

  /** Removing the element at `j` keeps the others, in order. */
  lemma RemoveAt(xs: seq<int>, j: int) returns (rest: seq<int>)
    requires Distinct(xs) && 0 <= j < |xs|
    ensures |rest| == |xs| - 1 && Distinct(rest)
    ensures forall i :: 0 <= i < |rest| ==> rest[i] in xs && rest[i] != xs[j]
  {
    rest := xs[..j] + xs[j + 1..];
    forall i | 0 <= i < |rest| ensures rest[i] in xs && rest[i] != xs[j] {
      if i < j { assert rest[i] == xs[i]; } else { assert rest[i] == xs[i + 1]; }
    }
    forall a, b | 0 <= a < b < |rest| ensures rest[a] != rest[b] {
      var ka := if a < j then a else a + 1;
      var kb := if b < j then b else b + 1;
      assert rest[a] == xs[ka] && rest[b] == xs[kb];
    }
  }

  /** A sequence of distinct integers drawn from 1..n has at most n elements. */
  lemma {:induction false} DistinctBounded(xs: seq<int>, n: int)
    requires Distinct(xs)
    requires 0 <= n
    requires forall i :: 0 <= i < |xs| ==> 1 <= xs[i] <= n
    ensures |xs| <= n
    decreases |xs|
  {
    if xs != [] {
      assert 1 <= xs[0] <= n;
      var j := 0;
      if n in xs {
        j :| 0 <= j < |xs| && xs[j] == n;
      }
      var rest := RemoveAt(xs, j);
      forall i | 0 <= i < |rest| ensures 1 <= rest[i] <= n - 1 {
        assert rest[i] in xs;
        var k :| 0 <= k < |xs| && xs[k] == rest[i];
      }
      DistinctBounded(rest, n - 1);
    }
  }

  /** A proper subset is smaller. */
  lemma StrictSubsetSmaller<T>(a: set<T>, b: set<T>)
    requires a < b
    ensures |a| < |b|
  {
    assert exists x :: x in b && x !in a;
    var x :| x in b && x !in a;
    var rest := b - {x};
    assert a <= rest;
    SubsetNoLarger(a, rest);
  }

  lemma {:induction false} SubsetNoLarger<T>(a: set<T>, b: set<T>)
    requires a <= b
    ensures |a| <= |b|
    decreases |a|
  {
    if a != {} {
      var x :| x in a;
      SubsetNoLarger(a - {x}, b - {x});
    }
  }

  /** A set built from a sequence is no larger than the sequence. */
  lemma {:induction false} SetOfSeqBound<T>(s: seq<T>)
    ensures |set x | x in s| <= |s|
  {
    if s != [] {
      SetOfSeqBound(s[1..]);
      assert (set x | x in s) == (set x | x in s[1..]) + {s[0]};
    }
  }

  lemma {:induction false} CountAppend<T>(a: seq<T>, b: seq<T>, x: T)
    ensures Count(a + b, x) == Count(a, x) + Count(b, x)
  {
    if a != [] {
      assert (a + b)[1..] == a[1..] + b;
      CountAppend(a[1..], b, x);
    } else {
      assert a + b == b;
    }
  }

  /** `Count` is the multiplicity in the multiset of the sequence. */
  lemma {:induction false} CountMultiset<T>(s: seq<T>, x: T)
    ensures Count(s, x) == multiset(s)[x]
  {
    if s != [] {
      assert s == [s[0]] + s[1..];
      CountMultiset(s[1..], x);
    }
  }

  lemma {:induction false} SumAppend<T>(a: seq<T>, b: seq<T>, f: T -> int)
    ensures Sum(a + b, f) == Sum(a, f) + Sum(b, f)
  {
    if a != [] {
      assert (a + b)[1..] == a[1..] + b;
      SumAppend(a[1..], b, f);
    } else {
      assert a + b == b;
    }
  }

  /** The numbers 1..n. */
  function Range(n: nat): (r: set<int>)
    ensures forall k {:trigger k in r} :: k in r <==> 1 <= k <= n
    ensures |r| == n
  {
    if n == 0 then {} else Range(n - 1) + {n}
  }

  /** A sequence holding every number of 1..n has at least n elements. */
  lemma CoverBound(xs: seq<int>, n: nat)
    requires forall k :: 1 <= k <= n ==> k in xs
    ensures |xs| >= n
  {
    SetOfSeqBound(xs);
    SubsetNoLarger(Range(n), set x | x in xs);
  }

  predicate Increasing(xs: seq<int>)
  {
    forall i, j :: 0 <= i < j < |xs| ==> xs[i] < xs[j]
  }

  lemma {:induction false} IncreasingGap(xs: seq<int>, i: nat, j: nat)
    requires Increasing(xs) && i <= j < |xs|
    ensures xs[j] - xs[i] >= j - i
    decreases j - i
  {
    if i < j {
      IncreasingGap(xs, i, j - 1);
      assert xs[j - 1] < xs[j];
    }
  }

  /** n increasing numbers drawn from 1..n are 1..n in order. */
  lemma IncreasingRange(xs: seq<int>, n: nat)
    requires Increasing(xs) && |xs| == n
    requires forall i :: 0 <= i < n ==> 1 <= xs[i] <= n
    ensures forall i :: 0 <= i < n ==> xs[i] == i + 1
  {
    forall i | 0 <= i < n ensures xs[i] == i + 1 {
      IncreasingGap(xs, 0, i);
      IncreasingGap(xs, i, n - 1);
    }
  }

  /** In a sequence without repetitions an element occurs at most once. */
  lemma {:induction false} DistinctOnce<T>(s: seq<T>, x: T)
    requires Distinct(s)
    ensures multiset(s)[x] <= 1
  {
    if s != [] {
      assert s == [s[0]] + s[1..];
      DistinctTail(s);
      DistinctOnce(s[1..], x);
    }
  }

  /** A permutation of a sequence without repetitions has none either. */
  lemma PermDistinct<T>(a: seq<T>, b: seq<T>)
    requires multiset(a) == multiset(b) && Distinct(a)
    ensures Distinct(b)
  {
    forall i, j | 0 <= i < j < |b| ensures b[i] != b[j] {
      if b[i] == b[j] {
        var x := b[j];
        assert b == b[..j] + [x] + b[j + 1..];
        assert b[..j][i] == x;
        assert multiset(b)[x] >= 2;
        DistinctOnce(a, x);
        assert false;
      }
    }
  }

  /** `rest`, with `x` in front when `keep` holds. */
  function Prepend<T(==,!new)>(x: T, rest: seq<T>, keep: bool): (r: seq<T>)
    ensures forall y {:trigger y in r} :: y in r <==> (keep && y == x) || y in rest
    ensures Distinct(rest) && x !in rest ==> Distinct(r)
  {
    if keep then [x] + rest else rest
  }
}
