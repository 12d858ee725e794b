/** Identifiers of tasks and shelves, the nodes of the nesting graph, and
    the generation of fresh identifiers (`generate_next_label`). */
module Ids {

  /** A task id such as "t17"; a shelf id such as "s4". */
  type TaskId = string
  type ShelfId = string

  /** A vertex of the bipartite nesting graph. */
  datatype Node = TaskNode(task: TaskId) | ShelfNode(shelf: ShelfId)

  /** A cell of the nesting matrix: a shelf row and a task column. */
  type Cell = (ShelfId, TaskId)

  /** Python's `None` or a value. */
  datatype Option<T> = None | Some(value: T)

  predicate IsDigit(c: char)
  {
    '0' <= c <= '9'
  }

  predicate AllDigits(s: string)
  {
    forall i :: 0 <= i < |s| ==> IsDigit(s[i])
  }

  /** Decimal value of a digit string, as Python's `int` reads it
      (leading zeros allowed). */
  function ParseDigits(s: string): nat
    requires AllDigits(s)
  {
    if s == [] then 0
    else ParseDigits(s[..|s| - 1]) * 10 + (s[|s| - 1] as int - '0' as int)
  }

  /** Decimal rendering of a natural number, as Python's `str` writes it. */
  function Digits(n: nat): (r: string)
    ensures |r| > 0 && AllDigits(r)
  {
    if n < 10 then ['0' + n as char]
    else Digits(n / 10) + ['0' + (n % 10) as char]
  }

  /** Reading back what `Digits` wrote gives the number again. */
  lemma {:induction false} ParseDigitsRoundTrip(n: nat)
    ensures ParseDigits(Digits(n)) == n
  {
    if n >= 10 {
      var d := Digits(n);
      assert d[..|d| - 1] == Digits(n / 10);
      ParseDigitsRoundTrip(n / 10);
    }
  }

  /** `x` is `prefix` followed by a non-empty decimal number. */
  predicate IsLabel(x: string, prefix: string)
  {
    |x| > |prefix| && x[..|prefix|] == prefix && AllDigits(x[|prefix|..])
  }

  /** The number after the prefix (`int(x[len(prefix):])`). */
  function Suffix(x: string, prefix: string): nat
    requires IsLabel(x, prefix)
  {
    ParseDigits(x[|prefix|..])
  }

  /** The largest suffix among the labels. */
  function MaxSuffix(labels: seq<string>, prefix: string): (r: nat)
    requires |labels| > 0
    requires forall i :: 0 <= i < |labels| ==> IsLabel(labels[i], prefix)
    ensures forall i :: 0 <= i < |labels| ==> Suffix(labels[i], prefix) <= r
    ensures exists i :: 0 <= i < |labels| && Suffix(labels[i], prefix) == r
  {
    var head := Suffix(labels[0], prefix);
    if |labels| == 1 then head
    else
      var rest := MaxSuffix(labels[1..], prefix);
      assert forall i :: 1 <= i < |labels| ==> labels[i] == labels[1..][i - 1];
      if head >= rest then head else rest
  }

  /** `generate_next_label`: the largest existing suffix plus a random
      offset in 1..25 (the offset alone when there are no labels yet). The
      random draw is the parameter `offset`. The new label carries the
      prefix, its number exceeds every existing one, and so it is fresh. */
  function GenerateNextLabel(labels: seq<string>, prefix: string, offset: int): (r: string)
    requires 1 <= offset <= 25
    requires forall i :: 0 <= i < |labels| ==> IsLabel(labels[i], prefix)
    ensures IsLabel(r, prefix)
    ensures forall i :: 0 <= i < |labels| ==> Suffix(labels[i], prefix) < Suffix(r, prefix)
    ensures r !in labels
  {
    var n := if |labels| == 0 then offset else MaxSuffix(labels, prefix) + offset;
    var r := prefix + Digits(n);
    assert r[..|prefix|] == prefix && r[|prefix|..] == Digits(n);
    ParseDigitsRoundTrip(n);
    assert Suffix(r, prefix) == n;
    r
  }
}
