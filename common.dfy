/**
 * Shared vocabulary of the backtesting engine: missing values, the two
 * kinds of exception the engine raises, identifiers, and a few generic
 * operations on sequences that the table pipelines are built from.
 */
module Common {

  /** A pandas cell that may hold NaN / NaT / None. */
  datatype Option<+T> = None | Some(value: T)

  /** The exception classes the engine raises. */
  datatype Error =
    | KeyError(column: string)
    | ValueError(reason: string)

  /** The outcome of an operation that may raise. */
  datatype Result<+T> = Ok(value: T) | Err(error: Error) {
    predicate IsFailure() { Err? }

    function PropagateFailure<U>(): Result<U>
      requires Err?
    {
      Err(error)
    }

    function Extract(): T
      requires Ok?
    {
      value
    }
  }

  /** Contract identity: stable across quote dates, ordered like the id column. */
  newtype ContractId = int

  /** The dense integer naming one trade instance. */
  type TradeId = int

  /** Trading dates, as day numbers. */
  type Date = int

  type Ticker = string

  /** Boolean-mask selection `df[mask]`: keeps order and multiplicity. */
  function Filter<T(!new)>(s: seq<T>, p: T -> bool): (r: seq<T>)
    ensures |r| <= |s|
    ensures forall x :: x in r <==> x in s && p(x)
  {
    if s == [] then []
    else (if p(s[0]) then [s[0]] else []) + Filter(s[1..], p)
  }

  /** Two masks that agree on every element select the same rows. */
  lemma {:induction false} FilterCongruent<T(!new)>(s: seq<T>, p: T -> bool, q: T -> bool)
    requires forall x :: x in s ==> p(x) == q(x)
    ensures Filter(s, p) == Filter(s, q)
  {
    if s != [] {
      assert forall x :: x in s[1..] ==> x in s;
      FilterCongruent(s[1..], p, q);
    }
  }

  /** A mask that keeps every row keeps the table unchanged. */
  lemma {:induction false} FilterAll<T(!new)>(s: seq<T>, p: T -> bool)
    requires forall x :: x in s ==> p(x)
    ensures Filter(s, p) == s
  {
    if s != [] {
      assert forall x :: x in s[1..] ==> x in s;
      FilterAll(s[1..], p);
    }
  }

  /** Two masks applied one after the other select what their conjunction selects. */
  lemma {:induction false} FilterFilter<T(!new)>(s: seq<T>, p: T -> bool, q: T -> bool, pq: T -> bool)
    requires forall x :: x in s ==> pq(x) == (p(x) && q(x))
    ensures Filter(Filter(s, p), q) == Filter(s, pq)
  {
    if s != [] {
      assert forall x :: x in s[1..] ==> x in s;
      FilterFilter(s[1..], p, q, pq);
      var f := Filter(s[1..], p);
      assert pq(s[0]) == (p(s[0]) && q(s[0]));
      if p(s[0]) {
        var g := [s[0]] + f;
        assert Filter(s, p) == g;
        assert g[0] == s[0] && g[1..] == f;
        assert Filter(g, q) == (if q(s[0]) then [s[0]] else []) + Filter(f, q);
      } else {
        assert Filter(s, p) == f;
      }
    }
  }

  /** Distinct values in order of first appearance (pandas `unique`). */
  function Unique<T(==,!new)>(s: seq<T>): (r: seq<T>)
    ensures forall x :: x in r <==> x in s
    ensures forall i, j :: 0 <= i < j < |r| ==> r[i] != r[j]
  {
    UniqueFrom(s, [])
  }

  function UniqueFrom<T(==,!new)>(s: seq<T>, seen: seq<T>): (r: seq<T>)
    requires forall i, j :: 0 <= i < j < |seen| ==> seen[i] != seen[j]
    ensures forall x :: x in r <==> x in s || x in seen
    ensures forall i, j :: 0 <= i < j < |r| ==> r[i] != r[j]
    decreases |s|
  {
    if s == [] then seen
    else if s[0] in seen then UniqueFrom(s[1..], seen)
    else UniqueFrom(s[1..], seen + [s[0]])
  }
}
