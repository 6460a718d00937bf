/**
 * The arithmetic the engine inherits from numpy and pandas, written out:
 * NaN-aware operations on possibly missing reals, the two summation
 * conventions (pandas skips NaN, numpy propagates it), and a float model
 * with infinities for the places where the source divides by zero.
 * Rounding and signed zero are not modelled.
 */
module Numeric {
  import opened Common

  function Abs(x: real): (r: real)
    ensures r >= 0.0 && (r == x || r == -x)
  {
    if x < 0.0 then -x else x
  }

  function Max(x: real, y: real): (r: real)
    ensures r >= x && r >= y && (r == x || r == y)
  {
    if x >= y then x else y
  }

  // ----- NaN-propagating arithmetic on cells -----

  function Add(a: Option<real>, b: Option<real>): (r: Option<real>)
    ensures r.Some? <==> a.Some? && b.Some?
    ensures r.Some? ==> r.value == a.value + b.value
  {
    if a.Some? && b.Some? then Some(a.value + b.value) else None
  }

  function Sub(a: Option<real>, b: Option<real>): (r: Option<real>)
    ensures r.Some? <==> a.Some? && b.Some?
    ensures r.Some? ==> r.value == a.value - b.value
  {
    if a.Some? && b.Some? then Some(a.value - b.value) else None
  }

  function Mul(a: Option<real>, b: Option<real>): (r: Option<real>)
    ensures r.Some? <==> a.Some? && b.Some?
    ensures r.Some? ==> r.value == a.value * b.value
  {
    if a.Some? && b.Some? then Some(a.value * b.value) else None
  }

  function AbsOpt(a: Option<real>): (r: Option<real>)
    ensures r.Some? <==> a.Some?
    ensures r.Some? ==> r.value >= 0.0 && r.value == Abs(a.value)
  {
    if a.Some? then Some(Abs(a.value)) else None
  }

  /** `x.replace(0, np.nan)`. */
  function ZeroToNaN(a: Option<real>): (r: Option<real>)
    ensures r.Some? <==> a.Some? && a.value != 0.0
    ensures r.Some? ==> r.value == a.value
  {
    if a.Some? && a.value != 0.0 then a else None
  }

  /** `x / y.replace(0, np.nan)`: NaN whenever the denominator is 0 or NaN. */
  function DivNz(a: Option<real>, b: Option<real>): (r: Option<real>)
    ensures r.Some? <==> a.Some? && b.Some? && b.value != 0.0
    ensures r.Some? ==> r.value * b.value == a.value
  {
    if a.Some? && b.Some? && b.value != 0.0 then Some(a.value / b.value) else None
  }

  // ----- reductions -----

  /** pandas `Series.sum()`: NaN cells are skipped, an all-NaN sum is 0. */
  function SumSkipNa(xs: seq<Option<real>>): real {
    if xs == [] then 0.0
    else (if xs[0].Some? then xs[0].value else 0.0) + SumSkipNa(xs[1..])
  }

  /** numpy summation: one NaN makes the whole sum NaN. */
  function SumProp(xs: seq<Option<real>>): (r: Option<real>)
    ensures r.Some? <==> forall i :: 0 <= i < |xs| ==> xs[i].Some?
  {
    if xs == [] then Some(0.0)
    else Add(xs[0], SumProp(xs[1..]))
  }

  /** Without NaN cells the two summation conventions agree. */
  lemma {:induction false} SumConventionsAgree(xs: seq<Option<real>>)
    requires forall i :: 0 <= i < |xs| ==> xs[i].Some?
    ensures SumProp(xs) == Some(SumSkipNa(xs))
  {
    if xs != [] {
      SumConventionsAgree(xs[1..]);
    }
  }

  /** pandas `GroupBy.first()` on one column: the first non-null cell. */
  function FirstSome<T>(xs: seq<Option<T>>): (r: Option<T>)
    ensures r.None? <==> forall i :: 0 <= i < |xs| ==> xs[i].None?
    ensures r.Some? ==> exists i :: 0 <= i < |xs| && xs[i] == r &&
                          forall j :: 0 <= j < i ==> xs[j].None?
  {
    if xs == [] then None
    else if xs[0].Some? then xs[0]
    else
      var r := FirstSome(xs[1..]);
      assert r.Some? ==> exists i :: 0 <= i < |xs[1..]| && xs[1..][i] == r &&
                          forall j :: 0 <= j < i ==> xs[1..][j].None?;
      assert r.Some? ==> exists i :: 1 <= i < |xs| && xs[i] == r &&
                          forall j :: 0 <= j < i ==> xs[j].None?;
      r
  }

  // ----- IEEE-style floats for division by zero -----

  /** A float64 value up to rounding: finite, +inf, -inf or NaN. */
  datatype Float = Fin(v: real) | PosInf | NegInf | NaN {
    predicate IsFinite() { Fin? }
  }

  function OfOpt(a: Option<real>): (r: Float)
    ensures r.Fin? <==> a.Some?
    ensures r.Fin? ==> r.v == a.value
    ensures a.None? ==> r == NaN
  {
    if a.Some? then Fin(a.value) else NaN
  }

  /** IEEE division without signed zero: x/0 is +-inf, 0/0 and inf/inf are NaN. */
  function Div(a: Float, b: Float): (r: Float)
    ensures a.Fin? && b.Fin? && b.v != 0.0 ==> r == Fin(a.v / b.v)
    ensures a.Fin? && b == Fin(0.0) ==>
              r == (if a.v > 0.0 then PosInf else if a.v < 0.0 then NegInf else NaN)
    ensures a.NaN? || b.NaN? ==> r == NaN
    ensures a.Fin? && !b.Fin? && !b.NaN? ==> r == Fin(0.0)
  {
    match (a, b)
    case (NaN, _) => NaN
    case (_, NaN) => NaN
    case (Fin(x), Fin(y)) =>
      if y != 0.0 then Fin(x / y)
      else if x > 0.0 then PosInf else if x < 0.0 then NegInf else NaN
    case (Fin(_), _) => Fin(0.0)
    case (PosInf, Fin(y)) => if y < 0.0 then NegInf else PosInf
    case (NegInf, Fin(y)) => if y < 0.0 then PosInf else NegInf
    case (_, _) => NaN
  }

  /** IEEE subtraction: inf - inf is NaN, inf - finite stays inf. */
  function SubF(a: Float, b: Float): (r: Float)
    ensures a.Fin? && b.Fin? ==> r == Fin(a.v - b.v)
    ensures a.NaN? || b.NaN? ==> r == NaN
    ensures b.Fin? && !a.Fin? ==> r == a
  {
    match (a, b)
    case (NaN, _) => NaN
    case (_, NaN) => NaN
    case (Fin(x), Fin(y)) => Fin(x - y)
    case (Fin(_), PosInf) => NegInf
    case (Fin(_), NegInf) => PosInf
    case (PosInf, NegInf) => PosInf
    case (NegInf, PosInf) => NegInf
    case (PosInf, Fin(_)) => PosInf
    case (NegInf, Fin(_)) => NegInf
    case (_, _) => NaN
  }

  /** `fillna(0)`: only NaN is replaced; infinities survive. */
  function FillNaZero(a: Float): (r: Float)
    ensures r != NaN
    ensures a != NaN ==> r == a
  {
    if a.NaN? then Fin(0.0) else a
  }
}
