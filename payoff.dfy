/**
 * The expiry payoff of a book of vanilla calls and puts on one
 * underlying, as a function of the price S the underlying ends at. It is
 * piecewise linear with kinks only at the strikes, so over S >= 0 its
 * extremes lie at S = 0 or at a strike, unless the slope above the top
 * strike (set by the calls alone) lets it run off to plus or minus
 * infinity. The risk calculator relies on exactly this; the lemmas here
 * prove it.
 */
module Payoff {
  import opened Common
  import opened Numeric

  /** A leg the calculator can price: strike, kind, and signed size side * |qty| * multiplier. */
  datatype RiskLeg = RiskLeg(strike: real, isCall: bool, weight: real)

  /** One contract's payoff at expiry when the underlying ends at s: its intrinsic value. */
  function Pay(l: RiskLeg, s: real): real {
    var x := if l.isCall then s - l.strike else l.strike - s;
    if x >= 0.0 then x else 0.0
  }

  /** A call pays max(S - K, 0) and a put max(K - S, 0). */
  lemma PayIsIntrinsic(l: RiskLeg, s: real)
    ensures Pay(l, s) >= 0.0
    ensures l.isCall ==> Pay(l, s) == Max(s - l.strike, 0.0)
    ensures !l.isCall ==> Pay(l, s) == Max(l.strike - s, 0.0)
  {
  }

  /** One leg's signed payoff. */
  function LegPay(l: RiskLeg, s: real): real {
    l.weight * Pay(l, s)
  }

  /** The sum of a sequence of reals. */
  function Sum(xs: seq<real>): real {
    SumTo(xs, |xs|)
  }

  /** The sum of the first n elements. */
  function SumTo(xs: seq<real>, n: nat): real
    requires n <= |xs|
  {
    if n == 0 then 0.0 else SumTo(xs, n - 1) + xs[n - 1]
  }

  function LegPays(legs: seq<RiskLeg>, s: real): (ps: seq<real>)
    ensures |ps| == |legs| && forall i :: 0 <= i < |legs| ==> ps[i] == LegPay(legs[i], s)
  {
    seq(|legs|, i requires 0 <= i < |legs| => LegPay(legs[i], s))
  }

  /** The portfolio payoff at expiry: the sum of the legs' signed payoffs. */
  function Payoff(legs: seq<RiskLeg>, s: real): real {
    Sum(LegPays(legs, s))
  }

  /** Profit at expiry: payoff less the trade's entry cost. */
  function PnlAt(legs: seq<RiskLeg>, cost: real, s: real): real {
    Payoff(legs, s) - cost
  }

  /** The weight a leg contributes to the payoff slope above every strike: calls only. */
  function HighWeight(l: RiskLeg): real {
    if l.isCall then l.weight else 0.0
  }

  function HighWeights(legs: seq<RiskLeg>): (hs: seq<real>)
    ensures |hs| == |legs| && forall i :: 0 <= i < |legs| ==> hs[i] == HighWeight(legs[i])
  {
    seq(|legs|, i requires 0 <= i < |legs| => HighWeight(legs[i]))
  }

  /** `slope_high`: the summed size of the call legs. */
  function SlopeHigh(legs: seq<RiskLeg>): real {
    Sum(HighWeights(legs))
  }

  function Strikes(legs: seq<RiskLeg>): (ks: seq<real>)
    ensures |ks| == |legs|
    ensures forall i :: 0 <= i < |legs| ==> ks[i] == legs[i].strike
  {
    seq(|legs|, i requires 0 <= i < |legs| => legs[i].strike)
  }

  /**
   * The evaluation grid: S = 0 followed by every strike. Sorting and
   * de-duplicating it, as the calculator does, changes neither its
   * minimum nor its maximum.
   */
  function Points(legs: seq<RiskLeg>): (ps: seq<real>)
    ensures |ps| > 0 && 0.0 in ps
    ensures forall l :: l in legs ==> l.strike in ps
    ensures forall p :: p in ps ==> p == 0.0 || exists l :: l in legs && l.strike == p
  {
    var ks := Strikes(legs);
    assert forall l :: l in legs ==> l.strike in ks by {
      forall l | l in legs
        ensures l.strike in ks
      {
        var i :| 0 <= i < |legs| && legs[i] == l;
        assert ks[i] == l.strike;
      }
    }
    assert forall p :: p in ks ==> exists l :: l in legs && l.strike == p by {
      forall p | p in ks
        ensures exists l :: l in legs && l.strike == p
      {
        var i :| 0 <= i < |ks| && ks[i] == p;
        assert legs[i] in legs;
      }
    }
    [0.0] + ks
  }

  /** The least profit over a grid. */
  function MinPnl(legs: seq<RiskLeg>, cost: real, ps: seq<real>): (m: real)
    requires |ps| > 0
    ensures exists p :: p in ps && PnlAt(legs, cost, p) == m
    ensures forall p :: p in ps ==> m <= PnlAt(legs, cost, p)
  {
    if |ps| == 1 then PnlAt(legs, cost, ps[0])
    else
      var rest := MinPnl(legs, cost, ps[1..]);
      assert forall p :: p in ps ==> p == ps[0] || p in ps[1..];
      if PnlAt(legs, cost, ps[0]) <= rest then PnlAt(legs, cost, ps[0]) else rest
  }

  /** The greatest profit over a grid. */
  function MaxPnl(legs: seq<RiskLeg>, cost: real, ps: seq<real>): (m: real)
    requires |ps| > 0
    ensures exists p :: p in ps && PnlAt(legs, cost, p) == m
    ensures forall p :: p in ps ==> PnlAt(legs, cost, p) <= m
  {
    if |ps| == 1 then PnlAt(legs, cost, ps[0])
    else
      var rest := MaxPnl(legs, cost, ps[1..]);
      assert forall p :: p in ps ==> p == ps[0] || p in ps[1..];
      if PnlAt(legs, cost, ps[0]) >= rest then PnlAt(legs, cost, ps[0]) else rest
  }

  /** The top of the grid: the highest of 0 and the strikes. */
  function Top(legs: seq<RiskLeg>): (t: real)
    ensures t in Points(legs) && t >= 0.0
    ensures forall l :: l in legs ==> l.strike <= t
  {
    TopOf(Points(legs))
  }

  function TopOf(ps: seq<real>): (t: real)
    requires |ps| > 0
    ensures t in ps && forall p :: p in ps ==> p <= t
  {
    if |ps| == 1 then ps[0]
    else
      var rest := TopOf(ps[1..]);
      assert forall p :: p in ps ==> p == ps[0] || p in ps[1..];
      if ps[0] >= rest then ps[0] else rest
  }

  /** The greatest grid point at or below s, if any. */
  function Floor(ps: seq<real>, s: real): (r: Option<real>)
    ensures r.Some? ==> r.value in ps && r.value <= s && forall p :: p in ps && p <= s ==> p <= r.value
    ensures r.None? ==> forall p :: p in ps ==> p > s
  {
    if ps == [] then None
    else
      var rest := Floor(ps[1..], s);
      assert forall p :: p in ps ==> p == ps[0] || p in ps[1..];
      if ps[0] <= s && (rest.None? || rest.value <= ps[0]) then Some(ps[0]) else rest
  }

  /** The least grid point at or above s, if any. */
  function Ceil(ps: seq<real>, s: real): (r: Option<real>)
    ensures r.Some? ==> r.value in ps && r.value >= s && forall p :: p in ps && p >= s ==> p >= r.value
    ensures r.None? ==> forall p :: p in ps ==> p < s
  {
    if ps == [] then None
    else
      var rest := Ceil(ps[1..], s);
      assert forall p :: p in ps ==> p == ps[0] || p in ps[1..];
      if ps[0] >= s && (rest.None? || rest.value >= ps[0]) then Some(ps[0]) else rest
  }

  // ----- the payoff is linear between consecutive grid points -----

  /**
   * How a contract's payoff moves per unit of S just above a: a call
   * struck at or below a moves one for one, a put struck above a moves
   * against S, anything else is flat.
   */
  function Moves(l: RiskLeg, a: real): real {
    if l.isCall then (if l.strike <= a then 1.0 else 0.0)
    else (if l.strike <= a then 0.0 else -1.0)
  }

  function LegSlopes(legs: seq<RiskLeg>, a: real): (ms: seq<real>)
    ensures |ms| == |legs| && forall i :: 0 <= i < |legs| ==> ms[i] == legs[i].weight * Moves(legs[i], a)
  {
    seq(|legs|, i requires 0 <= i < |legs| => legs[i].weight * Moves(legs[i], a))
  }

  /** The slope of the payoff just above a. */
  function SlopeFrom(legs: seq<RiskLeg>, a: real): real {
    Sum(LegSlopes(legs, a))
  }

  /** A contract's payoff is linear from a to s when no strike lies strictly between. */
  lemma PayStep(l: RiskLeg, a: real, s: real)
    requires a <= s && !(a < l.strike < s)
    ensures Pay(l, s) - Pay(l, a) == Moves(l, a) * (s - a)
  {
  }

  lemma ScaleStep(w: real, ps: real, pa: real, c: real, t: real)
    requires ps - pa == c * t
    ensures w * ps - w * pa == (w * c) * t
  {
    assert w * ps - w * pa == w * (ps - pa);
  }

  lemma LegPayStep(l: RiskLeg, a: real, s: real)
    requires a <= s && !(a < l.strike < s)
    ensures LegPay(l, s) - LegPay(l, a) == (l.weight * Moves(l, a)) * (s - a)
  {
    PayStep(l, a, s);
    ScaleStep(l.weight, Pay(l, s), Pay(l, a), Moves(l, a), s - a);
  }

  lemma AddStep(x: real, y: real, m: real, n: real, t: real)
    requires x == m * t && y == n * t
    ensures x + y == (m + n) * t
  {
  }

  /** Termwise linear steps add up over a prefix. */
  lemma {:induction false} SumToStep(xs: seq<real>, ys: seq<real>, ms: seq<real>, t: real, n: nat)
    requires n <= |xs| == |ys| == |ms|
    requires forall i :: 0 <= i < |xs| ==> xs[i] - ys[i] == ms[i] * t
    ensures SumTo(xs, n) - SumTo(ys, n) == SumTo(ms, n) * t
  {
    if n > 0 {
      SumToStep(xs, ys, ms, t, n - 1);
      AddStep(SumTo(xs, n - 1) - SumTo(ys, n - 1), xs[n - 1] - ys[n - 1], SumTo(ms, n - 1), ms[n - 1], t);
    }
  }

  /** Termwise linear steps add up. */
  lemma SumStep(xs: seq<real>, ys: seq<real>, ms: seq<real>, t: real)
    requires |xs| == |ys| == |ms|
    requires forall i :: 0 <= i < |xs| ==> xs[i] - ys[i] == ms[i] * t
    ensures Sum(xs) - Sum(ys) == Sum(ms) * t
  {
    SumToStep(xs, ys, ms, t, |xs|);
  }

  /** Every leg moves linearly from a to s when no strike lies strictly between. */
  lemma LegSteps(legs: seq<RiskLeg>, a: real, s: real)
    requires a <= s
    requires forall l :: l in legs ==> !(a < l.strike < s)
    ensures forall i :: 0 <= i < |legs| ==> LegPays(legs, s)[i] - LegPays(legs, a)[i] == LegSlopes(legs, a)[i] * (s - a)
  {
    forall i | 0 <= i < |legs|
      ensures LegPays(legs, s)[i] - LegPays(legs, a)[i] == LegSlopes(legs, a)[i] * (s - a)
    {
      assert legs[i] in legs;
      LegPayStep(legs[i], a, s);
    }
  }

  /** The portfolio payoff is linear from a to s when no strike lies strictly between. */
  lemma PayoffStep(legs: seq<RiskLeg>, a: real, s: real)
    requires a <= s
    requires forall l :: l in legs ==> !(a < l.strike < s)
    ensures Payoff(legs, s) - Payoff(legs, a) == SlopeFrom(legs, a) * (s - a)
  {
    LegSteps(legs, a, s);
    SumsStep(legs, a, s);
    StepsAddUp(legs, a, s);
  }

  lemma StepsAddUp(legs: seq<RiskLeg>, a: real, s: real)
    requires Sum(LegPays(legs, s)) - Sum(LegPays(legs, a)) == Sum(LegSlopes(legs, a)) * (s - a)
    ensures Payoff(legs, s) - Payoff(legs, a) == SlopeFrom(legs, a) * (s - a)
  {
  }

  lemma SumsStep(legs: seq<RiskLeg>, a: real, s: real)
    requires forall i :: 0 <= i < |legs| ==> LegPays(legs, s)[i] - LegPays(legs, a)[i] == LegSlopes(legs, a)[i] * (s - a)
    ensures Sum(LegPays(legs, s)) - Sum(LegPays(legs, a)) == Sum(LegSlopes(legs, a)) * (s - a)
  {
    SumStep(LegPays(legs, s), LegPays(legs, a), LegSlopes(legs, a), s - a);
  }

  /** Above every strike the payoff moves with the call legs only. */
  lemma SlopeAboveStrikes(legs: seq<RiskLeg>, a: real)
    requires forall l :: l in legs ==> l.strike <= a
    ensures SlopeFrom(legs, a) == SlopeHigh(legs)
  {
    var ms := LegSlopes(legs, a);
    var hs := HighWeights(legs);
    forall i | 0 <= i < |legs|
      ensures ms[i] == hs[i]
    {
      assert legs[i] in legs;
    }
    assert ms == hs;
  }

  /** Multiplying by a non-negative number keeps an inequality. */
  lemma MulMono(c: real, x: real, y: real)
    requires c >= 0.0 && x <= y
    ensures c * x <= c * y
  {
    assert c * y - c * x == c * (y - x);
  }

  /** Multiplying by a non-positive number reverses it. */
  lemma MulAnti(c: real, x: real, y: real)
    requires c <= 0.0 && x <= y
    ensures c * x >= c * y
  {
    assert c * x - c * y == c * (x - y);
  }

  /** A point of a straight segment lies between the bounds of its ends. */
  lemma OnSegment(m: real, t: real, d: real, fs: real, fa: real, fb: real, lo: real, hi: real)
    requires 0.0 <= t <= d
    requires fs - fa == m * t && fb - fa == m * d
    requires lo <= fa <= hi && lo <= fb <= hi
    ensures lo <= fs <= hi
  {
    if m >= 0.0 {
      MulMono(m, 0.0, t);
      MulMono(m, t, d);
    } else {
      MulAnti(m, 0.0, t);
      MulAnti(m, t, d);
    }
  }

  /** Above every strike the payoff is a straight line whose slope is `slope_high`. */
  lemma AboveStrikes(legs: seq<RiskLeg>, t: real, s: real)
    requires t <= s
    requires forall l :: l in legs ==> l.strike <= t
    ensures Payoff(legs, s) - Payoff(legs, t) == SlopeHigh(legs) * (s - t)
  {
    PayoffStep(legs, t, s);
    SlopeAboveStrikes(legs, t);
  }

  /** Between two points with no strike strictly inside, the payoff stays within any bounds its ends respect. */
  lemma Segment(legs: seq<RiskLeg>, a: real, s: real, b: real, lo: real, hi: real)
    requires a <= s <= b
    requires forall l :: l in legs ==> !(a < l.strike < b)
    requires lo <= Payoff(legs, a) <= hi && lo <= Payoff(legs, b) <= hi
    ensures lo <= Payoff(legs, s) <= hi
  {
    PayoffStep(legs, a, s);
    PayoffStep(legs, a, b);
    OnSegment(SlopeFrom(legs, a), s - a, b - a, Payoff(legs, s), Payoff(legs, a), Payoff(legs, b), lo, hi);
  }

  /** Above every strike a non-negative `slope_high` never lowers the payoff. */
  lemma RisesAbove(legs: seq<RiskLeg>, t: real, s: real)
    requires t <= s && SlopeHigh(legs) >= 0.0
    requires forall l :: l in legs ==> l.strike <= t
    ensures Payoff(legs, t) <= Payoff(legs, s)
  {
    AboveStrikes(legs, t, s);
    MulMono(SlopeHigh(legs), 0.0, s - t);
  }

  /** Above every strike a non-positive `slope_high` never raises the payoff. */
  lemma FallsAbove(legs: seq<RiskLeg>, t: real, s: real)
    requires t <= s && SlopeHigh(legs) <= 0.0
    requires forall l :: l in legs ==> l.strike <= t
    ensures Payoff(legs, s) <= Payoff(legs, t)
  {
    AboveStrikes(legs, t, s);
    MulAnti(SlopeHigh(legs), 0.0, s - t);
  }

  /** Moving d along a line of slope c, with d chosen as x / |c|, changes the value by exactly x in the slope's direction. */
  lemma RunOff(c: real, x: real)
    requires c != 0.0
    ensures c * (x / Abs(c)) == (if c > 0.0 then x else -x)
  {
  }

  /** Above every strike a non-zero `slope_high` carries the payoff any distance x up or down, in its own direction. */
  lemma MovesBy(legs: seq<RiskLeg>, t: real, x: real)
    requires SlopeHigh(legs) != 0.0 && x >= 0.0
    requires forall l :: l in legs ==> l.strike <= t
    ensures exists s :: s >= t && Payoff(legs, s) - Payoff(legs, t) == (if SlopeHigh(legs) > 0.0 then x else -x)
  {
    var c := SlopeHigh(legs);
    var s := t + x / Abs(c);
    AboveStrikes(legs, t, s);
    RunOff(c, x);
  }

  // ----- the grid finds the true extremes -----

  /** Between 0 and the top strike the profit stays within the grid's extremes. */
  lemma WithinGrid(legs: seq<RiskLeg>, cost: real, s: real)
    requires 0.0 <= s <= Top(legs)
    ensures MinPnl(legs, cost, Points(legs)) <= PnlAt(legs, cost, s) <= MaxPnl(legs, cost, Points(legs))
  {
    var ps := Points(legs);
    var a := Floor(ps, s).value;
    var b := Ceil(ps, s).value;
    forall l | l in legs
      ensures !(a < l.strike < b)
    {
      assert l.strike in ps;
    }
    var lo, hi := MinPnl(legs, cost, ps), MaxPnl(legs, cost, ps);
    assert lo <= PnlAt(legs, cost, a) <= hi && lo <= PnlAt(legs, cost, b) <= hi;
    Segment(legs, a, s, b, lo + cost, hi + cost);
  }

  /** With `slope_high` >= 0 no S >= 0 loses more than the worst grid point. */
  lemma LossBounded(legs: seq<RiskLeg>, cost: real, s: real)
    requires SlopeHigh(legs) >= 0.0 && s >= 0.0
    ensures MinPnl(legs, cost, Points(legs)) <= PnlAt(legs, cost, s)
  {
    var t := Top(legs);
    if s <= t {
      WithinGrid(legs, cost, s);
    } else {
      WithinGrid(legs, cost, t);
      RisesAbove(legs, t, s);
    }
  }

  /** With `slope_high` <= 0 no S >= 0 gains more than the best grid point. */
  lemma GainBounded(legs: seq<RiskLeg>, cost: real, s: real)
    requires SlopeHigh(legs) <= 0.0 && s >= 0.0
    ensures PnlAt(legs, cost, s) <= MaxPnl(legs, cost, Points(legs))
  {
    var t := Top(legs);
    if s <= t {
      WithinGrid(legs, cost, s);
    } else {
      WithinGrid(legs, cost, t);
      FallsAbove(legs, t, s);
    }
  }

  /** With `slope_high` < 0 the loss at expiry exceeds every bound. */
  lemma LossUnbounded(legs: seq<RiskLeg>, cost: real, bound: real)
    requires SlopeHigh(legs) < 0.0
    ensures exists s :: s >= 0.0 && PnlAt(legs, cost, s) < -bound
  {
    var t := Top(legs);
    var x := Max(0.0, PnlAt(legs, cost, t) + bound) + 1.0;
    MovesBy(legs, t, x);
    var s :| s >= t && Payoff(legs, s) - Payoff(legs, t) == -x;
    assert PnlAt(legs, cost, s) < -bound;
  }

  /** With `slope_high` > 0 the gain at expiry exceeds every bound. */
  lemma GainUnbounded(legs: seq<RiskLeg>, cost: real, bound: real)
    requires SlopeHigh(legs) > 0.0
    ensures exists s :: s >= 0.0 && PnlAt(legs, cost, s) > bound
  {
    var t := Top(legs);
    var x := Max(0.0, bound - PnlAt(legs, cost, t)) + 1.0;
    MovesBy(legs, t, x);
    var s :| s >= t && Payoff(legs, s) - Payoff(legs, t) == x;
    assert PnlAt(legs, cost, s) > bound;
  }
}
