/**
 * Theoretical expiry risk of each trade (`_max_loss_gain_from_legs`):
 * which snapshot legs are priced, the grid evaluation of one trade, and
 * the loop over trades. That the grid finds the true worst and best case
 * is proved from the payoff lemmas.
 */
module Risk {
  import opened Common
  import opened Numeric
  import opened Text
  import opened Legs
  import opened Payoff

  /** The risk columns of one trade. The flags are NaN for a trade the calculator never saw. */
  datatype TradeRisk = TradeRisk(
    maxLoss: Float,
    maxGain: Float,
    unboundedRisk: Option<bool>,
    unboundedGain: Option<bool>)

  /** What a trade gets when there is nothing to price. */
  const NoRisk: TradeRisk := TradeRisk(NaN, NaN, Some(false), Some(false))

  /** What `reindex` puts in every column of a trade that has no result. */
  const Unknown: TradeRisk := TradeRisk(NaN, NaN, None, None)

  // ----- which legs are priced -----

  const CallLabels: set<string> := {"C", "CALL"}
  const PutLabels: set<string> := {"P", "PUT"}

  /** Call (true) or put (false) for a normalised option-type label. */
  function KindOfLabel(d: string): (r: Option<bool>)
    ensures r == Some(true) <==> d in CallLabels
    ensures r == Some(false) <==> d in PutLabels
    ensures r.None? <==> d !in CallLabels && d !in PutLabels
  {
    if d in CallLabels then Some(true) else if d in PutLabels then Some(false) else None
  }

  /** The option type after upper-casing and stripping; a missing type reads as "NAN", which is neither. */
  function OptionKind(optionType: Option<string>): (r: Option<bool>)
    ensures r == Some(true) <==> optionType.Some? && Normalize(optionType.value) in CallLabels
    ensures r == Some(false) <==> optionType.Some? && Normalize(optionType.value) in PutLabels
  {
    match optionType
    case None => None
    case Some(s) => KindOfLabel(Normalize(s))
  }

  /**
   * A snapshot leg enters the calculation when its strike and quantity
   * are numbers and its type is a call or a put (side and multiplier are
   * always numbers in the snapshot).
   */
  function RiskLegOf(s: LegSnap): (r: Option<RiskLeg>)
    ensures r.Some? <==> s.strike.Some? && s.qtyAbs.Some? && OptionKind(s.optionType).Some?
    ensures r.Some? ==> r.value.strike == s.strike.value &&
                        r.value.isCall == OptionKind(s.optionType).value &&
                        r.value.weight == s.side as real * s.qtyAbs.value * s.mult
  {
    if s.strike.Some? && s.qtyAbs.Some? && OptionKind(s.optionType).Some? then
      Some(RiskLeg(s.strike.value, OptionKind(s.optionType).value, s.side as real * s.qtyAbs.value * s.mult))
    else None
  }

  /** Whether a snapshot leg passes the `ok` mask. */
  predicate Usable(s: LegSnap) {
    RiskLegOf(s).Some?
  }

  /** The `ok` mask applied to one trade's snapshot legs. */
  function RiskLegs(snaps: seq<LegSnap>): (r: seq<RiskLeg>)
    ensures |r| <= |snaps|
    ensures forall l :: l in r ==> exists s :: s in snaps && RiskLegOf(s) == Some(l)
    ensures forall s :: s in snaps && RiskLegOf(s).Some? ==> RiskLegOf(s).value in r
  {
    if snaps == [] then []
    else
      var rest := RiskLegs(snaps[1..]);
      assert forall s :: s in snaps ==> s == snaps[0] || s in snaps[1..];
      match RiskLegOf(snaps[0])
      case Some(l) => [l] + rest
      case None => rest
  }

  /**
   * The mask keeps every usable leg in order, one entry per snapshot
   * leg, so two lots of the same contract give two legs.
   */
  lemma {:induction false} RiskLegsPerLot(snaps: seq<LegSnap>)
    ensures var f := Filter(snaps, Usable);
            |RiskLegs(snaps)| == |f| && forall i :: 0 <= i < |f| ==> Some(RiskLegs(snaps)[i]) == RiskLegOf(f[i])
  {
    if snaps != [] {
      RiskLegsPerLot(snaps[1..]);
      var r, rest := RiskLegs(snaps), RiskLegs(snaps[1..]);
      var f, g := Filter(snaps, Usable), Filter(snaps[1..], Usable);
      if Usable(snaps[0]) {
        assert r == [RiskLegOf(snaps[0]).value] + rest;
        assert f == [snaps[0]] + g;
      } else {
        assert r == rest;
        assert f == g;
      }
    }
  }

  // ----- one trade -----

  /**
   * The risk of one trade. A trade with no priceable leg or no finite
   * cost gets NaN bounds and false flags. Otherwise a negative slope
   * above the top strike means unbounded loss and a positive one
   * unbounded gain; a bounded side is the worst (best) grid profit,
   * floored at zero.
   */
  function RiskOf(legs: seq<RiskLeg>, cost: Option<real>): (r: TradeRisk)
    ensures r.unboundedRisk.Some? && r.unboundedGain.Some?
    ensures legs == [] || cost.None? ==> r == NoRisk
    ensures legs != [] && cost.Some? ==>
              (r.unboundedRisk.value <==> SlopeHigh(legs) < 0.0) &&
              (r.unboundedGain.value <==> SlopeHigh(legs) > 0.0) &&
              (r.maxLoss == PosInf <==> SlopeHigh(legs) < 0.0) &&
              (r.maxGain == PosInf <==> SlopeHigh(legs) > 0.0)
    ensures r.maxLoss.Fin? ==> r.maxLoss.v >= 0.0
    ensures r.maxGain.Fin? ==> r.maxGain.v >= 0.0
    ensures !r.unboundedRisk.value && !r.unboundedGain.value ==> !r.maxLoss.PosInf? && !r.maxGain.PosInf?
  {
    if legs == [] || cost.None? then NoRisk
    else Bounds(SlopeHigh(legs), MinPnl(legs, cost.value, Points(legs)), MaxPnl(legs, cost.value, Points(legs)))
  }

  /** The risk columns from the slope above the top strike and the worst and best grid profits. */
  function Bounds(slope: real, lo: real, hi: real): (r: TradeRisk)
    ensures r.unboundedRisk == Some(slope < 0.0) && r.unboundedGain == Some(slope > 0.0)
    ensures r.maxLoss == if slope < 0.0 then PosInf else Fin(Max(0.0, -lo))
    ensures r.maxGain == if slope > 0.0 then PosInf else Fin(Max(0.0, hi))
  {
    TradeRisk(if slope < 0.0 then PosInf else Fin(Max(0.0, -lo)),
              if slope > 0.0 then PosInf else Fin(Max(0.0, hi)),
              Some(slope < 0.0), Some(slope > 0.0))
  }

  /**
   * A finite `max_trade_loss` is the true worst case at expiry, floored at
   * zero: no final price S >= 0 loses more, and unless it is zero some
   * grid point (S = 0 or a strike) loses exactly that much.
   */
  lemma MaxLossIsWorstCase(legs: seq<RiskLeg>, cost: real)
    requires legs != [] && SlopeHigh(legs) >= 0.0
    ensures var r := RiskOf(legs, Some(cost));
            r.maxLoss.Fin? &&
            (forall s :: s >= 0.0 ==> PnlAt(legs, cost, s) >= -r.maxLoss.v) &&
            (r.maxLoss.v == 0.0 || exists p :: (p == 0.0 || p in Strikes(legs)) && PnlAt(legs, cost, p) == -r.maxLoss.v)
  {
    WorstOfGrid(legs, cost, MinPnl(legs, cost, Points(legs)));
  }

  /** The floored loss of the worst grid point bounds every final price, and is attained unless it is zero. */
  lemma WorstOfGrid(legs: seq<RiskLeg>, cost: real, lo: real)
    requires SlopeHigh(legs) >= 0.0 && lo == MinPnl(legs, cost, Points(legs))
    ensures forall s :: s >= 0.0 ==> PnlAt(legs, cost, s) >= -Max(0.0, -lo)
    ensures Max(0.0, -lo) == 0.0 || exists p :: (p == 0.0 || p in Strikes(legs)) && PnlAt(legs, cost, p) == -Max(0.0, -lo)
  {
    forall s | s >= 0.0
      ensures PnlAt(legs, cost, s) >= -Max(0.0, -lo)
    {
      LossBounded(legs, cost, s);
    }
    if Max(0.0, -lo) != 0.0 {
      var p :| p in Points(legs) && PnlAt(legs, cost, p) == lo;
      assert p == 0.0 || p in Strikes(legs);
    }
  }

  /**
   * A finite `max_trade_gain` is the true best case at expiry, floored at
   * zero: no final price S >= 0 gains more, and unless it is zero some
   * grid point gains exactly that much.
   */
  lemma MaxGainIsBestCase(legs: seq<RiskLeg>, cost: real)
    requires legs != [] && SlopeHigh(legs) <= 0.0
    ensures var r := RiskOf(legs, Some(cost));
            r.maxGain.Fin? &&
            (forall s :: s >= 0.0 ==> PnlAt(legs, cost, s) <= r.maxGain.v) &&
            (r.maxGain.v == 0.0 || exists p :: (p == 0.0 || p in Strikes(legs)) && PnlAt(legs, cost, p) == r.maxGain.v)
  {
    BestOfGrid(legs, cost, MaxPnl(legs, cost, Points(legs)));
  }

  /** The floored gain of the best grid point bounds every final price, and is attained unless it is zero. */
  lemma BestOfGrid(legs: seq<RiskLeg>, cost: real, hi: real)
    requires SlopeHigh(legs) <= 0.0 && hi == MaxPnl(legs, cost, Points(legs))
    ensures forall s :: s >= 0.0 ==> PnlAt(legs, cost, s) <= Max(0.0, hi)
    ensures Max(0.0, hi) == 0.0 || exists p :: (p == 0.0 || p in Strikes(legs)) && PnlAt(legs, cost, p) == Max(0.0, hi)
  {
    forall s | s >= 0.0
      ensures PnlAt(legs, cost, s) <= Max(0.0, hi)
    {
      GainBounded(legs, cost, s);
    }
    if Max(0.0, hi) != 0.0 {
      var p :| p in Points(legs) && PnlAt(legs, cost, p) == hi;
      assert p == 0.0 || p in Strikes(legs);
    }
  }

  /** `unbounded_risk` is set exactly when the loss at expiry exceeds any given bound for some S >= 0. */
  lemma UnboundedRiskIsReal(legs: seq<RiskLeg>, cost: real, bound: real)
    requires legs != []
    requires RiskOf(legs, Some(cost)).unboundedRisk == Some(true)
    ensures RiskOf(legs, Some(cost)).maxLoss == PosInf
    ensures exists s :: s >= 0.0 && PnlAt(legs, cost, s) < -bound
  {
    LossUnbounded(legs, cost, bound);
  }

  /** `unbounded_gain` is set exactly when the gain at expiry exceeds any given bound for some S >= 0. */
  lemma UnboundedGainIsReal(legs: seq<RiskLeg>, cost: real, bound: real)
    requires legs != []
    requires RiskOf(legs, Some(cost)).unboundedGain == Some(true)
    ensures RiskOf(legs, Some(cost)).maxGain == PosInf
    ensures exists s :: s >= 0.0 && PnlAt(legs, cost, s) > bound
  {
    GainUnbounded(legs, cost, bound);
  }

  // ----- all trades -----

  /** The trade ids of the snapshot, one per leg. */
  function SnapTids(snaps: seq<LegSnap>): (r: seq<TradeId>)
    ensures |r| == |snaps| && forall i :: 0 <= i < |snaps| ==> r[i] == snaps[i].tid
  {
    seq(|snaps|, i requires 0 <= i < |snaps| => snaps[i].tid)
  }

  /** The cost the calculator uses for a trade: NaN when the trade has none. */
  function CostOf(costs: map<TradeId, Option<real>>, tid: TradeId): Option<real> {
    if tid in costs then costs[tid] else None
  }

  /** The result for one trade id of the loop over the snapshot's trades. */
  function TradeResult(snaps: seq<LegSnap>, costs: map<TradeId, Option<real>>, tid: TradeId): TradeRisk {
    RiskOf(RiskLegs(TradeSnaps(snaps, tid)), CostOf(costs, tid))
  }

  /**
   * `_max_loss_gain_from_legs`: one row per trade of `costs`. Without a
   * strike or an option-type column every trade gets NaN bounds and
   * false flags. Otherwise each trade of the snapshot is priced in turn,
   * and a trade of `costs` without snapshot legs gets NaN everywhere.
   */
  method MaxLossGainFromLegs(columns: set<string>, snaps: seq<LegSnap>, costs: map<TradeId, Option<real>>)
    returns (out: map<TradeId, TradeRisk>)
    ensures out.Keys == costs.Keys
    ensures "strike" !in columns || "option_type" !in columns ==> forall tid :: tid in out ==> out[tid] == NoRisk
    ensures "strike" in columns && "option_type" in columns ==>
              forall tid :: tid in out ==>
                out[tid] == if exists l :: l in snaps && l.tid == tid then TradeResult(snaps, costs, tid) else Unknown
  {
    if "strike" !in columns || "option_type" !in columns {
      return map tid | tid in costs :: NoRisk;
    }
    var order := Unique(SnapTids(snaps));
    var results := PriceTrades(order, (tid: TradeId) => TradeResult(snaps, costs, tid));
    SnapTidsAreTrades(snaps);
    out := map tid | tid in costs :: if tid in results then results[tid] else Unknown;
  }

  /** The loop over the snapshot's trades: each trade of `order` in turn gets its result. */
  method PriceTrades(order: seq<TradeId>, price: TradeId -> TradeRisk) returns (results: map<TradeId, TradeRisk>)
    ensures forall tid :: tid in results <==> tid in order
    ensures forall tid :: tid in results ==> results[tid] == price(tid)
  {
    results := map[];
    var k := 0;
    while k < |order|
      invariant 0 <= k <= |order|
      invariant forall tid :: tid in results <==> tid in order[..k]
      invariant forall tid :: tid in results ==> results[tid] == price(tid)
    {
      var tid := order[k];
      assert order[..k + 1] == order[..k] + [tid];
      results := results[tid := price(tid)];
      k := k + 1;
    }
    assert order[..k] == order;
  }

  /** The trades the snapshot's loop visits are exactly those with a snapshot leg. */
  lemma SnapTidsAreTrades(snaps: seq<LegSnap>)
    ensures forall tid :: tid in Unique(SnapTids(snaps)) <==> exists l :: l in snaps && l.tid == tid
  {
    var order := Unique(SnapTids(snaps));
    forall tid | tid in order
      ensures exists l :: l in snaps && l.tid == tid
    {
      var i :| 0 <= i < |snaps| && SnapTids(snaps)[i] == tid;
      assert snaps[i] in snaps;
    }
    forall tid | exists l :: l in snaps && l.tid == tid
      ensures tid in order
    {
      var l :| l in snaps && l.tid == tid;
      var i :| 0 <= i < |snaps| && snaps[i] == l;
      assert SnapTids(snaps)[i] == tid;
    }
  }
}
