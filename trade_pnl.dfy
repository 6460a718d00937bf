/**
 * Trade-level PnL (`pnl_trade`): the leg PnL of the (optionally
 * truncated) position table summed per trade and date, with the trade's
 * dates, cost and notional (constant, or growing as staggered legs
 * start), size statistics, the expiry risk of single-ticker trades, and
 * the ratios derived from them.
 */
module TradePnl {
  import opened Common
  import opened Numeric
  import opened Legs
  import opened Payoff
  import opened Risk
  import opened Stops

  /** One output row, for one trade on one date. `trade_entry_notional_abs` is `costAbs` again. */
  datatype TradeRow = TradeRow(
    pnl: real,
    tradeDate: Date,
    sellDate: Date,
    holdingDays: int,
    cost: Option<real>,
    costAbs: Option<real>,
    pnlPct: Float,
    value: Option<real>,
    pnlPctCost: Option<real>,
    nLegs: nat,
    nContracts: real,
    nTickers: nat,
    multiTicker: bool,
    risk: TradeRisk,
    gainLossRatio: real,
    pnlOverCostAbs: Float,
    costPctOfGross: Float)

  // ----- dates -----

  /** The leg rows of one trade. */
  function TradeLegs(legs: seq<LegPnl>, tid: TradeId): (r: seq<LegPnl>)
    ensures forall l :: l in r <==> l in legs && l.row.tid == tid
  {
    Filter(legs, (l: LegPnl) => l.row.tid == tid)
  }

  /** The last date of some leg rows. */
  function EndDate(g: seq<LegPnl>): (d: Date)
    requires |g| > 0
    ensures exists l :: l in g && l.row.date == d
    ensures forall l :: l in g ==> l.row.date <= d
  {
    if |g| == 1 then g[0].row.date
    else
      var rest := EndDate(g[1..]);
      assert forall l :: l in g ==> l == g[0] || l in g[1..];
      if g[0].row.date >= rest then g[0].row.date else rest
  }

  /** The (trade, date) groups of the leg rows: the output's rows. */
  function Groups(legs: seq<LegPnl>): (ks: set<(TradeId, Date)>)
    ensures forall k :: k in ks <==> exists l :: l in legs && (l.row.tid, l.row.date) == k
    ensures forall k :: k in ks ==> k.0 in Tids(legs)
  {
    set l | l in legs :: (l.row.tid, l.row.date)
  }

  // ----- cost and notional -----

  /** The `leg_cost` cells of some snapshot legs. */
  function Costs(snaps: seq<LegSnap>): (r: seq<Option<real>>)
    ensures |r| == |snaps| && forall i :: 0 <= i < |snaps| ==> r[i] == snaps[i].cost
  {
    seq(|snaps|, i requires 0 <= i < |snaps| => snaps[i].cost)
  }

  /** The `quantity_abs` cells of some snapshot legs. */
  function Quantities(snaps: seq<LegSnap>): (r: seq<Option<real>>)
    ensures |r| == |snaps| && forall i :: 0 <= i < |snaps| ==> r[i] == snaps[i].qtyAbs
  {
    seq(|snaps|, i requires 0 <= i < |snaps| => snaps[i].qtyAbs)
  }

  /** `trade_cost_const`: the signed entry costs of the trade's legs summed, NaN legs counting as 0. */
  function ConstCost(snaps: seq<LegSnap>, tid: TradeId): real {
    SumSkipNa(Costs(TradeSnaps(snaps, tid)))
  }

  /** The legs of a trade that have started by date d. */
  function ActiveSnaps(snaps: seq<LegSnap>, tid: TradeId, d: Date): (r: seq<LegSnap>)
    ensures forall s :: s in r <==> s in snaps && s.tid == tid && s.startDate <= d
  {
    Filter(TradeSnaps(snaps, tid), (s: LegSnap) => s.startDate <= d)
  }

  /**
   * The dynamic cost on date d: the running sum, in start order, of the
   * costs of the legs started by d; 0 before any leg starts, NaN once a
   * NaN cost is among them.
   */
  function DynCost(snaps: seq<LegSnap>, tid: TradeId, d: Date): Option<real> {
    SumProp(Costs(ActiveSnaps(snaps, tid, d)))
  }

  /** The dynamic notional on date d: NaN before any leg starts, otherwise the running sum as for the cost. */
  function DynAbs(snaps: seq<LegSnap>, tid: TradeId, d: Date): Option<real> {
    var active := ActiveSnaps(snaps, tid, d);
    if active == [] then None else SumProp(Notionals(active))
  }

  /**
   * The dynamic-cost loop: for each trade in order of first appearance,
   * the cost and notional of each of its dates.
   */
  method DynamicCosts(keys: set<(TradeId, Date)>, tids: seq<TradeId>, snaps: seq<LegSnap>)
    returns (cost: map<(TradeId, Date), Option<real>>, abs: map<(TradeId, Date), Option<real>>)
    requires forall k :: k in keys ==> k.0 in tids
    ensures cost.Keys == keys && abs.Keys == keys
    ensures forall k :: k in keys ==> cost[k] == DynCost(snaps, k.0, k.1) && abs[k] == DynAbs(snaps, k.0, k.1)
  {
    cost, abs := PerTrade(keys, tids, (tid: TradeId, d: Date) => DynCost(snaps, tid, d),
                          (tid: TradeId, d: Date) => DynAbs(snaps, tid, d));
  }

  /** Visiting the trades in order of first appearance, two columns for each (trade, date) group of the trade. */
  method PerTrade(keys: set<(TradeId, Date)>, tids: seq<TradeId>, f: (TradeId, Date) -> Option<real>,
                  g: (TradeId, Date) -> Option<real>)
    returns (a: map<(TradeId, Date), Option<real>>, b: map<(TradeId, Date), Option<real>>)
    requires forall k :: k in keys ==> k.0 in tids
    ensures a.Keys == keys && b.Keys == keys
    ensures forall k :: k in keys ==> a[k] == f(k.0, k.1) && b[k] == g(k.0, k.1)
  {
    var order := Unique(tids);
    a, b := map[], map[];
    var i := 0;
    while i < |order|
      invariant 0 <= i <= |order|
      invariant forall k :: k in a <==> k in keys && k.0 in order[..i]
      invariant forall k :: k in b <==> k in keys && k.0 in order[..i]
      invariant forall k :: k in a ==> a[k] == f(k.0, k.1)
      invariant forall k :: k in b ==> b[k] == g(k.0, k.1)
    {
      var tid := order[i];
      assert order[..i + 1] == order[..i] + [tid];
      a := a + map k | k in keys && k.0 == tid :: f(tid, k.1);
      b := b + map k | k in keys && k.0 == tid :: g(tid, k.1);
      i := i + 1;
    }
    assert order[..i] == order;
  }

  /** Once every leg of a trade has started and none has a NaN cost, the dynamic cost is the constant one. */
  lemma DynamicCostSettles(snaps: seq<LegSnap>, tid: TradeId, d: Date)
    requires forall s :: s in snaps && s.tid == tid ==> s.startDate <= d && s.cost.Some?
    ensures DynCost(snaps, tid, d) == Some(ConstCost(snaps, tid))
  {
    var all := TradeSnaps(snaps, tid);
    FilterAll(all, (s: LegSnap) => s.startDate <= d);
    assert ActiveSnaps(snaps, tid, d) == all;
    SumConventionsAgree(Costs(all));
  }

  /** Before any leg of a trade has started, the dynamic cost is 0 and the notional NaN. */
  lemma DynamicCostBeforeStart(snaps: seq<LegSnap>, tid: TradeId, d: Date)
    requires forall s :: s in snaps && s.tid == tid ==> d < s.startDate
    ensures DynCost(snaps, tid, d) == Some(0.0) && DynAbs(snaps, tid, d).None?
  {
  }

  // ----- tickers and risk -----

  /** The distinct non-NaN tickers of a trade's rows (`nunique`). */
  function TickerSet(t: LegTable, legs: seq<LegPnl>, tid: TradeId): set<Ticker> {
    set l | l in legs && l.row.tid == tid && TickerCell(t, l.row).Some? :: TickerCell(t, l.row).value
  }

  /** `trade_n_tickers`: the distinct tickers of the trade, or 1 when the table has no ticker column. */
  function NTickers(t: LegTable, legs: seq<LegPnl>, tid: TradeId): (n: nat)
    ensures "ticker" !in t.columns ==> n == 1
    ensures "ticker" in t.columns ==> n == |TickerSet(t, legs, tid)|
  {
    if "ticker" in t.columns then |TickerSet(t, legs, tid)| else 1
  }

  /** The risk of all trades, from the snapshot legs and constant costs of the single-ticker trades only. */
  function SingleSnaps(t: LegTable, legs: seq<LegPnl>, snaps: seq<LegSnap>): (r: seq<LegSnap>)
    ensures forall s :: s in r <==> s in snaps && NTickers(t, legs, s.tid) == 1
  {
    Filter(snaps, (s: LegSnap) => NTickers(t, legs, s.tid) == 1)
  }

  /** The costs handed to the risk calculator: the constant costs of the single-ticker trades. */
  function SingleCosts(t: LegTable, legs: seq<LegPnl>, snaps: seq<LegSnap>): (m: map<TradeId, Option<real>>)
    ensures forall tid :: tid in m <==> tid in Tids(legs) && NTickers(t, legs, tid) == 1
  {
    map tid | tid in Tids(legs) && NTickers(t, legs, tid) == 1 :: Some(ConstCost(snaps, tid))
  }

  /** The trade ids of the leg rows. */
  function Tids(legs: seq<LegPnl>): (r: set<TradeId>)
    ensures forall tid :: tid in r <==> exists l :: l in legs && l.row.tid == tid
  {
    set l | l in legs :: l.row.tid
  }

  /**
   * The risk columns of a trade: NaN for a trade with several tickers (or
   * none), the calculator's result from the constant cost otherwise.
   */
  function RiskColumn(t: LegTable, legs: seq<LegPnl>, snaps: seq<LegSnap>, tid: TradeId): (r: TradeRisk)
    ensures NTickers(t, legs, tid) != 1 ==> r == Unknown
    ensures NTickers(t, legs, tid) == 1 && "strike" in t.columns && "option_type" in t.columns ==>
              r == RiskOf(RiskLegs(TradeSnaps(snaps, tid)), Some(ConstCost(snaps, tid)))
    ensures NTickers(t, legs, tid) == 1 && ("strike" !in t.columns || "option_type" !in t.columns) ==> r == NoRisk
  {
    if NTickers(t, legs, tid) != 1 then Unknown
    else if "strike" !in t.columns || "option_type" !in t.columns then NoRisk
    else RiskOf(RiskLegs(TradeSnaps(snaps, tid)), Some(ConstCost(snaps, tid)))
  }

  /**
   * `gain_loss_ratio`: PnL over the maximum loss when the trade is in
   * profit and the maximum loss is a finite non-zero number; 0 otherwise
   * (a zero, infinite or NaN maximum loss, or no profit).
   */
  function GainLossRatio(pnl: real, maxLoss: Float): (g: real)
    ensures pnl > 0.0 && maxLoss.Fin? && maxLoss.v != 0.0 ==> g * maxLoss.v == pnl
    ensures !(pnl > 0.0 && maxLoss.Fin? && maxLoss.v != 0.0) ==> g == 0.0
    ensures maxLoss.Fin? && maxLoss.v >= 0.0 ==> g >= 0.0
  {
    if pnl > 0.0 && maxLoss.Fin? && maxLoss.v != 0.0 then pnl / maxLoss.v else 0.0
  }

  /** Division of a finite number by a finite non-zero one. */
  lemma DivFinite(x: real, b: Float)
    ensures b.Fin? && b.v != 0.0 ==> Div(Fin(x), b).Fin? && Div(Fin(x), b).v * b.v == x
  {
  }

  /**
   * One output row from its trade-level inputs: the PnL on the date, the
   * trade's first and last dates, the cost and notional in force, the
   * size statistics and the risk columns.
   */
  function MakeRow(pnl: real, tradeDate: Date, sellDate: Date, cost: Option<real>, costAbs: Option<real>,
                   nLegs: nat, nContracts: real, nTickers: nat, risk: TradeRisk): (row: TradeRow)
    ensures row.pnl == pnl && row.cost == cost && row.costAbs == costAbs && row.risk == risk
    ensures row.sellDate - row.tradeDate == row.holdingDays
    ensures costAbs.None? ==> row.pnlPct == NaN && row.costPctOfGross == NaN
    ensures row.pnlOverCostAbs == row.pnlPct
    ensures row.value.Some? <==> cost.Some?
    ensures row.value.Some? ==> row.value.value - cost.value == pnl
    ensures row.pnlPctCost.Some? <==> cost.Some? && cost.value != 0.0
    ensures row.multiTicker <==> nTickers > 1
    ensures row.gainLossRatio == GainLossRatio(pnl, risk.maxLoss)
  {
    var pct := Div(Fin(pnl), OfOpt(costAbs));
    TradeRow(pnl, tradeDate, sellDate, sellDate - tradeDate, cost, costAbs, pct, Add(cost, Some(pnl)),
             DivNz(Some(pnl), ZeroToNaN(AbsOpt(cost))), nLegs, nContracts, nTickers, nTickers > 1, risk,
             GainLossRatio(pnl, risk.maxLoss), pct, Div(OfOpt(cost), OfOpt(costAbs)))
  }

  /** The cost in force for trade tid on date d: the constant cost, or the dynamic one. */
  function CostCell(snaps: seq<LegSnap>, dynamicCost: bool, tid: TradeId, d: Date): Option<real> {
    if dynamicCost then DynCost(snaps, tid, d) else Some(ConstCost(snaps, tid))
  }

  /** The notional in force for trade tid on date d: the entry notional, or the dynamic one. */
  function NotionalCell(snaps: seq<LegSnap>, dynamicCost: bool, tid: TradeId, d: Date): Option<real> {
    if dynamicCost then DynAbs(snaps, tid, d) else EntryNotional(snaps, tid)
  }

  /**
   * The percentage columns of a row: `trade_pnl_pct` is the PnL over the
   * notional when that is a non-zero number, and `trade_pnl_pct_cost` the
   * PnL over the absolute cost.
   */
  lemma RowRatios(pnl: real, tradeDate: Date, sellDate: Date, cost: Option<real>, costAbs: Option<real>,
                  nLegs: nat, nContracts: real, nTickers: nat, risk: TradeRisk)
    ensures var row := MakeRow(pnl, tradeDate, sellDate, cost, costAbs, nLegs, nContracts, nTickers, risk);
            (costAbs.Some? && costAbs.value != 0.0 ==> row.pnlPct.Fin? && row.pnlPct.v * costAbs.value == pnl) &&
            (row.pnlPctCost.Some? ==> row.pnlPctCost.value * Abs(cost.value) == pnl)
  {
    DivFinite(pnl, OfOpt(costAbs));
  }

  /** The output row of trade tid on date d, given its cost, notional and risk columns. */
  function RowWith(t: LegTable, legs: seq<LegPnl>, snaps: seq<LegSnap>, tid: TradeId, d: Date,
                   cost: Option<real>, costAbs: Option<real>, risk: TradeRisk): TradeRow
    requires tid in Tids(legs)
  {
    var g := TradeLegs(legs, tid);
    var l :| l in legs && l.row.tid == tid;
    assert l in g;
    var ts := TradeSnaps(snaps, tid);
    MakeRow(DayPnl(legs, tid, d), StartDate(g), EndDate(g), cost, costAbs,
            |ts|, SumSkipNa(Quantities(ts)), NTickers(t, legs, tid), risk)
  }

  /** The output row of trade tid on date d, with constant or dynamic cost. */
  function RowOf(t: LegTable, legs: seq<LegPnl>, snaps: seq<LegSnap>, dynamicCost: bool, tid: TradeId, d: Date): TradeRow
    requires tid in Tids(legs)
  {
    RowWith(t, legs, snaps, tid, d, CostCell(snaps, dynamicCost, tid, d), NotionalCell(snaps, dynamicCost, tid, d),
            RiskColumn(t, legs, snaps, tid))
  }

  /** A row's dates bracket the date it is for, and the holding period is never negative. */
  lemma RowDates(t: LegTable, legs: seq<LegPnl>, snaps: seq<LegSnap>, dynamicCost: bool, tid: TradeId, d: Date)
    requires (tid, d) in Groups(legs)
    ensures var row := RowOf(t, legs, snaps, dynamicCost, tid, d);
            row.tradeDate <= d <= row.sellDate && row.holdingDays >= 0 &&
            (forall l :: l in legs && l.row.tid == tid ==> row.tradeDate <= l.row.date <= row.sellDate)
  {
    var l :| l in legs && (l.row.tid, l.row.date) == (tid, d);
    assert l in TradeLegs(legs, tid);
  }

  /** With constant cost, every date of a trade carries the same cost and notional. */
  lemma ConstantCostIsConstant(t: LegTable, legs: seq<LegPnl>, snaps: seq<LegSnap>, tid: TradeId, d1: Date, d2: Date)
    requires tid in Tids(legs)
    ensures RowOf(t, legs, snaps, false, tid, d1).cost == RowOf(t, legs, snaps, false, tid, d2).cost
    ensures RowOf(t, legs, snaps, false, tid, d1).costAbs == RowOf(t, legs, snaps, false, tid, d2).costAbs
  {
  }

  /** Risk is only reported for single-ticker trades. */
  lemma RiskOnlyForSingleTicker(t: LegTable, legs: seq<LegPnl>, snaps: seq<LegSnap>, dynamicCost: bool,
                                tid: TradeId, d: Date)
    requires tid in Tids(legs)
    ensures var row := RowOf(t, legs, snaps, dynamicCost, tid, d);
            row.nTickers != 1 ==> row.risk == Unknown && row.gainLossRatio == 0.0
  {
  }

  /** The table `pnl_trade` works on: the input, or its truncation when asked for and a threshold is given. */
  function TruncatedInput(t: LegTable, priceCol: string, stopLoss: Option<real>, takeProfit: Option<real>,
                          truncate: bool, multiplier: real): Result<LegTable>
  {
    if truncate && (stopLoss.Some? || takeProfit.Some?) then
      match PnlTransaction(t, priceCol, multiplier, None, false)
      case Err(e) => Err(e)
      case Ok(legs) => Ok(Truncated(stopLoss, takeProfit, t, legs, Snapshot(t, legs)))
    else Ok(t)
  }

  /** The risk columns a trade gets from the calculator's output: NaN for a trade it has no row for. */
  function RiskAt(risk: map<TradeId, TradeRisk>, tid: TradeId): TradeRisk {
    if tid in risk then risk[tid] else Unknown
  }

  /** The calculator's output for the single-ticker trades agrees with `RiskColumn`. */
  lemma RiskMapAgrees(t: LegTable, legs: seq<LegPnl>, snaps: seq<LegSnap>, risk: map<TradeId, TradeRisk>, tid: TradeId)
    requires forall l :: l in legs ==> exists s :: s in snaps && s.tid == l.row.tid
    requires risk.Keys == SingleCosts(t, legs, snaps).Keys
    requires "strike" !in t.columns || "option_type" !in t.columns ==> forall x :: x in risk ==> risk[x] == NoRisk
    requires "strike" in t.columns && "option_type" in t.columns ==>
               forall x :: x in risk ==>
                 risk[x] == if exists s :: s in SingleSnaps(t, legs, snaps) && s.tid == x
                            then TradeResult(SingleSnaps(t, legs, snaps), SingleCosts(t, legs, snaps), x) else Unknown
    requires tid in Tids(legs)
    ensures RiskAt(risk, tid) == RiskColumn(t, legs, snaps, tid)
  {
    if NTickers(t, legs, tid) == 1 && "strike" in t.columns && "option_type" in t.columns {
      SingleHasSnap(t, legs, snaps, tid);
      var x := TradeResult(SingleSnaps(t, legs, snaps), SingleCosts(t, legs, snaps), tid);
      assert risk[tid] == x;
      SingleResult(t, legs, snaps, tid);
    }
  }

  /** For a single-ticker trade the calculator, run on the single-ticker subset, prices the trade's own legs at its constant cost. */
  lemma SingleResult(t: LegTable, legs: seq<LegPnl>, snaps: seq<LegSnap>, tid: TradeId)
    requires tid in Tids(legs) && NTickers(t, legs, tid) == 1
    ensures TradeResult(SingleSnaps(t, legs, snaps), SingleCosts(t, legs, snaps), tid) ==
            RiskOf(RiskLegs(TradeSnaps(snaps, tid)), Some(ConstCost(snaps, tid)))
  {
    SingleTradeSnaps(t, legs, snaps, tid);
    assert CostOf(SingleCosts(t, legs, snaps), tid) == Some(ConstCost(snaps, tid));
  }

  /** A single-ticker trade of the leg rows keeps its snapshot legs among those handed to the calculator. */
  lemma SingleHasSnap(t: LegTable, legs: seq<LegPnl>, snaps: seq<LegSnap>, tid: TradeId)
    requires forall l :: l in legs ==> exists s :: s in snaps && s.tid == l.row.tid
    requires tid in Tids(legs) && NTickers(t, legs, tid) == 1
    ensures exists s :: s in SingleSnaps(t, legs, snaps) && s.tid == tid
  {
    var l :| l in legs && l.row.tid == tid;
    var s :| s in snaps && s.tid == l.row.tid;
    assert s in SingleSnaps(t, legs, snaps);
  }

  /** Restricting the snapshot to single-ticker trades leaves such a trade's legs as they were. */
  lemma SingleTradeSnaps(t: LegTable, legs: seq<LegPnl>, snaps: seq<LegSnap>, tid: TradeId)
    requires NTickers(t, legs, tid) == 1
    ensures TradeSnaps(SingleSnaps(t, legs, snaps), tid) == TradeSnaps(snaps, tid)
  {
    var single := (x: LegSnap) => NTickers(t, legs, x.tid) == 1;
    var ours := (x: LegSnap) => x.tid == tid;
    FilterFilter(snaps, single, ours, ours);
  }

  /** Every leg row's trade has a snapshot leg. */
  lemma SnapsCoverLegs(t: LegTable, legs: seq<LegPnl>)
    ensures forall l :: l in legs ==> exists s :: s in Snapshot(t, legs) && s.tid == l.row.tid
  {
    var snaps := Snapshot(t, legs);
    forall l | l in legs
      ensures exists s :: s in snaps && s.tid == l.row.tid
    {
      var i :| 0 <= i < |snaps| && (snaps[i].tid, snaps[i].key) == LegKey(l, "leg_id" in t.columns);
      assert snaps[i] in snaps;
    }
  }

  /** That two maps hold the cost and notional columns of every (trade, date) group of the leg rows. */
  predicate CostsAgree(legs: seq<LegPnl>, snaps: seq<LegSnap>, dynamicCost: bool,
                       cost: map<(TradeId, Date), Option<real>>, abs: map<(TradeId, Date), Option<real>>)
  {
    cost.Keys == Groups(legs) && abs.Keys == Groups(legs) &&
    (forall k :: k in cost ==> cost[k] == CostCell(snaps, dynamicCost, k.0, k.1)) &&
    (forall k :: k in abs ==> abs[k] == NotionalCell(snaps, dynamicCost, k.0, k.1))
  }

  /** The cost and notional columns of every (trade, date) group. */
  method CostColumns(legs: seq<LegPnl>, snaps: seq<LegSnap>, dynamicCost: bool)
    returns (cost: map<(TradeId, Date), Option<real>>, abs: map<(TradeId, Date), Option<real>>)
    ensures CostsAgree(legs, snaps, dynamicCost, cost, abs)
  {
    var keys := Groups(legs);
    if dynamicCost {
      forall k | k in keys
        ensures k.0 in LegTids(legs)
      {
        var l :| l in legs && (l.row.tid, l.row.date) == k;
        var i :| 0 <= i < |legs| && legs[i] == l;
        assert LegTids(legs)[i] == k.0;
      }
      cost, abs := DynamicCosts(keys, LegTids(legs), snaps);
    } else {
      cost := map k | k in keys :: Some(ConstCost(snaps, k.0));
      abs := map k | k in keys :: EntryNotional(snaps, k.0);
    }
  }

  /**
   * The risk columns: the calculator is run only when some trade has a
   * single ticker, on those trades' snapshot legs and constant costs; the
   * other trades get NaN.
   */
  method RiskColumns(t: LegTable, legs: seq<LegPnl>, snaps: seq<LegSnap>) returns (risk: map<TradeId, TradeRisk>)
    requires forall l :: l in legs ==> exists s :: s in snaps && s.tid == l.row.tid
    ensures RiskAgrees(t, legs, snaps, risk)
  {
    var singles := SingleCosts(t, legs, snaps);
    risk := map[];
    if |singles| > 0 {
      risk := MaxLossGainFromLegs(t.columns, SingleSnaps(t, legs, snaps), singles);
    } else {
      assert singles == map[];
    }
    forall tid | tid in Tids(legs)
      ensures RiskAt(risk, tid) == RiskColumn(t, legs, snaps, tid)
    {
      RiskMapAgrees(t, legs, snaps, risk, tid);
    }
  }

  /** That a map holds, for each trade of the leg rows, the risk columns `RiskColumn` specifies. */
  predicate RiskAgrees(t: LegTable, legs: seq<LegPnl>, snaps: seq<LegSnap>, risk: map<TradeId, TradeRisk>) {
    forall tid :: tid in Tids(legs) ==> RiskAt(risk, tid) == RiskColumn(t, legs, snaps, tid)
  }

  /** That a map holds exactly the rows of `pnl_trade` for some leg rows: one per group, as `RowOf` gives it. */
  predicate RowsAre(t: LegTable, legs: seq<LegPnl>, snaps: seq<LegSnap>, dynamicCost: bool,
                    rows: map<(TradeId, Date), TradeRow>)
  {
    rows.Keys == Groups(legs) &&
    forall k :: k in rows ==> rows[k] == RowOf(t, legs, snaps, dynamicCost, k.0, k.1)
  }

  /** The merge of the groups with the cost, notional and risk columns. */
  function Merge(t: LegTable, legs: seq<LegPnl>, snaps: seq<LegSnap>, cost: map<(TradeId, Date), Option<real>>,
                 abs: map<(TradeId, Date), Option<real>>, risk: map<TradeId, TradeRisk>): (rows: map<(TradeId, Date), TradeRow>)
    requires cost.Keys == Groups(legs) && abs.Keys == Groups(legs)
    ensures rows.Keys == Groups(legs)
  {
    map k | k in Groups(legs) :: RowWith(t, legs, snaps, k.0, k.1, cost[k], abs[k], RiskAt(risk, k.0))
  }

  /** Merging columns that agree with the specification gives the specified rows. */
  lemma MergeIsRows(t: LegTable, legs: seq<LegPnl>, snaps: seq<LegSnap>, dynamicCost: bool,
                    cost: map<(TradeId, Date), Option<real>>, abs: map<(TradeId, Date), Option<real>>,
                    risk: map<TradeId, TradeRisk>)
    requires CostsAgree(legs, snaps, dynamicCost, cost, abs)
    requires RiskAgrees(t, legs, snaps, risk)
    ensures RowsAre(t, legs, snaps, dynamicCost, Merge(t, legs, snaps, cost, abs, risk))
  {
    var rows := Merge(t, legs, snaps, cost, abs, risk);
    forall k | k in rows
      ensures rows[k] == RowOf(t, legs, snaps, dynamicCost, k.0, k.1)
    {
      MergedRow(t, legs, snaps, dynamicCost, k.0, k.1, cost[k], abs[k], RiskAt(risk, k.0));
    }
  }

  /** A row merged from cost, notional and risk columns that agree with the specification is the specified row. */
  lemma MergedRow(t: LegTable, legs: seq<LegPnl>, snaps: seq<LegSnap>, dynamicCost: bool, tid: TradeId, d: Date,
                  cost: Option<real>, costAbs: Option<real>, risk: TradeRisk)
    requires tid in Tids(legs)
    requires cost == CostCell(snaps, dynamicCost, tid, d) && costAbs == NotionalCell(snaps, dynamicCost, tid, d)
    requires risk == RiskColumn(t, legs, snaps, tid)
    ensures RowWith(t, legs, snaps, tid, d, cost, costAbs, risk) == RowOf(t, legs, snaps, dynamicCost, tid, d)
  {
  }

  /** The rows of `pnl_trade` for the leg PnL of a table: the groups, each merged with its cost, notional and risk. */
  method TradeRows(t: LegTable, legs: seq<LegPnl>, dynamicCost: bool) returns (rows: map<(TradeId, Date), TradeRow>)
    ensures RowsAre(t, legs, Snapshot(t, legs), dynamicCost, rows)
  {
    var snaps := Snapshot(t, legs);
    var cost, abs := CostColumns(legs, snaps, dynamicCost);
    SnapsCoverLegs(t, legs);
    var risk := RiskColumns(t, legs, snaps);
    rows := Merge(t, legs, snaps, cost, abs, risk);
    MergeIsRows(t, legs, snaps, dynamicCost, cost, abs, risk);
  }

  /**
   * `pnl_trade`: one row per trade and date of the (optionally truncated)
   * table, as `RowOf` gives it; errors from the truncation or from the
   * leg PnL are passed on.
   */
  method PnlTrade(t: LegTable, priceCol: string, stopLoss: Option<real>, takeProfit: Option<real>, truncate: bool,
                  multiplier: real, multiplierCol: Option<string>, dynamicCost: bool)
    returns (r: Result<map<(TradeId, Date), TradeRow>>)
    ensures TruncatedInput(t, priceCol, stopLoss, takeProfit, truncate, multiplier).Err? ==>
              r == Err(TruncatedInput(t, priceCol, stopLoss, takeProfit, truncate, multiplier).error)
    ensures TruncatedInput(t, priceCol, stopLoss, takeProfit, truncate, multiplier).Ok? ==>
              var df := TruncatedInput(t, priceCol, stopLoss, takeProfit, truncate, multiplier).value;
              var pr := PnlTransaction(df, priceCol, multiplier, multiplierCol, false);
              (pr.Err? ==> r == Err(pr.error)) &&
              (pr.Ok? ==> r.Ok? && r.value.Keys == Groups(pr.value) &&
                          forall k :: k in r.value ==>
                            r.value[k] == RowOf(df, pr.value, Snapshot(df, pr.value), dynamicCost, k.0, k.1))
  {
    var df := t;
    if truncate && (stopLoss.Some? || takeProfit.Some?) {
      var tr := TruncateOnStops(t, priceCol, stopLoss, takeProfit, multiplier);
      if tr.Err? {
        return Err(tr.error);
      }
      df := tr.value;
    }
    assert TruncatedInput(t, priceCol, stopLoss, takeProfit, truncate, multiplier) == Ok(df);
    var pr := PnlTransaction(df, priceCol, multiplier, multiplierCol, false);
    if pr.Err? {
      return Err(pr.error);
    }
    var rows := TradeRows(df, pr.value, dynamicCost);
    r := Ok(rows);
  }
}
