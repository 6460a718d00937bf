/**
 * Stop-loss / take-profit truncation (`truncate_trades_on_stops`). The
 * check is made at trade level: each date's PnL summed over the trade's
 * legs, divided by the trade's entry notional summed once over its legs.
 * A trade is cut after the first date on which that percentage reaches
 * the stop or the target; trades that never reach either are kept whole.
 */
module Stops {
  import opened Common
  import opened Numeric
  import opened Legs

  /** The `pnl` cells of some legs. */
  function Pnls(ls: seq<LegPnl>): (r: seq<Option<real>>)
    ensures |r| == |ls| && forall i :: 0 <= i < |ls| ==> r[i] == ls[i].pnl
  {
    seq(|ls|, i requires 0 <= i < |ls| => ls[i].pnl)
  }

  /** The `entry_notional_abs` cells of some snapshot legs. */
  function Notionals(snaps: seq<LegSnap>): (r: seq<Option<real>>)
    ensures |r| == |snaps| && forall i :: 0 <= i < |snaps| ==> r[i] == snaps[i].notional
  {
    seq(|snaps|, i requires 0 <= i < |snaps| => snaps[i].notional)
  }

  /** The leg rows of one trade on one date. */
  function DayLegs(legs: seq<LegPnl>, tid: TradeId, d: Date): (r: seq<LegPnl>)
    ensures forall l :: l in r <==> l in legs && l.row.tid == tid && l.row.date == d
  {
    Filter(legs, (l: LegPnl) => l.row.tid == tid && l.row.date == d)
  }

  /** `trade_pnl` on one date: the legs' PnL summed, NaN legs counting as 0. */
  function DayPnl(legs: seq<LegPnl>, tid: TradeId, d: Date): real {
    SumSkipNa(Pnls(DayLegs(legs, tid, d)))
  }

  /** `trade_entry_notional_abs`: the snapshot notionals summed once per leg, 0 read as NaN. */
  function EntryNotional(snaps: seq<LegSnap>, tid: TradeId): (r: Option<real>)
    ensures r.Some? ==> r.value != 0.0
  {
    ZeroToNaN(Some(SumSkipNa(Notionals(TradeSnaps(snaps, tid)))))
  }

  /** `trade_pnl_pct` on one date; NaN when the entry notional is 0 or NaN. */
  function DayPct(legs: seq<LegPnl>, snaps: seq<LegSnap>, tid: TradeId, d: Date): (r: Option<real>)
    ensures r.Some? <==> EntryNotional(snaps, tid).Some?
    ensures r.Some? ==> r.value * EntryNotional(snaps, tid).value == DayPnl(legs, tid, d)
  {
    DivNz(Some(DayPnl(legs, tid, d)), EntryNotional(snaps, tid))
  }

  /**
   * Whether a percentage triggers a threshold. The thresholds are read by
   * magnitude: a stop of 0.5 fires at -50% and a target of 1.0 at +100%;
   * a NaN percentage never fires.
   */
  function Hit(stopLoss: Option<real>, takeProfit: Option<real>, pct: Option<real>): (b: bool)
    ensures b <==> pct.Some? && ((stopLoss.Some? && pct.value <= -Abs(stopLoss.value)) ||
                                 (takeProfit.Some? && pct.value >= Abs(takeProfit.value)))
  {
    match pct
    case None => false
    case Some(p) =>
      (stopLoss.Some? && p <= -Abs(stopLoss.value)) || (takeProfit.Some? && p >= Abs(takeProfit.value))
  }

  /** Whether a trade's percentage triggers a threshold on date d. */
  predicate HitOn(stopLoss: Option<real>, takeProfit: Option<real>, legs: seq<LegPnl>, snaps: seq<LegSnap>,
                  tid: TradeId, d: Date)
  {
    Hit(stopLoss, takeProfit, DayPct(legs, snaps, tid, d))
  }

  /**
   * The earliest date among the rows `ls` of trade tid on which a
   * threshold fires. Taking the earlier of the first stop date and the
   * first target date, as the source does, gives the same date.
   */
  function FirstHit(stopLoss: Option<real>, takeProfit: Option<real>, legs: seq<LegPnl>, snaps: seq<LegSnap>,
                    tid: TradeId, ls: seq<LegPnl>): (r: Option<Date>)
    ensures r.None? <==> forall l :: l in ls && l.row.tid == tid ==> !HitOn(stopLoss, takeProfit, legs, snaps, tid, l.row.date)
    ensures r.Some? ==> exists l :: l in ls && l.row.tid == tid && l.row.date == r.value &&
                                    HitOn(stopLoss, takeProfit, legs, snaps, tid, r.value)
    ensures r.Some? ==> forall l :: l in ls && l.row.tid == tid && HitOn(stopLoss, takeProfit, legs, snaps, tid, l.row.date) ==>
                                    r.value <= l.row.date
  {
    if ls == [] then None
    else
      var rest := FirstHit(stopLoss, takeProfit, legs, snaps, tid, ls[1..]);
      assert forall l :: l in ls ==> l == ls[0] || l in ls[1..];
      var l := ls[0];
      if l.row.tid == tid && HitOn(stopLoss, takeProfit, legs, snaps, tid, l.row.date) &&
         (rest.None? || l.row.date <= rest.value)
      then Some(l.row.date)
      else rest
  }

  /** The cutoff date of one trade, if a threshold ever fires for it. */
  function Cutoff(stopLoss: Option<real>, takeProfit: Option<real>, legs: seq<LegPnl>, snaps: seq<LegSnap>,
                  tid: TradeId): Option<Date>
  {
    FirstHit(stopLoss, takeProfit, legs, snaps, tid, legs)
  }

  /** The trade ids of some leg rows, one per row. */
  function LegTids(legs: seq<LegPnl>): (r: seq<TradeId>)
    ensures |r| == |legs| && forall i :: 0 <= i < |legs| ==> r[i] == legs[i].row.tid
  {
    seq(|legs|, i requires 0 <= i < |legs| => legs[i].row.tid)
  }

  /** Whether a row survives the cutoffs: its trade has none, or the row is not later than it. */
  predicate Keep(cutoffs: map<TradeId, Date>, row: LegRow) {
    row.tid !in cutoffs || row.date <= cutoffs[row.tid]
  }

  /** Whether a row survives: its trade never fires, or the row is not later than the first date it does. */
  predicate KeepRow(stopLoss: Option<real>, takeProfit: Option<real>, legs: seq<LegPnl>, snaps: seq<LegSnap>,
                    row: LegRow)
  {
    var c := Cutoff(stopLoss, takeProfit, legs, snaps, row.tid);
    c.None? || row.date <= c.value
  }

  /** The truncated table: the surviving rows, in their original order. */
  function Truncated(stopLoss: Option<real>, takeProfit: Option<real>, t: LegTable, legs: seq<LegPnl>,
                     snaps: seq<LegSnap>): (r: LegTable)
    ensures r.columns == t.columns && |r.rows| <= |t.rows|
    ensures forall row :: row in r.rows <==> row in t.rows && KeepRow(stopLoss, takeProfit, legs, snaps, row)
  {
    LegTable(t.columns, Filter(t.rows, (row: LegRow) => KeepRow(stopLoss, takeProfit, legs, snaps, row)))
  }

  /**
   * The `cutoffs` dictionary: visiting the trades in order of first
   * appearance, each trade whose first firing date `cut` finds gets an
   * entry with that date.
   */
  method CutoffMap(tids: seq<TradeId>, cut: TradeId -> Option<Date>) returns (cutoffs: map<TradeId, Date>)
    ensures forall tid :: tid in cutoffs <==> tid in tids && cut(tid).Some?
    ensures forall tid :: tid in cutoffs ==> cutoffs[tid] == cut(tid).value
  {
    var order := Unique(tids);
    cutoffs := map[];
    var k := 0;
    while k < |order|
      invariant 0 <= k <= |order|
      invariant forall tid :: tid in cutoffs <==> tid in order[..k] && cut(tid).Some?
      invariant forall tid :: tid in cutoffs ==> cutoffs[tid] == cut(tid).value
    {
      var tid := order[k];
      var c := cut(tid);
      if c.Some? {
        cutoffs := cutoffs[tid := c.value];
      }
      k := k + 1;
    }
    assert order[..k] == order;
  }

  /** Once every trade of the table has been visited, the cutoff map keeps exactly the surviving rows. */
  lemma CutoffsCover(stopLoss: Option<real>, takeProfit: Option<real>, t: LegTable, legs: seq<LegPnl>,
                     snaps: seq<LegSnap>, cutoffs: map<TradeId, Date>)
    requires |legs| == |t.rows| && forall i :: 0 <= i < |t.rows| ==> legs[i].row == t.rows[i]
    requires forall tid :: tid in cutoffs <==> tid in LegTids(legs) && Cutoff(stopLoss, takeProfit, legs, snaps, tid).Some?
    requires forall tid :: tid in cutoffs ==> cutoffs[tid] == Cutoff(stopLoss, takeProfit, legs, snaps, tid).value
    ensures LegTable(t.columns, Filter(t.rows, (row: LegRow) => Keep(cutoffs, row))) ==
            Truncated(stopLoss, takeProfit, t, legs, snaps)
    ensures |cutoffs| == 0 ==> Truncated(stopLoss, takeProfit, t, legs, snaps) == t
  {
    forall row | row in t.rows
      ensures Keep(cutoffs, row) == KeepRow(stopLoss, takeProfit, legs, snaps, row)
    {
      var i :| 0 <= i < |t.rows| && t.rows[i] == row;
      assert LegTids(legs)[i] == row.tid;
    }
    FilterCongruent(t.rows, (row: LegRow) => Keep(cutoffs, row),
                    (row: LegRow) => KeepRow(stopLoss, takeProfit, legs, snaps, row));
    if |cutoffs| == 0 {
      assert cutoffs == map[];
      FilterAll(t.rows, (row: LegRow) => Keep(cutoffs, row));
    }
  }

  /**
   * `truncate_trades_on_stops`. With neither threshold the table comes
   * back as it is. Otherwise the leg PnL is computed (with the default
   * multiplier lookup and no explicit multiplier column) and its errors
   * are passed on; each trade keeps its rows up to and including the
   * first date a threshold fires, in their original order, and a table
   * in which no trade fires comes back unchanged.
   */
  method TruncateOnStops(t: LegTable, priceCol: string, stopLoss: Option<real>, takeProfit: Option<real>,
                         multiplier: real)
    returns (r: Result<LegTable>)
    ensures stopLoss.None? && takeProfit.None? ==> r == Ok(t)
    ensures (stopLoss.Some? || takeProfit.Some?) && PnlTransaction(t, priceCol, multiplier, None, false).Err? ==>
              r == Err(PnlTransaction(t, priceCol, multiplier, None, false).error)
    ensures (stopLoss.Some? || takeProfit.Some?) && PnlTransaction(t, priceCol, multiplier, None, false).Ok? ==>
              var legs := PnlTransaction(t, priceCol, multiplier, None, false).value;
              r == Ok(Truncated(stopLoss, takeProfit, t, legs, Snapshot(t, legs)))
  {
    if stopLoss.None? && takeProfit.None? {
      return Ok(t);
    }
    var pnl := PnlTransaction(t, priceCol, multiplier, None, false);
    if pnl.Err? {
      return Err(pnl.error);
    }
    var legs := pnl.value;
    PnlTransactionSpec(t, priceCol, multiplier, None, false);
    var snaps := Snapshot(t, legs);
    var cutoffs := CutoffMap(LegTids(legs), (tid: TradeId) => Cutoff(stopLoss, takeProfit, legs, snaps, tid));
    CutoffsCover(stopLoss, takeProfit, t, legs, snaps, cutoffs);
    if |cutoffs| == 0 {
      return Ok(t);
    }
    r := Ok(LegTable(t.columns, Filter(t.rows, (row: LegRow) => Keep(cutoffs, row))));
  }

  /**
   * What the cutoff means: a row of a trade survives exactly when no
   * threshold fired for that trade on an earlier date.
   */
  lemma KeepMeansNoEarlierHit(stopLoss: Option<real>, takeProfit: Option<real>, legs: seq<LegPnl>,
                              snaps: seq<LegSnap>, row: LegRow)
    ensures KeepRow(stopLoss, takeProfit, legs, snaps, row) <==>
            forall l :: l in legs && l.row.tid == row.tid && l.row.date < row.date ==>
                          !HitOn(stopLoss, takeProfit, legs, snaps, row.tid, l.row.date)
  {
  }
}
