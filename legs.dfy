/**
 * Leg-level profit and loss (`_side_sign`, `_entry_price_col`,
 * `pnl_transaction`) and the one-row-per-leg snapshot the trade-level
 * calculations start from (`_trade_leg_snapshot`). The input is the
 * position time series: one row per leg and quote date, carrying the
 * leg's direction, quantity and price columns.
 */
module Legs {
  import opened Common
  import opened Numeric
  import opened Text

  /**
   * One row of the position time series. Trade id, contract id and date
   * are index levels and always present; the numeric columns (prices,
   * entry prices, multipliers, strike) are looked up by name in `cells`.
   */
  datatype LegRow = LegRow(
    tid: TradeId,
    id: ContractId,
    date: Date,
    legId: int,
    direction: string,
    quantity: Option<real>,
    ticker: Option<Ticker>,
    optionType: Option<string>,
    cells: map<string, Option<real>>)

  /** The position time series: which columns exist, and the rows in order. */
  datatype LegTable = LegTable(columns: set<string>, rows: seq<LegRow>)

  /** The numeric cell of column c, NaN when the column or the value is missing. */
  function Cell(t: LegTable, row: LegRow, c: string): Option<real> {
    if c in t.columns && c in row.cells then row.cells[c] else None
  }

  // ----- direction -----

  const LongLabels: set<string> := {"L", "LONG", "BUY", "B"}
  const ShortLabels: set<string> := {"S", "SHORT", "SELL", "SH"}

  /** The side a normalised label stands for. */
  function SideOfLabel(d: string): (r: Option<int>)
    ensures r == Some(1) <==> d in LongLabels
    ensures r == Some(-1) <==> d in ShortLabels
    ensures r.None? <==> d !in LongLabels && d !in ShortLabels
  {
    if d in LongLabels then Some(1) else if d in ShortLabels then Some(-1) else None
  }

  /** `_side_sign` on one label: the side of the label after upper-casing and stripping. */
  function SideSign(direction: string): (r: Option<int>)
    ensures r == Some(1) <==> Normalize(direction) in LongLabels
    ensures r == Some(-1) <==> Normalize(direction) in ShortLabels
    ensures r.Some? ==> r.value == 1 || r.value == -1
  {
    SideOfLabel(Normalize(direction))
  }

  /** A label is read the same whatever its letter case and surrounding whitespace. */
  lemma SideSignIgnoresCaseAndPadding(pre: string, direction: string, post: string)
    requires forall i :: 0 <= i < |pre| ==> IsSpace(pre[i])
    requires forall i :: 0 <= i < |post| ==> IsSpace(post[i])
    ensures SideSign(pre + direction + post) == SideSign(direction)
    ensures SideSign(Upper(direction)) == SideSign(direction)
  {
    NormalizeIgnoresCaseAndPadding(pre, direction, post);
  }

  /** The direction labels the strategy builders emit are read as their sides. */
  lemma BuilderLabels()
    ensures SideSign("L") == Some(1) && SideSign("S") == Some(-1)
  {
    SingleLetterNormal('L');
    SingleLetterNormal('S');
  }

  /** An upper-case letter on its own is already in normal form. */
  lemma SingleLetterNormal(c: char)
    requires 'A' <= c <= 'Z'
    ensures Normalize([c]) == [c]
  {
    UpperOne(c);
    StripUnpadded([c]);
  }

  /** Labels Python normalises through non-ASCII whitespace or case mapping are recognised too. */
  lemma UnicodeLabelsRead()
    ensures SideSign("\U{17F}") == Some(-1)
    ensures SideSign("\U{A0}l\U{2003}") == Some(1)
  {
    LongSIsS();
    UnicodePadding();
  }

  /** The side of a recognised label, 0 for an unrecognised one (which raises before it is used). */
  function SideValue(direction: string): int {
    match SideSign(direction)
    case Some(s) => s
    case None => 0
  }

  /** `_side_sign` on the whole column: one unrecognised label anywhere raises. */
  function SideSigns(rows: seq<LegRow>): (r: Result<seq<int>>)
    ensures r.Ok? <==> forall i :: 0 <= i < |rows| ==> SideSign(rows[i].direction).Some?
    ensures r.Ok? ==> |r.value| == |rows| &&
                      forall i :: 0 <= i < |rows| ==> Some(r.value[i]) == SideSign(rows[i].direction)
    ensures r.Err? ==> r.error == ValueError("Unrecognized direction values")
  {
    if forall i :: 0 <= i < |rows| ==> SideSign(rows[i].direction).Some? then
      Ok(seq(|rows|, i requires 0 <= i < |rows| => SideValue(rows[i].direction)))
    else Err(ValueError("Unrecognized direction values"))
  }

  // ----- columns -----

  function EntryName(priceCol: string): string {
    "entry_" + priceCol + "_price"
  }

  function EntryNameShort(priceCol: string): string {
    "entry_" + priceCol
  }

  /** `_entry_price_col`: `entry_<col>_price` if present, else `entry_<col>`, else KeyError. */
  function EntryPriceCol(priceCol: string, columns: set<string>): (r: Result<string>)
    ensures r.Ok? <==> EntryName(priceCol) in columns || EntryNameShort(priceCol) in columns
    ensures r.Ok? ==> r.value in columns
    ensures EntryName(priceCol) in columns ==> r == Ok(EntryName(priceCol))
    ensures r.Err? ==> r.error == KeyError(EntryName(priceCol))
  {
    if EntryName(priceCol) in columns then Ok(EntryName(priceCol))
    else if EntryNameShort(priceCol) in columns then Ok(EntryNameShort(priceCol))
    else Err(KeyError(EntryName(priceCol)))
  }

  /**
   * The multiplier column used, if any: the named column when it exists,
   * otherwise `contract_multiplier`, otherwise `option_multiplier`.
   */
  function MultiplierColumn(columns: set<string>, multiplierCol: Option<string>): (r: Option<string>)
    ensures r.Some? ==> r.value in columns
    ensures multiplierCol.Some? && multiplierCol.value in columns ==> r == multiplierCol
    ensures r.None? <==> (multiplierCol.None? || multiplierCol.value !in columns) &&
                         "contract_multiplier" !in columns && "option_multiplier" !in columns
  {
    if multiplierCol.Some? && multiplierCol.value in columns then multiplierCol
    else if "contract_multiplier" in columns then Some("contract_multiplier")
    else if "option_multiplier" in columns then Some("option_multiplier")
    else None
  }

  /** The multiplier of a row: its multiplier cell, or the default when there is no column or the cell is NaN. */
  function MultiplierOf(t: LegTable, row: LegRow, multiplier: real, multiplierCol: Option<string>): (m: real)
    ensures MultiplierColumn(t.columns, multiplierCol).None? ==> m == multiplier
    ensures var c := MultiplierColumn(t.columns, multiplierCol);
            (c.Some? && Cell(t, row, c.value).Some? ==> m == Cell(t, row, c.value).value) &&
            (c.None? || Cell(t, row, c.value).None? ==> m == multiplier)
  {
    match MultiplierColumn(t.columns, multiplierCol)
    case None => multiplier
    case Some(c) => var v := Cell(t, row, c); if v.Some? then v.value else multiplier
  }

  // ----- leg arithmetic -----

  /** The leg-level columns `pnl_transaction` adds to a row. */
  datatype LegPnl = LegPnl(
    row: LegRow,
    entryPrice: Option<real>,
    price: Option<real>,
    side: int,
    qtyAbs: Option<real>,
    mult: real,
    mismatch: bool,
    cost: Option<real>,
    value: Option<real>,
    pnl: Option<real>,
    notional: Option<real>,
    pnlPct: Option<real>)

  /** The sign of a quantity, as numpy's `sign`. */
  function Sign(x: real): int {
    if x > 0.0 then 1 else if x < 0.0 then -1 else 0
  }

  /**
   * The leg columns of one row: signed entry cost and current value,
   * their difference, the unsigned entry notional, and the PnL as a
   * fraction of it (NaN on a zero notional). A negative quantity is read
   * as its magnitude; the mismatch flag is only computed when some row of
   * the table has a negative quantity.
   */
  function LegOf(t: LegTable, row: LegRow, side: int, priceCol: string, entryCol: string, mult: real,
                 anyNegative: bool): LegPnl
  {
    var entry := Cell(t, row, entryCol);
    var px := Cell(t, row, priceCol);
    var q := AbsOpt(row.quantity);
    var cost := Mul(Mul(Mul(Some(side as real), entry), q), Some(mult));
    var value := Mul(Mul(Mul(Some(side as real), px), q), Some(mult));
    var pnl := Sub(value, cost);
    var notional := Mul(Mul(AbsOpt(entry), q), Some(mult));
    var mismatch := anyNegative && row.quantity.Some? && Sign(row.quantity.value) != 0 &&
                    Sign(row.quantity.value) != side;
    LegPnl(row, entry, px, side, q, mult, mismatch, cost, value, pnl, notional, DivNz(pnl, notional))
  }

  /**
   * What the leg columns mean: the PnL is side times price move times
   * size, defined exactly when entry price, price and quantity are; the
   * percentage is PnL over the entry notional, defined exactly when that
   * notional is a non-zero number.
   */
  lemma LegArithmetic(t: LegTable, row: LegRow, side: int, priceCol: string, entryCol: string, mult: real,
                      anyNegative: bool)
    ensures var l := LegOf(t, row, side, priceCol, entryCol, mult, anyNegative);
            var e, p, q := Cell(t, row, entryCol), Cell(t, row, priceCol), row.quantity;
            (l.pnl.Some? <==> e.Some? && p.Some? && q.Some?) &&
            (l.pnl.Some? ==> l.pnl.value == side as real * (p.value - e.value) * Abs(q.value) * mult &&
                             l.pnl.value == l.value.value - l.cost.value) &&
            (l.notional.Some? <==> e.Some? && q.Some?) &&
            (l.notional.Some? ==> l.notional.value == Abs(e.value) * Abs(q.value) * mult) &&
            (l.pnlPct.Some? <==> l.pnl.Some? && l.notional.value != 0.0) &&
            (l.pnlPct.Some? ==> l.pnlPct.value * l.notional.value == l.pnl.value)
  {
    LegPnlIs(t, row, side, priceCol, entryCol, mult, anyNegative);
    LegNotionalIs(t, row, side, priceCol, entryCol, mult, anyNegative);
  }

  lemma LegPnlIs(t: LegTable, row: LegRow, side: int, priceCol: string, entryCol: string, mult: real,
                 anyNegative: bool)
    ensures var l := LegOf(t, row, side, priceCol, entryCol, mult, anyNegative);
            var e, p, q := Cell(t, row, entryCol), Cell(t, row, priceCol), row.quantity;
            (l.pnl.Some? <==> e.Some? && p.Some? && q.Some?) &&
            (l.pnl.Some? ==> l.pnl.value == side as real * (p.value - e.value) * Abs(q.value) * mult &&
                             l.pnl.value == l.value.value - l.cost.value)
  {
    var l := LegOf(t, row, side, priceCol, entryCol, mult, anyNegative);
    var e, p, q := Cell(t, row, entryCol), Cell(t, row, priceCol), row.quantity;
    var s := side as real;
    MulChain(s, p, AbsOpt(q), mult);
    MulChain(s, e, AbsOpt(q), mult);
    if l.pnl.Some? {
      Factor(s, p.value, e.value, Abs(q.value) * mult);
    }
  }

  lemma MulChain(s: real, x: Option<real>, y: Option<real>, m: real)
    ensures var r := Mul(Mul(Mul(Some(s), x), y), Some(m));
            (r.Some? <==> x.Some? && y.Some?) && (r.Some? ==> r.value == s * x.value * y.value * m)
  {
  }

  lemma LegNotionalIs(t: LegTable, row: LegRow, side: int, priceCol: string, entryCol: string, mult: real,
                      anyNegative: bool)
    ensures var l := LegOf(t, row, side, priceCol, entryCol, mult, anyNegative);
            var e, q := Cell(t, row, entryCol), row.quantity;
            (l.notional.Some? <==> e.Some? && q.Some?) &&
            (l.notional.Some? ==> l.notional.value == Abs(e.value) * Abs(q.value) * mult) &&
            (l.pnlPct.Some? <==> l.pnl.Some? && l.notional.Some? && l.notional.value != 0.0) &&
            (l.pnlPct.Some? ==> l.pnlPct.value * l.notional.value == l.pnl.value)
  {
  }

  lemma Factor(s: real, p: real, e: real, m: real)
    ensures s * p * m - s * e * m == s * (p - e) * m
  {
  }

  /** One long contract bought at 2 and marked at 3, with multiplier 100: cost 200, value 300, PnL 100, PnL 50%. */
  lemma LongLegExample(t: LegTable, row: LegRow)
    requires Cell(t, row, "entry_mark_price") == Some(2.0) && Cell(t, row, "mark") == Some(3.0)
    requires row.quantity == Some(1.0)
    ensures var l := LegOf(t, row, 1, "mark", "entry_mark_price", 100.0, false);
            l.cost == Some(200.0) && l.value == Some(300.0) && l.pnl == Some(100.0) &&
            l.notional == Some(200.0) && l.pnlPct == Some(0.5)
  {
  }

  /** Whether some row has a negative quantity, which switches the mismatch flag on. */
  predicate AnyNegative(rows: seq<LegRow>) {
    exists i :: 0 <= i < |rows| && rows[i].quantity.Some? && rows[i].quantity.value < 0.0
  }

  predicate AllPriced(t: LegTable, c: string) {
    forall i :: 0 <= i < |t.rows| ==> Cell(t, t.rows[i], c).Some?
  }

  /**
   * `pnl_transaction`. Errors, in the order they are raised: a missing
   * price column, no entry price column, a missing quantity or direction
   * column (KeyError), an unrecognised direction, and with
   * `requirePrices` a NaN price or NaN entry price (ValueError).
   */
  function PnlTransaction(t: LegTable, priceCol: string, multiplier: real, multiplierCol: Option<string>,
                          requirePrices: bool): (r: Result<seq<LegPnl>>)
    ensures r.Ok? ==> |r.value| == |t.rows|
  {
    if priceCol !in t.columns then Err(KeyError(priceCol))
    else
      var entryCol :- EntryPriceCol(priceCol, t.columns);
      if "quantity" !in t.columns then Err(KeyError("quantity"))
      else if "direction" !in t.columns then Err(KeyError("direction"))
      else
        var sides :- SideSigns(t.rows);
        if requirePrices && !AllPriced(t, priceCol) then Err(ValueError("Found NaN in price_col='" + priceCol + "'"))
        else if requirePrices && !AllPriced(t, entryCol) then Err(ValueError("Found NaN in entry_col='" + entryCol + "'"))
        else
          var anyNeg := AnyNegative(t.rows);
          Ok(seq(|t.rows|, i requires 0 <= i < |t.rows| =>
            LegOf(t, t.rows[i], sides[i], priceCol, entryCol, MultiplierOf(t, t.rows[i], multiplier, multiplierCol), anyNeg)))
  }

  /** The table has every column `pnl_transaction` reads and only recognised directions. */
  predicate PnlReady(t: LegTable, priceCol: string) {
    priceCol in t.columns && EntryPriceCol(priceCol, t.columns).Ok? &&
    "quantity" in t.columns && "direction" in t.columns &&
    forall i :: 0 <= i < |t.rows| ==> SideSign(t.rows[i].direction).Some?
  }

  /**
   * `pnl_transaction` fails exactly on a missing column, an unrecognised
   * direction, or (only if asked to) a NaN price; otherwise row i of the
   * result carries row i of the input with its side, multiplier and leg
   * arithmetic.
   */
  lemma PnlTransactionSpec(t: LegTable, priceCol: string, multiplier: real, multiplierCol: Option<string>,
                           requirePrices: bool)
    ensures var r := PnlTransaction(t, priceCol, multiplier, multiplierCol, requirePrices);
            r.Err? <==> !PnlReady(t, priceCol) ||
                        (requirePrices && (!AllPriced(t, priceCol) || !AllPriced(t, EntryPriceCol(priceCol, t.columns).value)))
    ensures var r := PnlTransaction(t, priceCol, multiplier, multiplierCol, requirePrices);
            priceCol !in t.columns ==> r == Err(KeyError(priceCol))
    ensures var r := PnlTransaction(t, priceCol, multiplier, multiplierCol, requirePrices);
            priceCol in t.columns && EntryPriceCol(priceCol, t.columns).Err? ==> r == Err(KeyError(EntryName(priceCol)))
    ensures var r := PnlTransaction(t, priceCol, multiplier, multiplierCol, requirePrices);
            r.Ok? ==> forall i :: 0 <= i < |t.rows| ==>
              r.value[i].row == t.rows[i] &&
              r.value[i].side == SideSign(t.rows[i].direction).value &&
              r.value[i].mult == MultiplierOf(t, t.rows[i], multiplier, multiplierCol) &&
              r.value[i].price == Cell(t, t.rows[i], priceCol) &&
              r.value[i].entryPrice == Cell(t, t.rows[i], EntryPriceCol(priceCol, t.columns).value)
  {
  }

  /**
   * Row i of a successful leg table is the leg arithmetic of input row i,
   * with its side, the entry column chosen and its multiplier.
   */
  lemma PnlTransactionRow(t: LegTable, priceCol: string, multiplier: real, multiplierCol: Option<string>,
                          requirePrices: bool, i: int)
    requires PnlTransaction(t, priceCol, multiplier, multiplierCol, requirePrices).Ok? && 0 <= i < |t.rows|
    ensures EntryPriceCol(priceCol, t.columns).Ok? && SideSign(t.rows[i].direction).Some?
    ensures PnlTransaction(t, priceCol, multiplier, multiplierCol, requirePrices).value[i] ==
            LegOf(t, t.rows[i], SideSign(t.rows[i].direction).value, priceCol, EntryPriceCol(priceCol, t.columns).value,
                  MultiplierOf(t, t.rows[i], multiplier, multiplierCol), AnyNegative(t.rows))
  {
    assert priceCol in t.columns;
    var entryCol := EntryPriceCol(priceCol, t.columns);
    assert entryCol.Ok?;
    assert "quantity" in t.columns && "direction" in t.columns;
    var sides := SideSigns(t.rows);
    assert sides.Ok? && sides.value[i] == SideSign(t.rows[i].direction).value;
    assert !(requirePrices && !AllPriced(t, priceCol)) && !(requirePrices && !AllPriced(t, entryCol.value));
  }

  /** Without a negative quantity no row is flagged as a quantity/direction mismatch. */
  lemma NoNegativeNoMismatch(t: LegTable, priceCol: string, multiplier: real, multiplierCol: Option<string>,
                             requirePrices: bool)
    requires !AnyNegative(t.rows)
    ensures var r := PnlTransaction(t, priceCol, multiplier, multiplierCol, requirePrices);
            r.Ok? ==> forall i :: 0 <= i < |r.value| ==> !r.value[i].mismatch
  {
  }

  // ----- one row per leg -----

  /** A leg is (trade id, leg_id) when a `leg_id` column exists, else (trade id, contract id). */
  function LegKey(l: LegPnl, byLegId: bool): (TradeId, int) {
    (l.row.tid, if byLegId then l.row.legId else l.row.id as int)
  }

  /** The snapshot columns of one leg. */
  datatype LegSnap = LegSnap(
    tid: TradeId,
    key: int,
    entryPrice: Option<real>,
    notional: Option<real>,
    cost: Option<real>,
    side: int,
    qtyAbs: Option<real>,
    mult: real,
    strike: Option<real>,
    optionType: Option<string>,
    ticker: Option<Ticker>,
    startDate: Date)

  function LegGroup(legs: seq<LegPnl>, k: (TradeId, int), byLegId: bool): (g: seq<LegPnl>)
    ensures forall l :: l in g <==> l in legs && LegKey(l, byLegId) == k
  {
    Filter(legs, (l: LegPnl) => LegKey(l, byLegId) == k)
  }

  /** The first date of a leg: `groupby(...)["date"].min()`. */
  function StartDate(g: seq<LegPnl>): (d: Date)
    requires |g| > 0
    ensures exists l :: l in g && l.row.date == d
    ensures forall l :: l in g ==> d <= l.row.date
  {
    if |g| == 1 then g[0].row.date
    else
      var rest := StartDate(g[1..]);
      assert forall l :: l in g ==> l == g[0] || l in g[1..];
      if g[0].row.date <= rest then g[0].row.date else rest
  }

  function OptionTypeCell(t: LegTable, row: LegRow): Option<string> {
    if "option_type" in t.columns then row.optionType else None
  }

  function TickerCell(t: LegTable, row: LegRow): Option<Ticker> {
    if "ticker" in t.columns then row.ticker else None
  }

  /**
   * `groupby([...]).first()` on one leg's rows: each column's first
   * non-NaN cell, in row order; side and multiplier are never NaN, so
   * they come from the first row.
   */
  function SnapOf(t: LegTable, g: seq<LegPnl>, k: (TradeId, int)): (s: LegSnap)
    requires |g| > 0
  {
    LegSnap(k.0, k.1,
            FirstSome(seq(|g|, i requires 0 <= i < |g| => g[i].entryPrice)),
            FirstSome(seq(|g|, i requires 0 <= i < |g| => g[i].notional)),
            FirstSome(seq(|g|, i requires 0 <= i < |g| => g[i].cost)),
            g[0].side,
            FirstSome(seq(|g|, i requires 0 <= i < |g| => g[i].qtyAbs)),
            g[0].mult,
            FirstSome(seq(|g|, i requires 0 <= i < |g| => Cell(t, g[i].row, "strike"))),
            FirstSome(seq(|g|, i requires 0 <= i < |g| => OptionTypeCell(t, g[i].row))),
            FirstSome(seq(|g|, i requires 0 <= i < |g| => TickerCell(t, g[i].row))),
            StartDate(g))
  }

  function LegKeys(t: LegTable, legs: seq<LegPnl>): (ks: seq<(TradeId, int)>)
    ensures forall l :: l in legs ==> LegKey(l, "leg_id" in t.columns) in ks
    ensures forall k :: k in ks ==> exists l :: l in legs && LegKey(l, "leg_id" in t.columns) == k
    ensures forall i, j :: 0 <= i < j < |ks| ==> ks[i] != ks[j]
  {
    var all := seq(|legs|, i requires 0 <= i < |legs| => LegKey(legs[i], "leg_id" in t.columns));
    assert forall l :: l in legs ==> LegKey(l, "leg_id" in t.columns) in all by {
      forall l | l in legs
        ensures LegKey(l, "leg_id" in t.columns) in all
      {
        var i :| 0 <= i < |legs| && legs[i] == l;
        assert all[i] == LegKey(l, "leg_id" in t.columns);
      }
    }
    assert forall k :: k in all ==> exists l :: l in legs && LegKey(l, "leg_id" in t.columns) == k by {
      forall k | k in all
        ensures exists l :: l in legs && LegKey(l, "leg_id" in t.columns) == k
      {
        var i :| 0 <= i < |all| && all[i] == k;
        assert legs[i] in legs;
      }
    }
    Unique(all)
  }

  /**
   * `_trade_leg_snapshot`: one row per leg, in order of first appearance,
   * each summarising that leg's rows.
   */
  function Snapshot(t: LegTable, legs: seq<LegPnl>): (snaps: seq<LegSnap>)
    ensures forall i, j :: 0 <= i < j < |snaps| ==> (snaps[i].tid, snaps[i].key) != (snaps[j].tid, snaps[j].key)
    ensures forall i :: 0 <= i < |snaps| ==>
              var g := LegGroup(legs, (snaps[i].tid, snaps[i].key), "leg_id" in t.columns);
              |g| > 0 && snaps[i] == SnapOf(t, g, (snaps[i].tid, snaps[i].key))
    ensures forall l :: l in legs ==>
              exists i :: 0 <= i < |snaps| && (snaps[i].tid, snaps[i].key) == LegKey(l, "leg_id" in t.columns)
  {
    var byLegId := "leg_id" in t.columns;
    var ks := LegKeys(t, legs);
    LegKeysGrouped(t, legs, ks);
    var snaps := seq(|ks|, i requires 0 <= i < |ks| => SnapOf(t, LegGroup(legs, ks[i], byLegId), ks[i]));
    SnapsFollowKeys(t, legs, ks, snaps);
    snaps
  }

  lemma LegKeysGrouped(t: LegTable, legs: seq<LegPnl>, ks: seq<(TradeId, int)>)
    requires ks == LegKeys(t, legs)
    ensures forall i :: 0 <= i < |ks| ==> |LegGroup(legs, ks[i], "leg_id" in t.columns)| > 0
  {
    forall i | 0 <= i < |ks|
      ensures |LegGroup(legs, ks[i], "leg_id" in t.columns)| > 0
    {
      assert ks[i] in ks;
      var l :| l in legs && LegKey(l, "leg_id" in t.columns) == ks[i];
      assert l in LegGroup(legs, ks[i], "leg_id" in t.columns);
    }
  }

  lemma SnapsFollowKeys(t: LegTable, legs: seq<LegPnl>, ks: seq<(TradeId, int)>, snaps: seq<LegSnap>)
    requires ks == LegKeys(t, legs)
    requires forall i :: 0 <= i < |ks| ==> |LegGroup(legs, ks[i], "leg_id" in t.columns)| > 0
    requires |snaps| == |ks|
    requires forall i :: 0 <= i < |ks| ==> snaps[i] == SnapOf(t, LegGroup(legs, ks[i], "leg_id" in t.columns), ks[i])
    ensures forall i, j :: 0 <= i < j < |snaps| ==> (snaps[i].tid, snaps[i].key) != (snaps[j].tid, snaps[j].key)
    ensures forall i :: 0 <= i < |snaps| ==>
              var g := LegGroup(legs, (snaps[i].tid, snaps[i].key), "leg_id" in t.columns);
              |g| > 0 && snaps[i] == SnapOf(t, g, (snaps[i].tid, snaps[i].key))
    ensures forall l :: l in legs ==>
              exists i :: 0 <= i < |snaps| && (snaps[i].tid, snaps[i].key) == LegKey(l, "leg_id" in t.columns)
  {
    assert forall i :: 0 <= i < |snaps| ==> (snaps[i].tid, snaps[i].key) == ks[i];
    forall l | l in legs
      ensures exists i :: 0 <= i < |snaps| && (snaps[i].tid, snaps[i].key) == LegKey(l, "leg_id" in t.columns)
    {
      var i :| 0 <= i < |ks| && ks[i] == LegKey(l, "leg_id" in t.columns);
      assert (snaps[i].tid, snaps[i].key) == ks[i];
    }
  }

  /** The snapshot legs of one trade, in snapshot order. */
  function TradeSnaps(snaps: seq<LegSnap>, tid: TradeId): (r: seq<LegSnap>)
    ensures forall l :: l in r <==> l in snaps && l.tid == tid
  {
    Filter(snaps, (l: LegSnap) => l.tid == tid)
  }

  /** The snapshot's start date of a leg is the earliest date among its rows. */
  lemma SnapshotStartIsEarliest(t: LegTable, legs: seq<LegPnl>, i: int)
    requires 0 <= i < |Snapshot(t, legs)|
    ensures var s := Snapshot(t, legs)[i];
            (exists l :: l in legs && LegKey(l, "leg_id" in t.columns) == (s.tid, s.key) && l.row.date == s.startDate) &&
            forall l :: l in legs && LegKey(l, "leg_id" in t.columns) == (s.tid, s.key) ==> s.startDate <= l.row.date
  {
    var s := Snapshot(t, legs)[i];
    var g := LegGroup(legs, (s.tid, s.key), "leg_id" in t.columns);
    assert s == SnapOf(t, g, (s.tid, s.key));
  }
}
