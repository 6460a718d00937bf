/**
 * The contract selector (`select_option_contracts_batch`): for each trade
 * request it joins the quotes of the requested type, ticker and date,
 * drops unusable candidates, keeps those nearest the target days to
 * expiration, and picks one contract per trade id by target distance with
 * a fixed tie-break order.
 */
module Selector {
  import opened Common
  import opened Numeric
  import opened Quotes
  import opened Ranking

  /** One selection request, keyed by its trade id. */
  datatype Request = Request(
    tid: TradeId,
    ticker: Ticker,
    date: Date,
    pctTarget: Option<real>,
    priceTarget: Option<real>,
    dteTarget: int)

  /** The request table: whether the target columns exist, and the rows. */
  datatype RequestTable = RequestTable(hasPctTarget: bool, hasPriceTarget: bool, rows: seq<Request>)

  /** The selector's keyword arguments. `exclude` maps a trade id to the contract it may not pick. */
  datatype Params = Params(
    optionType: string,
    targetKind: string,
    priceCol: string,
    exclude: map<TradeId, ContractId>,
    minOpenInterest: Option<real>,
    minVolume: Option<real>,
    requireQuotes: bool)

  /** A quote joined to a request on (ticker, date). */
  datatype Cand = Cand(q: Quote, r: Request)

  /** The chosen contract of one trade. */
  datatype Selected = Selected(
    ticker: Ticker,
    date: Date,
    id: ContractId,
    dte: int,
    price: Option<real>,
    pctFromStrike: Option<real>,
    strike: Option<real>)

  /** The selector's result: at most one row per trade id, and whether it carries strikes. */
  datatype Selection = Selection(hasStrike: bool, rows: map<TradeId, Selected>)

  const EmptySelection := Selection(false, map[])

  // ----- the join -----

  function MatchesOf(q: Quote, reqs: seq<Request>): (r: seq<Cand>)
    ensures forall c :: c in r <==> c.q == q && c.r in reqs && c.r.ticker == q.ticker && c.r.date == q.date
  {
    if reqs == [] then []
    else
      (if reqs[0].ticker == q.ticker && reqs[0].date == q.date then [Cand(q, reqs[0])] else []) +
      MatchesOf(q, reqs[1..])
  }

  /** The inner merge on (ticker, date) of the quotes of one option type with the requests. */
  function Join(qs: seq<Quote>, reqs: seq<Request>, optionType: string): (r: seq<Cand>)
    ensures forall c :: c in r <==>
              c.q in qs && c.q.optionType == optionType &&
              c.r in reqs && c.r.ticker == c.q.ticker && c.r.date == c.q.date
  {
    if qs == [] then []
    else
      (if qs[0].optionType == optionType then MatchesOf(qs[0], reqs) else []) +
      Join(qs[1..], reqs, optionType)
  }

  // ----- row filters -----

  predicate DteOk(c: Cand) {
    c.q.dte.Some? && c.q.dte.value >= 0
  }

  /** A liquidity filter applies only when its threshold is given and its column exists. */
  predicate AtLeast(t: OptionTable, q: Quote, col: string, min: Option<real>) {
    min.None? || col !in t.columns || (Cell(q, col).Some? && Cell(q, col).value >= min.value)
  }

  /** Quote sanity applies only when asked for and both bid and ask columns exist. */
  predicate QuotesOk(t: OptionTable, p: Params, q: Quote) {
    var bid := Cell(q, "bid");
    var ask := Cell(q, "ask");
    !(p.requireQuotes && "bid" in t.columns && "ask" in t.columns) ||
    (bid.Some? && ask.Some? && bid.value >= 0.0 && ask.value >= 0.0 && ask.value >= bid.value)
  }

  predicate NotExcluded(p: Params, c: Cand) {
    c.r.tid !in p.exclude || c.q.id != p.exclude[c.r.tid]
  }

  predicate Survives(t: OptionTable, p: Params, c: Cand) {
    DteOk(c) &&
    AtLeast(t, c.q, "open_interest", p.minOpenInterest) &&
    AtLeast(t, c.q, "volume", p.minVolume) &&
    QuotesOk(t, p, c.q) &&
    NotExcluded(p, c)
  }

  /** The candidates that pass every row filter, in merge order. */
  function Survivors(t: OptionTable, reqs: seq<Request>, p: Params): (r: seq<Cand>)
    ensures forall c :: c in r <==> c in Join(t.rows, reqs, p.optionType) && Survives(t, p, c)
  {
    Filter(Join(t.rows, reqs, p.optionType), (c: Cand) => Survives(t, p, c))
  }

  // ----- per-trade pools -----

  function DteDist(c: Cand): int
    requires c.q.dte.Some?
  {
    var d := c.q.dte.value - c.r.dteTarget;
    if d < 0 then -d else d
  }

  function TidPool(s: seq<Cand>, tid: TradeId): (r: seq<Cand>)
    ensures forall c :: c in r <==> c in s && c.r.tid == tid
  {
    Filter(s, (c: Cand) => c.r.tid == tid)
  }

  /** The least DTE distance of a pool. */
  function MinDteDist(pool: seq<Cand>): (m: int)
    requires |pool| > 0 && forall c :: c in pool ==> c.q.dte.Some?
    ensures exists c :: c in pool && DteDist(c) == m
    ensures forall c :: c in pool ==> m <= DteDist(c)
  {
    if |pool| == 1 then DteDist(pool[0])
    else
      var m := MinDteDist(pool[1..]);
      assert forall c :: c in pool ==> c == pool[0] || c in pool[1..];
      if DteDist(pool[0]) < m then DteDist(pool[0]) else m
  }

  /** The candidates of one trade nearest its DTE target. */
  function NearestDte(s: seq<Cand>, tid: TradeId): (r: seq<Cand>)
    requires forall c :: c in s ==> c.q.dte.Some?
    ensures forall c :: c in r ==> c in s && c.r.tid == tid
    ensures forall c :: c in r ==> forall d :: d in s && d.r.tid == tid ==> DteDist(c) <= DteDist(d)
    ensures forall c :: c in s && c.r.tid == tid && (forall d :: d in s && d.r.tid == tid ==> DteDist(c) <= DteDist(d))
              ==> c in r
  {
    var pool := TidPool(s, tid);
    if pool == [] then []
    else
      var m := MinDteDist(pool);
      Filter(pool, (c: Cand) => c.q.dte.Some? && DteDist(c) == m)
  }

  /** The distance to the request's target; NaN (dropped) when either side is NaN. */
  function Dist(p: Params, c: Cand): Option<real> {
    if p.targetKind == "pct" then
      AbsOpt(Sub(c.q.pctFromStrike, c.r.pctTarget))
    else
      AbsOpt(Sub(Cell(c.q, p.priceCol), c.r.priceTarget))
  }

  /** The bid/ask spread used as the first tie-break, NaN without both columns. */
  function Spread(t: OptionTable, q: Quote): Option<real> {
    if "bid" in t.columns && "ask" in t.columns then AbsOpt(Sub(Cell(q, "ask"), Cell(q, "bid")))
    else None
  }

  /** A missing open_interest or volume column sorts like a column of NaN, i.e. not at all. */
  function KeyOf(t: OptionTable, p: Params, c: Cand): SortKey {
    SortKey(Dist(p, c), Spread(t, c.q), ColumnCell(t, c.q, "open_interest"), ColumnCell(t, c.q, "volume"), c.q.id)
  }

  /** The ranked pool of one trade: nearest DTE, with a usable target distance. */
  function RankedPool(t: OptionTable, p: Params, s: seq<Cand>, tid: TradeId): (r: seq<Cand>)
    requires forall c :: c in s ==> c.q.dte.Some?
    ensures forall c :: c in r <==> c in NearestDte(s, tid) && Dist(p, c).Some?
  {
    Filter(NearestDte(s, tid), (c: Cand) => Dist(p, c).Some?)
  }

  /** The output row of a chosen candidate. */
  function SelectedOf(t: OptionTable, p: Params, c: Cand): Selected
    requires c.q.dte.Some?
  {
    Selected(c.q.ticker, c.q.date, c.q.id, c.q.dte.value, Cell(c.q, p.priceCol),
             c.q.pctFromStrike, ColumnCell(t, c.q, "strike"))
  }

  /** The first row of the ranked pool, which is the contract the trade gets. */
  function Choice(t: OptionTable, p: Params, s: seq<Cand>, tid: TradeId): (c: Cand)
    requires forall c :: c in s ==> c.q.dte.Some?
    requires |RankedPool(t, p, s, tid)| > 0
    ensures c in RankedPool(t, p, s, tid)
  {
    Best(RankedPool(t, p, s, tid), (c: Cand) => KeyOf(t, p, c))
  }

  function Tids(s: seq<Cand>): set<TradeId> {
    set c | c in s :: c.r.tid
  }

  /** One row per trade id whose ranked pool is not empty. */
  function ChosenRows(t: OptionTable, p: Params, s: seq<Cand>): map<TradeId, Selected>
    requires forall c :: c in s ==> c.q.dte.Some?
  {
    map tid | tid in Tids(s) && |RankedPool(t, p, s, tid)| > 0 ::
      SelectedOf(t, p, Choice(t, p, s, tid))
  }

  lemma ChosenRowsDomain(t: OptionTable, p: Params, s: seq<Cand>, tid: TradeId)
    requires forall c :: c in s ==> c.q.dte.Some?
    ensures tid in ChosenRows(t, p, s) <==> |RankedPool(t, p, s, tid)| > 0
    ensures tid in ChosenRows(t, p, s) ==> ChosenRows(t, p, s)[tid] == SelectedOf(t, p, Choice(t, p, s, tid))
  {
    if |RankedPool(t, p, s, tid)| > 0 {
      var c := RankedPool(t, p, s, tid)[0];
      assert c in RankedPool(t, p, s, tid);
      assert c in s && c.r.tid == tid;
    }
  }

  predicate KnownTargetKind(p: Params) {
    p.targetKind == "pct" || p.targetKind == "price"
  }

  /** The ValueError raised for the target kind, if any. */
  function TargetError(reqs: RequestTable, p: Params): Option<Error> {
    if p.targetKind == "pct" then
      if reqs.hasPctTarget then None
      else Some(ValueError("requests must include 'pct_target' when target_kind='pct'"))
    else if p.targetKind == "price" then
      if reqs.hasPriceTarget then None
      else Some(ValueError("requests must include 'price_target' when target_kind='price'"))
    else Some(ValueError("target_kind must be 'pct' or 'price'"))
  }

  /**
   * `select_option_contracts_batch`, with each trade's values taken from
   * its chosen contract. Empty inputs give an empty result before any
   * check; a missing price column is a KeyError; the target checks only
   * run once some candidate survives the row filters.
   */
  function Select(t: OptionTable, reqs: RequestTable, p: Params): Result<Selection> {
    SelectWith(t, reqs, p, false)
  }

  /**
   * The selector, with `perColumnFirst` choosing how a trade's values are
   * read from its ranked pool: from the chosen contract (false), or
   * column by column from the first non-NaN cell (true), which is what
   * `groupby(...).first()` does.
   */
  function SelectWith(t: OptionTable, reqs: RequestTable, p: Params, perColumnFirst: bool): Result<Selection> {
    if |t.rows| == 0 || |reqs.rows| == 0 then Ok(EmptySelection)
    else if p.priceCol !in t.columns then Err(KeyError(p.priceCol))
    else
      var s := Survivors(t, reqs.rows, p);
      if |s| == 0 then Ok(EmptySelection)
      else match TargetError(reqs, p)
        case Some(e) => Err(e)
        case None =>
          var rows := if perColumnFirst then FirstCellRows(t, p, s) else ChosenRows(t, p, s);
          if rows == map[] then Ok(EmptySelection) else Ok(Selection("strike" in t.columns, rows))
  }

  // ----- the values pandas' `first()` actually returns -----

  /** The first non-NaN cell, in ranked order, of a column of the pool. */
  function FirstFilled(t: OptionTable, p: Params, pool: seq<Cand>, cell: Cand -> Option<real>): Option<real> {
    var filled := Filter(pool, (c: Cand) => cell(c).Some?);
    if filled == [] then None else cell(Best(filled, (c: Cand) => KeyOf(t, p, c)))
  }

  /**
   * The output row `first()` builds from a ranked pool: ticker, date, id and
   * DTE of the chosen contract, but price, pct_from_strike and strike each
   * from the first contract whose cell is not NaN.
   */
  function FirstCellOf(t: OptionTable, p: Params, pool: seq<Cand>): Selected
    requires |pool| > 0 && forall c :: c in pool ==> c.q.dte.Some?
  {
    var b := Best(pool, (c: Cand) => KeyOf(t, p, c));
    Selected(b.q.ticker, b.q.date, b.q.id, b.q.dte.value,
             FirstFilled(t, p, pool, (c: Cand) => Cell(c.q, p.priceCol)),
             FirstFilled(t, p, pool, (c: Cand) => c.q.pctFromStrike),
             FirstFilled(t, p, pool, (c: Cand) => ColumnCell(t, c.q, "strike")))
  }

  function FirstCellRows(t: OptionTable, p: Params, s: seq<Cand>): map<TradeId, Selected>
    requires forall c :: c in s ==> c.q.dte.Some?
  {
    map tid | tid in Tids(s) && |RankedPool(t, p, s, tid)| > 0 ::
      FirstCellOf(t, p, RankedPool(t, p, s, tid))
  }

  // ----- properties -----

  function SurvivorsOf(t: OptionTable, reqs: RequestTable, p: Params): seq<Cand> {
    Survivors(t, reqs.rows, p)
  }

  /** Every candidate that survives the row filters has a non-negative DTE. */
  lemma SurvivorsHaveDte(t: OptionTable, reqs: RequestTable, p: Params)
    ensures forall c :: c in SurvivorsOf(t, reqs, p) ==> c.q.dte.Some? && c.q.dte.value >= 0
  {
  }

  /** Empty inputs give an empty result and never raise. */
  lemma EmptyInputsGiveEmpty(t: OptionTable, reqs: RequestTable, p: Params)
    requires |t.rows| == 0 || |reqs.rows| == 0
    ensures Select(t, reqs, p) == Ok(EmptySelection)
  {
  }

  /**
   * The selector raises exactly when both inputs are non-empty and either
   * the price column is missing (KeyError) or some candidate survives the
   * row filters and the target kind or its column is wrong (ValueError).
   */
  lemma SelectErrors(t: OptionTable, reqs: RequestTable, p: Params)
    ensures Select(t, reqs, p).Err? <==>
              |t.rows| > 0 && |reqs.rows| > 0 &&
              (p.priceCol !in t.columns ||
               (|SurvivorsOf(t, reqs, p)| > 0 && TargetError(reqs, p).Some?))
    ensures |t.rows| > 0 && |reqs.rows| > 0 && p.priceCol !in t.columns ==>
              Select(t, reqs, p) == Err(KeyError(p.priceCol))
    ensures |t.rows| > 0 && |reqs.rows| > 0 && p.priceCol in t.columns &&
            |SurvivorsOf(t, reqs, p)| > 0 && !KnownTargetKind(p) ==>
              Select(t, reqs, p).Err? && Select(t, reqs, p).error.ValueError?
    ensures |t.rows| > 0 && |reqs.rows| > 0 && p.priceCol in t.columns &&
            |SurvivorsOf(t, reqs, p)| > 0 &&
            ((p.targetKind == "pct" && !reqs.hasPctTarget) || (p.targetKind == "price" && !reqs.hasPriceTarget)) ==>
              Select(t, reqs, p).Err? && Select(t, reqs, p).error.ValueError?
  {
  }

  /**
   * c is a usable candidate for trade tid that is nearest its DTE target
   * and that no other such candidate sorts before: the contract the
   * trade is entitled to.
   */
  ghost predicate IsWinner(t: OptionTable, p: Params, s: seq<Cand>, tid: TradeId, c: Cand)
    requires forall c :: c in s ==> c.q.dte.Some?
  {
    c in s && c.r.tid == tid && Dist(p, c).Some? &&
    (forall d :: d in s && d.r.tid == tid ==> DteDist(c) <= DteDist(d)) &&
    (forall d :: d in s && d.r.tid == tid && DteDist(d) == DteDist(c) && Dist(p, d).Some? ==>
       !KeyLess(KeyOf(t, p, d), KeyOf(t, p, c)))
  }

  lemma ChoiceIsWinner(t: OptionTable, p: Params, s: seq<Cand>, tid: TradeId)
    requires forall c :: c in s ==> c.q.dte.Some?
    requires |RankedPool(t, p, s, tid)| > 0
    ensures IsWinner(t, p, s, tid, Choice(t, p, s, tid))
  {
    var c := Choice(t, p, s, tid);
    var pool := RankedPool(t, p, s, tid);
    forall d | d in s && d.r.tid == tid && DteDist(d) == DteDist(c) && Dist(p, d).Some?
      ensures !KeyLess(KeyOf(t, p, d), KeyOf(t, p, c))
    {
      assert d in pool;
    }
  }

  /** The rows of a successful selection are the chosen rows of the survivors. */
  lemma SelectRows(t: OptionTable, reqs: RequestTable, p: Params)
    requires Select(t, reqs, p).Ok?
    ensures var s := SurvivorsOf(t, reqs, p);
            Select(t, reqs, p).value.rows ==
              if |t.rows| > 0 && |reqs.rows| > 0 && |s| > 0 then ChosenRows(t, p, s) else map[]
  {
    if |t.rows| > 0 && |reqs.rows| > 0 {
      assert p.priceCol in t.columns;
      var s := Survivors(t, reqs.rows, p);
      if |s| > 0 {
        assert TargetError(reqs, p).None?;
        var rows := ChosenRows(t, p, s);
        assert Select(t, reqs, p) ==
          if rows == map[] then Ok(EmptySelection) else Ok(Selection("strike" in t.columns, rows));
        assert Select(t, reqs, p).value.rows == rows;
      } else {
        assert Select(t, reqs, p) == Ok(EmptySelection);
      }
    } else {
      assert Select(t, reqs, p) == Ok(EmptySelection);
    }
  }

  /**
   * Each returned row is the chosen contract of a request with that trade
   * id: a quote of the requested type, ticker and date that survived the
   * row filters, nearest the DTE target, and first in the tie-break order
   * (target distance, spread, open interest, volume, id) among the
   * candidates at that DTE distance.
   */
  lemma SelectedRowIsWinner(t: OptionTable, reqs: RequestTable, p: Params, tid: TradeId)
    requires Select(t, reqs, p).Ok? && tid in Select(t, reqs, p).value.rows
    ensures var s := SurvivorsOf(t, reqs, p);
            var row := Select(t, reqs, p).value.rows[tid];
            exists c :: IsWinner(t, p, s, tid, c) && row == SelectedOf(t, p, c) &&
              c.r in reqs.rows && c.r.tid == tid && row.ticker == c.r.ticker && row.date == c.r.date &&
              c.q in t.rows && c.q.optionType == p.optionType && row.id == c.q.id && row.dte >= 0
  {
    var s := SurvivorsOf(t, reqs, p);
    SelectRows(t, reqs, p);
    var rows := Select(t, reqs, p).value.rows;
    assert rows == ChosenRows(t, p, s);
    ChosenRowsDomain(t, p, s, tid);
    var c := Choice(t, p, s, tid);
    ChoiceIsWinner(t, p, s, tid);
    assert rows[tid] == SelectedOf(t, p, c);
    assert c in s;
  }

  /**
   * A trade id gets a row exactly when some surviving candidate of it,
   * nearest its DTE target, has a usable target distance.
   */
  lemma SelectedRowPresence(t: OptionTable, reqs: RequestTable, p: Params, tid: TradeId)
    requires Select(t, reqs, p).Ok?
    ensures var s := SurvivorsOf(t, reqs, p);
            tid in Select(t, reqs, p).value.rows <==>
              exists c :: c in s && c.r.tid == tid && Dist(p, c).Some? &&
                forall d :: d in s && d.r.tid == tid ==> DteDist(c) <= DteDist(d)
  {
    var s := SurvivorsOf(t, reqs, p);
    SelectRows(t, reqs, p);
    ChosenRowsDomain(t, p, s, tid);
    RankedPoolNonEmpty(t, p, s, tid);
  }

  /** A trade's ranked pool is non-empty exactly when a candidate of it nearest the DTE target has a usable distance. */
  lemma RankedPoolNonEmpty(t: OptionTable, p: Params, s: seq<Cand>, tid: TradeId)
    requires forall c :: c in s ==> c.q.dte.Some?
    ensures |RankedPool(t, p, s, tid)| > 0 <==>
              exists c :: c in s && c.r.tid == tid && Dist(p, c).Some? &&
                forall d :: d in s && d.r.tid == tid ==> DteDist(c) <= DteDist(d)
  {
    var pool := RankedPool(t, p, s, tid);
    if |pool| > 0 {
      var c := pool[0];
      assert c in pool;
    }
    if exists c :: c in s && c.r.tid == tid && Dist(p, c).Some? &&
              forall d :: d in s && d.r.tid == tid ==> DteDist(c) <= DteDist(d) {
      var c :| c in s && c.r.tid == tid && Dist(p, c).Some? &&
              forall d :: d in s && d.r.tid == tid ==> DteDist(c) <= DteDist(d);
      assert c in pool;
    }
  }

  /** Every returned trade id was requested. */
  lemma SelectedIdsAreRequested(t: OptionTable, reqs: RequestTable, p: Params)
    requires Select(t, reqs, p).Ok?
    ensures forall tid :: tid in Select(t, reqs, p).value.rows ==>
              exists r :: r in reqs.rows && r.tid == tid
  {
    forall tid | tid in Select(t, reqs, p).value.rows
      ensures exists r :: r in reqs.rows && r.tid == tid
    {
      SelectedRowIsWinner(t, reqs, p, tid);
    }
  }

  /** The contract excluded for a trade is never the one it gets. */
  lemma ExcludedNeverChosen(t: OptionTable, reqs: RequestTable, p: Params, tid: TradeId)
    requires Select(t, reqs, p).Ok? && tid in Select(t, reqs, p).value.rows && tid in p.exclude
    ensures Select(t, reqs, p).value.rows[tid].id != p.exclude[tid]
  {
    SelectedRowIsWinner(t, reqs, p, tid);
  }

  /** Two parameter sets that differ only in the exclusions. */
  predicate SameButExclusions(p1: Params, p2: Params) {
    p1.(exclude := p2.exclude) == p2
  }

  predicate ExclusionsAgreeOn(p1: Params, p2: Params, tid: TradeId) {
    (tid in p1.exclude <==> tid in p2.exclude) &&
    (tid in p1.exclude ==> p1.exclude[tid] == p2.exclude[tid])
  }

  lemma TidPoolIndependent(t: OptionTable, reqs: RequestTable, p1: Params, p2: Params, tid: TradeId)
    requires SameButExclusions(p1, p2) && ExclusionsAgreeOn(p1, p2, tid)
    ensures TidPool(SurvivorsOf(t, reqs, p1), tid) == TidPool(SurvivorsOf(t, reqs, p2), tid)
  {
    var j := Join(t.rows, reqs.rows, p1.optionType);
    assert p2.optionType == p1.optionType;
    var f1 := (c: Cand) => Survives(t, p1, c) && c.r.tid == tid;
    var f2 := (c: Cand) => Survives(t, p2, c) && c.r.tid == tid;
    FilterFilter(j, (c: Cand) => Survives(t, p1, c), (c: Cand) => c.r.tid == tid, f1);
    FilterFilter(j, (c: Cand) => Survives(t, p2, c), (c: Cand) => c.r.tid == tid, f2);
    forall c | c in j
      ensures f1(c) == f2(c)
    {
      if c.r.tid == tid {
        SurvivesSame(t, p1, p2, tid, c);
      }
    }
    FilterCongruent(j, f1, f2);
  }

  /** A candidate of trade tid passes the row filters under both parameter sets or under neither. */
  lemma SurvivesSame(t: OptionTable, p1: Params, p2: Params, tid: TradeId, c: Cand)
    requires SameButExclusions(p1, p2) && ExclusionsAgreeOn(p1, p2, tid) && c.r.tid == tid
    ensures Survives(t, p1, c) == Survives(t, p2, c)
  {
  }

  /**
   * Exclusions are per trade: changing the exclusions of other trades does
   * not change whether this trade gets a row, nor which.
   */
  lemma ExclusionsArePerTrade(t: OptionTable, reqs: RequestTable, p1: Params, p2: Params, tid: TradeId)
    requires SameButExclusions(p1, p2) && ExclusionsAgreeOn(p1, p2, tid)
    requires Select(t, reqs, p1).Ok? && Select(t, reqs, p2).Ok?
    ensures tid in Select(t, reqs, p1).value.rows <==> tid in Select(t, reqs, p2).value.rows
    ensures tid in Select(t, reqs, p1).value.rows ==>
              Select(t, reqs, p1).value.rows[tid] == Select(t, reqs, p2).value.rows[tid]
  {
    var s1 := SurvivorsOf(t, reqs, p1);
    var s2 := SurvivorsOf(t, reqs, p2);
    SamePoolSameRow(t, reqs, p1, p2, tid);
    ChosenRowsDomain(t, p1, s1, tid);
    ChosenRowsDomain(t, p2, s2, tid);
    SelectRows(t, reqs, p1);
    SelectRows(t, reqs, p2);
    if |RankedPool(t, p1, s1, tid)| > 0 {
      SurvivorsNotEmpty(t, reqs, p1, tid);
      SurvivorsNotEmpty(t, reqs, p2, tid);
    }
  }

  lemma SurvivorsNotEmpty(t: OptionTable, reqs: RequestTable, p: Params, tid: TradeId)
    requires |RankedPool(t, p, SurvivorsOf(t, reqs, p), tid)| > 0
    ensures |t.rows| > 0 && |reqs.rows| > 0 && |SurvivorsOf(t, reqs, p)| > 0
  {
    var s := SurvivorsOf(t, reqs, p);
    var c := RankedPool(t, p, s, tid)[0];
    assert c in RankedPool(t, p, s, tid);
    assert c in s;
    assert c in Join(t.rows, reqs.rows, p.optionType);
    assert c.q in t.rows && c.r in reqs.rows;
  }

  /** With equal pools, the ranking and the output row of a trade do not depend on its exclusions. */
  lemma SamePoolSameRow(t: OptionTable, reqs: RequestTable, p1: Params, p2: Params, tid: TradeId)
    requires SameButExclusions(p1, p2) && ExclusionsAgreeOn(p1, p2, tid)
    ensures RankedPool(t, p1, SurvivorsOf(t, reqs, p1), tid) == RankedPool(t, p2, SurvivorsOf(t, reqs, p2), tid)
    ensures |RankedPool(t, p1, SurvivorsOf(t, reqs, p1), tid)| > 0 ==>
              SelectedOf(t, p1, Choice(t, p1, SurvivorsOf(t, reqs, p1), tid)) ==
              SelectedOf(t, p2, Choice(t, p2, SurvivorsOf(t, reqs, p2), tid))
  {
    var s1 := SurvivorsOf(t, reqs, p1);
    var s2 := SurvivorsOf(t, reqs, p2);
    TidPoolIndependent(t, reqs, p1, p2, tid);
    assert NearestDte(s1, tid) == NearestDte(s2, tid);
    var n := NearestDte(s1, tid);
    FilterCongruent(n, (c: Cand) => Dist(p1, c).Some?, (c: Cand) => Dist(p2, c).Some?);
    var pool := RankedPool(t, p1, s1, tid);
    if |pool| > 0 {
      BestCongruent(pool, (c: Cand) => KeyOf(t, p1, c), (c: Cand) => KeyOf(t, p2, c));
    }
  }

  // ----- `first()` mixes rows -----

  /**
   * Two calls of one trade at the same DTE, targeting 0% from strike:
   * contract 1 sits at the target but has no last price, contract 2 is
   * 0.1 away with a last price of 5.
   */
  const MixQuoteA := Quote(1, 10, "XYZ", "C", Some(30), Some(0.0), map["last" := None])
  const MixQuoteB := Quote(2, 10, "XYZ", "C", Some(30), Some(0.1), map["last" := Some(5.0)])
  const MixTable := OptionTable({"last"}, [MixQuoteA, MixQuoteB])
  const MixRequests := RequestTable(true, false, [Request(0, "XYZ", 10, Some(0.0), None, 30)])
  const MixParams := Params("C", "pct", "last", map[], None, None, false)

  const MixCandA := Cand(MixQuoteA, MixRequests.rows[0])
  const MixCandB := Cand(MixQuoteB, MixRequests.rows[0])

  lemma MixSurvivors()
    ensures Survivors(MixTable, MixRequests.rows, MixParams) == [MixCandA, MixCandB]
  {
    var t, reqs, p := MixTable, MixRequests, MixParams;
    assert MatchesOf(MixQuoteA, reqs.rows) == [MixCandA];
    assert MatchesOf(MixQuoteB, reqs.rows) == [MixCandB];
    assert t.rows[1..] == [MixQuoteB] && t.rows[1..][1..] == [];
    assert Join(t.rows[1..], reqs.rows, "C") == [MixCandB];
    assert Join(t.rows, reqs.rows, "C") == [MixCandA, MixCandB];
    assert Survives(t, p, MixCandA) && Survives(t, p, MixCandB);
    FilterAll([MixCandA, MixCandB], (c: Cand) => Survives(t, p, c));
  }

  lemma MixPool()
    ensures RankedPool(MixTable, MixParams, [MixCandA, MixCandB], 0) == [MixCandA, MixCandB]
    ensures Tids([MixCandA, MixCandB]) == {0}
  {
    var s := [MixCandA, MixCandB];
    FilterAll(s, (c: Cand) => c.r.tid == 0);
    assert MinDteDist(s) == 0;
    FilterAll(s, (c: Cand) => c.q.dte.Some? && DteDist(c) == 0);
    FilterAll(s, (c: Cand) => Dist(MixParams, c).Some?);
  }

  lemma MixBest()
    ensures Best([MixCandA, MixCandB], (c: Cand) => KeyOf(MixTable, MixParams, c)) == MixCandA
    ensures Best([MixCandB], (c: Cand) => KeyOf(MixTable, MixParams, c)) == MixCandB
  {
    var key := (c: Cand) => KeyOf(MixTable, MixParams, c);
    assert KeyLess(key(MixCandA), key(MixCandB));
    assert [MixCandA, MixCandB][1..] == [MixCandB];
  }

  lemma MixFirstCells()
    ensures FirstCellOf(MixTable, MixParams, [MixCandA, MixCandB]) ==
              Selected("XYZ", 10, 1, 30, Some(5.0), Some(0.0), None)
  {
    var t, p, s := MixTable, MixParams, [MixCandA, MixCandB];
    MixBest();
    assert s[1..] == [MixCandB];
    var price := (c: Cand) => Cell(c.q, p.priceCol);
    assert Filter(s, (c: Cand) => price(c).Some?) == [MixCandB];
    var pct := (c: Cand) => c.q.pctFromStrike;
    FilterAll(s, (c: Cand) => pct(c).Some?);
    var strike := (c: Cand) => ColumnCell(t, c.q, "strike");
    assert Filter(s, (c: Cand) => strike(c).Some?) == [];
  }

  /** The trade ids of a selection whose survivors all belong to one trade with a full ranked pool. */
  lemma SingleTradeKeys(t: OptionTable, p: Params, s: seq<Cand>, tid: TradeId)
    requires forall c :: c in s ==> c.q.dte.Some?
    requires |s| > 0 && Tids(s) == {tid} && RankedPool(t, p, s, tid) == s
    ensures ChosenRows(t, p, s).Keys == {tid} && FirstCellRows(t, p, s).Keys == {tid}
  {
    PooledTrades(t, p, s, tid, ChosenRows(t, p, s));
    PooledTrades(t, p, s, tid, FirstCellRows(t, p, s));
  }

  /** When every survivor belongs to one trade with a full ranked pool, a map over the pooled trades has that one key. */
  lemma PooledTrades(t: OptionTable, p: Params, s: seq<Cand>, tid: TradeId, m: map<TradeId, Selected>)
    requires forall c :: c in s ==> c.q.dte.Some?
    requires |s| > 0 && Tids(s) == {tid} && RankedPool(t, p, s, tid) == s
    requires forall x :: x in m <==> x in Tids(s) && |RankedPool(t, p, s, x)| > 0
    ensures m.Keys == {tid}
  {
    assert tid in Tids(s) && |RankedPool(t, p, s, tid)| > 0;
    assert tid in m;
    forall x | x in m
      ensures x == tid
    {
      assert x in Tids(s);
    }
  }

  lemma SingletonMap<K, V>(m: map<K, V>, k: K, v: V)
    requires m.Keys == {k} && m[k] == v
    ensures m == map[k := v]
  {
  }

  lemma MixRows()
    ensures FirstCellRows(MixTable, MixParams, [MixCandA, MixCandB]) ==
              map[0 := Selected("XYZ", 10, 1, 30, Some(5.0), Some(0.0), None)]
    ensures ChosenRows(MixTable, MixParams, [MixCandA, MixCandB]) ==
              map[0 := Selected("XYZ", 10, 1, 30, None, Some(0.0), None)]
  {
    var t, p, s := MixTable, MixParams, [MixCandA, MixCandB];
    MixPool();
    MixBest();
    MixFirstCells();
    SingleTradeKeys(t, p, s, 0);
    SingletonMap(ChosenRows(t, p, s), 0, Selected("XYZ", 10, 1, 30, None, Some(0.0), None));
    SingletonMap(FirstCellRows(t, p, s), 0, Selected("XYZ", 10, 1, 30, Some(5.0), Some(0.0), None));
  }

  /**
   * Reading the selection column by column with `first()` reports
   * contract 1 with contract 2's price.
   */
  lemma FirstCellMixesContracts()
    ensures var r := SelectWith(MixTable, MixRequests, MixParams, true);
            r.Ok? && r.value.rows == map[0 := Selected("XYZ", 10, 1, 30, Some(5.0), Some(0.0), None)]
  {
    MixSurvivors();
    MixRows();
    var s := [MixCandA, MixCandB];
    assert 0 in FirstCellRows(MixTable, MixParams, s);
    SelectWithNonEmpty(MixTable, MixRequests, MixParams, true, s);
  }

  /** The corrected selector reports contract 1 with its own price, which is NaN. */
  lemma SelectKeepsContractValues()
    ensures var r := Select(MixTable, MixRequests, MixParams);
            r.Ok? && r.value.rows == map[0 := Selected("XYZ", 10, 1, 30, None, Some(0.0), None)]
  {
    MixSurvivors();
    MixRows();
    var s := [MixCandA, MixCandB];
    assert 0 in ChosenRows(MixTable, MixParams, s);
    SelectWithNonEmpty(MixTable, MixRequests, MixParams, false, s);
  }

  /** The selector on inputs that pass every check, with survivors s. */
  lemma SelectWithNonEmpty(t: OptionTable, reqs: RequestTable, p: Params, perColumnFirst: bool, s: seq<Cand>)
    requires |t.rows| > 0 && |reqs.rows| > 0 && p.priceCol in t.columns && TargetError(reqs, p).None?
    requires Survivors(t, reqs.rows, p) == s && |s| > 0
    ensures var rows := if perColumnFirst then FirstCellRows(t, p, s) else ChosenRows(t, p, s);
            SelectWith(t, reqs, p, perColumnFirst) ==
              if rows == map[] then Ok(EmptySelection) else Ok(Selection("strike" in t.columns, rows))
  {
  }
}
