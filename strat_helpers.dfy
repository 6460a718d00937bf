/**
 * The building blocks the strategy builders are composed from: the base
 * request, selector calls by percent or by price target, intersection and
 * dropping of trade ids across legs, the price and strike sanity checks,
 * and the position rows a leg emits.
 */
module StratHelpers {
  import opened Common
  import opened Episodes
  import opened Quotes
  import opened Selector

  /**
   * One output row: the index (contract id, date, trade id) and the
   * columns ticker, quantity and direction. A builder's output is a set
   * of rows; the sorted order of the index is not modelled.
   */
  datatype Position = Position(
    id: ContractId,
    date: Date,
    tid: TradeId,
    ticker: Ticker,
    quantity: int,
    direction: string)

  /** One trade of the base request. */
  datatype Trade = Trade(tid: TradeId, ticker: Ticker, date: Date)

  /** A selection together with the signed quantity and direction its rows are emitted with. */
  datatype Leg = Leg(sel: Selection, qty: int, dir: string)

  /** The standard request: trade id i is episode i, traded on its end date. */
  function BaseReq(tf: seq<Episode>): (r: seq<Trade>)
    ensures |r| == |tf|
    ensures forall i :: 0 <= i < |r| ==> r[i].tid == i
    ensures forall i :: 0 <= i < |r| ==> r[i].ticker == tf[i].ticker && r[i].date == tf[i].endDate
  {
    seq(|tf|, i requires 0 <= i < |tf| => Trade(i, tf[i].ticker, tf[i].endDate))
  }

  /** The request table with a constant percent target and DTE target. */
  function PctRequests(req: seq<Trade>, pct: real, dte: int): (r: RequestTable)
    ensures r.hasPctTarget && |r.rows| == |req|
    ensures forall i :: 0 <= i < |req| ==>
              r.rows[i] == Request(req[i].tid, req[i].ticker, req[i].date, Some(pct), None, dte)
  {
    RequestTable(true, false,
      seq(|req|, i requires 0 <= i < |req| => Request(req[i].tid, req[i].ticker, req[i].date, Some(pct), None, dte)))
  }

  /** The request table with a constant price target and DTE target. */
  function PriceRequests(req: seq<Trade>, price: Option<real>, dte: int): (r: RequestTable)
    ensures r.hasPriceTarget && |r.rows| == |req|
    ensures forall i :: 0 <= i < |req| ==>
              r.rows[i] == Request(req[i].tid, req[i].ticker, req[i].date, None, price, dte)
  {
    RequestTable(false, true,
      seq(|req|, i requires 0 <= i < |req| => Request(req[i].tid, req[i].ticker, req[i].date, None, price, dte)))
  }

  /** The selector keyword arguments the builders use: no liquidity or quote filters. */
  function PlainParams(optionType: string, targetKind: string, priceCol: string,
                       exclude: map<TradeId, ContractId>): Params
  {
    Params(optionType, targetKind, priceCol, exclude, None, None, false)
  }

  /**
   * The selector by percent-from-strike target. Its target column always
   * exists, so the only error left is a missing price column.
   */
  function SelectPct(t: OptionTable, req: seq<Trade>, optionType: string, pct: real, dte: int,
                     priceCol: string, exclude: map<TradeId, ContractId>): (r: Result<Selection>)
    ensures r.Err? <==> |t.rows| > 0 && |req| > 0 && priceCol !in t.columns
    ensures r.Err? ==> r.error == KeyError(priceCol)
    ensures r.Ok? && r.value.rows != map[] ==> (r.value.hasStrike <==> "strike" in t.columns)
  {
    var reqs := PctRequests(req, pct, dte);
    var p := PlainParams(optionType, "pct", priceCol, exclude);
    SelectErrors(t, reqs, p);
    Select(t, reqs, p)
  }

  /** The selector by price target; as with `SelectPct` only the price column can be missing. */
  function SelectPrice(t: OptionTable, req: seq<Trade>, optionType: string, price: Option<real>, dte: int,
                       priceCol: string, exclude: map<TradeId, ContractId>): (r: Result<Selection>)
    ensures r.Err? <==> |t.rows| > 0 && |req| > 0 && priceCol !in t.columns
    ensures r.Err? ==> r.error == KeyError(priceCol)
  {
    var reqs := PriceRequests(req, price, dte);
    var p := PlainParams(optionType, "price", priceCol, exclude);
    SelectErrors(t, reqs, p);
    Select(t, reqs, p)
  }

  /** `sel["id"]` passed as `exclude_ids`: each trade may not pick this leg's contract again. */
  function ExcludeOf(sel: Selection): (r: map<TradeId, ContractId>)
    ensures r.Keys == sel.rows.Keys
    ensures forall tid :: tid in r ==> r[tid] == sel.rows[tid].id
  {
    map tid | tid in sel.rows :: sel.rows[tid].id
  }

  /** The trade ids present in every selection; none for an empty list. */
  function ValidIntersection(sels: seq<Selection>): (r: set<TradeId>)
    ensures forall tid :: tid in r <==> |sels| > 0 && forall i :: 0 <= i < |sels| ==> tid in sels[i].rows
  {
    if sels == [] then {}
    else IntersectFrom(sels[0].rows.Keys, sels, 1)
  }

  /** The fold of `_valid_intersection`: intersect `acc` with selections k, k+1, ... */
  function IntersectFrom(acc: set<TradeId>, sels: seq<Selection>, k: nat): (r: set<TradeId>)
    requires 1 <= k <= |sels|
    requires forall tid :: tid in acc <==> forall i :: 0 <= i < k ==> tid in sels[i].rows
    ensures forall tid :: tid in r <==> forall i :: 0 <= i < |sels| ==> tid in sels[i].rows
    decreases |sels| - k
  {
    if k == |sels| then acc
    else IntersectFrom(acc * sels[k].rows.Keys, sels, k + 1)
  }

  /** `sel.loc[valid]`: the rows of the given trade ids, unchanged. */
  function Restrict(sel: Selection, valid: set<TradeId>): (r: Selection)
    ensures r.hasStrike == sel.hasStrike
    ensures forall tid :: tid in r.rows <==> tid in sel.rows && tid in valid
    ensures forall tid :: tid in r.rows ==> r.rows[tid] == sel.rows[tid]
  {
    Selection(sel.hasStrike, map tid | tid in sel.rows && tid in valid :: sel.rows[tid])
  }

  /** `sel.drop(bad, errors="ignore")`: every row but those of the bad trade ids, unchanged. */
  function Drop(sel: Selection, bad: set<TradeId>): (r: Selection)
    ensures r.hasStrike == sel.hasStrike
    ensures forall tid :: tid in r.rows <==> tid in sel.rows && tid !in bad
    ensures forall tid :: tid in r.rows ==> r.rows[tid] == sel.rows[tid]
  {
    Selection(sel.hasStrike, sel.rows - bad)
  }

  /** `_drop_tids`: the same bad trade ids dropped from every selection. */
  function DropTids(sels: seq<Selection>, bad: set<TradeId>): (r: seq<Selection>)
    ensures |r| == |sels|
    ensures forall i :: 0 <= i < |sels| ==> r[i] == Drop(sels[i], bad)
  {
    if sels == [] then [] else [Drop(sels[0], bad)] + DropTids(sels[1..], bad)
  }

  /** Two selections hold the same trade ids, as the checks below need to compare them row by row. */
  predicate Aligned(a: Selection, b: Selection) {
    a.rows.Keys == b.rows.Keys
  }

  /** `_check_price_lt`: the trades where a's price is not below b's; a NaN price flags nothing. */
  function CheckPriceLt(a: Selection, b: Selection): (r: set<TradeId>)
    requires Aligned(a, b)
    ensures forall tid :: tid in r <==> tid in a.rows && !PriceBelow(a, b, tid)
  {
    set tid | tid in a.rows && !PriceBelow(a, b, tid)
  }

  /** `_check_price_gt`: the trades where a's price is not above b's; a NaN price flags nothing. */
  function CheckPriceGt(a: Selection, b: Selection): (r: set<TradeId>)
    requires Aligned(a, b)
    ensures forall tid :: tid in r <==> tid in a.rows && !PriceBelow(b, a, tid)
  {
    set tid | tid in a.rows && !PriceBelow(b, a, tid)
  }

  /** a's price is below b's, or one of them is NaN (so the comparison is False and is filled as not bad). */
  predicate PriceBelow(a: Selection, b: Selection, tid: TradeId)
    requires tid in a.rows && tid in b.rows
  {
    var ap := a.rows[tid].price;
    var bp := b.rows[tid].price;
    ap.None? || bp.None? || ap.value < bp.value
  }

  /** The strike comparisons `_check_strike_order` knows. */
  datatype StrikeCmp = Lt | Gt | Eq

  /** The comparison an operator name stands for; only "lt", "gt" and "eq" are known. */
  function ParseStrikeOp(op: string): (r: Option<StrikeCmp>)
    ensures r.Some? <==> op == "lt" || op == "gt" || op == "eq"
    ensures r == Some(Lt) <==> op == "lt"
    ensures r == Some(Gt) <==> op == "gt"
    ensures r == Some(Eq) <==> op == "eq"
  {
    if op == "lt" then Some(Lt)
    else if op == "gt" then Some(Gt)
    else if op == "eq" then Some(Eq)
    else None
  }

  /** `low.strike <op> high.strike`, which is False when either strike is NaN. */
  predicate StrikeHolds(c: StrikeCmp, low: Option<real>, high: Option<real>) {
    low.Some? && high.Some? &&
    match c
    case Lt => low.value < high.value
    case Gt => low.value > high.value
    case Eq => low.value == high.value
  }

  /** The trades whose strikes violate the comparison; nothing without a strike column. */
  function StrikeViolations(low: Selection, high: Selection, c: StrikeCmp): (r: set<TradeId>)
    requires Aligned(low, high)
    ensures forall tid :: tid in r <==>
              tid in low.rows && low.hasStrike && high.hasStrike &&
              !StrikeHolds(c, low.rows[tid].strike, high.rows[tid].strike)
  {
    if !low.hasStrike || !high.hasStrike then {}
    else set tid | tid in low.rows && !StrikeHolds(c, low.rows[tid].strike, high.rows[tid].strike)
  }

  /**
   * `_check_strike_order`: the trades whose strikes violate the order.
   * Without a strike column nothing is flagged and the operator is not
   * even looked at; a NaN strike is flagged; an unknown operator raises.
   */
  function CheckStrikeOrder(low: Selection, high: Selection, op: string): (r: Result<set<TradeId>>)
    requires Aligned(low, high)
    ensures r.Err? <==> low.hasStrike && high.hasStrike && ParseStrikeOp(op).None?
    ensures r.Err? ==> r.error == ValueError("op must be one of {'lt','gt','eq'}")
    ensures ParseStrikeOp(op).Some? ==> r == Ok(StrikeViolations(low, high, ParseStrikeOp(op).value))
  {
    if !low.hasStrike || !high.hasStrike then Ok({})
    else match ParseStrikeOp(op)
      case None => Err(ValueError("op must be one of {'lt','gt','eq'}"))
      case Some(c) => Ok(StrikeViolations(low, high, c))
  }

  /** The strikes of two aligned legs are in order, or there is no strike column. */
  predicate StrikesOrdered(low: Selection, high: Selection, c: StrikeCmp, tid: TradeId)
    requires tid in low.rows && tid in high.rows
  {
    low.hasStrike && high.hasStrike ==> StrikeHolds(c, low.rows[tid].strike, high.rows[tid].strike)
  }

  /** The position row of one selected contract. */
  function PositionOf(tid: TradeId, s: Selected, qty: int, dir: string): Position {
    Position(s.id, s.date, tid, s.ticker, qty, dir)
  }

  /** `_pos_from_sel`: one row per trade id of the selection, with the given quantity and direction. */
  function PosFromSel(sel: Selection, qty: int, dir: string): (r: set<Position>)
    ensures forall p :: p in r <==> p.tid in sel.rows && p == PositionOf(p.tid, sel.rows[p.tid], qty, dir)
  {
    set tid | tid in sel.rows :: PositionOf(tid, sel.rows[tid], qty, dir)
  }

  /** Whether p is the row a leg emits for p's trade. */
  predicate FromLeg(l: Leg, p: Position) {
    p.tid in l.sel.rows && p == PositionOf(p.tid, l.sel.rows[p.tid], l.qty, l.dir)
  }

  /** The rows of every leg, concatenated. */
  function Emit(legs: seq<Leg>): (r: set<Position>)
    ensures forall p :: p in r <==> exists i :: 0 <= i < |legs| && FromLeg(legs[i], p)
  {
    if legs == [] then {}
    else
      var rest := Emit(legs[1..]);
      EmitTail(legs, rest);
      PosFromSel(legs[0].sel, legs[0].qty, legs[0].dir) + rest
  }

  /** The rows of the later legs are those some leg after the first emits. */
  lemma EmitTail(legs: seq<Leg>, rest: set<Position>)
    requires |legs| > 0
    requires forall p :: p in rest <==> exists j :: 0 <= j < |legs[1..]| && FromLeg(legs[1..][j], p)
    ensures forall p :: p in PosFromSel(legs[0].sel, legs[0].qty, legs[0].dir) + rest <==>
              exists i :: 0 <= i < |legs| && FromLeg(legs[i], p)
  {
    forall p | p in rest
      ensures exists i :: 1 <= i < |legs| && FromLeg(legs[i], p)
    {
      var j :| 0 <= j < |legs[1..]| && FromLeg(legs[1..][j], p);
      assert legs[1..][j] == legs[j + 1];
    }
    forall p: Position | (exists i :: 1 <= i < |legs| && FromLeg(legs[i], p))
      ensures p in rest
    {
      var i :| 1 <= i < |legs| && FromLeg(legs[i], p);
      assert legs[1..][i - 1] == legs[i];
    }
  }

  /** Every leg holds the same trade ids. */
  predicate SameTrades(legs: seq<Leg>) {
    forall i :: 0 <= i < |legs| ==> legs[i].sel.rows.Keys == legs[0].sel.rows.Keys
  }

  /**
   * The rows emitted for one trade: when every leg holds the same trade
   * ids, a trade has exactly one row per leg, with that leg's signed
   * quantity and direction.
   */
  lemma EmitPerTrade(legs: seq<Leg>, tid: TradeId)
    requires |legs| > 0 && SameTrades(legs)
    ensures (exists p :: p in Emit(legs) && p.tid == tid) <==> tid in legs[0].sel.rows
    ensures forall i :: 0 <= i < |legs| && tid in legs[0].sel.rows ==>
              PositionOf(tid, legs[i].sel.rows[tid], legs[i].qty, legs[i].dir) in Emit(legs)
  {
    if tid in legs[0].sel.rows {
      assert PositionOf(tid, legs[0].sel.rows[tid], legs[0].qty, legs[0].dir) in Emit(legs);
    }
  }

  /** Dropping keeps selections aligned and leaves every other trade's row unchanged. */
  lemma DropKeepsAligned(a: Selection, b: Selection, bad: set<TradeId>)
    requires Aligned(a, b)
    ensures Aligned(Drop(a, bad), Drop(b, bad))
  {
  }

  /** Restricting to the common trade ids aligns any two selections. */
  lemma RestrictAligns(a: Selection, b: Selection)
    ensures var v := ValidIntersection([a, b]);
            Aligned(Restrict(a, v), Restrict(b, v))
  {
    var v := ValidIntersection([a, b]);
    assert forall tid :: tid in v <==> tid in a.rows && tid in b.rows;
  }

  /** Every selection holds the trade ids of the first. */
  predicate AllAligned(sels: seq<Selection>) {
    forall i :: 0 <= i < |sels| ==> sels[i].rows.Keys == sels[0].rows.Keys
  }

  /** `sels[i].loc[valid]` for every leg, with `valid` their common trade ids. */
  function RestrictAll(sels: seq<Selection>): (r: seq<Selection>)
    ensures |r| == |sels|
    ensures forall i :: 0 <= i < |sels| ==> r[i] == Restrict(sels[i], ValidIntersection(sels))
    ensures AllAligned(r)
  {
    var v := ValidIntersection(sels);
    seq(|sels|, i requires 0 <= i < |sels| => Restrict(sels[i], v))
  }

  /**
   * The common tail of every builder: drop the bad trade ids from every
   * leg, and emit nothing when a leg is left empty; otherwise one leg per
   * selection with its quantity and direction.
   */
  function Finish(sels: seq<Selection>, bad: set<TradeId>, qtys: seq<int>, dirs: seq<string>): (r: seq<Leg>)
    requires |qtys| == |sels| && |dirs| == |sels|
    ensures r == [] || |r| == |sels|
    ensures r != [] ==> forall i :: 0 <= i < |sels| ==>
              r[i] == Leg(Drop(sels[i], bad), qtys[i], dirs[i])
  {
    var dropped := DropTids(sels, bad);
    if exists i :: 0 <= i < |dropped| && dropped[i].rows == map[] then []
    else seq(|sels|, i requires 0 <= i < |sels| => Leg(dropped[i], qtys[i], dirs[i]))
  }

  /** The trade ids a builder emits rows for. */
  function TradesOf(legs: seq<Leg>): set<TradeId> {
    if legs == [] then {} else legs[0].sel.rows.Keys
  }

  /**
   * On aligned legs, `Finish` keeps exactly the common trade ids that are
   * not bad, in every leg at once, with their rows unchanged.
   */
  lemma FinishKeeps(sels: seq<Selection>, bad: set<TradeId>, qtys: seq<int>, dirs: seq<string>)
    requires |sels| > 0 && |qtys| == |sels| && |dirs| == |sels| && AllAligned(sels)
    ensures var r := Finish(sels, bad, qtys, dirs);
            forall tid :: tid in TradesOf(r) <==> tid in sels[0].rows && tid !in bad
    ensures var r := Finish(sels, bad, qtys, dirs);
            SameTrades(r) && forall i, tid :: 0 <= i < |r| && tid in r[i].sel.rows ==>
              r[i].sel.rows[tid] == sels[i].rows[tid]
  {
    var r := Finish(sels, bad, qtys, dirs);
    var dropped := DropTids(sels, bad);
    if r == [] {
      var i :| 0 <= i < |dropped| && dropped[i].rows == map[];
      assert forall tid :: tid in sels[0].rows && tid !in bad ==> tid in dropped[i].rows;
    }
  }

  /** Every raw leg selected the trade. */
  predicate InAll(raw: seq<Selection>, tid: TradeId) {
    forall i :: 0 <= i < |raw| ==> tid in raw[i].rows
  }

  /**
   * The legs a builder emits, from the raw leg selections: nothing when
   * the legs have no trade in common, otherwise `Finish` on the aligned
   * legs with the trades the builder's checks flagged.
   */
  function Assemble(sels: seq<Selection>, bad: set<TradeId>, qtys: seq<int>, dirs: seq<string>): seq<Leg>
    requires |sels| > 0 && |qtys| == |sels| && |dirs| == |sels|
  {
    if sels[0].rows == map[] then [] else Finish(sels, bad, qtys, dirs)
  }

  /** One leg per raw selection, in order, with the given quantities and directions and the raw rows. */
  predicate LegsFrom(legs: seq<Leg>, raw: seq<Selection>, qtys: seq<int>, dirs: seq<string>) {
    |legs| == |raw| == |qtys| == |dirs| && SameTrades(legs) &&
    (forall i :: 0 <= i < |legs| ==> legs[i].qty == qtys[i] && legs[i].dir == dirs[i]) &&
    (forall i, tid :: 0 <= i < |legs| && tid in legs[i].sel.rows ==>
      tid in raw[i].rows && legs[i].sel.rows[tid] == raw[i].rows[tid])
  }

  /** The trade ids common to every raw selection are those of the first aligned one. */
  lemma InAllFirst(raw: seq<Selection>)
    requires |raw| > 0
    ensures forall tid :: tid in RestrictAll(raw)[0].rows <==> InAll(raw, tid)
  {
    assert forall tid :: tid in ValidIntersection(raw) <==> InAll(raw, tid);
  }

  /**
   * The builders' common tail emits exactly the trades every leg selected
   * and no check flagged, with one leg per selection carrying its own rows.
   */
  lemma AssembleKeeps(raw: seq<Selection>, bad: set<TradeId>, qtys: seq<int>, dirs: seq<string>)
    requires |raw| > 0 && |qtys| == |raw| && |dirs| == |raw|
    ensures var r := Assemble(RestrictAll(raw), bad, qtys, dirs);
            forall tid :: tid in TradesOf(r) <==> InAll(raw, tid) && tid !in bad
    ensures var r := Assemble(RestrictAll(raw), bad, qtys, dirs);
            r == [] || LegsFrom(r, raw, qtys, dirs)
  {
    AssembleTrades(raw, bad, qtys, dirs);
    AssembleLegs(raw, bad, qtys, dirs);
  }

  lemma AssembleTrades(raw: seq<Selection>, bad: set<TradeId>, qtys: seq<int>, dirs: seq<string>)
    requires |raw| > 0 && |qtys| == |raw| && |dirs| == |raw|
    ensures var r := Assemble(RestrictAll(raw), bad, qtys, dirs);
            forall tid :: tid in TradesOf(r) <==> InAll(raw, tid) && tid !in bad
  {
    var sels := RestrictAll(raw);
    InAllFirst(raw);
    if sels[0].rows != map[] {
      FinishKeeps(sels, bad, qtys, dirs);
    }
  }

  lemma AssembleLegs(raw: seq<Selection>, bad: set<TradeId>, qtys: seq<int>, dirs: seq<string>)
    requires |raw| > 0 && |qtys| == |raw| && |dirs| == |raw|
    ensures var r := Assemble(RestrictAll(raw), bad, qtys, dirs);
            r == [] || LegsFrom(r, raw, qtys, dirs)
  {
    var sels := RestrictAll(raw);
    if sels[0].rows != map[] {
      FinishKeeps(sels, bad, qtys, dirs);
    }
  }

  /** `AssembleKeeps` for one trade, with the builder's verdict on it given as `flagged`. */
  lemma AssembleAt(raw: seq<Selection>, bad: set<TradeId>, qtys: seq<int>, dirs: seq<string>, tid: TradeId,
                   flagged: bool)
    requires |raw| > 0 && |qtys| == |raw| && |dirs| == |raw|
    requires InAll(raw, tid) ==> (tid in bad <==> flagged)
    ensures tid in TradesOf(Assemble(RestrictAll(raw), bad, qtys, dirs)) <==> InAll(raw, tid) && !flagged
  {
    AssembleTrades(raw, bad, qtys, dirs);
  }

  /** `AssembleKeeps` for one trade of a two-leg builder whose checks accept the trade exactly when `good`. */
  lemma AssemblePair(a: Selection, b: Selection, bad: set<TradeId>, qtys: seq<int>, dirs: seq<string>,
                     tid: TradeId, good: bool)
    requires |qtys| == 2 && |dirs| == 2
    requires tid in a.rows && tid in b.rows ==> (tid in bad <==> !good)
    ensures tid in TradesOf(Assemble(RestrictAll([a, b]), bad, qtys, dirs)) <==> tid in a.rows && tid in b.rows && good
  {
    InAll2(a, b, tid);
    AssembleAt([a, b], bad, qtys, dirs, tid, !good);
  }

  lemma InAll2(a: Selection, b: Selection, tid: TradeId)
    ensures InAll([a, b], tid) <==> tid in a.rows && tid in b.rows
  {
    var raw := [a, b];
    assert raw[0] == a && raw[1] == b;
  }

  /** Two legs that agree with two others on one trade give that trade the same prices and strikes. */
  lemma PairCongruent(a: Selection, b: Selection, a2: Selection, b2: Selection, tid: TradeId, c: StrikeCmp)
    requires SameAt(a, a2, tid) && SameAt(b, b2, tid)
    ensures PriceBelow(a, b, tid) == PriceBelow(a2, b2, tid)
    ensures StrikesOrdered(a, b, c, tid) == StrikesOrdered(a2, b2, c, tid)
  {
  }

  /** `AssembleKeeps` for one trade of a three-leg builder whose checks accept the trade exactly when `good`. */
  lemma AssembleTriple(a: Selection, b: Selection, c: Selection, bad: set<TradeId>, qtys: seq<int>,
                       dirs: seq<string>, tid: TradeId, good: bool)
    requires |qtys| == 3 && |dirs| == 3
    requires tid in a.rows && tid in b.rows && tid in c.rows ==> (tid in bad <==> !good)
    ensures tid in TradesOf(Assemble(RestrictAll([a, b, c]), bad, qtys, dirs)) <==>
            tid in a.rows && tid in b.rows && tid in c.rows && good
  {
    InAll3(a, b, c, tid);
    AssembleAt([a, b, c], bad, qtys, dirs, tid, !good);
  }

  lemma InAll3(a: Selection, b: Selection, c: Selection, tid: TradeId)
    ensures InAll([a, b, c], tid) <==> tid in a.rows && tid in b.rows && tid in c.rows
  {
    var raw := [a, b, c];
    assert raw[0] == a && raw[1] == b && raw[2] == c;
  }

  /** `AssembleKeeps` for one trade of a four-leg builder whose checks accept the trade exactly when `good`. */
  lemma AssembleQuad(a: Selection, b: Selection, c: Selection, d: Selection, bad: set<TradeId>, qtys: seq<int>,
                     dirs: seq<string>, tid: TradeId, good: bool)
    requires |qtys| == 4 && |dirs| == 4
    requires tid in a.rows && tid in b.rows && tid in c.rows && tid in d.rows ==> (tid in bad <==> !good)
    ensures tid in TradesOf(Assemble(RestrictAll([a, b, c, d]), bad, qtys, dirs)) <==>
            tid in a.rows && tid in b.rows && tid in c.rows && tid in d.rows && good
  {
    InAll4(a, b, c, d, tid);
    AssembleAt([a, b, c, d], bad, qtys, dirs, tid, !good);
  }

  lemma InAll4(a: Selection, b: Selection, c: Selection, d: Selection, tid: TradeId)
    ensures InAll([a, b, c, d], tid) <==> tid in a.rows && tid in b.rows && tid in c.rows && tid in d.rows
  {
    var raw := [a, b, c, d];
    assert raw[0] == a && raw[1] == b && raw[2] == c && raw[3] == d;
  }

  /** The selector raises `KeyError(priceCol)`: there are quotes but no such price column. */
  predicate PriceColMissing(t: OptionTable, priceCol: string) {
    |t.rows| > 0 && priceCol !in t.columns
  }

  /** A trade every raw leg selected keeps each leg's row and strike flag after alignment. */
  lemma RestrictAllAt(raw: seq<Selection>, tid: TradeId)
    requires |raw| > 0 && InAll(raw, tid)
    ensures var sels := RestrictAll(raw);
            forall i :: 0 <= i < |raw| ==>
              tid in sels[i].rows && sels[i].rows[tid] == raw[i].rows[tid] && sels[i].hasStrike == raw[i].hasStrike
  {
    assert tid in ValidIntersection(raw);
  }

  /** Two selections hold the same row for the trade and agree on the strike column. */
  predicate SameAt(a: Selection, b: Selection, tid: TradeId) {
    tid in a.rows && tid in b.rows && a.rows[tid] == b.rows[tid] && a.hasStrike == b.hasStrike
  }

  /** One leg of the alignment keeps every commonly selected trade's row. */
  lemma RestrictAtLeg(raw: seq<Selection>, tid: TradeId, i: int)
    requires |raw| > 0 && InAll(raw, tid) && 0 <= i < |raw|
    ensures SameAt(RestrictAll(raw)[i], raw[i], tid)
  {
    RestrictAllAt(raw, tid);
  }

  lemma RestrictAt2(a: Selection, b: Selection, tid: TradeId)
    requires tid in a.rows && tid in b.rows
    ensures var sels := RestrictAll([a, b]);
            SameAt(sels[0], a, tid) && SameAt(sels[1], b, tid)
  {
    var raw := [a, b];
    assert InAll(raw, tid);
    RestrictAtLeg(raw, tid, 0);
    RestrictAtLeg(raw, tid, 1);
  }

  lemma RestrictAt3(a: Selection, b: Selection, c: Selection, tid: TradeId)
    requires tid in a.rows && tid in b.rows && tid in c.rows
    ensures var sels := RestrictAll([a, b, c]);
            SameAt(sels[0], a, tid) && SameAt(sels[1], b, tid) && SameAt(sels[2], c, tid)
  {
    var raw := [a, b, c];
    assert InAll(raw, tid);
    RestrictAtLeg(raw, tid, 0);
    RestrictAtLeg(raw, tid, 1);
    RestrictAtLeg(raw, tid, 2);
  }

  lemma RestrictAt4(a: Selection, b: Selection, c: Selection, d: Selection, tid: TradeId)
    requires tid in a.rows && tid in b.rows && tid in c.rows && tid in d.rows
    ensures var sels := RestrictAll([a, b, c, d]);
            SameAt(sels[0], a, tid) && SameAt(sels[1], b, tid) && SameAt(sels[2], c, tid) && SameAt(sels[3], d, tid)
  {
    var raw := [a, b, c, d];
    assert InAll(raw, tid);
    RestrictAtLeg(raw, tid, 0);
    RestrictAtLeg(raw, tid, 1);
    RestrictAtLeg(raw, tid, 2);
    RestrictAtLeg(raw, tid, 3);
  }

  // ----- requests built from an earlier leg -----

  /** `x / 2.0`, with NaN staying NaN. */
  function Half(x: Option<real>): (r: Option<real>)
    ensures r.Some? <==> x.Some?
    ensures r.Some? ==> r.value + r.value == x.value
  {
    if x.Some? then Some(x.value / 2.0) else None
  }

  /**
   * The request a selected trade makes for a later leg, on the same
   * ticker and date: by half its price (`byPrice`), or by its own
   * percent-from-strike.
   */
  function FollowRequest(tid: TradeId, s: Selected, byPrice: bool, dte: int): Request {
    if byPrice then Request(tid, s.ticker, s.date, None, Half(s.price), dte)
    else Request(tid, s.ticker, s.date, s.pctFromStrike, None, dte)
  }

  /** `sel.reset_index()` turned into requests: one per selected trade, in trade-id order. */
  function FollowRequests(req: seq<Trade>, sel: Selection, byPrice: bool, dte: int): (r: seq<Request>)
    ensures forall i :: 0 <= i < |r| ==>
              r[i].tid in sel.rows && r[i] == FollowRequest(r[i].tid, sel.rows[r[i].tid], byPrice, dte)
    ensures forall tr :: tr in req && tr.tid in sel.rows ==>
              FollowRequest(tr.tid, sel.rows[tr.tid], byPrice, dte) in r
  {
    if req == [] then []
    else
      var rest := FollowRequests(req[1..], sel, byPrice, dte);
      assert forall tr :: tr in req[1..] ==> tr in req;
      if req[0].tid in sel.rows then [FollowRequest(req[0].tid, sel.rows[req[0].tid], byPrice, dte)] + rest
      else rest
  }

  /**
   * The selector on requests built from an earlier leg, by price target
   * (`byPrice`) or by percent target. The target column exists, so only
   * the price column can be missing.
   */
  function SelectFollow(t: OptionTable, req: seq<Trade>, sel: Selection, optionType: string, byPrice: bool,
                        dte: int, priceCol: string, exclude: map<TradeId, ContractId>): (r: Result<Selection>)
    ensures r.Err? <==> |t.rows| > 0 && |FollowRequests(req, sel, byPrice, dte)| > 0 && priceCol !in t.columns
    ensures r.Err? ==> r.error == KeyError(priceCol) && PriceColMissing(t, priceCol)
  {
    var reqs := RequestTable(!byPrice, byPrice, FollowRequests(req, sel, byPrice, dte));
    var p := PlainParams(optionType, if byPrice then "price" else "pct", priceCol, exclude);
    SelectErrors(t, reqs, p);
    Select(t, reqs, p)
  }
}
