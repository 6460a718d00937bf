/**
 * The put backspread (`find_backspread_ids`): -1 put at a percent target,
 * then +2 puts asking for half the short premium. When a maximum strike
 * width is given, absolute or relative to the short strike, the long put
 * is not picked by the contract selector but by a pipeline of its own
 * that keeps the width within the caps.
 */
module Backspread {
  import opened Common
  import opened Numeric
  import opened Episodes
  import opened Quotes
  import opened Ranking
  import opened Selector
  import opened StratHelpers
  import opened Strategies

  /** A width cap is in force when either maximum is given. */
  predicate Capped(maxAbs: Option<real>, maxPct: Option<real>) {
    maxAbs.Some? || maxPct.Some?
  }

  /** The width as a fraction of the short strike; NaN when the short strike is zero. */
  function WidthPct(shortK: real, longK: real): (r: Option<real>)
    ensures r.Some? <==> shortK != 0.0
  {
    if shortK == 0.0 then None else Some((shortK - longK) / shortK)
  }

  /** A relative width times the short strike is the absolute width. */
  lemma WidthPctScales(shortK: real, longK: real)
    requires shortK != 0.0
    ensures WidthPct(shortK, longK).value * shortK == shortK - longK
  {
  }

  /**
   * Both strikes are known, the long strike is strictly below the short
   * one, and the width is within each cap that is given; a relative cap
   * also needs a non-zero short strike.
   */
  predicate WidthWithin(shortK: Option<real>, longK: Option<real>, maxAbs: Option<real>, maxPct: Option<real>) {
    shortK.Some? && longK.Some? && shortK.value - longK.value > 0.0 &&
    (maxAbs.Some? ==> shortK.value - longK.value <= maxAbs.value) &&
    (maxPct.Some? ==> WidthPct(shortK.value, longK.value).Some? &&
                      WidthPct(shortK.value, longK.value).value <= maxPct.value)
  }

  // ----- the capped long-leg pipeline -----

  /** The selector parameters used to read a chosen quote's output row. */
  function LongParams(priceCol: string): Params {
    PlainParams("P", "price", priceCol, map[])
  }

  /**
   * A joined candidate the capped pipeline keeps: not the short contract,
   * every cell it sorts or filters on present, within the width caps, and
   * cheaper than the short put.
   */
  predicate CapCandidate(t: OptionTable, s: Selection, priceCol: string, maxAbs: Option<real>, maxPct: Option<real>,
                         c: Cand)
  {
    c.r.tid in s.rows &&
    var sr := s.rows[c.r.tid];
    var px := Cell(c.q, priceCol);
    c.q.id != sr.id &&
    c.q.dte.Some? && px.Some? && c.r.priceTarget.Some? && sr.price.Some? &&
    WidthWithin(sr.strike, ColumnCell(t, c.q, "strike"), maxAbs, maxPct) &&
    px.value < sr.price.value
  }

  /** The candidates of the capped pipeline: puts merged with the half-premium requests, then filtered. */
  function CapCands(t: OptionTable, req: seq<Trade>, s: Selection, dte: int, priceCol: string,
                    maxAbs: Option<real>, maxPct: Option<real>): (r: seq<Cand>)
    ensures forall c :: c in r <==>
              c in Join(t.rows, FollowRequests(req, s, true, dte), "P") && CapCandidate(t, s, priceCol, maxAbs, maxPct, c)
  {
    Filter(Join(t.rows, FollowRequests(req, s, true, dte), "P"),
           (c: Cand) => CapCandidate(t, s, priceCol, maxAbs, maxPct, c))
  }

  /** The secondary sort column: the relative width under a relative cap, else the absolute width. */
  function KeyWidth(shortK: Option<real>, longK: Option<real>, maxPct: Option<real>): Option<real> {
    if shortK.None? || longK.None? then None
    else if maxPct.Some? then WidthPct(shortK.value, longK.value)
    else Some(shortK.value - longK.value)
  }

  /** The sort key: distance to the price target, then width, then contract id. */
  function CapKey(t: OptionTable, s: Selection, priceCol: string, maxPct: Option<real>, c: Cand): SortKey {
    var shortK := if c.r.tid in s.rows then s.rows[c.r.tid].strike else None;
    SortKey(AbsOpt(Sub(Cell(c.q, priceCol), c.r.priceTarget)),
            KeyWidth(shortK, ColumnCell(t, c.q, "strike"), maxPct), None, None, c.q.id)
  }

  /** The capped pipeline's choice for one trade: first by `CapKey` among its candidates nearest the DTE target. */
  function CapChoice(t: OptionTable, s: Selection, priceCol: string, maxPct: Option<real>, cands: seq<Cand>,
                     tid: TradeId): (c: Cand)
    requires forall c :: c in cands ==> c.q.dte.Some?
    requires |NearestDte(cands, tid)| > 0
    ensures c in NearestDte(cands, tid)
  {
    Best(NearestDte(cands, tid), (c: Cand) => CapKey(t, s, priceCol, maxPct, c))
  }

  /** A long row that can go with the short row: another contract on the same ticker and date, cheaper, within the caps. */
  predicate LongRowOk(sr: Selected, row: Selected, maxAbs: Option<real>, maxPct: Option<real>) {
    row.id != sr.id && row.ticker == sr.ticker && row.date == sr.date &&
    row.price.Some? && sr.price.Some? && row.price.value < sr.price.value &&
    WidthWithin(sr.strike, row.strike, maxAbs, maxPct)
  }

  /** `groupby(...).first()` on the sorted candidates: one row per trade that has a candidate. */
  function CapRows(t: OptionTable, s: Selection, priceCol: string, maxPct: Option<real>, cands: seq<Cand>)
    : map<TradeId, Selected>
    requires forall c :: c in cands ==> c.q.dte.Some?
  {
    map tid | tid in Tids(cands) && |NearestDte(cands, tid)| > 0 ::
      SelectedOf(t, LongParams(priceCol), CapChoice(t, s, priceCol, maxPct, cands, tid))
  }

  /** The long leg under a width cap. */
  function CappedLong(t: OptionTable, req: seq<Trade>, s: Selection, dte: int, priceCol: string,
                      maxAbs: Option<real>, maxPct: Option<real>): (r: Selection)
    ensures r.hasStrike
    ensures forall tid :: tid in r.rows ==> tid in s.rows && LongRowOk(s.rows[tid], r.rows[tid], maxAbs, maxPct)
  {
    CapRowsOk(t, req, s, dte, priceCol, maxAbs, maxPct);
    Selection(true, CapRows(t, s, priceCol, maxPct, CapCands(t, req, s, dte, priceCol, maxAbs, maxPct)))
  }

  lemma CapRowsOk(t: OptionTable, req: seq<Trade>, s: Selection, dte: int, priceCol: string,
                  maxAbs: Option<real>, maxPct: Option<real>)
    ensures var rows := CapRows(t, s, priceCol, maxPct, CapCands(t, req, s, dte, priceCol, maxAbs, maxPct));
            forall tid :: tid in rows ==> tid in s.rows && LongRowOk(s.rows[tid], rows[tid], maxAbs, maxPct)
  {
    var cands := CapCands(t, req, s, dte, priceCol, maxAbs, maxPct);
    var rows := CapRows(t, s, priceCol, maxPct, cands);
    forall tid | tid in rows
      ensures tid in s.rows && LongRowOk(s.rows[tid], rows[tid], maxAbs, maxPct)
    {
      CapChoiceOk(t, req, s, dte, priceCol, maxAbs, maxPct, tid);
    }
  }

  /** The chosen candidate of a trade, read as an output row, fits with the trade's short row. */
  lemma CapChoiceOk(t: OptionTable, req: seq<Trade>, s: Selection, dte: int, priceCol: string,
                    maxAbs: Option<real>, maxPct: Option<real>, tid: TradeId)
    requires |NearestDte(CapCands(t, req, s, dte, priceCol, maxAbs, maxPct), tid)| > 0
    ensures var cands := CapCands(t, req, s, dte, priceCol, maxAbs, maxPct);
            tid in s.rows &&
            LongRowOk(s.rows[tid], SelectedOf(t, LongParams(priceCol), CapChoice(t, s, priceCol, maxPct, cands, tid)),
                      maxAbs, maxPct)
  {
    var cands := CapCands(t, req, s, dte, priceCol, maxAbs, maxPct);
    var c := CapChoice(t, s, priceCol, maxPct, cands, tid);
    assert c in cands && c.r.tid == tid;
    var reqs := FollowRequests(req, s, true, dte);
    assert c.r in reqs;
    var i :| 0 <= i < |reqs| && reqs[i] == c.r;
    assert c.r == FollowRequest(tid, s.rows[tid], true, dte);
  }

  /** On any candidate list: a trade has a row exactly when it has a candidate, and the row is its choice's. */
  lemma CapRowsAt(t: OptionTable, s: Selection, priceCol: string, maxPct: Option<real>, cands: seq<Cand>, tid: TradeId)
    requires forall c :: c in cands ==> c.q.dte.Some?
    ensures var rows := CapRows(t, s, priceCol, maxPct, cands);
            (tid in rows <==> exists c :: c in cands && c.r.tid == tid) &&
            (tid in rows ==> |NearestDte(cands, tid)| > 0 &&
                             rows[tid] == SelectedOf(t, LongParams(priceCol), CapChoice(t, s, priceCol, maxPct, cands, tid)))
  {
    NearestNonEmpty(cands, tid);
    CapRowsKeys(t, s, priceCol, maxPct, cands, tid);
  }

  /** A trade has a row exactly when its nearest-DTE pool is not empty. */
  lemma CapRowsKeys(t: OptionTable, s: Selection, priceCol: string, maxPct: Option<real>, cands: seq<Cand>, tid: TradeId)
    requires forall c :: c in cands ==> c.q.dte.Some?
    ensures tid in CapRows(t, s, priceCol, maxPct, cands) <==> tid in Tids(cands) && |NearestDte(cands, tid)| > 0
  {
  }

  /** A trade's nearest-DTE pool is non-empty exactly when the trade has a candidate. */
  lemma NearestNonEmpty(cands: seq<Cand>, tid: TradeId)
    requires forall c :: c in cands ==> c.q.dte.Some?
    ensures (tid in Tids(cands) && |NearestDte(cands, tid)| > 0) <==> exists c :: c in cands && c.r.tid == tid
  {
    if c :| c in cands && c.r.tid == tid {
      var pool := TidPool(cands, tid);
      assert c in pool;
      var m := MinDteDist(pool);
      var w :| w in pool && DteDist(w) == m;
      assert w in NearestDte(cands, tid);
      assert tid in Tids(cands);
    }
  }

  /** On any candidate list: the choice is nearest the DTE target and no candidate at that distance sorts first. */
  lemma CapChoiceWins(t: OptionTable, s: Selection, priceCol: string, maxPct: Option<real>, cands: seq<Cand>,
                      tid: TradeId)
    requires forall c :: c in cands ==> c.q.dte.Some?
    requires |NearestDte(cands, tid)| > 0
    ensures var c := CapChoice(t, s, priceCol, maxPct, cands, tid);
            c in cands && c.r.tid == tid &&
            (forall d :: d in cands && d.r.tid == tid ==> DteDist(c) <= DteDist(d)) &&
            (forall d :: d in cands && d.r.tid == tid && DteDist(d) == DteDist(c) ==>
               !KeyLess(CapKey(t, s, priceCol, maxPct, d), CapKey(t, s, priceCol, maxPct, c)))
  {
    var c := CapChoice(t, s, priceCol, maxPct, cands, tid);
    forall d | d in cands && d.r.tid == tid && DteDist(d) == DteDist(c)
      ensures !KeyLess(CapKey(t, s, priceCol, maxPct, d), CapKey(t, s, priceCol, maxPct, c))
    {
      assert d in NearestDte(cands, tid);
    }
  }

  /** On any candidate list: a trade's row comes from a candidate of it that wins by DTE and then by key. */
  ghost predicate CapWinner(t: OptionTable, s: Selection, priceCol: string, maxPct: Option<real>, cands: seq<Cand>,
                            tid: TradeId, c: Cand)
    requires forall c :: c in cands ==> c.q.dte.Some?
  {
    c in cands && c.r.tid == tid &&
    (forall d :: d in cands && d.r.tid == tid ==> DteDist(c) <= DteDist(d)) &&
    (forall d :: d in cands && d.r.tid == tid && DteDist(d) == DteDist(c) ==>
       !KeyLess(CapKey(t, s, priceCol, maxPct, d), CapKey(t, s, priceCol, maxPct, c)))
  }

  lemma CapRowIsWinner(t: OptionTable, s: Selection, priceCol: string, maxPct: Option<real>, cands: seq<Cand>,
                       tid: TradeId)
    requires forall c :: c in cands ==> c.q.dte.Some?
    requires tid in CapRows(t, s, priceCol, maxPct, cands)
    ensures exists c :: CapWinner(t, s, priceCol, maxPct, cands, tid, c) &&
              CapRows(t, s, priceCol, maxPct, cands)[tid] == SelectedOf(t, LongParams(priceCol), c)
  {
    CapRowsAt(t, s, priceCol, maxPct, cands, tid);
    CapChoiceWins(t, s, priceCol, maxPct, cands, tid);
    assert CapWinner(t, s, priceCol, maxPct, cands, tid, CapChoice(t, s, priceCol, maxPct, cands, tid));
  }

  /**
   * Each capped long row is its trade's winner: a candidate the pipeline
   * keeps, nearest the DTE target among the trade's candidates, and not
   * beaten by any candidate at the same DTE distance.
   */
  lemma CappedLongIsWinner(t: OptionTable, req: seq<Trade>, s: Selection, dte: int, priceCol: string,
                           maxAbs: Option<real>, maxPct: Option<real>, tid: TradeId)
    requires tid in CappedLong(t, req, s, dte, priceCol, maxAbs, maxPct).rows
    ensures var cands := CapCands(t, req, s, dte, priceCol, maxAbs, maxPct);
            var row := CappedLong(t, req, s, dte, priceCol, maxAbs, maxPct).rows[tid];
            exists c :: CapWinner(t, s, priceCol, maxPct, cands, tid, c) && row == SelectedOf(t, LongParams(priceCol), c)
  {
    CappedLongRows(t, req, s, dte, priceCol, maxAbs, maxPct);
    CapRowIsWinner(t, s, priceCol, maxPct, CapCands(t, req, s, dte, priceCol, maxAbs, maxPct), tid);
  }

  /** Every candidate of the capped pipeline is a put quote of the table on its trade's ticker and date that passes the caps. */
  lemma CapCandsAreQuotes(t: OptionTable, req: seq<Trade>, s: Selection, dte: int, priceCol: string,
                          maxAbs: Option<real>, maxPct: Option<real>)
    ensures forall c :: c in CapCands(t, req, s, dte, priceCol, maxAbs, maxPct) ==>
              c.q in t.rows && c.q.optionType == "P" && c.q.ticker == c.r.ticker && c.q.date == c.r.date &&
              CapCandidate(t, s, priceCol, maxAbs, maxPct, c)
  {
  }

  /** A trade gets a capped long row exactly when some candidate of it survives the pipeline. */
  lemma CappedLongPresence(t: OptionTable, req: seq<Trade>, s: Selection, dte: int, priceCol: string,
                           maxAbs: Option<real>, maxPct: Option<real>, tid: TradeId)
    ensures var cands := CapCands(t, req, s, dte, priceCol, maxAbs, maxPct);
            tid in CappedLong(t, req, s, dte, priceCol, maxAbs, maxPct).rows <==>
              exists c :: c in cands && c.r.tid == tid
  {
    CappedLongRows(t, req, s, dte, priceCol, maxAbs, maxPct);
    CapRowsAt(t, s, priceCol, maxPct, CapCands(t, req, s, dte, priceCol, maxAbs, maxPct), tid);
  }

  lemma CappedLongRows(t: OptionTable, req: seq<Trade>, s: Selection, dte: int, priceCol: string,
                       maxAbs: Option<real>, maxPct: Option<real>)
    ensures CappedLong(t, req, s, dte, priceCol, maxAbs, maxPct).rows ==
            CapRows(t, s, priceCol, maxPct, CapCands(t, req, s, dte, priceCol, maxAbs, maxPct))
  {
  }

  // ----- the builder -----

  /** The long leg: the selector by half the short premium, or the capped pipeline. */
  function PutLong(t: OptionTable, req: seq<Trade>, s: Selection, dte: int, priceCol: string,
                   maxAbs: Option<real>, maxPct: Option<real>): Selection
    requires !PriceColMissing(t, priceCol)
  {
    if Capped(maxAbs, maxPct) then CappedLong(t, req, s, dte, priceCol, maxAbs, maxPct)
    else SelectFollow(t, req, s, "P", true, dte, priceCol, ExcludeOf(s)).value
  }

  /**
   * `find_backspread_ids`. A short leg without a strike column raises
   * KeyError when its strikes are looked up in the option table.
   */
  function PutBackspread(tf: seq<Episode>, t: OptionTable, pct: real, dte: int, priceCol: string,
                         maxAbs: Option<real>, maxPct: Option<real>): Result<seq<Leg>>
  {
    if tf == [] then Ok([])
    else
      var req := BaseReq(tf);
      var shortSel :- SelectPct(t, req, "P", pct, dte, priceCol, map[]);
      if shortSel.rows == map[] then Ok([])
      else if !shortSel.hasStrike then Err(KeyError("strike"))
      else
        var longSel := PutLong(t, req, shortSel, dte, priceCol, maxAbs, maxPct);
        if longSel.rows == map[] then Ok([])
        else Ok(PutBackspreadLegs(shortSel, longSel, maxAbs, maxPct))
  }

  /** The long put is cheaper, its strike lower, and under a cap the width within it (when strikes exist). */
  predicate PutBackspreadGood(s: Selection, l: Selection, maxAbs: Option<real>, maxPct: Option<real>, tid: TradeId)
    requires tid in s.rows && tid in l.rows
  {
    PriceBelow(l, s, tid) && StrikesOrdered(l, s, Lt, tid) &&
    (Capped(maxAbs, maxPct) && s.hasStrike && l.hasStrike ==>
       WidthWithin(s.rows[tid].strike, l.rows[tid].strike, maxAbs, maxPct))
  }

  /** The final width guard: the trades whose strikes break the caps; nothing without strikes. */
  function WidthViolations(s: Selection, l: Selection, maxAbs: Option<real>, maxPct: Option<real>): (bad: set<TradeId>)
    requires Aligned(s, l)
    ensures forall tid :: tid in bad <==>
              tid in s.rows && s.hasStrike && l.hasStrike &&
              !WidthWithin(s.rows[tid].strike, l.rows[tid].strike, maxAbs, maxPct)
  {
    if !s.hasStrike || !l.hasStrike then {}
    else set tid | tid in s.rows && !WidthWithin(s.rows[tid].strike, l.rows[tid].strike, maxAbs, maxPct)
  }

  /**
   * The price check and the strike check are those of the bull put credit
   * spread; the width guard runs only under a cap. Each drops trades one
   * at a time, so the trades dropped are the union.
   */
  function PutBackspreadBad(s: Selection, l: Selection, maxAbs: Option<real>, maxPct: Option<real>): (bad: set<TradeId>)
    requires Aligned(s, l)
    ensures forall tid :: tid in bad <==> tid in s.rows && !PutBackspreadGood(s, l, maxAbs, maxPct, tid)
  {
    CreditSpreadBad("P", s, l) + (if Capped(maxAbs, maxPct) then WidthViolations(s, l, maxAbs, maxPct) else {})
  }

  function PutBackspreadLegs(shortSel: Selection, longSel: Selection, maxAbs: Option<real>, maxPct: Option<real>): seq<Leg> {
    var sels := RestrictAll([shortSel, longSel]);
    Assemble(sels, PutBackspreadBad(sels[0], sels[1], maxAbs, maxPct), [-1, 2], ["S", "L"])
  }

  lemma PutBackspreadLegsSpec(shortSel: Selection, longSel: Selection, maxAbs: Option<real>, maxPct: Option<real>)
    ensures var legs := PutBackspreadLegs(shortSel, longSel, maxAbs, maxPct);
            forall tid :: tid in TradesOf(legs) <==>
              tid in shortSel.rows && tid in longSel.rows && PutBackspreadGood(shortSel, longSel, maxAbs, maxPct, tid)
    ensures var legs := PutBackspreadLegs(shortSel, longSel, maxAbs, maxPct);
            legs == [] || LegsFrom(legs, [shortSel, longSel], [-1, 2], ["S", "L"])
  {
    var raw := [shortSel, longSel];
    var sels := RestrictAll(raw);
    AssembleKeeps(raw, PutBackspreadBad(sels[0], sels[1], maxAbs, maxPct), [-1, 2], ["S", "L"]);
    forall tid
      ensures tid in TradesOf(PutBackspreadLegs(shortSel, longSel, maxAbs, maxPct)) <==>
              tid in shortSel.rows && tid in longSel.rows && PutBackspreadGood(shortSel, longSel, maxAbs, maxPct, tid)
    {
      if tid in shortSel.rows && tid in longSel.rows {
        RestrictAt2(shortSel, longSel, tid);
        PutBackspreadCongruent(sels[0], sels[1], shortSel, longSel, maxAbs, maxPct, tid);
      }
      AssemblePair(shortSel, longSel, PutBackspreadBad(sels[0], sels[1], maxAbs, maxPct), [-1, 2], ["S", "L"], tid,
                   tid in shortSel.rows && tid in longSel.rows && PutBackspreadGood(shortSel, longSel, maxAbs, maxPct, tid));
    }
  }

  lemma PutBackspreadCongruent(s: Selection, l: Selection, s2: Selection, l2: Selection,
                               maxAbs: Option<real>, maxPct: Option<real>, tid: TradeId)
    requires SameAt(s, s2, tid) && SameAt(l, l2, tid)
    ensures PutBackspreadGood(s, l, maxAbs, maxPct, tid) == PutBackspreadGood(s2, l2, maxAbs, maxPct, tid)
  {
  }

  /**
   * The builder raises KeyError for a missing price column, or for a
   * missing strike column once a short put was found; otherwise a trade
   * is kept exactly when both legs exist and pass the checks.
   */
  lemma PutBackspreadSpec(tf: seq<Episode>, t: OptionTable, pct: real, dte: int, priceCol: string,
                          maxAbs: Option<real>, maxPct: Option<real>)
    ensures var r := PutBackspread(tf, t, pct, dte, priceCol, maxAbs, maxPct);
            var s := SelectPct(t, BaseReq(tf), "P", pct, dte, priceCol, map[]);
            (r.Err? <==> |tf| > 0 && (PriceColMissing(t, priceCol) || (s.value.rows != map[] && "strike" !in t.columns))) &&
            (r.Err? ==> r.error == if PriceColMissing(t, priceCol) then KeyError(priceCol) else KeyError("strike"))
    ensures |tf| > 0 && !PriceColMissing(t, priceCol) && "strike" in t.columns ==>
              var req := BaseReq(tf);
              var s := SelectPct(t, req, "P", pct, dte, priceCol, map[]).value;
              var l := PutLong(t, req, s, dte, priceCol, maxAbs, maxPct);
              var legs := PutBackspread(tf, t, pct, dte, priceCol, maxAbs, maxPct).value;
              forall tid :: tid in TradesOf(legs) <==>
                tid in s.rows && tid in l.rows && PutBackspreadGood(s, l, maxAbs, maxPct, tid)
  {
    if |tf| > 0 && !PriceColMissing(t, priceCol) {
      var req := BaseReq(tf);
      var s := SelectPct(t, req, "P", pct, dte, priceCol, map[]).value;
      var l := PutLong(t, req, s, dte, priceCol, maxAbs, maxPct);
      assert PutBackspread(tf, t, pct, dte, priceCol, maxAbs, maxPct) ==
             if s.rows == map[] then Ok([])
             else if !s.hasStrike then Err(KeyError("strike"))
             else if l.rows == map[] then Ok([])
             else Ok(PutBackspreadLegs(s, l, maxAbs, maxPct));
      PutBackspreadLegsSpec(s, l, maxAbs, maxPct);
    }
  }

  /**
   * Under a cap the later checks never drop a trade: the capped pipeline
   * already keeps only cheaper puts with a lower strike within the caps,
   * so every trade with both legs is emitted.
   */
  lemma CappedChecksRedundant(t: OptionTable, req: seq<Trade>, s: Selection, dte: int, priceCol: string,
                              maxAbs: Option<real>, maxPct: Option<real>)
    requires Capped(maxAbs, maxPct)
    ensures var l := CappedLong(t, req, s, dte, priceCol, maxAbs, maxPct);
            forall tid :: tid in TradesOf(PutBackspreadLegs(s, l, maxAbs, maxPct)) <==> tid in s.rows && tid in l.rows
  {
    ChecksRedundant(s, CappedLong(t, req, s, dte, priceCol, maxAbs, maxPct), maxAbs, maxPct);
  }

  /** Long rows that already pass the candidate checks pass the builder's checks too. */
  lemma ChecksRedundant(s: Selection, l: Selection, maxAbs: Option<real>, maxPct: Option<real>)
    requires forall tid :: tid in l.rows ==> tid in s.rows && LongRowOk(s.rows[tid], l.rows[tid], maxAbs, maxPct)
    ensures forall tid :: tid in TradesOf(PutBackspreadLegs(s, l, maxAbs, maxPct)) <==> tid in s.rows && tid in l.rows
  {
    PutBackspreadLegsSpec(s, l, maxAbs, maxPct);
    forall tid | tid in s.rows && tid in l.rows
      ensures PutBackspreadGood(s, l, maxAbs, maxPct, tid)
    {
      assert LongRowOk(s.rows[tid], l.rows[tid], maxAbs, maxPct);
    }
  }
}
