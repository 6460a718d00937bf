/**
 * The strategy builders that select every leg by percent-from-strike
 * target: single long options, the four verticals, the put vertical with
 * a tail put, the straddle, the iron condor and the jade lizard.
 *
 * Each builder `X` selects its legs in the source's order (each later leg
 * may exclude an earlier leg's contract, and an empty selection ends the
 * builder with no positions). Only the first selection can raise: the
 * selector's error depends on the table and the price column alone, so
 * once one call returned, every later call returns too. Then `XLegs`
 * aligns the legs, asks `XBad` which trades fail the strategy's sanity
 * checks and emits the rest. The position rows are `Emit` of the legs. `XLegsSpec` states which trades
 * survive in terms of the raw selections, and `XSpec` states when the
 * builder raises and which trades it emits.
 */
module Strategies {
  import opened Common
  import opened Episodes
  import opened Quotes
  import opened Selector
  import opened StratHelpers

  /** The rows a builder returns, from its legs. */
  function Positions(legs: Result<seq<Leg>>): (r: Result<set<Position>>)
    ensures r.Ok? <==> legs.Ok?
    ensures r.Ok? ==> r.value == Emit(legs.value)
  {
    var l :- legs;
    Ok(Emit(l))
  }

  // ----- single-leg strategies -----

  /** `find_long_call_ids`, and with `optionType` "P" `find_long_put_ids`: one long option per trade. */
  function LongOption(tf: seq<Episode>, t: OptionTable, optionType: string, pct: real, dte: int,
                      priceCol: string): Result<seq<Leg>>
  {
    if tf == [] then Ok([])
    else
      var sel :- SelectPct(t, BaseReq(tf), optionType, pct, dte, priceCol, map[]);
      if sel.rows == map[] then Ok([]) else Ok([Leg(sel, 1, "L")])
  }

  lemma LongOptionSpec(tf: seq<Episode>, t: OptionTable, optionType: string, pct: real, dte: int, priceCol: string)
    ensures var r := LongOption(tf, t, optionType, pct, dte, priceCol);
            r.Err? <==> |tf| > 0 && PriceColMissing(t, priceCol)
    ensures var r := LongOption(tf, t, optionType, pct, dte, priceCol);
            r.Err? ==> r.error == KeyError(priceCol)
    ensures var r := LongOption(tf, t, optionType, pct, dte, priceCol);
            r.Ok? && |tf| > 0 ==>
              var sel := SelectPct(t, BaseReq(tf), optionType, pct, dte, priceCol, map[]).value;
              (r.value == [] || r.value == [Leg(sel, 1, "L")]) &&
              forall tid :: tid in TradesOf(r.value) <==> tid in sel.rows
  {
  }

  // ----- bull call debit spread -----

  /**
   * `find_bull_call_debit_spread_ids`: +1 call at `pctLong`, then -1 call
   * at `pctShort` that is not the long contract.
   */
  function BullCallDebit(tf: seq<Episode>, t: OptionTable, pctLong: real, pctShort: real, dte: int,
                         priceCol: string): Result<seq<Leg>>
  {
    if tf == [] then Ok([])
    else
      var req := BaseReq(tf);
      var longSel :- SelectPct(t, req, "C", pctLong, dte, priceCol, map[]);
      if longSel.rows == map[] then Ok([])
      else
        var shortSel := SelectPct(t, req, "C", pctShort, dte, priceCol, ExcludeOf(longSel)).value;
        if shortSel.rows == map[] then Ok([])
        else Ok(BullCallDebitLegs(longSel, shortSel))
  }

  /** The debit must be paid (long dearer than short) and the short strike must be above the long one. */
  function BullCallDebitBad(l: Selection, s: Selection): (bad: set<TradeId>)
    requires Aligned(l, s)
    ensures forall tid :: tid in bad <==>
              tid in l.rows && !(PriceBelow(s, l, tid) && StrikesOrdered(s, l, Gt, tid))
  {
    CheckPriceGt(l, s) + CheckStrikeOrder(s, l, "gt").value
  }

  function BullCallDebitLegs(longSel: Selection, shortSel: Selection): seq<Leg> {
    var sels := RestrictAll([longSel, shortSel]);
    Assemble(sels, BullCallDebitBad(sels[0], sels[1]), [1, -1], ["L", "S"])
  }

  lemma BullCallDebitLegsSpec(longSel: Selection, shortSel: Selection)
    ensures var legs := BullCallDebitLegs(longSel, shortSel);
            forall tid :: tid in TradesOf(legs) <==>
              tid in longSel.rows && tid in shortSel.rows &&
              PriceBelow(shortSel, longSel, tid) && StrikesOrdered(shortSel, longSel, Gt, tid)
    ensures var legs := BullCallDebitLegs(longSel, shortSel);
            legs == [] || LegsFrom(legs, [longSel, shortSel], [1, -1], ["L", "S"])
  {
    var sels := RestrictAll([longSel, shortSel]);
    AssembleKeeps([longSel, shortSel], BullCallDebitBad(sels[0], sels[1]), [1, -1], ["L", "S"]);
    forall tid
      ensures tid in TradesOf(BullCallDebitLegs(longSel, shortSel)) <==>
              tid in longSel.rows && tid in shortSel.rows &&
              PriceBelow(shortSel, longSel, tid) && StrikesOrdered(shortSel, longSel, Gt, tid)
    {
      if tid in longSel.rows && tid in shortSel.rows {
        RestrictAt2(longSel, shortSel, tid);
        PairCongruent(sels[1], sels[0], shortSel, longSel, tid, Gt);
      }
      AssemblePair(longSel, shortSel, BullCallDebitBad(sels[0], sels[1]), [1, -1], ["L", "S"], tid,
                   tid in longSel.rows && tid in shortSel.rows &&
                   PriceBelow(shortSel, longSel, tid) && StrikesOrdered(shortSel, longSel, Gt, tid));
    }
  }

  lemma BullCallDebitSpec(tf: seq<Episode>, t: OptionTable, pctLong: real, pctShort: real, dte: int, priceCol: string)
    ensures var r := BullCallDebit(tf, t, pctLong, pctShort, dte, priceCol);
            (r.Err? <==> |tf| > 0 && PriceColMissing(t, priceCol)) && (r.Err? ==> r.error == KeyError(priceCol))
    ensures |tf| > 0 && !PriceColMissing(t, priceCol) ==>
              var req := BaseReq(tf);
              var l := SelectPct(t, req, "C", pctLong, dte, priceCol, map[]).value;
              var s := SelectPct(t, req, "C", pctShort, dte, priceCol, ExcludeOf(l)).value;
              var legs := BullCallDebit(tf, t, pctLong, pctShort, dte, priceCol).value;
              forall tid :: tid in TradesOf(legs) <==>
                tid in l.rows && tid in s.rows && PriceBelow(s, l, tid) && StrikesOrdered(s, l, Gt, tid)
  {
    if |tf| > 0 && !PriceColMissing(t, priceCol) {
      var req := BaseReq(tf);
      var l := SelectPct(t, req, "C", pctLong, dte, priceCol, map[]).value;
      var s := SelectPct(t, req, "C", pctShort, dte, priceCol, ExcludeOf(l)).value;
      BullCallDebitLegsSpec(l, s);
    }
  }

  // ----- bear put debit spread -----

  /**
   * `find_bear_put_debit_spread_ids`: +1 put at `pctLong`, then -1 put at
   * `pctShort` that is not the long contract.
   */
  function BearPutDebit(tf: seq<Episode>, t: OptionTable, pctLong: real, pctShort: real, dte: int,
                        priceCol: string): Result<seq<Leg>>
  {
    if tf == [] then Ok([])
    else
      var req := BaseReq(tf);
      var longSel :- SelectPct(t, req, "P", pctLong, dte, priceCol, map[]);
      if longSel.rows == map[] then Ok([])
      else
        var shortSel := SelectPct(t, req, "P", pctShort, dte, priceCol, ExcludeOf(longSel)).value;
        if shortSel.rows == map[] then Ok([])
        else Ok(BearPutDebitLegs(longSel, shortSel))
  }

  /** The debit must be paid (long dearer than short) and the long strike must be above the short one. */
  function BearPutDebitBad(l: Selection, s: Selection): (bad: set<TradeId>)
    requires Aligned(l, s)
    ensures forall tid :: tid in bad <==>
              tid in l.rows && !(PriceBelow(s, l, tid) && StrikesOrdered(l, s, Gt, tid))
  {
    CheckPriceGt(l, s) + CheckStrikeOrder(l, s, "gt").value
  }

  function BearPutDebitLegs(longSel: Selection, shortSel: Selection): seq<Leg> {
    var sels := RestrictAll([longSel, shortSel]);
    Assemble(sels, BearPutDebitBad(sels[0], sels[1]), [1, -1], ["L", "S"])
  }

  lemma BearPutDebitLegsSpec(longSel: Selection, shortSel: Selection)
    ensures var legs := BearPutDebitLegs(longSel, shortSel);
            forall tid :: tid in TradesOf(legs) <==>
              tid in longSel.rows && tid in shortSel.rows &&
              PriceBelow(shortSel, longSel, tid) && StrikesOrdered(longSel, shortSel, Gt, tid)
    ensures var legs := BearPutDebitLegs(longSel, shortSel);
            legs == [] || LegsFrom(legs, [longSel, shortSel], [1, -1], ["L", "S"])
  {
    var sels := RestrictAll([longSel, shortSel]);
    AssembleKeeps([longSel, shortSel], BearPutDebitBad(sels[0], sels[1]), [1, -1], ["L", "S"]);
    forall tid
      ensures tid in TradesOf(BearPutDebitLegs(longSel, shortSel)) <==>
              tid in longSel.rows && tid in shortSel.rows &&
              PriceBelow(shortSel, longSel, tid) && StrikesOrdered(longSel, shortSel, Gt, tid)
    {
      if tid in longSel.rows && tid in shortSel.rows {
        RestrictAt2(longSel, shortSel, tid);
        PairCongruent(sels[1], sels[0], shortSel, longSel, tid, Gt);
        PairCongruent(sels[0], sels[1], longSel, shortSel, tid, Gt);
      }
      AssemblePair(longSel, shortSel, BearPutDebitBad(sels[0], sels[1]), [1, -1], ["L", "S"], tid,
                   tid in longSel.rows && tid in shortSel.rows &&
                   PriceBelow(shortSel, longSel, tid) && StrikesOrdered(longSel, shortSel, Gt, tid));
    }
  }

  lemma BearPutDebitSpec(tf: seq<Episode>, t: OptionTable, pctLong: real, pctShort: real, dte: int, priceCol: string)
    ensures var r := BearPutDebit(tf, t, pctLong, pctShort, dte, priceCol);
            (r.Err? <==> |tf| > 0 && PriceColMissing(t, priceCol)) && (r.Err? ==> r.error == KeyError(priceCol))
    ensures |tf| > 0 && !PriceColMissing(t, priceCol) ==>
              var req := BaseReq(tf);
              var l := SelectPct(t, req, "P", pctLong, dte, priceCol, map[]).value;
              var s := SelectPct(t, req, "P", pctShort, dte, priceCol, ExcludeOf(l)).value;
              var legs := BearPutDebit(tf, t, pctLong, pctShort, dte, priceCol).value;
              forall tid :: tid in TradesOf(legs) <==>
                tid in l.rows && tid in s.rows && PriceBelow(s, l, tid) && StrikesOrdered(l, s, Gt, tid)
  {
    if |tf| > 0 && !PriceColMissing(t, priceCol) {
      var req := BaseReq(tf);
      var l := SelectPct(t, req, "P", pctLong, dte, priceCol, map[]).value;
      var s := SelectPct(t, req, "P", pctShort, dte, priceCol, ExcludeOf(l)).value;
      BearPutDebitLegsSpec(l, s);
    }
  }

  // ----- credit verticals -----

  /**
   * `find_bull_put_credit_spread_ids` (`optionType` "P", wing strike
   * below) and `find_bear_call_credit_spread_ids` (`optionType` "C", wing
   * strike above): -1 option at `pctShort`, then +1 option at `pctLong`
   * that is not the short contract. The legs are emitted short first.
   */
  function CreditSpread(tf: seq<Episode>, t: OptionTable, optionType: string, pctShort: real, pctLong: real,
                        dte: int, priceCol: string): Result<seq<Leg>>
  {
    if tf == [] then Ok([])
    else
      var req := BaseReq(tf);
      var shortSel :- SelectPct(t, req, optionType, pctShort, dte, priceCol, map[]);
      if shortSel.rows == map[] then Ok([])
      else
        var longSel := SelectPct(t, req, optionType, pctLong, dte, priceCol, ExcludeOf(shortSel)).value;
        if longSel.rows == map[] then Ok([])
        else Ok(CreditSpreadLegs(optionType, shortSel, longSel))
  }

  /** The comparison the wing strike must satisfy against the short strike: below for puts, above for calls. */
  function WingOp(optionType: string): StrikeCmp {
    if optionType == "P" then Lt else Gt
  }

  /** A credit must be received (wing cheaper than the short) and the wing strike must be further out. */
  function CreditSpreadBad(optionType: string, s: Selection, l: Selection): (bad: set<TradeId>)
    requires Aligned(s, l)
    ensures forall tid :: tid in bad <==>
              tid in s.rows && !(PriceBelow(l, s, tid) && StrikesOrdered(l, s, WingOp(optionType), tid))
  {
    CheckPriceLt(l, s) + CheckStrikeOrder(l, s, if optionType == "P" then "lt" else "gt").value
  }

  function CreditSpreadLegs(optionType: string, shortSel: Selection, longSel: Selection): seq<Leg> {
    var sels := RestrictAll([shortSel, longSel]);
    Assemble(sels, CreditSpreadBad(optionType, sels[0], sels[1]), [-1, 1], ["S", "L"])
  }

  lemma CreditSpreadLegsSpec(optionType: string, shortSel: Selection, longSel: Selection)
    ensures var legs := CreditSpreadLegs(optionType, shortSel, longSel);
            forall tid :: tid in TradesOf(legs) <==>
              tid in shortSel.rows && tid in longSel.rows &&
              PriceBelow(longSel, shortSel, tid) && StrikesOrdered(longSel, shortSel, WingOp(optionType), tid)
    ensures var legs := CreditSpreadLegs(optionType, shortSel, longSel);
            legs == [] || LegsFrom(legs, [shortSel, longSel], [-1, 1], ["S", "L"])
  {
    var sels := RestrictAll([shortSel, longSel]);
    AssembleKeeps([shortSel, longSel], CreditSpreadBad(optionType, sels[0], sels[1]), [-1, 1], ["S", "L"]);
    forall tid
      ensures tid in TradesOf(CreditSpreadLegs(optionType, shortSel, longSel)) <==>
              tid in shortSel.rows && tid in longSel.rows &&
              PriceBelow(longSel, shortSel, tid) && StrikesOrdered(longSel, shortSel, WingOp(optionType), tid)
    {
      CreditSpreadAt(optionType, shortSel, longSel, [-1, 1], tid);
    }
  }

  /** One trade of a credit spread (or of a call backspread, which runs the same checks) with given quantities. */
  lemma CreditSpreadAt(optionType: string, shortSel: Selection, longSel: Selection, qtys: seq<int>, tid: TradeId)
    requires |qtys| == 2
    ensures var sels := RestrictAll([shortSel, longSel]);
            tid in TradesOf(Assemble(sels, CreditSpreadBad(optionType, sels[0], sels[1]), qtys, ["S", "L"])) <==>
            tid in shortSel.rows && tid in longSel.rows &&
            PriceBelow(longSel, shortSel, tid) && StrikesOrdered(longSel, shortSel, WingOp(optionType), tid)
  {
    var sels := RestrictAll([shortSel, longSel]);
    if tid in shortSel.rows && tid in longSel.rows {
      RestrictAt2(shortSel, longSel, tid);
      PairCongruent(sels[1], sels[0], longSel, shortSel, tid, WingOp(optionType));
    }
    AssemblePair(shortSel, longSel, CreditSpreadBad(optionType, sels[0], sels[1]), qtys, ["S", "L"], tid,
                 tid in shortSel.rows && tid in longSel.rows &&
                 PriceBelow(longSel, shortSel, tid) && StrikesOrdered(longSel, shortSel, WingOp(optionType), tid));
  }

  lemma CreditSpreadSpec(tf: seq<Episode>, t: OptionTable, optionType: string, pctShort: real, pctLong: real,
                         dte: int, priceCol: string)
    ensures var r := CreditSpread(tf, t, optionType, pctShort, pctLong, dte, priceCol);
            (r.Err? <==> |tf| > 0 && PriceColMissing(t, priceCol)) && (r.Err? ==> r.error == KeyError(priceCol))
    ensures |tf| > 0 && !PriceColMissing(t, priceCol) ==>
              var req := BaseReq(tf);
              var s := SelectPct(t, req, optionType, pctShort, dte, priceCol, map[]).value;
              var l := SelectPct(t, req, optionType, pctLong, dte, priceCol, ExcludeOf(s)).value;
              var legs := CreditSpread(tf, t, optionType, pctShort, pctLong, dte, priceCol).value;
              forall tid :: tid in TradesOf(legs) <==>
                tid in s.rows && tid in l.rows && PriceBelow(l, s, tid) && StrikesOrdered(l, s, WingOp(optionType), tid)
  {
    if |tf| > 0 && !PriceColMissing(t, priceCol) {
      var req := BaseReq(tf);
      var s := SelectPct(t, req, optionType, pctShort, dte, priceCol, map[]).value;
      var l := SelectPct(t, req, optionType, pctLong, dte, priceCol, ExcludeOf(s)).value;
      CreditSpreadLegsSpec(optionType, s, l);
    }
  }

  // ----- put verticals with a tail put -----

  /** The two legs hold different contracts for the trade. */
  predicate DistinctContracts(a: Selection, b: Selection, tid: TradeId)
    requires tid in a.rows && tid in b.rows
  {
    a.rows[tid].id != b.rows[tid].id
  }

  /** The trades where the two aligned legs picked the same contract. */
  function SameContract(a: Selection, b: Selection): (bad: set<TradeId>)
    requires Aligned(a, b)
    ensures forall tid :: tid in bad <==> tid in a.rows && !DistinctContracts(a, b, tid)
  {
    set tid | tid in a.rows && a.rows[tid].id == b.rows[tid].id
  }

  /**
   * `find_bull_put_credit_spread_plus_tail_put_ids`: -1 put at `pctShort`,
   * +1 put at `pctLong` that is not the short contract, and `tailQty` puts
   * at `pctTail` that are not the long contract.
   */
  function BullPutTail(tf: seq<Episode>, t: OptionTable, pctShort: real, pctLong: real, pctTail: real,
                       dte: int, priceCol: string, tailQty: int): Result<seq<Leg>>
  {
    if tf == [] then Ok([])
    else
      var req := BaseReq(tf);
      var shortSel :- SelectPct(t, req, "P", pctShort, dte, priceCol, map[]);
      if shortSel.rows == map[] then Ok([])
      else
        var longSel := SelectPct(t, req, "P", pctLong, dte, priceCol, ExcludeOf(shortSel)).value;
        if longSel.rows == map[] then Ok([])
        else
          var tailSel := SelectPct(t, req, "P", pctTail, dte, priceCol, ExcludeOf(longSel)).value;
          if tailSel.rows == map[] then Ok([])
          else Ok(BullPutTailLegs(shortSel, longSel, tailSel, tailQty))
  }

  /**
   * The tail is not the short contract, both long puts are cheaper than
   * the short one, and the strikes run tail < long < short.
   */
  predicate BullPutTailGood(s: Selection, l: Selection, tl: Selection, tid: TradeId)
    requires tid in s.rows && tid in l.rows && tid in tl.rows
  {
    DistinctContracts(tl, s, tid) && PriceBelow(l, s, tid) && PriceBelow(tl, s, tid) &&
    StrikesOrdered(tl, l, Lt, tid) && StrikesOrdered(l, s, Lt, tid)
  }

  function BullPutTailBad(s: Selection, l: Selection, tl: Selection): (bad: set<TradeId>)
    requires Aligned(s, l) && Aligned(s, tl)
    ensures forall tid :: tid in bad <==> tid in s.rows && !BullPutTailGood(s, l, tl, tid)
  {
    SameContract(tl, s) + CheckPriceLt(l, s) + CheckPriceLt(tl, s) +
    CheckStrikeOrder(tl, l, "lt").value + CheckStrikeOrder(l, s, "lt").value
  }

  function BullPutTailLegs(shortSel: Selection, longSel: Selection, tailSel: Selection, tailQty: int): seq<Leg> {
    var sels := RestrictAll([shortSel, longSel, tailSel]);
    Assemble(sels, BullPutTailBad(sels[0], sels[1], sels[2]), [-1, 1, tailQty], ["S", "L", "L"])
  }

  lemma BullPutTailLegsSpec(shortSel: Selection, longSel: Selection, tailSel: Selection, tailQty: int)
    ensures var legs := BullPutTailLegs(shortSel, longSel, tailSel, tailQty);
            forall tid :: tid in TradesOf(legs) <==>
              tid in shortSel.rows && tid in longSel.rows && tid in tailSel.rows &&
              BullPutTailGood(shortSel, longSel, tailSel, tid)
    ensures var legs := BullPutTailLegs(shortSel, longSel, tailSel, tailQty);
            legs == [] || LegsFrom(legs, [shortSel, longSel, tailSel], [-1, 1, tailQty], ["S", "L", "L"])
  {
    var raw := [shortSel, longSel, tailSel];
    var sels := RestrictAll(raw);
    AssembleKeeps(raw, BullPutTailBad(sels[0], sels[1], sels[2]), [-1, 1, tailQty], ["S", "L", "L"]);
    forall tid
      ensures tid in TradesOf(BullPutTailLegs(shortSel, longSel, tailSel, tailQty)) <==>
              tid in shortSel.rows && tid in longSel.rows && tid in tailSel.rows &&
              BullPutTailGood(shortSel, longSel, tailSel, tid)
    {
      BullPutTailAt(shortSel, longSel, tailSel, tailQty, tid);
    }
  }

  /** One trade is kept exactly when every leg selected it and its legs fit. */
  lemma BullPutTailAt(shortSel: Selection, longSel: Selection, tailSel: Selection, tailQty: int, tid: TradeId)
    ensures tid in TradesOf(BullPutTailLegs(shortSel, longSel, tailSel, tailQty)) <==>
            tid in shortSel.rows && tid in longSel.rows && tid in tailSel.rows && BullPutTailGood(shortSel, longSel, tailSel, tid)
  {
    var sels := RestrictAll([shortSel, longSel, tailSel]);
    if tid in shortSel.rows && tid in longSel.rows && tid in tailSel.rows {
      RestrictAt3(shortSel, longSel, tailSel, tid);
      BullPutTailCongruent(sels[0], sels[1], sels[2], shortSel, longSel, tailSel, tid);
    }
    AssembleTriple(shortSel, longSel, tailSel, BullPutTailBad(sels[0], sels[1], sels[2]), [-1, 1, tailQty], ["S", "L", "L"], tid,
                   tid in shortSel.rows && tid in longSel.rows && tid in tailSel.rows && BullPutTailGood(shortSel, longSel, tailSel, tid));
  }

  lemma BullPutTailCongruent(s: Selection, l: Selection, tl: Selection, s2: Selection, l2: Selection, tl2: Selection,
                             tid: TradeId)
    requires SameAt(s, s2, tid) && SameAt(l, l2, tid) && SameAt(tl, tl2, tid)
    ensures BullPutTailGood(s, l, tl, tid) == BullPutTailGood(s2, l2, tl2, tid)
  {
  }

  lemma BullPutTailSpec(tf: seq<Episode>, t: OptionTable, pctShort: real, pctLong: real, pctTail: real,
                        dte: int, priceCol: string, tailQty: int)
    ensures var r := BullPutTail(tf, t, pctShort, pctLong, pctTail, dte, priceCol, tailQty);
            (r.Err? <==> |tf| > 0 && PriceColMissing(t, priceCol)) && (r.Err? ==> r.error == KeyError(priceCol))
    ensures |tf| > 0 && !PriceColMissing(t, priceCol) ==>
              var req := BaseReq(tf);
              var s := SelectPct(t, req, "P", pctShort, dte, priceCol, map[]).value;
              var l := SelectPct(t, req, "P", pctLong, dte, priceCol, ExcludeOf(s)).value;
              var tl := SelectPct(t, req, "P", pctTail, dte, priceCol, ExcludeOf(l)).value;
              var legs := BullPutTail(tf, t, pctShort, pctLong, pctTail, dte, priceCol, tailQty).value;
              forall tid :: tid in TradesOf(legs) <==>
                tid in s.rows && tid in l.rows && tid in tl.rows && BullPutTailGood(s, l, tl, tid)
  {
    if |tf| > 0 && !PriceColMissing(t, priceCol) {
      var req := BaseReq(tf);
      var s := SelectPct(t, req, "P", pctShort, dte, priceCol, map[]).value;
      var l := SelectPct(t, req, "P", pctLong, dte, priceCol, ExcludeOf(s)).value;
      var tl := SelectPct(t, req, "P", pctTail, dte, priceCol, ExcludeOf(l)).value;
      BullPutTailLegsSpec(s, l, tl, tailQty);
    }
  }

  /**
   * `find_bear_put_debit_spread_plus_tail_put_ids`: +1 put at `pctLong`,
   * -1 put at `pctShort` that is not the long contract, and `tailQty` puts
   * at `pctTail` that are not the short contract.
   */
  function BearPutTail(tf: seq<Episode>, t: OptionTable, pctLong: real, pctShort: real, pctTail: real,
                       dte: int, priceCol: string, tailQty: int): Result<seq<Leg>>
  {
    if tf == [] then Ok([])
    else
      var req := BaseReq(tf);
      var longSel :- SelectPct(t, req, "P", pctLong, dte, priceCol, map[]);
      if longSel.rows == map[] then Ok([])
      else
        var shortSel := SelectPct(t, req, "P", pctShort, dte, priceCol, ExcludeOf(longSel)).value;
        if shortSel.rows == map[] then Ok([])
        else
          var tailSel := SelectPct(t, req, "P", pctTail, dte, priceCol, ExcludeOf(shortSel)).value;
          if tailSel.rows == map[] then Ok([])
          else Ok(BearPutTailLegs(longSel, shortSel, tailSel, tailQty))
  }

  /**
   * The tail is neither the long nor the short contract, the long put is
   * dearer and the tail cheaper than the short one, and the strikes run
   * tail < short < long.
   */
  predicate BearPutTailGood(l: Selection, s: Selection, tl: Selection, tid: TradeId)
    requires tid in l.rows && tid in s.rows && tid in tl.rows
  {
    DistinctContracts(tl, l, tid) && DistinctContracts(tl, s, tid) &&
    PriceBelow(s, l, tid) && PriceBelow(tl, s, tid) &&
    StrikesOrdered(tl, s, Lt, tid) && StrikesOrdered(s, l, Lt, tid)
  }

  function BearPutTailBad(l: Selection, s: Selection, tl: Selection): (bad: set<TradeId>)
    requires Aligned(l, s) && Aligned(l, tl)
    ensures forall tid :: tid in bad <==> tid in l.rows && !BearPutTailGood(l, s, tl, tid)
  {
    SameContract(tl, l) + SameContract(tl, s) + CheckPriceGt(l, s) + CheckPriceLt(tl, s) +
    CheckStrikeOrder(tl, s, "lt").value + CheckStrikeOrder(s, l, "lt").value
  }

  function BearPutTailLegs(longSel: Selection, shortSel: Selection, tailSel: Selection, tailQty: int): seq<Leg> {
    var sels := RestrictAll([longSel, shortSel, tailSel]);
    Assemble(sels, BearPutTailBad(sels[0], sels[1], sels[2]), [1, -1, tailQty], ["L", "S", "L"])
  }

  lemma BearPutTailLegsSpec(longSel: Selection, shortSel: Selection, tailSel: Selection, tailQty: int)
    ensures var legs := BearPutTailLegs(longSel, shortSel, tailSel, tailQty);
            forall tid :: tid in TradesOf(legs) <==>
              tid in longSel.rows && tid in shortSel.rows && tid in tailSel.rows &&
              BearPutTailGood(longSel, shortSel, tailSel, tid)
    ensures var legs := BearPutTailLegs(longSel, shortSel, tailSel, tailQty);
            legs == [] || LegsFrom(legs, [longSel, shortSel, tailSel], [1, -1, tailQty], ["L", "S", "L"])
  {
    var raw := [longSel, shortSel, tailSel];
    var sels := RestrictAll(raw);
    AssembleKeeps(raw, BearPutTailBad(sels[0], sels[1], sels[2]), [1, -1, tailQty], ["L", "S", "L"]);
    forall tid
      ensures tid in TradesOf(BearPutTailLegs(longSel, shortSel, tailSel, tailQty)) <==>
              tid in longSel.rows && tid in shortSel.rows && tid in tailSel.rows &&
              BearPutTailGood(longSel, shortSel, tailSel, tid)
    {
      BearPutTailAt(longSel, shortSel, tailSel, tailQty, tid);
    }
  }

  /** One trade is kept exactly when every leg selected it and its legs fit. */
  lemma BearPutTailAt(longSel: Selection, shortSel: Selection, tailSel: Selection, tailQty: int, tid: TradeId)
    ensures tid in TradesOf(BearPutTailLegs(longSel, shortSel, tailSel, tailQty)) <==>
            tid in longSel.rows && tid in shortSel.rows && tid in tailSel.rows && BearPutTailGood(longSel, shortSel, tailSel, tid)
  {
    var sels := RestrictAll([longSel, shortSel, tailSel]);
    if tid in longSel.rows && tid in shortSel.rows && tid in tailSel.rows {
      RestrictAt3(longSel, shortSel, tailSel, tid);
      BearPutTailCongruent(sels[0], sels[1], sels[2], longSel, shortSel, tailSel, tid);
    }
    AssembleTriple(longSel, shortSel, tailSel, BearPutTailBad(sels[0], sels[1], sels[2]), [1, -1, tailQty], ["L", "S", "L"], tid,
                   tid in longSel.rows && tid in shortSel.rows && tid in tailSel.rows && BearPutTailGood(longSel, shortSel, tailSel, tid));
  }

  lemma BearPutTailCongruent(l: Selection, s: Selection, tl: Selection, l2: Selection, s2: Selection, tl2: Selection,
                             tid: TradeId)
    requires SameAt(l, l2, tid) && SameAt(s, s2, tid) && SameAt(tl, tl2, tid)
    ensures BearPutTailGood(l, s, tl, tid) == BearPutTailGood(l2, s2, tl2, tid)
  {
  }

  lemma BearPutTailSpec(tf: seq<Episode>, t: OptionTable, pctLong: real, pctShort: real, pctTail: real,
                        dte: int, priceCol: string, tailQty: int)
    ensures var r := BearPutTail(tf, t, pctLong, pctShort, pctTail, dte, priceCol, tailQty);
            (r.Err? <==> |tf| > 0 && PriceColMissing(t, priceCol)) && (r.Err? ==> r.error == KeyError(priceCol))
    ensures |tf| > 0 && !PriceColMissing(t, priceCol) ==>
              var req := BaseReq(tf);
              var l := SelectPct(t, req, "P", pctLong, dte, priceCol, map[]).value;
              var s := SelectPct(t, req, "P", pctShort, dte, priceCol, ExcludeOf(l)).value;
              var tl := SelectPct(t, req, "P", pctTail, dte, priceCol, ExcludeOf(s)).value;
              var legs := BearPutTail(tf, t, pctLong, pctShort, pctTail, dte, priceCol, tailQty).value;
              forall tid :: tid in TradesOf(legs) <==>
                tid in l.rows && tid in s.rows && tid in tl.rows && BearPutTailGood(l, s, tl, tid)
  {
    if |tf| > 0 && !PriceColMissing(t, priceCol) {
      var req := BaseReq(tf);
      var l := SelectPct(t, req, "P", pctLong, dte, priceCol, map[]).value;
      var s := SelectPct(t, req, "P", pctShort, dte, priceCol, ExcludeOf(l)).value;
      var tl := SelectPct(t, req, "P", pctTail, dte, priceCol, ExcludeOf(s)).value;
      BearPutTailLegsSpec(l, s, tl, tailQty);
    }
  }

  // ----- long straddle -----

  /**
   * `find_long_straddle_ids`: +1 call and +1 put, both at `pct`. Both legs
   * are selected before either is checked for emptiness, and the aligned
   * legs are emitted without further checks.
   */
  function Straddle(tf: seq<Episode>, t: OptionTable, pct: real, dte: int, priceCol: string): Result<seq<Leg>> {
    if tf == [] then Ok([])
    else
      var req := BaseReq(tf);
      var callSel :- SelectPct(t, req, "C", pct, dte, priceCol, map[]);
      var putSel := SelectPct(t, req, "P", pct, dte, priceCol, map[]).value;
      if callSel.rows == map[] || putSel.rows == map[] then Ok([])
      else Ok(StraddleLegs(callSel, putSel))
  }

  /** With nothing flagged, `Finish` drops nothing and the aligned legs are emitted as they are. */
  function StraddleLegs(callSel: Selection, putSel: Selection): seq<Leg> {
    Assemble(RestrictAll([callSel, putSel]), {}, [1, 1], ["L", "L"])
  }

  lemma StraddleLegsSpec(callSel: Selection, putSel: Selection)
    ensures var legs := StraddleLegs(callSel, putSel);
            forall tid :: tid in TradesOf(legs) <==> tid in callSel.rows && tid in putSel.rows
    ensures var legs := StraddleLegs(callSel, putSel);
            legs == [] || LegsFrom(legs, [callSel, putSel], [1, 1], ["L", "L"])
  {
    var raw := [callSel, putSel];
    AssembleKeeps(raw, {}, [1, 1], ["L", "L"]);
    forall tid
      ensures tid in TradesOf(StraddleLegs(callSel, putSel)) <==> tid in callSel.rows && tid in putSel.rows
    {
      InAll2(callSel, putSel, tid);
    }
  }

  lemma StraddleSpec(tf: seq<Episode>, t: OptionTable, pct: real, dte: int, priceCol: string)
    ensures var r := Straddle(tf, t, pct, dte, priceCol);
            (r.Err? <==> |tf| > 0 && PriceColMissing(t, priceCol)) && (r.Err? ==> r.error == KeyError(priceCol))
    ensures |tf| > 0 && !PriceColMissing(t, priceCol) ==>
              var req := BaseReq(tf);
              var c := SelectPct(t, req, "C", pct, dte, priceCol, map[]).value;
              var p := SelectPct(t, req, "P", pct, dte, priceCol, map[]).value;
              var legs := Straddle(tf, t, pct, dte, priceCol).value;
              forall tid :: tid in TradesOf(legs) <==> tid in c.rows && tid in p.rows
  {
    if |tf| > 0 && !PriceColMissing(t, priceCol) {
      var req := BaseReq(tf);
      var c := SelectPct(t, req, "C", pct, dte, priceCol, map[]).value;
      var p := SelectPct(t, req, "P", pct, dte, priceCol, map[]).value;
      StraddleLegsSpec(c, p);
    }
  }

  // ----- iron condor -----

  /**
   * `find_iron_condor_ids`: -1 put at `pctShortPut`, +1 put at
   * `pctLongPut` that is not the short put, -1 call at `pctShortCall` and
   * +1 call at `pctLongCall` that is not the short call.
   */
  function IronCondor(tf: seq<Episode>, t: OptionTable, pctShortPut: real, pctLongPut: real, pctShortCall: real,
                      pctLongCall: real, dte: int, priceCol: string): Result<seq<Leg>>
  {
    if tf == [] then Ok([])
    else
      var req := BaseReq(tf);
      var sp :- SelectPct(t, req, "P", pctShortPut, dte, priceCol, map[]);
      if sp.rows == map[] then Ok([])
      else
        var lp := SelectPct(t, req, "P", pctLongPut, dte, priceCol, ExcludeOf(sp)).value;
        if lp.rows == map[] then Ok([])
        else
          var sc := SelectPct(t, req, "C", pctShortCall, dte, priceCol, map[]).value;
          if sc.rows == map[] then Ok([])
          else
            var lc := SelectPct(t, req, "C", pctLongCall, dte, priceCol, ExcludeOf(sc)).value;
            if lc.rows == map[] then Ok([])
            else Ok(IronCondorLegs(sp, lp, sc, lc))
  }

  /**
   * Both wings are cheaper than their shorts, the put wing strike is below
   * the short put's, the call wing strike above the short call's, and the
   * short put strike below the short call strike.
   */
  predicate IronCondorGood(sp: Selection, lp: Selection, sc: Selection, lc: Selection, tid: TradeId)
    requires tid in sp.rows && tid in lp.rows && tid in sc.rows && tid in lc.rows
  {
    PriceBelow(lp, sp, tid) && PriceBelow(lc, sc, tid) &&
    StrikesOrdered(lp, sp, Lt, tid) && StrikesOrdered(lc, sc, Gt, tid) && StrikesOrdered(sp, sc, Lt, tid)
  }

  /** The short put against short call test is the strike-order check with "lt", written out in the source. */
  function IronCondorBad(sp: Selection, lp: Selection, sc: Selection, lc: Selection): (bad: set<TradeId>)
    requires Aligned(sp, lp) && Aligned(sp, sc) && Aligned(sp, lc)
    ensures forall tid :: tid in bad <==> tid in sp.rows && !IronCondorGood(sp, lp, sc, lc, tid)
  {
    CheckPriceLt(lp, sp) + CheckPriceLt(lc, sc) +
    CheckStrikeOrder(lp, sp, "lt").value + CheckStrikeOrder(lc, sc, "gt").value +
    StrikeViolations(sp, sc, Lt)
  }

  function IronCondorLegs(sp: Selection, lp: Selection, sc: Selection, lc: Selection): seq<Leg> {
    var sels := RestrictAll([sp, lp, sc, lc]);
    Assemble(sels, IronCondorBad(sels[0], sels[1], sels[2], sels[3]), [-1, 1, -1, 1], ["S", "L", "S", "L"])
  }

  lemma IronCondorCongruent(sp: Selection, lp: Selection, sc: Selection, lc: Selection,
                            sp2: Selection, lp2: Selection, sc2: Selection, lc2: Selection, tid: TradeId)
    requires SameAt(sp, sp2, tid) && SameAt(lp, lp2, tid) && SameAt(sc, sc2, tid) && SameAt(lc, lc2, tid)
    ensures IronCondorGood(sp, lp, sc, lc, tid) == IronCondorGood(sp2, lp2, sc2, lc2, tid)
  {
  }

  lemma IronCondorLegsSpec(sp: Selection, lp: Selection, sc: Selection, lc: Selection)
    ensures var legs := IronCondorLegs(sp, lp, sc, lc);
            forall tid :: tid in TradesOf(legs) <==>
              tid in sp.rows && tid in lp.rows && tid in sc.rows && tid in lc.rows &&
              IronCondorGood(sp, lp, sc, lc, tid)
    ensures var legs := IronCondorLegs(sp, lp, sc, lc);
            legs == [] || LegsFrom(legs, [sp, lp, sc, lc], [-1, 1, -1, 1], ["S", "L", "S", "L"])
  {
    var raw := [sp, lp, sc, lc];
    var sels := RestrictAll(raw);
    AssembleKeeps(raw, IronCondorBad(sels[0], sels[1], sels[2], sels[3]), [-1, 1, -1, 1], ["S", "L", "S", "L"]);
    forall tid
      ensures tid in TradesOf(IronCondorLegs(sp, lp, sc, lc)) <==>
              tid in sp.rows && tid in lp.rows && tid in sc.rows && tid in lc.rows &&
              IronCondorGood(sp, lp, sc, lc, tid)
    {
      IronCondorAt(sp, lp, sc, lc, tid);
    }
  }

  /** One trade of the iron condor is kept exactly when every leg selected it and its legs fit. */
  lemma IronCondorAt(sp: Selection, lp: Selection, sc: Selection, lc: Selection, tid: TradeId)
    ensures tid in TradesOf(IronCondorLegs(sp, lp, sc, lc)) <==>
            tid in sp.rows && tid in lp.rows && tid in sc.rows && tid in lc.rows &&
            IronCondorGood(sp, lp, sc, lc, tid)
  {
    var sels := RestrictAll([sp, lp, sc, lc]);
    if tid in sp.rows && tid in lp.rows && tid in sc.rows && tid in lc.rows {
      RestrictAt4(sp, lp, sc, lc, tid);
      IronCondorCongruent(sels[0], sels[1], sels[2], sels[3], sp, lp, sc, lc, tid);
    }
    AssembleQuad(sp, lp, sc, lc, IronCondorBad(sels[0], sels[1], sels[2], sels[3]), [-1, 1, -1, 1],
                 ["S", "L", "S", "L"], tid,
                 tid in sp.rows && tid in lp.rows && tid in sc.rows && tid in lc.rows &&
                 IronCondorGood(sp, lp, sc, lc, tid));
  }

  lemma IronCondorSpec(tf: seq<Episode>, t: OptionTable, pctShortPut: real, pctLongPut: real, pctShortCall: real,
                       pctLongCall: real, dte: int, priceCol: string)
    ensures var r := IronCondor(tf, t, pctShortPut, pctLongPut, pctShortCall, pctLongCall, dte, priceCol);
            (r.Err? <==> |tf| > 0 && PriceColMissing(t, priceCol)) && (r.Err? ==> r.error == KeyError(priceCol))
    ensures |tf| > 0 && !PriceColMissing(t, priceCol) ==>
              var req := BaseReq(tf);
              var sp := SelectPct(t, req, "P", pctShortPut, dte, priceCol, map[]).value;
              var lp := SelectPct(t, req, "P", pctLongPut, dte, priceCol, ExcludeOf(sp)).value;
              var sc := SelectPct(t, req, "C", pctShortCall, dte, priceCol, map[]).value;
              var lc := SelectPct(t, req, "C", pctLongCall, dte, priceCol, ExcludeOf(sc)).value;
              var legs := IronCondor(tf, t, pctShortPut, pctLongPut, pctShortCall, pctLongCall, dte, priceCol).value;
              forall tid :: tid in TradesOf(legs) <==>
                tid in sp.rows && tid in lp.rows && tid in sc.rows && tid in lc.rows &&
                IronCondorGood(sp, lp, sc, lc, tid)
  {
    if |tf| > 0 && !PriceColMissing(t, priceCol) {
      var req := BaseReq(tf);
      var sp := SelectPct(t, req, "P", pctShortPut, dte, priceCol, map[]).value;
      var lp := SelectPct(t, req, "P", pctLongPut, dte, priceCol, ExcludeOf(sp)).value;
      var sc := SelectPct(t, req, "C", pctShortCall, dte, priceCol, map[]).value;
      var lc := SelectPct(t, req, "C", pctLongCall, dte, priceCol, ExcludeOf(sc)).value;
      IronCondorLegsSpec(sp, lp, sc, lc);
    }
  }

  // ----- jade lizard -----

  /**
   * `find_jade_lizard_ids`: -1 put at `pctShortPut`, -1 call at
   * `pctShortCall` and +1 call at `pctLongCall` that is not the short call.
   */
  function JadeLizard(tf: seq<Episode>, t: OptionTable, pctShortPut: real, pctShortCall: real, pctLongCall: real,
                      dte: int, priceCol: string): Result<seq<Leg>>
  {
    if tf == [] then Ok([])
    else
      var req := BaseReq(tf);
      var sp :- SelectPct(t, req, "P", pctShortPut, dte, priceCol, map[]);
      if sp.rows == map[] then Ok([])
      else
        var sc := SelectPct(t, req, "C", pctShortCall, dte, priceCol, map[]).value;
        if sc.rows == map[] then Ok([])
        else
          var lc := SelectPct(t, req, "C", pctLongCall, dte, priceCol, ExcludeOf(sc)).value;
          if lc.rows == map[] then Ok([])
          else Ok(JadeLizardLegs(sp, sc, lc))
  }

  /** The call wing is cheaper than the short call and its strike is above the short call's. */
  predicate JadeLizardGood(sp: Selection, sc: Selection, lc: Selection, tid: TradeId)
    requires tid in sp.rows && tid in sc.rows && tid in lc.rows
  {
    PriceBelow(lc, sc, tid) && StrikesOrdered(lc, sc, Gt, tid)
  }

  function JadeLizardBad(sp: Selection, sc: Selection, lc: Selection): (bad: set<TradeId>)
    requires Aligned(sp, sc) && Aligned(sp, lc)
    ensures forall tid :: tid in bad <==> tid in sp.rows && !JadeLizardGood(sp, sc, lc, tid)
  {
    CheckPriceLt(lc, sc) + CheckStrikeOrder(lc, sc, "gt").value
  }

  function JadeLizardLegs(sp: Selection, sc: Selection, lc: Selection): seq<Leg> {
    var sels := RestrictAll([sp, sc, lc]);
    Assemble(sels, JadeLizardBad(sels[0], sels[1], sels[2]), [-1, -1, 1], ["S", "S", "L"])
  }

  lemma JadeLizardCongruent(sp: Selection, sc: Selection, lc: Selection, sp2: Selection, sc2: Selection, lc2: Selection,
                            tid: TradeId)
    requires SameAt(sp, sp2, tid) && SameAt(sc, sc2, tid) && SameAt(lc, lc2, tid)
    ensures JadeLizardGood(sp, sc, lc, tid) == JadeLizardGood(sp2, sc2, lc2, tid)
  {
  }

  lemma JadeLizardLegsSpec(sp: Selection, sc: Selection, lc: Selection)
    ensures var legs := JadeLizardLegs(sp, sc, lc);
            forall tid :: tid in TradesOf(legs) <==>
              tid in sp.rows && tid in sc.rows && tid in lc.rows && JadeLizardGood(sp, sc, lc, tid)
    ensures var legs := JadeLizardLegs(sp, sc, lc);
            legs == [] || LegsFrom(legs, [sp, sc, lc], [-1, -1, 1], ["S", "S", "L"])
  {
    var raw := [sp, sc, lc];
    var sels := RestrictAll(raw);
    AssembleKeeps(raw, JadeLizardBad(sels[0], sels[1], sels[2]), [-1, -1, 1], ["S", "S", "L"]);
    forall tid
      ensures tid in TradesOf(JadeLizardLegs(sp, sc, lc)) <==>
              tid in sp.rows && tid in sc.rows && tid in lc.rows && JadeLizardGood(sp, sc, lc, tid)
    {
      JadeLizardAt(sp, sc, lc, tid);
    }
  }

  /** One trade is kept exactly when every leg selected it and its legs fit. */
  lemma JadeLizardAt(sp: Selection, sc: Selection, lc: Selection, tid: TradeId)
    ensures tid in TradesOf(JadeLizardLegs(sp, sc, lc)) <==>
            tid in sp.rows && tid in sc.rows && tid in lc.rows && JadeLizardGood(sp, sc, lc, tid)
  {
    var sels := RestrictAll([sp, sc, lc]);
    if tid in sp.rows && tid in sc.rows && tid in lc.rows {
      RestrictAt3(sp, sc, lc, tid);
      JadeLizardCongruent(sels[0], sels[1], sels[2], sp, sc, lc, tid);
    }
    AssembleTriple(sp, sc, lc, JadeLizardBad(sels[0], sels[1], sels[2]), [-1, -1, 1], ["S", "S", "L"], tid,
                   tid in sp.rows && tid in sc.rows && tid in lc.rows && JadeLizardGood(sp, sc, lc, tid));
  }

  lemma JadeLizardSpec(tf: seq<Episode>, t: OptionTable, pctShortPut: real, pctShortCall: real, pctLongCall: real,
                       dte: int, priceCol: string)
    ensures var r := JadeLizard(tf, t, pctShortPut, pctShortCall, pctLongCall, dte, priceCol);
            (r.Err? <==> |tf| > 0 && PriceColMissing(t, priceCol)) && (r.Err? ==> r.error == KeyError(priceCol))
    ensures |tf| > 0 && !PriceColMissing(t, priceCol) ==>
              var req := BaseReq(tf);
              var sp := SelectPct(t, req, "P", pctShortPut, dte, priceCol, map[]).value;
              var sc := SelectPct(t, req, "C", pctShortCall, dte, priceCol, map[]).value;
              var lc := SelectPct(t, req, "C", pctLongCall, dte, priceCol, ExcludeOf(sc)).value;
              var legs := JadeLizard(tf, t, pctShortPut, pctShortCall, pctLongCall, dte, priceCol).value;
              forall tid :: tid in TradesOf(legs) <==>
                tid in sp.rows && tid in sc.rows && tid in lc.rows && JadeLizardGood(sp, sc, lc, tid)
  {
    if |tf| > 0 && !PriceColMissing(t, priceCol) {
      var req := BaseReq(tf);
      var sp := SelectPct(t, req, "P", pctShortPut, dte, priceCol, map[]).value;
      var sc := SelectPct(t, req, "C", pctShortCall, dte, priceCol, map[]).value;
      var lc := SelectPct(t, req, "C", pctLongCall, dte, priceCol, ExcludeOf(sc)).value;
      JadeLizardLegsSpec(sp, sc, lc);
    }
  }
}
