/**
 * The builders whose later legs are selected from requests built out of
 * the short leg's own row: the call backspread and the split strangle
 * target half the short premium, the calendar targets the short leg's
 * percent-from-strike at a later expiry. As in `Strategies`, only the
 * first selection can raise, and each builder is an `XLegs` assembly of
 * its selections with an `XLegsSpec` and an `XSpec`.
 */
module RatioStrategies {
  import opened Common
  import opened Numeric
  import opened Episodes
  import opened Quotes
  import opened Selector
  import opened StratHelpers
  import opened Strategies

  // ----- call backspread -----

  /**
   * `find_call_backspread_ids`: -1 call at `pct`, then +2 calls, each
   * trade asking for half its short call's price, never the short contract.
   */
  function CallBackspread(tf: seq<Episode>, t: OptionTable, pct: real, dte: int, priceCol: string): Result<seq<Leg>> {
    if tf == [] then Ok([])
    else
      var req := BaseReq(tf);
      var shortSel :- SelectPct(t, req, "C", pct, dte, priceCol, map[]);
      if shortSel.rows == map[] then Ok([])
      else
        var longSel := SelectFollow(t, req, shortSel, "C", true, dte, priceCol, ExcludeOf(shortSel)).value;
        if longSel.rows == map[] then Ok([])
        else Ok(CallBackspreadLegs(shortSel, longSel))
  }

  /** The checks are those of the bear call credit spread: a cheaper long call with a higher strike. */
  function CallBackspreadLegs(shortSel: Selection, longSel: Selection): seq<Leg> {
    var sels := RestrictAll([shortSel, longSel]);
    Assemble(sels, CreditSpreadBad("C", sels[0], sels[1]), [-1, 2], ["S", "L"])
  }

  lemma CallBackspreadLegsSpec(shortSel: Selection, longSel: Selection)
    ensures var legs := CallBackspreadLegs(shortSel, longSel);
            forall tid :: tid in TradesOf(legs) <==>
              tid in shortSel.rows && tid in longSel.rows &&
              PriceBelow(longSel, shortSel, tid) && StrikesOrdered(longSel, shortSel, Gt, tid)
    ensures var legs := CallBackspreadLegs(shortSel, longSel);
            legs == [] || LegsFrom(legs, [shortSel, longSel], [-1, 2], ["S", "L"])
  {
    var sels := RestrictAll([shortSel, longSel]);
    AssembleKeeps([shortSel, longSel], CreditSpreadBad("C", sels[0], sels[1]), [-1, 2], ["S", "L"]);
    forall tid
      ensures tid in TradesOf(CallBackspreadLegs(shortSel, longSel)) <==>
              tid in shortSel.rows && tid in longSel.rows &&
              PriceBelow(longSel, shortSel, tid) && StrikesOrdered(longSel, shortSel, Gt, tid)
    {
      CreditSpreadAt("C", shortSel, longSel, [-1, 2], tid);
    }
  }

  lemma CallBackspreadSpec(tf: seq<Episode>, t: OptionTable, pct: real, dte: int, priceCol: string)
    ensures var r := CallBackspread(tf, t, pct, dte, priceCol);
            (r.Err? <==> |tf| > 0 && PriceColMissing(t, priceCol)) && (r.Err? ==> r.error == KeyError(priceCol))
    ensures |tf| > 0 && !PriceColMissing(t, priceCol) ==>
              var req := BaseReq(tf);
              var s := SelectPct(t, req, "C", pct, dte, priceCol, map[]).value;
              var l := SelectFollow(t, req, s, "C", true, dte, priceCol, ExcludeOf(s)).value;
              var legs := CallBackspread(tf, t, pct, dte, priceCol).value;
              forall tid :: tid in TradesOf(legs) <==>
                tid in s.rows && tid in l.rows && PriceBelow(l, s, tid) && StrikesOrdered(l, s, Gt, tid)
  {
    if |tf| > 0 && !PriceColMissing(t, priceCol) {
      var req := BaseReq(tf);
      var s := SelectPct(t, req, "C", pct, dte, priceCol, map[]).value;
      var l := SelectFollow(t, req, s, "C", true, dte, priceCol, ExcludeOf(s)).value;
      assert CallBackspread(tf, t, pct, dte, priceCol) ==
             if s.rows == map[] || l.rows == map[] then Ok([]) else Ok(CallBackspreadLegs(s, l));
      CallBackspreadLegsSpec(s, l);
    }
  }

  // ----- call calendar -----

  /**
   * `find_call_calendar_ids`: -1 call at `pct` nearest `dteShort`, then +1
   * call nearest `dteLong` at the short call's own percent-from-strike,
   * never the short contract.
   */
  function Calendar(tf: seq<Episode>, t: OptionTable, pct: real, dteShort: int, dteLong: int,
                    priceCol: string): Result<seq<Leg>>
  {
    if tf == [] then Ok([])
    else
      var req := BaseReq(tf);
      var shortSel :- SelectPct(t, req, "C", pct, dteShort, priceCol, map[]);
      if shortSel.rows == map[] then Ok([])
      else
        var longSel := SelectFollow(t, req, shortSel, "C", false, dteLong, priceCol, ExcludeOf(shortSel)).value;
        if longSel.rows == map[] then Ok([])
        else Ok(CalendarLegs(shortSel, longSel))
  }

  /** The long call expires strictly later and, with a strike column, has exactly the short strike. */
  predicate CalendarGood(s: Selection, l: Selection, tid: TradeId)
    requires tid in s.rows && tid in l.rows
  {
    l.rows[tid].dte > s.rows[tid].dte && StrikesOrdered(l, s, Eq, tid)
  }

  /**
   * The trades whose long leg does not expire later are dropped first and
   * the strike check runs on the rest; both tests look at one trade at a
   * time, so the dropped trades are the union of the two.
   */
  function CalendarBad(s: Selection, l: Selection): (bad: set<TradeId>)
    requires Aligned(s, l)
    ensures forall tid :: tid in bad <==> tid in s.rows && !CalendarGood(s, l, tid)
  {
    (set tid | tid in s.rows && !(l.rows[tid].dte > s.rows[tid].dte)) + CheckStrikeOrder(l, s, "eq").value
  }

  lemma CalendarCongruent(s: Selection, l: Selection, s2: Selection, l2: Selection, tid: TradeId)
    requires SameAt(s, s2, tid) && SameAt(l, l2, tid)
    ensures CalendarGood(s, l, tid) == CalendarGood(s2, l2, tid)
  {
  }

  function CalendarLegs(shortSel: Selection, longSel: Selection): seq<Leg> {
    var sels := RestrictAll([shortSel, longSel]);
    Assemble(sels, CalendarBad(sels[0], sels[1]), [-1, 1], ["S", "L"])
  }

  lemma CalendarLegsSpec(shortSel: Selection, longSel: Selection)
    ensures var legs := CalendarLegs(shortSel, longSel);
            forall tid :: tid in TradesOf(legs) <==>
              tid in shortSel.rows && tid in longSel.rows && CalendarGood(shortSel, longSel, tid)
    ensures var legs := CalendarLegs(shortSel, longSel);
            legs == [] || LegsFrom(legs, [shortSel, longSel], [-1, 1], ["S", "L"])
  {
    var raw := [shortSel, longSel];
    var sels := RestrictAll(raw);
    AssembleKeeps(raw, CalendarBad(sels[0], sels[1]), [-1, 1], ["S", "L"]);
    forall tid
      ensures tid in TradesOf(CalendarLegs(shortSel, longSel)) <==>
              tid in shortSel.rows && tid in longSel.rows && CalendarGood(shortSel, longSel, tid)
    {
      if tid in shortSel.rows && tid in longSel.rows {
        RestrictAt2(shortSel, longSel, tid);
        CalendarCongruent(sels[0], sels[1], shortSel, longSel, tid);
      }
      AssemblePair(shortSel, longSel, CalendarBad(sels[0], sels[1]), [-1, 1], ["S", "L"], tid,
                   tid in shortSel.rows && tid in longSel.rows && CalendarGood(shortSel, longSel, tid));
    }
  }

  lemma CalendarSpec(tf: seq<Episode>, t: OptionTable, pct: real, dteShort: int, dteLong: int, priceCol: string)
    ensures var r := Calendar(tf, t, pct, dteShort, dteLong, priceCol);
            (r.Err? <==> |tf| > 0 && PriceColMissing(t, priceCol)) && (r.Err? ==> r.error == KeyError(priceCol))
    ensures |tf| > 0 && !PriceColMissing(t, priceCol) ==>
              var req := BaseReq(tf);
              var s := SelectPct(t, req, "C", pct, dteShort, priceCol, map[]).value;
              var l := SelectFollow(t, req, s, "C", false, dteLong, priceCol, ExcludeOf(s)).value;
              var legs := Calendar(tf, t, pct, dteShort, dteLong, priceCol).value;
              forall tid :: tid in TradesOf(legs) <==> tid in s.rows && tid in l.rows && CalendarGood(s, l, tid)
  {
    if |tf| > 0 && !PriceColMissing(t, priceCol) {
      var req := BaseReq(tf);
      var s := SelectPct(t, req, "C", pct, dteShort, priceCol, map[]).value;
      var l := SelectFollow(t, req, s, "C", false, dteLong, priceCol, ExcludeOf(s)).value;
      assert Calendar(tf, t, pct, dteShort, dteLong, priceCol) ==
             if s.rows == map[] || l.rows == map[] then Ok([]) else Ok(CalendarLegs(s, l));
      CalendarLegsSpec(s, l);
    }
  }

  // ----- call split strangle -----

  /** The out-of-the-money universe of one option type: rows with a negative percent-from-strike. */
  function OtmUniverse(t: OptionTable, optionType: string): (u: OptionTable)
    ensures u.columns == t.columns
    ensures forall q :: q in u.rows <==>
              q in t.rows && q.optionType == optionType && q.pctFromStrike.Some? && q.pctFromStrike.value < 0.0
  {
    OptionTable(t.columns, Filter(t.rows, (q: Quote) =>
      q.optionType == optionType && q.pctFromStrike.Some? && q.pctFromStrike.value < 0.0))
  }

  /**
   * The three selections of `find_call_split_strangle_ids`: -1 call at
   * `pct`, then +1 call and +1 put from the out-of-the-money universes,
   * each asking for half the short premium, the long call never the short
   * contract. None when there are no trades or a selection comes back empty.
   */
  function SplitStrangleSels(tf: seq<Episode>, t: OptionTable, pct: real, dte: int, priceCol: string)
    : Result<Option<(Selection, Selection, Selection)>>
  {
    if tf == [] then Ok(None)
    else
      var req := BaseReq(tf);
      var shortSel :- SelectPct(t, req, "C", pct, dte, priceCol, map[]);
      if shortSel.rows == map[] then Ok(None)
      else
        var lc := SelectFollow(OtmUniverse(t, "C"), req, shortSel, "C", true, dte, priceCol, ExcludeOf(shortSel)).value;
        if lc.rows == map[] then Ok(None)
        else
          var lp := SelectFollow(OtmUniverse(t, "P"), req, shortSel, "P", true, dte, priceCol, map[]).value;
          if lp.rows == map[] then Ok(None)
          else Ok(Some((shortSel, lc, lp)))
  }

  /**
   * The split strangle with its checks as evidently intended: a trade is
   * dropped when its legs are not financed or either long strike is on
   * the wrong side of spot.
   */
  function SplitStrangle(tf: seq<Episode>, t: OptionTable, pct: real, dte: int, priceCol: string): Result<seq<Leg>> {
    var legs :- SplitStrangleSels(tf, t, pct, dte, priceCol);
    match legs
    case None => Ok([])
    case Some((s, lc, lp)) => Ok(SplitStrangleLegs(s, lc, lp))
  }

  /** The spot implied by the short call: strike times one plus percent-from-strike, NaN without a strike column. */
  function Spot(s: Selection, tid: TradeId): (r: Option<real>)
    requires tid in s.rows
    ensures r.Some? ==> s.hasStrike && s.rows[tid].strike.Some? && s.rows[tid].pctFromStrike.Some? &&
                        r.value == s.rows[tid].strike.value * (1.0 + s.rows[tid].pctFromStrike.value)
  {
    if s.hasStrike then Mul(s.rows[tid].strike, Add(Some(1.0), s.rows[tid].pctFromStrike)) else None
  }

  /** The two long premiums together do not exceed the short premium, when all three are known. */
  predicate Financed(s: Selection, lc: Selection, lp: Selection, tid: TradeId)
    requires tid in s.rows && tid in lc.rows && tid in lp.rows
  {
    var sp, cp, pp := s.rows[tid].price, lc.rows[tid].price, lp.rows[tid].price;
    !(sp.Some? && cp.Some? && pp.Some? && cp.value + pp.value > sp.value)
  }

  /** With a known spot and a known long strike on the leg, that strike lies on the right side of spot. */
  predicate StrikeSide(s: Selection, leg: Selection, above: bool, tid: TradeId)
    requires tid in s.rows && tid in leg.rows
  {
    var spot := Spot(s, tid);
    var k := leg.rows[tid].strike;
    leg.hasStrike && spot.Some? && k.Some? ==> (if above then k.value > spot.value else k.value < spot.value)
  }

  predicate SplitStrangleGood(s: Selection, lc: Selection, lp: Selection, tid: TradeId)
    requires tid in s.rows && tid in lc.rows && tid in lp.rows
  {
    Financed(s, lc, lp, tid) && StrikeSide(s, lc, true, tid) && StrikeSide(s, lp, false, tid)
  }

  /**
   * The trades the three checks are meant to drop: each check looks at
   * one trade at a time, so dropping them one after the other drops their
   * union.
   */
  function SplitStrangleBad(s: Selection, lc: Selection, lp: Selection): (bad: set<TradeId>)
    requires Aligned(s, lc) && Aligned(s, lp)
    ensures forall tid :: tid in bad <==> tid in s.rows && !SplitStrangleGood(s, lc, lp, tid)
  {
    (set tid | tid in s.rows && !Financed(s, lc, lp, tid)) +
    (set tid | tid in s.rows && !StrikeSide(s, lc, true, tid)) +
    (set tid | tid in s.rows && !StrikeSide(s, lp, false, tid))
  }

  function SplitStrangleLegs(shortSel: Selection, lc: Selection, lp: Selection): seq<Leg> {
    var sels := RestrictAll([shortSel, lc, lp]);
    Assemble(sels, SplitStrangleBad(sels[0], sels[1], sels[2]), [-1, 1, 1], ["S", "L", "L"])
  }

  lemma SplitStrangleCongruent(s: Selection, lc: Selection, lp: Selection, s2: Selection, lc2: Selection, lp2: Selection,
                               tid: TradeId)
    requires SameAt(s, s2, tid) && SameAt(lc, lc2, tid) && SameAt(lp, lp2, tid)
    ensures SplitStrangleGood(s, lc, lp, tid) == SplitStrangleGood(s2, lc2, lp2, tid)
  {
  }

  lemma SplitStrangleLegsSpec(shortSel: Selection, lc: Selection, lp: Selection)
    ensures var legs := SplitStrangleLegs(shortSel, lc, lp);
            forall tid :: tid in TradesOf(legs) <==>
              tid in shortSel.rows && tid in lc.rows && tid in lp.rows && SplitStrangleGood(shortSel, lc, lp, tid)
    ensures var legs := SplitStrangleLegs(shortSel, lc, lp);
            legs == [] || LegsFrom(legs, [shortSel, lc, lp], [-1, 1, 1], ["S", "L", "L"])
  {
    var raw := [shortSel, lc, lp];
    var sels := RestrictAll(raw);
    AssembleKeeps(raw, SplitStrangleBad(sels[0], sels[1], sels[2]), [-1, 1, 1], ["S", "L", "L"]);
    forall tid
      ensures tid in TradesOf(SplitStrangleLegs(shortSel, lc, lp)) <==>
              tid in shortSel.rows && tid in lc.rows && tid in lp.rows && SplitStrangleGood(shortSel, lc, lp, tid)
    {
      SplitStrangleAt(shortSel, lc, lp, tid);
    }
  }

  /** One trade is kept exactly when every leg selected it and its legs fit. */
  lemma SplitStrangleAt(shortSel: Selection, lc: Selection, lp: Selection, tid: TradeId)
    ensures tid in TradesOf(SplitStrangleLegs(shortSel, lc, lp)) <==>
            tid in shortSel.rows && tid in lc.rows && tid in lp.rows && SplitStrangleGood(shortSel, lc, lp, tid)
  {
    var sels := RestrictAll([shortSel, lc, lp]);
    if tid in shortSel.rows && tid in lc.rows && tid in lp.rows {
      RestrictAt3(shortSel, lc, lp, tid);
      SplitStrangleCongruent(sels[0], sels[1], sels[2], shortSel, lc, lp, tid);
    }
    AssembleTriple(shortSel, lc, lp, SplitStrangleBad(sels[0], sels[1], sels[2]), [-1, 1, 1], ["S", "L", "L"], tid,
                   tid in shortSel.rows && tid in lc.rows && tid in lp.rows && SplitStrangleGood(shortSel, lc, lp, tid));
  }

  /** The selections fail only on a missing price column, and otherwise are the three legs' selections. */
  lemma SplitStrangleSelsSpec(tf: seq<Episode>, t: OptionTable, pct: real, dte: int, priceCol: string)
    ensures var r := SplitStrangleSels(tf, t, pct, dte, priceCol);
            (r.Err? <==> |tf| > 0 && PriceColMissing(t, priceCol)) && (r.Err? ==> r.error == KeyError(priceCol))
    ensures |tf| > 0 && !PriceColMissing(t, priceCol) ==>
              var req := BaseReq(tf);
              var s := SelectPct(t, req, "C", pct, dte, priceCol, map[]).value;
              var lc := SelectFollow(OtmUniverse(t, "C"), req, s, "C", true, dte, priceCol, ExcludeOf(s)).value;
              var lp := SelectFollow(OtmUniverse(t, "P"), req, s, "P", true, dte, priceCol, map[]).value;
              SplitStrangleSels(tf, t, pct, dte, priceCol) ==
                if s.rows == map[] || lc.rows == map[] || lp.rows == map[] then Ok(None) else Ok(Some((s, lc, lp)))
  {
    if |tf| > 0 && !PriceColMissing(t, priceCol) {
      OtmUniverseMissing(t, "C", priceCol);
      OtmUniverseMissing(t, "P", priceCol);
    }
  }

  lemma SplitStrangleSpec(tf: seq<Episode>, t: OptionTable, pct: real, dte: int, priceCol: string)
    ensures var r := SplitStrangle(tf, t, pct, dte, priceCol);
            (r.Err? <==> |tf| > 0 && PriceColMissing(t, priceCol)) && (r.Err? ==> r.error == KeyError(priceCol))
    ensures |tf| > 0 && !PriceColMissing(t, priceCol) ==>
              var req := BaseReq(tf);
              var s := SelectPct(t, req, "C", pct, dte, priceCol, map[]).value;
              var lc := SelectFollow(OtmUniverse(t, "C"), req, s, "C", true, dte, priceCol, ExcludeOf(s)).value;
              var lp := SelectFollow(OtmUniverse(t, "P"), req, s, "P", true, dte, priceCol, map[]).value;
              var legs := SplitStrangle(tf, t, pct, dte, priceCol).value;
              forall tid :: tid in TradesOf(legs) <==>
                tid in s.rows && tid in lc.rows && tid in lp.rows && SplitStrangleGood(s, lc, lp, tid)
  {
    SplitStrangleSelsSpec(tf, t, pct, dte, priceCol);
    var sels := SplitStrangleSels(tf, t, pct, dte, priceCol);
    if sels.Ok? && sels.value.Some? {
      var (s, lc, lp) := sels.value.value;
      SplitStrangleLegsSpec(s, lc, lp);
    }
  }

  /** A universe drawn from the table lacks a price column only when the table does. */
  lemma OtmUniverseMissing(t: OptionTable, optionType: string, priceCol: string)
    ensures PriceColMissing(OtmUniverse(t, optionType), priceCol) ==> PriceColMissing(t, priceCol)
  {
    var u := OtmUniverse(t, optionType);
    if |u.rows| > 0 {
      assert u.rows[0] in t.rows;
    }
  }

  // ----- the split strangle as written -----

  /** What pandas raises when two series with different labels are compared. */
  const LabelMismatch := ValueError("Can only compare identically-labeled Series objects")

  /** The trades the long-call check drops: financed, but the long strike not above spot. */
  function CallSideDrops(s: Selection, lc: Selection, lp: Selection): (r: set<TradeId>)
    requires Aligned(s, lc) && Aligned(s, lp)
    ensures forall tid :: tid in r <==> tid in s.rows && Financed(s, lc, lp, tid) && !StrikeSide(s, lc, true, tid)
  {
    set tid | tid in s.rows && Financed(s, lc, lp, tid) && !StrikeSide(s, lc, true, tid)
  }

  /**
   * The three checks as `find_call_split_strangle_ids` runs them. Spot is
   * computed once, before the long-call check; once that check has
   * dropped a trade from the legs but not from spot, the long-put check
   * compares two series with different labels, and pandas raises.
   */
  function SplitStrangleChecks(s: Selection, lc: Selection, lp: Selection): (r: Result<set<TradeId>>)
    requires Aligned(s, lc) && Aligned(s, lp)
    ensures r.Err? <==> lp.hasStrike && CallSideDrops(s, lc, lp) != {}
    ensures r.Err? ==> r.error == LabelMismatch
    ensures r.Ok? ==> forall tid :: tid in r.value <==> tid in s.rows && !SplitStrangleGood(s, lc, lp, tid)
  {
    if lp.hasStrike && CallSideDrops(s, lc, lp) != {} then Err(LabelMismatch)
    else Ok(SplitStrangleBad(s, lc, lp))
  }

  /** `find_call_split_strangle_ids` as written: the checks of SplitStrangleChecks on the aligned selections. */
  function SplitStrangleAsWritten(tf: seq<Episode>, t: OptionTable, pct: real, dte: int, priceCol: string)
    : Result<seq<Leg>>
  {
    var legs :- SplitStrangleSels(tf, t, pct, dte, priceCol);
    match legs
    case None => Ok([])
    case Some((s, lc, lp)) =>
      var sels := RestrictAll([s, lc, lp]);
      var bad :- SplitStrangleChecks(sels[0], sels[1], sels[2]);
      Ok(Assemble(sels, bad, [-1, 1, 1], ["S", "L", "L"]))
  }

  /** The long-call check drops a commonly selected trade. */
  predicate CallSideDropsSome(s: Selection, lc: Selection, lp: Selection) {
    exists tid :: tid in s.rows && tid in lc.rows && tid in lp.rows &&
                  Financed(s, lc, lp, tid) && !StrikeSide(s, lc, true, tid)
  }

  lemma CallSideCongruent(s: Selection, lc: Selection, lp: Selection, s2: Selection, lc2: Selection, lp2: Selection,
                           tid: TradeId)
    requires SameAt(s, s2, tid) && SameAt(lc, lc2, tid) && SameAt(lp, lp2, tid)
    ensures Financed(s, lc, lp, tid) == Financed(s2, lc2, lp2, tid)
    ensures StrikeSide(s, lc, true, tid) == StrikeSide(s2, lc2, true, tid)
  {
  }

  /** A trade the check drops on the aligned selections was selected by every leg, with the same rows. */
  lemma CallSideDropFrom(s: Selection, lc: Selection, lp: Selection, tid: TradeId)
    requires var sels := RestrictAll([s, lc, lp]); tid in CallSideDrops(sels[0], sels[1], sels[2])
    ensures tid in s.rows && tid in lc.rows && tid in lp.rows &&
            Financed(s, lc, lp, tid) && !StrikeSide(s, lc, true, tid)
  {
    var raw := [s, lc, lp];
    var sels := RestrictAll(raw);
    var v := ValidIntersection(raw);
    assert sels[0] == Restrict(s, v) && sels[1] == Restrict(lc, v) && sels[2] == Restrict(lp, v);
    assert tid in sels[1].rows && tid in sels[2].rows;
    RestrictAt3(s, lc, lp, tid);
    CallSideCongruent(sels[0], sels[1], sels[2], s, lc, lp, tid);
  }

  /** On the aligned selections the long-call check drops a trade exactly when it drops a commonly selected one. */
  lemma CallSideDropsAligned(s: Selection, lc: Selection, lp: Selection)
    ensures var sels := RestrictAll([s, lc, lp]);
            CallSideDrops(sels[0], sels[1], sels[2]) != {} <==> CallSideDropsSome(s, lc, lp)
  {
    var sels := RestrictAll([s, lc, lp]);
    if CallSideDrops(sels[0], sels[1], sels[2]) != {} {
      var tid :| tid in CallSideDrops(sels[0], sels[1], sels[2]);
      CallSideDropFrom(s, lc, lp, tid);
    }
    if CallSideDropsSome(s, lc, lp) {
      var tid :| tid in s.rows && tid in lc.rows && tid in lp.rows &&
                 Financed(s, lc, lp, tid) && !StrikeSide(s, lc, true, tid);
      RestrictAt3(s, lc, lp, tid);
      CallSideCongruent(sels[0], sels[1], sels[2], s, lc, lp, tid);
      assert tid in CallSideDrops(sels[0], sels[1], sels[2]);
    }
  }

  /**
   * The builder as written raises the label error exactly when all
   * three selections are non-empty, the long put carries strikes and the
   * long-call check drops a commonly selected trade; wherever it does not
   * raise, it returns what the corrected builder returns.
   */
  lemma SplitStrangleAsWrittenSpec(tf: seq<Episode>, t: OptionTable, pct: real, dte: int, priceCol: string)
    ensures var r := SplitStrangleAsWritten(tf, t, pct, dte, priceCol);
            r.Ok? ==> r == SplitStrangle(tf, t, pct, dte, priceCol)
    ensures SplitStrangle(tf, t, pct, dte, priceCol).Err? ==>
              SplitStrangleAsWritten(tf, t, pct, dte, priceCol) == SplitStrangle(tf, t, pct, dte, priceCol)
    ensures |tf| > 0 && !PriceColMissing(t, priceCol) ==>
              var req := BaseReq(tf);
              var s := SelectPct(t, req, "C", pct, dte, priceCol, map[]).value;
              var lc := SelectFollow(OtmUniverse(t, "C"), req, s, "C", true, dte, priceCol, ExcludeOf(s)).value;
              var lp := SelectFollow(OtmUniverse(t, "P"), req, s, "P", true, dte, priceCol, map[]).value;
              var r := SplitStrangleAsWritten(tf, t, pct, dte, priceCol);
              (r.Err? <==> s.rows != map[] && lc.rows != map[] && lp.rows != map[] &&
                           lp.hasStrike && CallSideDropsSome(s, lc, lp)) &&
              (r.Err? ==> r.error == LabelMismatch)
  {
    SplitStrangleSelsSpec(tf, t, pct, dte, priceCol);
    var r := SplitStrangleSels(tf, t, pct, dte, priceCol);
    if r.Ok? && r.value.Some? {
      var (s, lc, lp) := r.value.value;
      var sels := RestrictAll([s, lc, lp]);
      CallSideDropsAligned(s, lc, lp);
      var c := SplitStrangleChecks(sels[0], sels[1], sels[2]);
      if c.Ok? {
        assert c.value == SplitStrangleBad(sels[0], sels[1], sels[2]);
      }
    }
  }

  const ClashShort := Selection(true, map[0 := Selected("XYZ", 10, 1, 30, Some(2.0), Some(0.0), Some(100.0))])
  const ClashCall := Selection(true, map[0 := Selected("XYZ", 10, 2, 30, Some(1.0), Some(-0.01), Some(99.0))])
  const ClashPut := Selection(true, map[0 := Selected("XYZ", 10, 3, 30, Some(0.5), Some(-0.1), Some(90.0))])

  /**
   * A trade whose short call has strike 100 at spot, whose long call at
   * strike 99 is below spot and whose long put has a strike: the checks
   * as written raise, where the intended checks drop the trade.
   */
  lemma SplitStrangleLabelClash()
    ensures SplitStrangleChecks(ClashShort, ClashCall, ClashPut) == Err(LabelMismatch)
    ensures SplitStrangleBad(ClashShort, ClashCall, ClashPut) == {0}
  {
    assert Spot(ClashShort, 0) == Some(100.0);
    assert Financed(ClashShort, ClashCall, ClashPut, 0);
    assert !StrikeSide(ClashShort, ClashCall, true, 0);
    assert 0 in CallSideDrops(ClashShort, ClashCall, ClashPut);
  }
}
