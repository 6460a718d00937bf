# Options strategy backtester — a Dafny model of its core

This project models the core of a local backtesting engine for option
strategies on equity quotes. The engine:

- detects **trade episodes** in a per-ticker price series (`find_trades`):
  a start date whose forward return over a horizon crosses a threshold in
  the wanted direction, taken greedily without overlap;
- joins **option chains** to those episodes (`get_option_chains`,
  `get_option_chain`), with the entry price of each contract and its
  percentage change since entry;
- **selects one contract per trade** (`select_option_contracts_batch`)
  by option type, days to expiry, liquidity and quote sanity, exclusion,
  nearest expiry and nearest target (percent from strike or price),
  breaking ties by spread;
- composes those selections into **strategy positions** (credit and
  debit spreads, tails, straddles, iron condors, jade lizards, call and put
  backspreads, calendars, split strangles, single long options), dropping
  every trade that any leg lacks or whose prices or strikes are out of
  order;
- prices every **leg** day by day (`pnl_transaction`), takes each leg's
  entry snapshot, bounds each trade's **maximum loss and gain** at expiry
  from its legs' payoff, **truncates** trades on stop-loss and
  take-profit, and aggregates **per-trade PnL** (`pnl_trade`) with
  constant or dynamic cost basis.

NaN is modelled as `Option<real>`'s `None`; a value that can become
infinite is a `Float`. Tables are sequences of rows with an explicit set
of column names, since the engine branches on column presence separately
from missing cells. A strategy's output is a set of position rows; the
index sort order of the data frames is not modelled.

Where the repository's documentation and its code differ, the model
follows the code:

- `_check_strike_order` negates the comparison before filling NaN, so a
  NaN strike flags the trade; `_check_price_lt`/`_check_price_gt` fill the
  comparison itself, so a NaN price never flags it.
- Short legs are stored with quantity -1, not with a magnitude.
- The chain baseline is the first non-NaN `last`/`mark` of each group, and
  a zero baseline gives an infinite change, not 0 (only NaN is filled).
- The selector's errors for an unknown target kind or a missing target
  column are raised only when some candidate survives the row filters.
- A horizon below 1 in `find_trades` raises an error (stacking an empty
  list of columns).
- In dynamic cost mode the absolute notional is not turned from 0 into
  NaN, unlike constant mode.

## Model

| member | source | states |
|---|---|---|
| Numeric.ZeroToNaN | options_local_testing/dynamic_helper.py:399 | `replace(0, nan)`: the result is known exactly when the input is known and nonzero, and then equals it |
| Numeric.DivNz | options_local_testing/dynamic_helper.py:399-400 | division by a zero-to-NaN denominator is defined exactly when both sides are known and the denominator is nonzero, and the quotient times the denominator gives back the numerator |
| Numeric.SumProp | options_local_testing/dynamic_helper.py:615-616 | numpy summation is known exactly when every cell is known (one NaN poisons the sum) |
| Numeric.SumConventionsAgree | options_local_testing/dynamic_helper.py:594 | without NaN cells the pandas sum (NaN skipped) and the numpy sum agree |
| Numeric.FirstSome | options_local_testing/dynamic_helper.py:433-434 | `GroupBy.first()` on one column: NaN exactly when every cell is NaN, otherwise the earliest non-NaN cell |
| Numeric.Div | options_local_testing/dynamic_helper.py:22-24 | float division: a finite quotient for a nonzero finite divisor, a signed infinity (or NaN for 0/0) for a zero divisor, NaN from a NaN operand |
| Numeric.SubF | options_local_testing/dynamic_helper.py:22-24 | float subtraction: finite operands subtract, a NaN operand gives NaN, an infinity minus a finite value stays that infinity |
| Numeric.FillNaZero | options_local_testing/dynamic_helper.py:24 | `fillna(0)`: never NaN afterwards, and any other value, infinities included, is kept |
| Text.UpperChar | options_local_testing/dynamic_helper.py:292 | a lower-case ASCII letter becomes its capital, the sharp s, dotless i, long s and the Latin ligatures become their one to three ASCII capitals, any other character stays; no result character is lower case |
| Text.Upper | options_local_testing/dynamic_helper.py:292 | upper-casing never shortens the text and leaves no lower-case ASCII letter and none of the characters whose upper case is ASCII |
| Text.UpperFixed | options_local_testing/dynamic_helper.py:292 | text with no lower-case or special character is its own upper case (so upper-casing is idempotent) |
| Text.SharpSIsSS | options_local_testing/dynamic_helper.py:292 | the sharp s upper-cases to the two letters SS, so upper-casing can lengthen a label |
| Text.StripLeft | options_local_testing/dynamic_helper.py:292 | left strip removes exactly a prefix of Python whitespace (ASCII, the separators at 0x1C-0x1F, no-break, Ogham, the general-punctuation and ideographic spaces) and leaves a suffix that does not start with whitespace |
| Text.StripRight | options_local_testing/dynamic_helper.py:292 | right strip removes exactly a suffix of Python whitespace and leaves a prefix that does not end with whitespace |
| Text.Strip | options_local_testing/dynamic_helper.py:292 | the stripped text neither starts nor ends with whitespace |
| Text.StripUnpadded | options_local_testing/dynamic_helper.py:292 | text that neither starts nor ends with whitespace is unchanged by stripping |
| Text.NormalizeIgnoresCaseAndPadding | options_local_testing/dynamic_helper.py:292 | upper-then-strip normalisation ignores surrounding Python whitespace and letter case |
| Text.UnicodePadding | options_local_testing/dynamic_helper.py:292 | a lower-case label padded with a no-break space and an em space normalises to its capital |
| Text.LongSIsS | options_local_testing/dynamic_helper.py:292 | the long s normalises to S, as Python's upper case makes it |
| Episodes.ParseDirection | options_local_testing/dynamic_helper.py:69-75 | only "U" and "D" are accepted, and each maps to its own direction; anything else is a ValueError |
| Episodes.EarliestFrom | options_local_testing/dynamic_helper.py:77-80 | the offset found is the least offset in range at which the move crosses the threshold; no offset means none crosses |
| Episodes.CandidateAt | options_local_testing/dynamic_helper.py:62-98 | a row yields a candidate exactly when some offset 1..N crosses the threshold, and the candidate is the earliest-hit episode of that row |
| Episodes.CandidatesFrom | options_local_testing/dynamic_helper.py:96-106 | the candidates from row i on are earliest-hit episodes, in strictly ascending start order, one for every row that hits |
| Episodes.SkipAhead | options_local_testing/dynamic_helper.py:108-119 | the mask loop over one ticker's candidates keeps exactly what the greedy skip-ahead keeps |
| Episodes.Greedy | options_local_testing/dynamic_helper.py:108-121 | the skip-ahead over one ticker's candidates; its kept episodes do not overlap and cover every dropped candidate (Episodes.GreedyNonOverlapping, Episodes.GreedyCovers) |
| Episodes.FindTrades | options_local_testing/dynamic_helper.py:40-128 | the ticker loop returns the specified episodes; a horizon below 1 and an unknown direction are ValueErrors |
| Episodes.FindTradesSpec | options_local_testing/dynamic_helper.py:40-128 | the specification the ticker loop is proved against: horizon and direction errors, else each ticker's greedy episodes in ticker order (Episodes.FindTrades, Episodes.EpisodesDoNotOverlap) |
| Episodes.GreedyNonOverlapping | options_local_testing/dynamic_helper.py:114-119 | kept episodes come from the candidates, start at or after the cursor, and each starts after the previous one ends |
| Episodes.GreedyCovers | options_local_testing/dynamic_helper.py:114-119 | every candidate dropped by the skip-ahead starts inside a kept episode (or before the starting cursor) |
| Episodes.EpisodesAreEarliest | options_local_testing/dynamic_helper.py:76-104 | every episode of a ticker is the earliest-hit episode of its start row |
| Episodes.EpisodesDoNotOverlap | options_local_testing/dynamic_helper.py:106-121 | a ticker's episodes never overlap: starts ascend and each starts after the previous end |
| Episodes.DroppedRowsOverlap | options_local_testing/dynamic_helper.py:114-119 | every row that hits the threshold lies inside some kept episode |
| Episodes.BadStartNeverCandidate | options_local_testing/dynamic_helper.py:64-67 | a row with a missing or non-positive start price never starts an episode |
| Episodes.UnknownDirectionRaises | options_local_testing/dynamic_helper.py:69-75 | with a usable horizon, a direction other than "U" or "D" is a ValueError |
| Episodes.UpExample | options_local_testing/dynamic_helper.py:40-128 | a three-day upward series with a 10% threshold gives the single episode from day 1 to day 3 |
| Chains.GetOptionChains | options_local_testing/dynamic_helper.py:7-33 | `get_option_chains`: a KeyError without a last or a mark column, else the joined table (Chains.MissingPriceColumnRaises, Chains.JoinedMembership) |
| Chains.Joined | options_local_testing/dynamic_helper.py:12-28 | the concatenation of the per-request groups; it holds exactly the requested contracts' quotes from their start dates on (Chains.JoinedMembership) |
| Chains.Group | options_local_testing/dynamic_helper.py:12-14 | a chain group holds exactly the quotes of the contract dated on or after the start date |
| Chains.EarliestFilled | options_local_testing/dynamic_helper.py:16-18 | the baseline quote is known exactly when some quote of the group has the column, and is then the earliest-dated such quote |
| Chains.RowsForMembership | options_local_testing/dynamic_helper.py:12-28 | a group's rows are exactly its quotes, each with its entry prices and changes |
| Chains.JoinedMembership | options_local_testing/dynamic_helper.py:12-28 | the joined table holds exactly the quotes of requested contracts on or after their start dates, once per request |
| Chains.EntryIsEarliest | options_local_testing/dynamic_helper.py:16-18 | the entry price comes from the earliest quote of the group with a non-NaN value, and is NaN only when every cell is NaN |
| Chains.BaselineRowIsZero | options_local_testing/dynamic_helper.py:22-28 | the baseline quote itself has a 0 change for last and for mark |
| Chains.SelfChangeIsZero | options_local_testing/dynamic_helper.py:22-24 | a price against itself as baseline changes by 0 |
| Chains.NaNChangeIsZero | options_local_testing/dynamic_helper.py:22-24 | a NaN price or NaN baseline gives a change of 0 |
| Chains.FiniteChange | options_local_testing/dynamic_helper.py:22-24 | a known price against a nonzero baseline gives price / baseline - 1 |
| Chains.ZeroBaselineIsInfinite | options_local_testing/dynamic_helper.py:22-24 | a positive price against a zero baseline gives +inf, not 0 |
| Chains.MissingPriceColumnRaises | options_local_testing/dynamic_helper.py:16-18 | a table without a last or a mark column raises a KeyError |
| Chains.GetOptionChainRows | options_local_testing/dynamic_helper.py:35-36 | the single-contract chain fails exactly for a table without last or mark, and otherwise holds exactly that contract's quotes from the start date on |
| Chains.GetOptionChain | options_local_testing/dynamic_helper.py:35-36 | `get_option_chain`: the batch function on one request; Chains.GetOptionChainRows states its result |
| Ranking.KeyLessIrreflexive | options_local_testing/dynamic_helper.py:263-276 | the sort order on ranking keys is irreflexive |
| Ranking.KeyLessTransitive | options_local_testing/dynamic_helper.py:263-276 | the sort order on ranking keys is transitive |
| Ranking.KeyLessTotal | options_local_testing/dynamic_helper.py:263-276 | any two distinct ranking keys are ordered |
| Ranking.Best | options_local_testing/dynamic_helper.py:276-278 | the first row after a stable sort is in the pool, is beaten by no candidate, and every row before it in table order sorts strictly after it |
| Ranking.BestIsFirstMinimal | options_local_testing/dynamic_helper.py:276-278 | the first candidate in table order that nothing beats is the one chosen |
| Ranking.BestCongruent | options_local_testing/dynamic_helper.py:276-278 | two key functions that agree on the pool choose the same row |
| Selector.Select | options_local_testing/dynamic_helper.py:130-285 | the corrected selector (each trade's values from its chosen contract); Selector.SelectErrors, Selector.SelectRows and Selector.SelectedRowIsWinner state its errors and rows |
| Selector.SelectWith | options_local_testing/dynamic_helper.py:130-285 | the selector with both ways of reading the chosen row; Selector.FirstCellMixesContracts shows the per-column reading at line 278 |
| Selector.Join | options_local_testing/dynamic_helper.py:174-186 | the join holds exactly the quotes of the option type paired with the requests of the same ticker and date |
| Selector.Survivors | options_local_testing/dynamic_helper.py:189-225 | a candidate survives exactly when it passes the DTE, open-interest, volume, quote and exclusion filters |
| Selector.NearestDte | options_local_testing/dynamic_helper.py:227-230 | the nearest-DTE pool of a trade holds exactly its candidates at the minimal DTE distance |
| Selector.RankedPool | options_local_testing/dynamic_helper.py:234-251 | the ranked pool is the nearest-DTE pool minus candidates whose target distance is NaN or infinite |
| Selector.ChosenRowsDomain | options_local_testing/dynamic_helper.py:278-285 | a trade is selected exactly when its ranked pool is non-empty, and its row is the chosen candidate's row |
| Selector.Choice | options_local_testing/dynamic_helper.py:276-278 | the chosen candidate is in the ranked pool of its trade |
| Selector.SurvivorsHaveDte | options_local_testing/dynamic_helper.py:189-190 | every survivor has a known, non-negative DTE |
| Selector.EmptyInputsGiveEmpty | options_local_testing/dynamic_helper.py:153-154 | an empty quote table or an empty request table gives the empty selection, even without the price column |
| Selector.SelectErrors | options_local_testing/dynamic_helper.py:153-248 | the selector fails exactly on a missing price column (KeyError), or, when candidates survive, on an unknown target kind or a missing target column (ValueError) |
| Selector.ChoiceIsWinner | options_local_testing/dynamic_helper.py:256-278 | the chosen candidate has minimal DTE distance and is first in sort order among the ranked pool |
| Selector.SelectRows | options_local_testing/dynamic_helper.py:153-285 | a successful selection holds the chosen rows of the survivors, or nothing when an input is empty or nothing survives |
| Selector.SelectedRowIsWinner | options_local_testing/dynamic_helper.py:130-285 | every selected row is the winning candidate's own row: a request of that trade, a quote of the option type at the request's ticker and date, a non-negative DTE |
| Selector.SelectedRowPresence | options_local_testing/dynamic_helper.py:227-254 | a trade is selected exactly when some survivor has a known target distance and minimal DTE distance |
| Selector.SelectedIdsAreRequested | options_local_testing/dynamic_helper.py:184 | every selected trade id comes from a request |
| Selector.ExcludedNeverChosen | options_local_testing/dynamic_helper.py:212-222 | a trade's excluded contract is never its selected contract |
| Selector.TidPoolIndependent | options_local_testing/dynamic_helper.py:212-222 | changing the exclusions of other trades leaves a trade's survivors unchanged |
| Selector.ExclusionsArePerTrade | options_local_testing/dynamic_helper.py:212-222 | changing the exclusions of other trades changes neither whether a trade is selected nor its row |
| Selector.SamePoolSameRow | options_local_testing/dynamic_helper.py:212-278 | with the same exclusions for a trade, its ranked pool and its chosen row are the same |
| Selector.FirstCellMixesContracts | options_local_testing/dynamic_helper.py:278 | read column by column with `first()`, the selection on a two-contract table reports contract 1 with contract 2's price |
| Selector.SelectKeepsContractValues | options_local_testing/dynamic_helper.py:278 | the corrected selection reports contract 1 with its own (NaN) price |
| StratHelpers.BaseReq | options_local_testing/dynamic_helper_strats_pack.py:22-32 | one request per episode, numbered 0.., at the episode's ticker and end date |
| StratHelpers.PctRequests | options_local_testing/dynamic_helper_strats_pack.py:44-46 | each request gets the constant percent target and DTE target |
| StratHelpers.PriceRequests | options_local_testing/dynamic_helper_strats_pack.py:66-68 | each request gets the given price target and DTE target |
| StratHelpers.SelectPct | options_local_testing/dynamic_helper_strats_pack.py:35-54 | a percent-target selection fails exactly when both tables are non-empty and the price column is missing, with that KeyError; a non-empty result carries strikes exactly when the table has them |
| StratHelpers.SelectPrice | options_local_testing/dynamic_helper_strats_pack.py:57-76 | a price-target selection fails exactly when both tables are non-empty and the price column is missing |
| StratHelpers.ExcludeOf | options_local_testing/dynamic_helper_strats_pack.py:221 | the exclusion map of a selection maps each of its trades to its selected contract |
| StratHelpers.ValidIntersection | options_local_testing/dynamic_helper_strats_pack.py:79-86 | the valid trades are exactly those in every selection (none for no selections) |
| StratHelpers.Restrict | options_local_testing/dynamic_helper_strats_pack.py:230-231 | restricting keeps exactly the valid trades, with their rows unchanged |
| StratHelpers.Drop | options_local_testing/dynamic_helper_strats_pack.py:96-102 | dropping removes exactly the bad trades and keeps the other rows unchanged |
| StratHelpers.DropTids | options_local_testing/dynamic_helper_strats_pack.py:96-102 | each selection is dropped by the same bad set |
| StratHelpers.CheckPriceLt | options_local_testing/dynamic_helper_strats_pack.py:105-114 | flags exactly the trades whose first price is known, the second known and not greater (NaN never flags) |
| StratHelpers.CheckPriceGt | options_local_testing/dynamic_helper_strats_pack.py:117-126 | flags exactly the trades whose first price is known, the second known and not smaller (NaN never flags) |
| StratHelpers.ParseStrikeOp | options_local_testing/dynamic_helper_strats_pack.py:147-154 | only "lt", "gt" and "eq" are strike comparisons, each its own |
| StratHelpers.StrikeViolations | options_local_testing/dynamic_helper_strats_pack.py:141-157 | with strike columns on both sides, flags exactly the trades whose strikes fail the comparison, a NaN strike included |
| StratHelpers.CheckStrikeOrder | options_local_testing/dynamic_helper_strats_pack.py:129-157 | fails exactly on an unknown comparison when both sides have strike columns |
| StratHelpers.PosFromSel | options_local_testing/dynamic_helper_strats_pack.py:89-93 | one position per selected trade, with the leg's quantity and direction |
| StratHelpers.Emit | options_local_testing/dynamic_helper_strats_pack.py:242-250 | the emitted positions are exactly the positions of every leg's selected trades |
| StratHelpers.EmitPerTrade | options_local_testing/dynamic_helper_strats_pack.py:242-250 | a trade has positions exactly when it is in the legs, and then one per leg |
| StratHelpers.RestrictAll | options_local_testing/dynamic_helper_strats_pack.py:226-231 | every selection restricted to the common trades, which leaves them aligned |
| StratHelpers.Finish | options_local_testing/dynamic_helper_strats_pack.py:238-240 | the legs after dropping, or none when a dropped selection is empty |
| StratHelpers.FinishKeeps | options_local_testing/dynamic_helper_strats_pack.py:238-250 | the trades kept are exactly the common trades not flagged, with rows unchanged |
| StratHelpers.AssembleKeeps | options_local_testing/dynamic_helper_strats_pack.py:226-250 | an assembled strategy keeps exactly the trades in every selection that are not flagged, and its legs are the selections' rows |
| StratHelpers.AssembleAt | options_local_testing/dynamic_helper_strats_pack.py:226-250 | a trade in every selection is kept exactly when it is not flagged |
| StratHelpers.Half | options_local_testing/dynamic_helper_strats_pack.py:967-970 | half a premium is known exactly when the premium is, and doubles back to it |
| StratHelpers.FollowRequests | options_local_testing/dynamic_helper_strats_pack.py:967-971 | one follow-up request per trade of the short selection, built from that trade's row |
| StratHelpers.SelectFollow | options_local_testing/dynamic_helper_strats_pack.py:981-988 | a follow-up selection fails exactly when the table and the requests are non-empty and the price column is missing |
| Strategies.Positions | options_local_testing/dynamic_helper_strats_pack.py:242-250 | positions exist exactly when the legs do, and are the legs' emitted positions |
| Strategies.LongOption | options_local_testing/dynamic_helper_strats_pack.py:164-191 | the builder itself; Strategies.LongOptionSpec states its errors and the trades and legs it keeps |
| Strategies.LongOptionSpec | options_local_testing/dynamic_helper_strats_pack.py:164-191 | a long call or put fails only on a missing price column; otherwise one +1 "L" leg holding every selected trade |
| Strategies.BullCallDebitBad | options_local_testing/dynamic_helper_strats_pack.py:233-236 | a trade is dropped exactly when the long leg is not dearer than the short or the strikes are not short above long |
| Strategies.BullCallDebitLegsSpec | options_local_testing/dynamic_helper_strats_pack.py:226-250 | a trade is kept exactly when both legs have it, the long leg is dearer and the short strike is higher; the legs are +1 "L" and -1 "S" |
| Strategies.BullCallDebit | options_local_testing/dynamic_helper_strats_pack.py:198-250 | the builder itself; Strategies.BullCallDebitSpec states its errors and the trades and legs it keeps |
| Strategies.BullCallDebitSpec | options_local_testing/dynamic_helper_strats_pack.py:198-250 | the bull call debit spread fails only on a missing price column and otherwise keeps exactly the trades the two selections and the checks admit |
| Strategies.BearPutDebitBad | options_local_testing/dynamic_helper_strats_pack.py:288-291 | a trade is dropped exactly when the long put is not dearer or its strike is not above the short's |
| Strategies.BearPutDebitLegsSpec | options_local_testing/dynamic_helper_strats_pack.py:281-305 | a trade is kept exactly when both legs have it, the long put is dearer and its strike is higher; legs +1 "L" and -1 "S" |
| Strategies.BearPutDebit | options_local_testing/dynamic_helper_strats_pack.py:253-305 | the builder itself; Strategies.BearPutDebitSpec states its errors and the trades and legs it keeps |
| Strategies.BearPutDebitSpec | options_local_testing/dynamic_helper_strats_pack.py:253-305 | the bear put debit spread fails only on a missing price column and otherwise keeps exactly the admitted trades |
| Strategies.CreditSpreadBad | options_local_testing/dynamic_helper_strats_pack.py:344-346 | a trade is dropped exactly when the long wing is not cheaper or not on the wing side of the short strike |
| Strategies.CreditSpreadLegsSpec | options_local_testing/dynamic_helper_strats_pack.py:336-360 | a credit spread keeps exactly the trades of both legs whose long wing is cheaper and on the wing side; legs -1 "S" and +1 "L" |
| Strategies.CreditSpreadAt | options_local_testing/dynamic_helper_strats_pack.py:391-415 | one trade of a credit spread is kept exactly under the same conditions |
| Strategies.CreditSpread | options_local_testing/dynamic_helper_strats_pack.py:308-421 | the builder itself; Strategies.CreditSpreadSpec states its errors and the trades and legs it keeps |
| Strategies.CreditSpreadSpec | options_local_testing/dynamic_helper_strats_pack.py:308-421 | the bull put and bear call credit spreads fail only on a missing price column and otherwise keep exactly the admitted trades |
| Strategies.SameContract | options_local_testing/dynamic_helper_strats_pack.py:471-474 | flags exactly the trades whose two legs hold the same contract |
| Strategies.BullPutTailBad | options_local_testing/dynamic_helper_strats_pack.py:471-484 | a trade is dropped exactly when one of the short, long and tail checks fails |
| Strategies.BullPutTailLegsSpec | options_local_testing/dynamic_helper_strats_pack.py:463-497 | the three-leg bull put with tail keeps exactly the trades of all legs that pass every check; legs -1, +1, +tail |
| Strategies.BullPutTailAt | options_local_testing/dynamic_helper_strats_pack.py:463-497 | one trade is kept exactly when all three legs have it and it passes every check |
| Strategies.BullPutTail | options_local_testing/dynamic_helper_strats_pack.py:422-497 | the builder itself; Strategies.BullPutTailSpec states its errors and the trades and legs it keeps |
| Strategies.BullPutTailSpec | options_local_testing/dynamic_helper_strats_pack.py:422-497 | the bull put with tail fails only on a missing price column and otherwise keeps exactly the admitted trades |
| Strategies.BearPutTailBad | options_local_testing/dynamic_helper_strats_pack.py:889-904 | a trade is dropped exactly when one of the long, short and tail checks fails |
| Strategies.BearPutTailLegsSpec | options_local_testing/dynamic_helper_strats_pack.py:881-917 | the three-leg bear put with tail keeps exactly the trades of all legs that pass every check; legs +1, -1, +tail |
| Strategies.BearPutTailAt | options_local_testing/dynamic_helper_strats_pack.py:881-917 | one trade is kept exactly when all three legs have it and it passes every check |
| Strategies.BearPutTail | options_local_testing/dynamic_helper_strats_pack.py:840-917 | the builder itself; Strategies.BearPutTailSpec states its errors and the trades and legs it keeps |
| Strategies.BearPutTailSpec | options_local_testing/dynamic_helper_strats_pack.py:840-917 | the bear put with tail fails only on a missing price column and otherwise keeps exactly the admitted trades |
| Strategies.StraddleLegsSpec | options_local_testing/dynamic_helper_strats_pack.py:521-536 | a straddle keeps exactly the trades with both a call and a put; legs +1 "L" each |
| Strategies.Straddle | options_local_testing/dynamic_helper_strats_pack.py:504-536 | the builder itself; Strategies.StraddleSpec states its errors and the trades and legs it keeps |
| Strategies.StraddleSpec | options_local_testing/dynamic_helper_strats_pack.py:504-536 | the straddle fails only on a missing price column and otherwise keeps exactly the trades of both selections |
| Strategies.IronCondorBad | options_local_testing/dynamic_helper_strats_pack.py:590-604 | a trade is dropped exactly when one of the condor's price or strike checks fails |
| Strategies.IronCondorLegsSpec | options_local_testing/dynamic_helper_strats_pack.py:581-618 | the iron condor keeps exactly the trades of all four legs that pass every check; legs -1, +1, -1, +1 |
| Strategies.IronCondorAt | options_local_testing/dynamic_helper_strats_pack.py:581-618 | one trade of the condor is kept exactly when all four legs have it and it passes every check |
| Strategies.IronCondor | options_local_testing/dynamic_helper_strats_pack.py:543-618 | the builder itself; Strategies.IronCondorSpec states its errors and the trades and legs it keeps |
| Strategies.IronCondorSpec | options_local_testing/dynamic_helper_strats_pack.py:543-618 | the iron condor fails only on a missing price column and otherwise keeps exactly the admitted trades |
| Strategies.JadeLizardBad | options_local_testing/dynamic_helper_strats_pack.py:668-673 | a trade is dropped exactly when one of the lizard's price or strike checks fails |
| Strategies.JadeLizardLegsSpec | options_local_testing/dynamic_helper_strats_pack.py:659-686 | the jade lizard keeps exactly the trades of all three legs that pass every check; legs -1, -1, +1 |
| Strategies.JadeLizardAt | options_local_testing/dynamic_helper_strats_pack.py:659-686 | one trade of the lizard is kept exactly when all three legs have it and it passes every check |
| Strategies.JadeLizard | options_local_testing/dynamic_helper_strats_pack.py:625-686 | the builder itself; Strategies.JadeLizardSpec states its errors and the trades and legs it keeps |
| Strategies.JadeLizardSpec | options_local_testing/dynamic_helper_strats_pack.py:625-686 | the jade lizard fails only on a missing price column and otherwise keeps exactly the admitted trades |
| RatioStrategies.CallBackspreadLegsSpec | options_local_testing/dynamic_helper_strats_pack.py:732-756 | a call backspread keeps exactly the trades whose long call is cheaper with a higher strike; legs -1 "S" and +2 "L" |
| RatioStrategies.CallBackspread | options_local_testing/dynamic_helper_strats_pack.py:693-756 | the builder itself; RatioStrategies.CallBackspreadSpec states its errors and the trades and legs it keeps |
| RatioStrategies.CallBackspreadSpec | options_local_testing/dynamic_helper_strats_pack.py:693-756 | the call backspread fails only on a missing price column; the long leg targets half the short premium and keeps exactly the admitted trades |
| RatioStrategies.CalendarBad | options_local_testing/dynamic_helper_strats_pack.py:811-823 | a trade is dropped exactly when the long call does not expire later or its strike differs |
| RatioStrategies.CalendarLegsSpec | options_local_testing/dynamic_helper_strats_pack.py:804-835 | a calendar keeps exactly the trades of both legs whose long call expires later at the same strike; legs -1 "S" and +1 "L" |
| RatioStrategies.Calendar | options_local_testing/dynamic_helper_strats_pack.py:763-835 | the builder itself; RatioStrategies.CalendarSpec states its errors and the trades and legs it keeps |
| RatioStrategies.CalendarSpec | options_local_testing/dynamic_helper_strats_pack.py:763-835 | the calendar fails only on a missing price column and otherwise keeps exactly the admitted trades |
| RatioStrategies.OtmUniverse | options_local_testing/dynamic_helper_strats_pack.py:1209-1214 | the out-of-the-money universe keeps exactly the quotes of the type with a known negative percent-from-strike |
| RatioStrategies.OtmUniverseMissing | options_local_testing/dynamic_helper_strats_pack.py:1209-1214 | filtering the universe creates no missing price column |
| RatioStrategies.Spot | options_local_testing/dynamic_helper_strats_pack.py:1271-1274 | the implied spot is strike times one plus percent-from-strike, known only with a strike column and both cells |
| RatioStrategies.SplitStrangleSelsSpec | options_local_testing/dynamic_helper_strats_pack.py:1152-1237 | the three selections fail exactly when episodes exist and the price column is missing (a KeyError), and are absent exactly when one of them is empty |
| RatioStrategies.SplitStrangleBad | options_local_testing/dynamic_helper_strats_pack.py:1255-1294 | the trades the three checks are meant to drop: the long premiums exceed the short, the long call is not above spot or the long put not below it |
| RatioStrategies.SplitStrangleLegsSpec | options_local_testing/dynamic_helper_strats_pack.py:1240-1315 | the corrected split strangle keeps exactly the trades of all three legs that pass the financing and both strike-side checks; legs -1, +1, +1 |
| RatioStrategies.SplitStrangleAt | options_local_testing/dynamic_helper_strats_pack.py:1240-1315 | in the corrected split strangle, a trade is kept exactly when all three legs have it and it passes every check |
| RatioStrategies.SplitStrangle | options_local_testing/dynamic_helper_strats_pack.py:1152-1315 | the builder itself; RatioStrategies.SplitStrangleSpec states its errors and the trades and legs it keeps |
| RatioStrategies.SplitStrangleSpec | options_local_testing/dynamic_helper_strats_pack.py:1152-1315 | the corrected split strangle fails only on a missing price column and otherwise keeps exactly the trades the selections and the checks admit |
| RatioStrategies.SplitStrangleSels | options_local_testing/dynamic_helper_strats_pack.py:1152-1237 | the short, long-call and long-put selections of the split strangle; RatioStrategies.SplitStrangleSelsSpec states them |
| RatioStrategies.SplitStrangleAsWritten | options_local_testing/dynamic_helper_strats_pack.py:1152-1315 | the builder as written, with spot computed before the long-call check; RatioStrategies.SplitStrangleAsWrittenSpec relates it to the corrected builder |
| RatioStrategies.CallSideDrops | options_local_testing/dynamic_helper_strats_pack.py:1276-1284 | the trades that pass the financing check and are then dropped by the long-call check |
| RatioStrategies.SplitStrangleChecks | options_local_testing/dynamic_helper_strats_pack.py:1255-1294 | the checks as written: a ValueError exactly when the put selection has strikes and the long-call check dropped a trade, otherwise the intended bad set |
| RatioStrategies.CallSideDropsAligned | options_local_testing/dynamic_helper_strats_pack.py:1255-1284 | on aligned selections the long-call check drops a trade exactly when some trade of all three passes the financing check and fails the call-side check |
| RatioStrategies.SplitStrangleAsWrittenSpec | options_local_testing/dynamic_helper_strats_pack.py:1152-1315 | the builder as written equals the corrected one whenever it succeeds and errs with it on a missing price column; otherwise it raises the label mismatch exactly when the put selection has strikes and the long-call check drops a trade |
| RatioStrategies.SplitStrangleLabelClash | options_local_testing/dynamic_helper_strats_pack.py:1271-1294 | a single trade whose long call sits below spot makes the checks as written raise the label mismatch, where the intended checks drop just that trade |
| Backspread.WidthPct | options_local_testing/dynamic_helper_strats_pack.py:1036 | the percent width exists exactly for a nonzero short strike |
| Backspread.WidthPctScales | options_local_testing/dynamic_helper_strats_pack.py:1036 | the percent width times the short strike is the strike width |
| Backspread.CapCands | options_local_testing/dynamic_helper_strats_pack.py:1000-1051 | the capped candidates are exactly the joined put quotes that pass the width, price and exclusion filters |
| Backspread.CapRowsOk | options_local_testing/dynamic_helper_strats_pack.py:1029-1080 | every capped long row belongs to a short trade and satisfies the width caps and the price check |
| Backspread.CapChoiceOk | options_local_testing/dynamic_helper_strats_pack.py:1054-1080 | the chosen capped row satisfies the caps |
| Backspread.CapRowsAt | options_local_testing/dynamic_helper_strats_pack.py:1054-1080 | a trade has a capped long row exactly when it has a capped candidate, and the row is the chosen candidate's |
| Backspread.CapChoiceWins | options_local_testing/dynamic_helper_strats_pack.py:1054-1079 | the chosen capped candidate has minimal DTE distance and sorts first among those at that distance |
| Backspread.CapRowIsWinner | options_local_testing/dynamic_helper_strats_pack.py:1054-1080 | every capped row is some winning candidate's row |
| Backspread.CappedLong | options_local_testing/dynamic_helper_strats_pack.py:992-1083 | the capped long-leg selection; Backspread.CappedLongRows, Backspread.CappedLongPresence and Backspread.CappedLongIsWinner state its rows |
| Backspread.CappedLongIsWinner | options_local_testing/dynamic_helper_strats_pack.py:992-1080 | every long row of the capped selection is the row of a winning capped candidate |
| Backspread.CapCandsAreQuotes | options_local_testing/dynamic_helper_strats_pack.py:1000-1014 | every capped candidate is a put quote at its request's ticker and date |
| Backspread.CappedLongPresence | options_local_testing/dynamic_helper_strats_pack.py:1046-1059 | a trade has a capped long leg exactly when a candidate survives the filters |
| Backspread.CappedLongRows | options_local_testing/dynamic_helper_strats_pack.py:992-1080 | the capped selection's rows are the capped rows of its candidates |
| Backspread.WidthViolations | options_local_testing/dynamic_helper_strats_pack.py:1115-1133 | with strikes on both legs, flags exactly the trades whose width breaks a cap |
| Backspread.PutBackspreadBad | options_local_testing/dynamic_helper_strats_pack.py:1093-1133 | a trade is dropped exactly when a price, strike or width check fails |
| Backspread.PutBackspreadLegsSpec | options_local_testing/dynamic_helper_strats_pack.py:1085-1150 | the put backspread keeps exactly the trades of both legs that pass every check; legs -1 "S" and +2 "L" |
| Backspread.PutBackspread | options_local_testing/dynamic_helper_strats_pack.py:920-1150 | the builder itself; Backspread.PutBackspreadSpec states its errors and the trades and legs it keeps |
| Backspread.PutBackspreadSpec | options_local_testing/dynamic_helper_strats_pack.py:920-1150 | the put backspread fails only on a missing price column or, with short legs, a missing strike column, and otherwise keeps exactly the admitted trades |
| Backspread.CappedChecksRedundant | options_local_testing/dynamic_helper_strats_pack.py:1093-1133 | with a cap set, the final checks drop nothing the capped selection kept |
| Backspread.ChecksRedundant | options_local_testing/dynamic_helper_strats_pack.py:1093-1133 | long rows that already satisfy the caps pass every final check |
| Legs.SideOfLabel | options_local_testing/dynamic_helper.py:293-297 | +1 exactly for the long labels, -1 exactly for the short labels, nothing otherwise |
| Legs.SideSign | options_local_testing/dynamic_helper.py:292-297 | +1 exactly for a label normalising to L, LONG, BUY or B, -1 exactly for S, SHORT, SELL or SH, nothing otherwise |
| Legs.SideSignIgnoresCaseAndPadding | options_local_testing/dynamic_helper.py:292 | the side of a label ignores surrounding Python whitespace and letter case |
| Legs.BuilderLabels | options_local_testing/dynamic_helper.py:293-294 | the builders' "L" and "S" read as +1 and -1 |
| Legs.UnicodeLabelsRead | options_local_testing/dynamic_helper.py:292-297 | the long s reads as short and an l padded with a no-break and an em space reads as long, as in Python |
| Legs.SideSigns | options_local_testing/dynamic_helper.py:295-301 | the sides exist exactly when every label normalises to a long or short label, and otherwise a ValueError |
| Legs.EntryPriceCol | options_local_testing/dynamic_helper.py:304-320 | the entry column is entry_<col>_price if present, else entry_<col>, else a KeyError |
| Legs.MultiplierColumn | options_local_testing/dynamic_helper.py:360-366 | the explicit multiplier column wins when present, then contract_multiplier, then option_multiplier |
| Legs.MultiplierOf | options_local_testing/dynamic_helper.py:368-371 | the chosen multiplier column's cell when it is a number, and the default when there is no such column or the cell is NaN |
| Legs.LegArithmetic | options_local_testing/dynamic_helper.py:392-400 | leg PnL is side times price move times size times multiplier, equal to value minus cost, known exactly when its inputs are; notional and PnL percent likewise |
| Legs.LongLegExample | options_local_testing/dynamic_helper.py:392-400 | one long contract bought at 2 and marked at 3 with multiplier 100 has cost 200, value 300, PnL 100, PnL percent 0.5 |
| Legs.PnlTransaction | options_local_testing/dynamic_helper.py:322-402 | a successful leg table has one row per input row; Legs.PnlTransactionSpec states its errors and Legs.PnlTransactionRow the contents of every row |
| Legs.PnlTransactionSpec | options_local_testing/dynamic_helper.py:322-402 | the leg table fails exactly on a missing price or entry column, a missing quantity or direction column, an unknown label or, when prices are required, a NaN price; otherwise each output row carries its input row, side, multiplier, price and entry price |
| Legs.PnlTransactionRow | options_local_testing/dynamic_helper.py:351-400 | each row of a successful leg table is the leg arithmetic of its input row (so Legs.LegArithmetic gives its cost, value, PnL, notional and PnL percent), with the row's side, the chosen entry column and the row's multiplier |
| Legs.NoNegativeNoMismatch | options_local_testing/dynamic_helper.py:385-390 | without a negative quantity no row is flagged as a quantity/direction mismatch |
| Legs.LegGroup | options_local_testing/dynamic_helper.py:431-435 | a leg group holds exactly the rows of one trade and leg key |
| Legs.StartDate | options_local_testing/dynamic_helper.py:437-440 | a leg's start date is the earliest date of its rows |
| Legs.LegKeys | options_local_testing/dynamic_helper.py:413-435 | the leg keys are distinct and are exactly the keys of the rows |
| Legs.Snapshot | options_local_testing/dynamic_helper.py:405-445 | one snapshot per leg key, each the first-cell snapshot of its rows, covering every row |
| Legs.SnapshotStartIsEarliest | options_local_testing/dynamic_helper.py:437-440 | each snapshot's start date is the earliest date of its leg |
| Payoff.Payoff | options_local_testing/dynamic_helper.py:508-514 | the portfolio payoff at a spot price, the weighted sum of the legs' intrinsic values; Payoff.PayoffStep, Payoff.AboveStrikes and the bound lemmas state its shape |
| Payoff.PayIsIntrinsic | options_local_testing/dynamic_helper.py:508-510 | a call pays max(S - K, 0), a put max(K - S, 0), never negative |
| Payoff.Points | options_local_testing/dynamic_helper.py:504 | the grid holds 0 and every strike and nothing else |
| Payoff.MinPnl | options_local_testing/dynamic_helper.py:516 | the minimum over the grid is attained and lower-bounds every grid point |
| Payoff.MaxPnl | options_local_testing/dynamic_helper.py:517 | the maximum over the grid is attained and upper-bounds every grid point |
| Payoff.PayoffStep | options_local_testing/dynamic_helper.py:513 | between kinks the payoff is linear with the slope fixed at the left end |
| Payoff.AboveStrikes | options_local_testing/dynamic_helper.py:499-500 | beyond every strike the payoff moves at the call-only slope |
| Payoff.WithinGrid | options_local_testing/dynamic_helper.py:504-517 | between 0 and the top strike the expiry PnL lies between the grid minimum and maximum |
| Payoff.LossBounded | options_local_testing/dynamic_helper.py:499-519 | with a non-negative high slope the grid minimum bounds the PnL at every price |
| Payoff.GainBounded | options_local_testing/dynamic_helper.py:499-520 | with a non-positive high slope the grid maximum bounds the PnL at every price |
| Payoff.LossUnbounded | options_local_testing/dynamic_helper.py:499-501 | a negative high slope makes the loss exceed any bound |
| Payoff.GainUnbounded | options_local_testing/dynamic_helper.py:499-502 | a positive high slope makes the gain exceed any bound |
| Risk.OptionKind | options_local_testing/dynamic_helper.py:474-476 | a call exactly for a type normalising to C or CALL, a put exactly for P or PUT; a missing type is neither |
| Risk.KindOfLabel | options_local_testing/dynamic_helper.py:474-476 | call labels are C and CALL, put labels P and PUT, anything else neither |
| Risk.RiskLegOf | options_local_testing/dynamic_helper.py:473-493 | a snapshot leg is priced exactly when strike, size and type are known, with weight side times size times multiplier |
| Risk.RiskLegs | options_local_testing/dynamic_helper.py:487-493 | the priced legs are exactly the usable snapshot legs |
| Risk.RiskLegsPerLot | options_local_testing/dynamic_helper.py:487-493 | the mask keeps the usable snapshot legs in order, one priced leg per snapshot leg, so two lots of one contract count twice |
| Risk.RiskOf | options_local_testing/dynamic_helper.py:495-522 | no legs or no cost gives NaN bounds; otherwise unbounded risk (gain) exactly for a negative (positive) high slope, with an infinite max loss (gain); finite bounds are non-negative |
| Risk.Bounds | options_local_testing/dynamic_helper.py:519-522 | max loss is +inf for a negative slope and else max(0, -min); max gain is +inf for a positive slope and else max(0, max) |
| Risk.MaxLossIsWorstCase | options_local_testing/dynamic_helper.py:495-519 | with bounded risk the max loss bounds the loss at every spot and is attained at 0 or a strike (or is 0) |
| Risk.MaxGainIsBestCase | options_local_testing/dynamic_helper.py:495-520 | with bounded gain the max gain bounds the gain at every spot and is attained at 0 or a strike (or is 0) |
| Risk.UnboundedRiskIsReal | options_local_testing/dynamic_helper.py:499-519 | a trade flagged with unbounded risk has an infinite max loss and loses more than any bound at some spot |
| Risk.UnboundedGainIsReal | options_local_testing/dynamic_helper.py:499-520 | a trade flagged with unbounded gain has an infinite max gain and gains more than any bound at some spot |
| Risk.MaxLossGainFromLegs | options_local_testing/dynamic_helper.py:448-532 | one result per costed trade: NaN bounds without strike or type columns, else the trade's bounds, or unknown for a trade without legs |
| Risk.PriceTrades | options_local_testing/dynamic_helper.py:470-522 | the result map is keyed by exactly the visited trades with each one's bounds |
| Risk.SnapTidsAreTrades | options_local_testing/dynamic_helper.py:470 | the visited trades are exactly the trades of the snapshot |
| Stops.DayLegs | options_local_testing/dynamic_helper.py:731-734 | a day's leg rows are exactly that trade's rows on that date |
| Stops.EntryNotional | options_local_testing/dynamic_helper.py:724-728 | a trade's entry notional, summed once per leg with 0 read as NaN, is never 0 |
| Stops.DayPnl | options_local_testing/dynamic_helper.py:731-734 | a trade's PnL on one date, its legs' PnL summed with NaN as 0; Stops.DayLegs states which legs |
| Stops.DayPct | options_local_testing/dynamic_helper.py:737-738 | the PnL percent is known exactly when the entry notional is, and times it gives the day's PnL |
| Stops.Hit | options_local_testing/dynamic_helper.py:748-756 | a known percent fires at or below minus the stop magnitude or at or above the target magnitude; NaN never fires |
| Stops.FirstHit | options_local_testing/dynamic_helper.py:742-759 | the cutoff is the earliest date of the trade on which a threshold fires, and none when none does |
| Stops.Cutoff | options_local_testing/dynamic_helper.py:740-759 | the cutoff date of one trade; Stops.FirstHit states it is the earliest firing date |
| Stops.CutoffMap | options_local_testing/dynamic_helper.py:740-759 | the cutoff map holds exactly the trades that fire, each with its first firing date |
| Stops.CutoffsCover | options_local_testing/dynamic_helper.py:761-773 | filtering by the cutoff map keeps exactly the surviving rows; with no cutoffs the table is unchanged |
| Stops.Truncated | options_local_testing/dynamic_helper.py:761-773 | the truncated table keeps the columns and exactly the rows that survive their trade's cutoff, never more rows than before |
| Stops.TruncateOnStops | options_local_testing/dynamic_helper.py:681-773 | no thresholds returns the table; a leg-PnL error is passed on; otherwise each trade keeps its rows up to its first firing date, in order |
| Stops.KeepMeansNoEarlierHit | options_local_testing/dynamic_helper.py:764-771 | a row survives exactly when no threshold fired for its trade on an earlier date |
| TradePnl.TradeLegs | options_local_testing/dynamic_helper.py:573-577 | a trade's legs are exactly its rows |
| TradePnl.EndDate | options_local_testing/dynamic_helper.py:580-584 | the sell date is the latest date of the trade's rows |
| TradePnl.Groups | options_local_testing/dynamic_helper.py:573-577 | the output rows are keyed by exactly the (trade, date) pairs of the legs |
| TradePnl.ActiveSnaps | options_local_testing/dynamic_helper.py:611-620 | the legs active on a date are exactly those started on or before it |
| TradePnl.DynamicCosts | options_local_testing/dynamic_helper.py:602-629 | per-date dynamic cost and notional for every output key |
| TradePnl.PerTrade | options_local_testing/dynamic_helper.py:602-629 | the per-trade loop fills both columns for exactly the given (trade, date) keys, each from its trade and date |
| TradePnl.DynamicCostSettles | options_local_testing/dynamic_helper.py:611-620 | once every leg has started, the dynamic cost equals the constant cost |
| TradePnl.DynamicCostBeforeStart | options_local_testing/dynamic_helper.py:618-620 | before any leg starts the dynamic cost is 0 and the notional NaN |
| TradePnl.NTickers | options_local_testing/dynamic_helper.py:645-648 | the ticker count is 1 without a ticker column, else the number of distinct tickers of the trade |
| TradePnl.SingleCosts | options_local_testing/dynamic_helper.py:654-659 | risk is priced for exactly the single-ticker trades |
| TradePnl.SingleSnaps | options_local_testing/dynamic_helper.py:654-659 | the snapshot legs handed to the risk calculator are exactly those of single-ticker trades |
| TradePnl.RiskColumn | options_local_testing/dynamic_helper.py:653-665 | a multi-ticker trade gets unknown bounds; a single-ticker trade the bounds of its legs at its constant cost |
| TradePnl.GainLossRatio | options_local_testing/dynamic_helper.py:667-671 | a positive PnL over a finite nonzero max loss gives PnL / loss, anything else 0; never negative for a non-negative loss |
| TradePnl.MakeRow | options_local_testing/dynamic_helper.py:634-675 | value is cost plus PnL, holding days the date difference, the cost percentage defined only for a nonzero cost, multi-ticker iff more than one ticker |
| TradePnl.RowOf | options_local_testing/dynamic_helper.py:634-675 | the output row of one (trade, date) with constant or dynamic cost; TradePnl.MakeRow, TradePnl.RowRatios and TradePnl.RowDates state its cells |
| TradePnl.RowRatios | options_local_testing/dynamic_helper.py:635-638 | the PnL percent times the notional and the cost percentage times the absolute cost give back the PnL |
| TradePnl.RowDates | options_local_testing/dynamic_helper.py:580-588 | every row's trade date and sell date bracket all the trade's dates and its holding days are non-negative |
| TradePnl.ConstantCostIsConstant | options_local_testing/dynamic_helper.py:630-632 | without dynamic cost, cost and notional are the same on every date of a trade |
| TradePnl.RiskOnlyForSingleTicker | options_local_testing/dynamic_helper.py:653-671 | a multi-ticker trade has unknown bounds and a gain/loss ratio of 0 |
| TradePnl.RiskMapAgrees | options_local_testing/dynamic_helper.py:653-662 | the risk map built from single-ticker legs gives each trade its risk column |
| TradePnl.SnapsCoverLegs | options_local_testing/dynamic_helper.py:591 | every leg row's trade has a snapshot |
| TradePnl.CostColumns | options_local_testing/dynamic_helper.py:593-632 | the cost and notional cells agree with the constant or dynamic specification |
| TradePnl.RiskColumns | options_local_testing/dynamic_helper.py:653-665 | the risk cells agree with the single-ticker specification |
| TradePnl.MergeIsRows | options_local_testing/dynamic_helper.py:634-675 | merging the computed columns gives every output row as specified |
| TradePnl.Merge | options_local_testing/dynamic_helper.py:634-675 | the merged rows are keyed by exactly the (trade, date) groups of the legs |
| TradePnl.TradeRows | options_local_testing/dynamic_helper.py:569-675 | the assembled table holds every (trade, date) row as specified |
| TradePnl.PnlTrade | options_local_testing/dynamic_helper.py:534-677 | errors of the truncation or the leg table are passed on; otherwise one row per (trade, date) of the leg table, each as specified |

## Left out

- Reading and writing files, the pandas and numpy mechanics (index
  resets, merges as such, dtype conversions) and the exact text of error
  messages: the model keeps which error is raised, not its wording.
- The final `sort_values`/`sort_index` orders: selector results are maps
  from trade id and strategy outputs are sets; `find_trades` takes each
  ticker's series already in date order.
- The `MultiIndex` and index-name checks of `truncate_trades_on_stops`
  (`options_local_testing/dynamic_helper.py:712-717`): the model's leg
  table is always indexed by contract, date and trade id.
- The tie order of `argsort` among equal spreads beyond the spread and
  target ordering, and the summation order of the `cumsum` in dynamic
  cost mode: sums are over reals.
- IEEE rounding: prices and percentages are exact reals; only NaN and
  the infinities of division by zero are modelled.
- The presence tests for the `date`, `strike`, `option_type`, `ticker`
  and `expiration` columns of the leg snapshot
  (`options_local_testing/dynamic_helper.py:427-443`): leg rows always
  carry a date, and the snapshot keeps only the columns the model uses.
- The column-presence test of the split strangle's OTM universes
  (`options_local_testing/dynamic_helper_strats_pack.py:1211`): quote rows
  always carry an option type and a percent from strike.
- The `strike_map` fallback order of the put backspread when a strike
  column is missing
  (`options_local_testing/dynamic_helper_strats_pack.py:957-965`): the
  model reads the strike from each selection.
- Text.Upper: exact for ASCII and for the ten characters whose Python
  upper case is ASCII (sharp s, dotless i, long s, the Latin ligatures);
  every other non-ASCII character is left as it is, where Python would
  upper-case a non-ASCII letter to another non-ASCII letter. Label
  recognition is unaffected: every label the code accepts is ASCII, and
  such a letter is neither ASCII nor whitespace, in either reading.
- Text.UpperChar: maps the ASCII letters and the ten special characters
  of Text.Upper; every other non-ASCII letter is returned unchanged.
- Text.UpperFixed: "no lower case" means no lower-case ASCII letter and
  no special character, so a letter such as "é" counts as its own upper
  case (Python gives "É"), with the same bound as Text.Upper.
- Text.NormalizeIgnoresCaseAndPadding: inherits the bound of Text.Upper
  on non-ASCII letters; the whitespace it ignores is Python's full set.
- Legs.SideSignIgnoresCaseAndPadding: reads labels through Text.Upper,
  with the same bound on non-ASCII letters.
- Legs.SideSigns: reads labels through Text.Upper, with the same bound
  on non-ASCII letters.
- Risk.OptionKind: reads option types through Text.Upper, with the same
  bound on non-ASCII letters.
- Backspread.CappedLong: reports the chosen candidate's own row. The
  per-column `groupby(...).first()` of
  `options_local_testing/dynamic_helper_strats_pack.py:1079` can only mix
  contracts in `pct_from_strike`, since the `dropna` at line 1024 covers
  every other numeric column it reads; the positions built from it are
  unaffected.
- The `__all__` lists and the attachment of the strategies to a class
  (`options_local_testing/dynamic_helper.py:776-805`,
  `options_local_testing/dynamic_helper_strats_pack.py:1319-1352`).

## Findings

| source | as written | input that shows it | evidently intended | confidence | as-written member | corrected member |
|---|---|---|---|---|---|---|
| options_local_testing/dynamic_helper.py:278 | `groupby("trade_id").first()` takes the first non-NaN cell of each column separately, so the reported price, percent from strike or strike can come from a different contract than the chosen contract id | contract 1 at 0% from strike with a NaN last price, contract 2 at 0.1 with a last price of 5: the selection reports contract 1 with price 5 | every column of the selection comes from the chosen contract's own row | not executed | Selector.FirstCellMixesContracts | Selector.SelectKeepsContractValues |
| options_local_testing/dynamic_helper_strats_pack.py:1288 | `spot` is computed at line 1274 on the trades that pass the financing check; the long-call check at lines 1276-1284 then drops trades, so `lpK < spot` compares two differently labelled series and pandas raises a ValueError ("Can only compare identically-labeled Series objects") whenever the long put has a strike column | one trade with the short call at strike 100, 0% from strike and price 2, the long call at strike 99 and price 1, the long put at strike 90 and price 0.5: the long call is below spot | trades failing either strike-side check are dropped, the union of the three checks | not executed | RatioStrategies.SplitStrangleLabelClash | RatioStrategies.SplitStrangleLegsSpec |

`Selector.Select` is the corrected selector and the one every strategy
builds on; `Selector.SelectWith` with its mixing flag set models the code
as written, and `Selector.SelectedRowIsWinner` states the corrected
behaviour for all inputs.

`RatioStrategies.SplitStrangle` is the corrected split strangle;
`RatioStrategies.SplitStrangleAsWritten` models the code as written, with
`RatioStrategies.SplitStrangleChecks` raising the label mismatch, and
`RatioStrategies.SplitStrangleAsWrittenSpec` relates the two for all
inputs.
