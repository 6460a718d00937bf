/**
 * The option-quote table shared by the chain joiner, the contract selector
 * and the strategy builders: one row per (contract id, quote date).
 */
module Quotes {
  import opened Common

  /**
   * One quote row. The columns every quote table carries are fields; the
   * optional numeric columns (strike, bid, ask, volume, open_interest and
   * the price columns such as last and mark) are looked up by name in
   * `num`, a missing entry reading as NaN.
   */
  datatype Quote = Quote(
    id: ContractId,
    date: Date,
    ticker: Ticker,
    optionType: string,
    dte: Option<int>,
    pctFromStrike: Option<real>,
    num: map<string, Option<real>>)

  /** A quote table: which optional columns exist, and the rows in order. */
  datatype OptionTable = OptionTable(columns: set<string>, rows: seq<Quote>)

  /** The cell of column c (NaN when the row has no such value). */
  function Cell(q: Quote, c: string): Option<real> {
    if c in q.num then q.num[c] else None
  }

  /** The cell of column c in a table, NaN for every row when the column is absent. */
  function ColumnCell(t: OptionTable, q: Quote, c: string): Option<real> {
    if c in t.columns then Cell(q, c) else None
  }
}
