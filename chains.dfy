/**
 * The chain joiner (`get_option_chains`): for each requested
 * (contract id, start date) it joins the contract's quotes dated on or
 * after the start date, takes the group's entry prices from its
 * earliest quotes, and expresses last and mark as a change against them.
 */
module Chains {
  import opened Common
  import opened Numeric
  import opened Quotes

  /** A requested chain: a contract id and the trade's start date. */
  type ChainKey = (ContractId, Date)

  /** One joined quote row with its entry prices and percent changes. */
  datatype ChainRow = ChainRow(
    quote: Quote,
    startDate: Date,
    entryLast: Option<real>,
    entryMark: Option<real>,
    lastPct: Float,
    markPct: Float)

  /** The quotes of contract `id` dated on or after `start`, in table order. */
  function Group(data: seq<Quote>, id: ContractId, start: Date): (r: seq<Quote>)
    ensures forall q :: q in r <==> q in data && q.id == id && q.date >= start
  {
    Filter(data, (q: Quote) => q.id == id && q.date >= start)
  }

  /**
   * The earliest-dated quote of a group whose column c is not NaN (the
   * first one in table order among quotes of that date). A group sorted by
   * date and reduced with `first()` takes its entry price from this quote,
   * since `first()` skips NaN cells.
   */
  function EarliestFilled(rows: seq<Quote>, c: string): (r: Option<Quote>)
    ensures r.None? <==> forall q :: q in rows ==> Cell(q, c).None?
    ensures r.Some? ==> r.value in rows && Cell(r.value, c).Some?
    ensures r.Some? ==> forall q :: q in rows && Cell(q, c).Some? ==> r.value.date <= q.date
  {
    if rows == [] then None
    else
      var rest := EarliestFilled(rows[1..], c);
      assert forall q :: q in rows <==> q == rows[0] || q in rows[1..];
      if Cell(rows[0], c).None? then rest
      else if rest.Some? && rest.value.date < rows[0].date then rest
      else Some(rows[0])
  }

  /** The entry price of column c for a group (NaN when every cell is NaN). */
  function Entry(rows: seq<Quote>, c: string): Option<real> {
    match EarliestFilled(rows, c)
    case None => None
    case Some(q) => Cell(q, c)
  }

  /** `(x / x0 - 1).fillna(0)`: NaN becomes 0 but a zero baseline still gives an infinity. */
  function PctChange(x: Option<real>, x0: Option<real>): Float {
    FillNaZero(SubF(Div(OfOpt(x), OfOpt(x0)), Fin(1.0)))
  }

  /** The row a quote of group k produces. */
  function RowOf(data: seq<Quote>, k: ChainKey, q: Quote): ChainRow {
    var g := Group(data, k.0, k.1);
    var l0 := Entry(g, "last");
    var m0 := Entry(g, "mark");
    ChainRow(q, k.1, l0, m0, PctChange(Cell(q, "last"), l0), PctChange(Cell(q, "mark"), m0))
  }

  function RowsFor(data: seq<Quote>, k: ChainKey): seq<ChainRow> {
    Map(Group(data, k.0, k.1), (q: Quote) => RowOf(data, k, q))
  }

  function Map<A, B>(s: seq<A>, f: A -> B): (r: seq<B>)
    ensures |r| == |s| && forall i :: 0 <= i < |s| ==> r[i] == f(s[i])
  {
    if s == [] then [] else [f(s[0])] + Map(s[1..], f)
  }

  function Joined(data: seq<Quote>, keys: seq<ChainKey>): seq<ChainRow> {
    if keys == [] then []
    else Joined(data, keys[..|keys| - 1]) + RowsFor(data, keys[|keys| - 1])
  }

  /**
   * `get_option_chains`: a KeyError when the table has no last or no mark
   * column, otherwise the joined rows, key by key (the final index sort is
   * not modelled).
   */
  function GetOptionChains(keys: seq<ChainKey>, data: OptionTable): Result<seq<ChainRow>> {
    if "last" !in data.columns then Err(KeyError("last"))
    else if "mark" !in data.columns then Err(KeyError("mark"))
    else Ok(Joined(data.rows, keys))
  }

  /** `get_option_chain`: the chain of one contract from one start date. */
  function GetOptionChain(id: ContractId, date: Date, data: OptionTable): Result<seq<ChainRow>> {
    GetOptionChains([(id, date)], data)
  }

  // ----- properties -----

  lemma {:induction false} RowsForMembership(data: seq<Quote>, k: ChainKey, row: ChainRow)
    ensures row in RowsFor(data, k) <==>
              row.quote in data && row.quote.id == k.0 && row.quote.date >= k.1 &&
              row == RowOf(data, k, row.quote)
  {
    var g := Group(data, k.0, k.1);
    var rs := RowsFor(data, k);
    if row in rs {
      var i :| 0 <= i < |rs| && rs[i] == row;
      assert g[i] in g;
    }
    if row.quote in g && row == RowOf(data, k, row.quote) {
      var i :| 0 <= i < |g| && g[i] == row.quote;
      assert rs[i] == row;
    }
  }

  /**
   * Only quotes of a requested contract dated on or after the start date
   * are joined, and every such quote is joined for every request of it.
   */
  lemma {:induction false} JoinedMembership(data: seq<Quote>, keys: seq<ChainKey>, row: ChainRow)
    ensures row in Joined(data, keys) <==>
              exists k :: k in keys && row.quote in data && row.quote.id == k.0 &&
                row.quote.date >= k.1 && row == RowOf(data, k, row.quote)
  {
    if keys != [] {
      var init := keys[..|keys| - 1];
      var last := keys[|keys| - 1];
      JoinedMembership(data, init, row);
      RowsForMembership(data, last, row);
      assert forall k :: k in keys <==> k in init || k == last;
    }
  }

  /**
   * The entry price of a group comes from its earliest quote with a
   * non-NaN value; no quote of the group with a value is dated earlier.
   */
  lemma EntryIsEarliest(data: seq<Quote>, k: ChainKey, c: string)
    ensures var g := Group(data, k.0, k.1);
            Entry(g, c).Some? ==>
              exists q :: q in data && q.id == k.0 && q.date >= k.1 && Cell(q, c) == Entry(g, c) &&
                forall p :: p in data && p.id == k.0 && p.date >= k.1 && Cell(p, c).Some? ==> q.date <= p.date
    ensures Entry(Group(data, k.0, k.1), c).None? <==>
              forall q :: q in data && q.id == k.0 && q.date >= k.1 ==> Cell(q, c).None?
  {
    var g := Group(data, k.0, k.1);
    if Entry(g, c).Some? {
      var q := EarliestFilled(g, c).value;
      assert q in data && q.id == k.0 && q.date >= k.1;
    }
  }

  /**
   * The quote a group's entry price comes from gets a change of 0 (x/x - 1,
   * or 0/0 filled with 0).
   */
  lemma BaselineRowIsZero(data: seq<Quote>, k: ChainKey)
    ensures var e := EarliestFilled(Group(data, k.0, k.1), "last");
            e.Some? ==> RowOf(data, k, e.value).lastPct == Fin(0.0)
    ensures var e := EarliestFilled(Group(data, k.0, k.1), "mark");
            e.Some? ==> RowOf(data, k, e.value).markPct == Fin(0.0)
  {
    var g := Group(data, k.0, k.1);
    var e := EarliestFilled(g, "last");
    if e.Some? {
      SelfChangeIsZero(Cell(e.value, "last").value);
    }
    var f := EarliestFilled(g, "mark");
    if f.Some? {
      SelfChangeIsZero(Cell(f.value, "mark").value);
    }
  }

  lemma SelfChangeIsZero(x0: real)
    ensures PctChange(Some(x0), Some(x0)) == Fin(0.0)
  {
  }

  /** A quote whose last price is NaN, or a group with no last price at all, reports 0. */
  lemma NaNChangeIsZero(data: seq<Quote>, k: ChainKey, q: Quote)
    requires Cell(q, "last").None? || Entry(Group(data, k.0, k.1), "last").None?
    ensures RowOf(data, k, q).lastPct == Fin(0.0)
  {
  }

  /** With a non-zero entry price the change is the plain ratio minus one. */
  lemma FiniteChange(data: seq<Quote>, k: ChainKey, q: Quote, x: real, x0: real)
    requires Cell(q, "last") == Some(x) && Entry(Group(data, k.0, k.1), "last") == Some(x0)
    requires x0 != 0.0
    ensures RowOf(data, k, q).lastPct == Fin(x / x0 - 1.0)
  {
  }

  /** A zero entry price with a positive last price gives +inf, which `fillna(0)` keeps. */
  lemma ZeroBaselineIsInfinite(data: seq<Quote>, k: ChainKey, q: Quote, x: real)
    requires Cell(q, "last") == Some(x) && x > 0.0
    requires Entry(Group(data, k.0, k.1), "last") == Some(0.0)
    ensures RowOf(data, k, q).lastPct == PosInf
  {
  }

  /** Missing last or mark columns raise a KeyError. */
  lemma MissingPriceColumnRaises(keys: seq<ChainKey>, data: OptionTable)
    requires "last" !in data.columns || "mark" !in data.columns
    ensures GetOptionChains(keys, data).Err? && GetOptionChains(keys, data).error.KeyError?
  {
  }

  /**
   * The single-contract chain fails exactly when the joined call does, and
   * holds the contract's own quotes from the start date on, each with its
   * entry prices and changes.
   */
  lemma GetOptionChainRows(id: ContractId, date: Date, data: OptionTable)
    ensures GetOptionChain(id, date, data).Err? <==> "last" !in data.columns || "mark" !in data.columns
    ensures GetOptionChain(id, date, data).Ok? ==>
              forall row :: row in GetOptionChain(id, date, data).value <==>
                row.quote in data.rows && row.quote.id == id && row.quote.date >= date &&
                row == RowOf(data.rows, (id, date), row.quote)
  {
    if GetOptionChain(id, date, data).Ok? {
      forall row
        ensures row in GetOptionChain(id, date, data).value <==>
                  row.quote in data.rows && row.quote.id == id && row.quote.date >= date &&
                  row == RowOf(data.rows, (id, date), row.quote)
      {
        JoinedMembership(data.rows, [(id, date)], row);
      }
    }
  }
}
