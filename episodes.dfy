/**
 * The episode detector (`find_trades`): for every trading row of a ticker
 * it looks ahead up to N rows for the earliest one whose move from the
 * start price crosses the threshold, and then keeps a non-overlapping
 * subset of these candidate episodes with a greedy skip-ahead cursor.
 */
module Episodes {
  import opened Common

  /** One row of the stock table: a date and its (possibly missing) price. */
  datatype DayPrice = DayPrice(date: Date, price: Option<real>)

  /** The rows of one ticker, in date order. */
  datatype TickerSeries = TickerSeries(ticker: Ticker, days: seq<DayPrice>)

  /**
   * One detected episode. `startPos` and `endPos` are the positions of the
   * start and end rows within the ticker's series.
   */
  datatype Episode = Episode(
    ticker: Ticker,
    startDate: Date,
    endDate: Date,
    startPrice: real,
    endPrice: real,
    daysToThreshold: nat,
    movePct: real,
    startPos: nat,
    endPos: nat)

  datatype Direction = Up | Down

  /** Only "U" and "D" are accepted; anything else is a ValueError. */
  function ParseDirection(d: string): (r: Result<Direction>)
    ensures r.Ok? <==> d == "U" || d == "D"
    ensures r == Ok(Up) <==> d == "U"
    ensures r == Ok(Down) <==> d == "D"
  {
    if d == "U" then Ok(Up)
    else if d == "D" then Ok(Down)
    else Err(ValueError("direction must be 'up', 'down'"))
  }

  /** The fractional move from a positive start price. */
  function Move(p0: real, p: real): real
    requires p0 > 0.0
  {
    (p - p0) / p0
  }

  /** The move from row i to row i+k crosses the threshold in direction dir. */
  predicate HitAt(days: seq<DayPrice>, i: nat, k: nat, dir: Direction, thr: real) {
    i + k < |days| &&
    days[i].price.Some? && days[i].price.value > 0.0 &&
    days[i + k].price.Some? &&
    var m := Move(days[i].price.value, days[i + k].price.value);
    match dir
    case Up => m >= thr
    case Down => m <= -thr
  }

  /** The least offset in k..n that hits, if any. */
  function EarliestFrom(days: seq<DayPrice>, i: nat, dir: Direction, thr: real, k: nat, n: nat): (r: Option<nat>)
    ensures r.Some? ==> k <= r.value <= n && HitAt(days, i, r.value, dir, thr)
    ensures r.Some? ==> forall j :: k <= j < r.value ==> !HitAt(days, i, j, dir, thr)
    ensures r.None? ==> forall j :: k <= j <= n ==> !HitAt(days, i, j, dir, thr)
    decreases n - k
  {
    if k > n then None
    else if HitAt(days, i, k, dir, thr) then Some(k)
    else EarliestFrom(days, i, dir, thr, k + 1, n)
  }

  /** The candidate episode starting at row i, looking ahead n rows. */
  function CandidateAt(s: TickerSeries, i: nat, dir: Direction, thr: real, n: nat): (r: Option<Episode>)
    requires i < |s.days|
    ensures r.Some? <==> HasHit(s, i, dir, thr, n)
    ensures r.Some? ==> IsEarliestEpisode(s, i, r.value, dir, thr, n)
  {
    match EarliestFrom(s.days, i, dir, thr, 1, n)
    case None => None
    case Some(k) =>
      var p0 := s.days[i].price.value;
      var p := s.days[i + k].price.value;
      Some(Episode(s.ticker, s.days[i].date, s.days[i + k].date, p0, p, k,
                   Move(p0, p) * 100.0, i, i + k))
  }

  /**
   * e is the episode of row i: its offset is the least k in 1..n whose move
   * crosses the threshold, and its end row is i + k.
   */
  ghost predicate IsEarliestEpisode(s: TickerSeries, i: nat, e: Episode, dir: Direction, thr: real, n: nat) {
    var k := e.daysToThreshold;
    1 <= k <= n &&
    HitAt(s.days, i, k, dir, thr) &&
    (forall j :: 1 <= j < k ==> !HitAt(s.days, i, j, dir, thr)) &&
    e.ticker == s.ticker && e.startPos == i && e.endPos == i + k &&
    e.startDate == s.days[i].date && e.endDate == s.days[i + k].date &&
    e.startPrice == s.days[i].price.value && e.endPrice == s.days[i + k].price.value &&
    e.movePct == Move(e.startPrice, e.endPrice) * 100.0
  }

  /** Candidates starting at rows i.. of the series, in row order. */
  function CandidatesFrom(s: TickerSeries, i: nat, dir: Direction, thr: real, n: nat): (r: seq<Episode>)
    requires i <= |s.days|
    ensures forall e :: e in r ==> i <= e.startPos < |s.days| && IsEarliestEpisode(s, e.startPos, e, dir, thr, n)
    ensures forall a, b :: 0 <= a < b < |r| ==> r[a].startPos < r[b].startPos
    ensures forall j :: i <= j < |s.days| && HasHit(s, j, dir, thr, n) ==>
              exists e :: e in r && e.startPos == j
    decreases |s.days| - i
  {
    if i == |s.days| then []
    else
      var rest := CandidatesFrom(s, i + 1, dir, thr, n);
      var c := CandidateAt(s, i, dir, thr, n);
      CandidatesCons(s, i, dir, thr, n, c, rest);
      if c.Some? then [c.value] + rest else rest
  }

  /** The three properties of the candidates starting at rows i.. . */
  ghost predicate CandidatesOk(s: TickerSeries, i: nat, dir: Direction, thr: real, n: nat, r: seq<Episode>) {
    CandidatesValid(s, i, dir, thr, n, r) && StartsIncrease(r) && CandidatesCover(s, i, dir, thr, n, r)
  }

  /** Every candidate starts at row i or later and is the episode of its start row. */
  ghost predicate CandidatesValid(s: TickerSeries, i: nat, dir: Direction, thr: real, n: nat, r: seq<Episode>) {
    forall e :: e in r ==> i <= e.startPos < |s.days| && IsEarliestEpisode(s, e.startPos, e, dir, thr, n)
  }

  predicate StartsIncrease(r: seq<Episode>) {
    forall a, b :: 0 <= a < b < |r| ==> r[a].startPos < r[b].startPos
  }

  /** Every row from i on whose look-ahead hits has a candidate. */
  ghost predicate CandidatesCover(s: TickerSeries, i: nat, dir: Direction, thr: real, n: nat, r: seq<Episode>) {
    forall j :: i <= j < |s.days| && HasHit(s, j, dir, thr, n) ==> exists e :: e in r && e.startPos == j
  }

  /** Putting row i's candidate, if any, in front of the later rows' candidates keeps the properties. */
  lemma CandidatesCons(s: TickerSeries, i: nat, dir: Direction, thr: real, n: nat, c: Option<Episode>,
                       rest: seq<Episode>)
    requires i < |s.days| && CandidatesOk(s, i + 1, dir, thr, n, rest)
    requires c.Some? <==> HasHit(s, i, dir, thr, n)
    requires c.Some? ==> c.value.startPos == i && IsEarliestEpisode(s, i, c.value, dir, thr, n)
    ensures CandidatesOk(s, i, dir, thr, n, if c.Some? then [c.value] + rest else rest)
  {
    if c.Some? {
      ConsValid(s, i, dir, thr, n, c.value, rest);
      ConsIncrease(i, c.value, rest);
      ConsCover(s, i, dir, thr, n, c.value, rest);
    }
  }

  lemma ConsValid(s: TickerSeries, i: nat, dir: Direction, thr: real, n: nat, e: Episode, rest: seq<Episode>)
    requires i < |s.days| && CandidatesValid(s, i + 1, dir, thr, n, rest)
    requires e.startPos == i && IsEarliestEpisode(s, i, e, dir, thr, n)
    ensures CandidatesValid(s, i, dir, thr, n, [e] + rest)
  {
    forall x | x in [e] + rest
      ensures i <= x.startPos < |s.days| && IsEarliestEpisode(s, x.startPos, x, dir, thr, n)
    {
      if x != e {
        assert x in rest;
      }
    }
  }

  lemma ConsIncrease(i: nat, e: Episode, rest: seq<Episode>)
    requires e.startPos == i && StartsIncrease(rest) && forall x :: x in rest ==> i + 1 <= x.startPos
    ensures StartsIncrease([e] + rest)
  {
    var r := [e] + rest;
    forall a, b | 0 <= a < b < |r|
      ensures r[a].startPos < r[b].startPos
    {
      assert r[b] == rest[b - 1] && rest[b - 1] in rest;
      if a > 0 {
        assert r[a] == rest[a - 1];
      }
    }
  }

  lemma ConsCover(s: TickerSeries, i: nat, dir: Direction, thr: real, n: nat, e: Episode, rest: seq<Episode>)
    requires CandidatesCover(s, i + 1, dir, thr, n, rest) && e.startPos == i
    ensures CandidatesCover(s, i, dir, thr, n, [e] + rest)
  {
    var r := [e] + rest;
    forall j | i <= j < |s.days| && HasHit(s, j, dir, thr, n)
      ensures exists x :: x in r && x.startPos == j
    {
      if j == i {
        assert e in r;
      } else {
        var x :| x in rest && x.startPos == j;
        assert x in r;
      }
    }
  }

  /** Some offset in 1..n from row j crosses the threshold. */
  ghost predicate HasHit(s: TickerSeries, j: nat, dir: Direction, thr: real, n: nat) {
    exists k :: 1 <= k <= n && HitAt(s.days, j, k, dir, thr)
  }

  function Candidates(s: TickerSeries, dir: Direction, thr: real, n: nat): seq<Episode> {
    CandidatesFrom(s, 0, dir, thr, n)
  }

  /**
   * The greedy skip-ahead: keep a candidate if it starts at or after the
   * cursor, and then move the cursor past its end.
   */
  function Greedy(cands: seq<Episode>, next: int): seq<Episode> {
    if cands == [] then []
    else if cands[0].startPos >= next then [cands[0]] + Greedy(cands[1..], cands[0].endPos + 1)
    else Greedy(cands[1..], next)
  }

  /** The rows of `cands` whose mask bit is set (`sub.loc[keep]`). */
  function Kept(cands: seq<Episode>, mask: seq<bool>): seq<Episode>
    requires |mask| == |cands|
  {
    if cands == [] then []
    else Kept(cands[..|cands| - 1], mask[..|mask| - 1]) +
         (if mask[|mask| - 1] then [cands[|cands| - 1]] else [])
  }

  /** Masking one more row appends it exactly when its bit is set. */
  lemma KeptSnoc(cands: seq<Episode>, mask: seq<bool>, c: Episode, m: bool)
    requires |mask| == |cands|
    ensures Kept(cands + [c], mask + [m]) == Kept(cands, mask) + (if m then [c] else [])
  {
    assert (cands + [c])[..|cands|] == cands;
    assert (mask + [m])[..|mask|] == mask;
  }

  /** One step of the skip-ahead from row i. */
  lemma GreedyStep(cands: seq<Episode>, i: nat, next: int)
    requires i < |cands|
    ensures Greedy(cands[i..], next) ==
            if cands[i].startPos >= next then [cands[i]] + Greedy(cands[i + 1..], cands[i].endPos + 1)
            else Greedy(cands[i + 1..], next)
  {
    assert cands[i..][0] == cands[i] && cands[i..][1..] == cands[i + 1..];
  }

  /**
   * Deciding row i keeps the loop's invariant: the rows kept so far
   * followed by the skip-ahead from the cursor are the whole result.
   */
  lemma SkipStep(cands: seq<Episode>, prefix: seq<bool>, i: nat, next: int, whole: seq<Episode>)
    requires i < |cands| && |prefix| == i
    requires Kept(cands[..i], prefix) + Greedy(cands[i..], next) == whole
    ensures var take := cands[i].startPos >= next;
            Kept(cands[..i + 1], prefix + [take]) +
            Greedy(cands[i + 1..], if take then cands[i].endPos + 1 else next) == whole
  {
    var take := cands[i].startPos >= next;
    GreedyStep(cands, i, next);
    KeptSnoc(cands[..i], prefix, cands[i], take);
    assert cands[..i + 1] == cands[..i] + [cands[i]];
  }

  /** The skip-ahead loop over one ticker's candidates. */
  method SkipAhead(cands: seq<Episode>) returns (picked: seq<Episode>)
    ensures picked == Greedy(cands, 0)
  {
    var keep := new bool[|cands|](_ => false);
    var nextAllowed := 0;
    for i := 0 to |cands|
      invariant forall j :: i <= j < |cands| ==> !keep[j]
      invariant Kept(cands[..i], keep[..i]) + Greedy(cands[i..], nextAllowed) == Greedy(cands, 0)
    {
      ghost var prefix := keep[..i];
      SkipStep(cands, prefix, i, nextAllowed, Greedy(cands, 0));
      if cands[i].startPos >= nextAllowed {
        keep[i] := true;
        nextAllowed := cands[i].endPos + 1;
      }
      assert keep[..i + 1] == prefix + [keep[i]];
    }
    assert cands[..|cands|] == cands && keep[..|cands|] == keep[..];
    picked := Kept(cands, keep[..]);
  }

  /** The episodes of one ticker: its candidates, thinned by the skip-ahead. */
  function TickerEpisodes(s: TickerSeries, dir: Direction, thr: real, n: nat): seq<Episode> {
    Greedy(Candidates(s, dir, thr, n), 0)
  }

  function AllEpisodes(table: seq<TickerSeries>, dir: Direction, thr: real, n: nat): seq<Episode> {
    if table == [] then []
    else AllEpisodes(table[..|table| - 1], dir, thr, n) + TickerEpisodes(table[|table| - 1], dir, thr, n)
  }

  /**
   * `find_trades` as a function of its inputs: a horizon below 1 leaves
   * nothing to stack (ValueError), an unknown direction is a ValueError,
   * and otherwise every ticker's episodes, ticker by ticker.
   */
  function FindTradesSpec(table: seq<TickerSeries>, horizon: int, upPct: real, direction: string): Result<seq<Episode>> {
    if horizon < 1 then Err(ValueError("need at least one array to concatenate"))
    else
      var dir :- ParseDirection(direction);
      Ok(AllEpisodes(table, dir, upPct / 100.0, horizon))
  }

  method FindTrades(table: seq<TickerSeries>, horizon: int, upPct: real, direction: string)
    returns (r: Result<seq<Episode>>)
    ensures r == FindTradesSpec(table, horizon, upPct, direction)
  {
    if horizon < 1 {
      return Err(ValueError("need at least one array to concatenate"));
    }
    var parsed := ParseDirection(direction);
    if parsed.Err? {
      return Err(parsed.error);
    }
    var dir := parsed.value;
    var thr := upPct / 100.0;
    var results: seq<Episode> := [];
    for t := 0 to |table|
      invariant results == AllEpisodes(table[..t], dir, thr, horizon)
    {
      assert table[..t + 1][..t] == table[..t];
      var picked := SkipAhead(Candidates(table[t], dir, thr, horizon));
      results := results + picked;
    }
    assert table[..|table|] == table;
    return Ok(results);
  }

  // ----- properties of the skip-ahead -----

  predicate WellFormed(cands: seq<Episode>) {
    forall c :: c in cands ==> c.startPos <= c.endPos
  }

  predicate StartsSorted(cands: seq<Episode>) {
    forall a, b :: 0 <= a < b < |cands| ==> cands[a].startPos <= cands[b].startPos
  }

  /**
   * Kept episodes are drawn from the candidates, start at or after the
   * cursor, and never overlap: each starts after the previous one ends,
   * so starts are strictly ascending.
   */
  lemma GreedyNonOverlapping(cands: seq<Episode>, next: int)
    requires WellFormed(cands)
    ensures forall e :: e in Greedy(cands, next) ==> e in cands && e.startPos >= next
    ensures forall a, b :: 0 <= a < b < |Greedy(cands, next)| ==>
              Greedy(cands, next)[a].endPos + 1 <= Greedy(cands, next)[b].startPos
    ensures forall a, b :: 0 <= a < b < |Greedy(cands, next)| ==>
              Greedy(cands, next)[a].startPos < Greedy(cands, next)[b].startPos
  {
    GreedyDrawn(cands, next);
    GreedyGaps(cands, next);
    var g := Greedy(cands, next);
    forall a, b | 0 <= a < b < |g|
      ensures g[a].startPos < g[b].startPos
    {
      assert g[a] in g;
    }
  }

  /** Kept episodes are drawn from the candidates and start at or after the cursor. */
  lemma {:induction false} GreedyDrawn(cands: seq<Episode>, next: int)
    requires WellFormed(cands)
    ensures forall e :: e in Greedy(cands, next) ==> e in cands && e.startPos >= next
    decreases |cands|
  {
    if cands != [] {
      assert forall c :: c in cands[1..] ==> c in cands;
      assert WellFormed(cands[1..]);
      if cands[0].startPos >= next {
        GreedyDrawn(cands[1..], cands[0].endPos + 1);
      } else {
        GreedyDrawn(cands[1..], next);
      }
    }
  }

  /** Each kept episode starts after the previous one ends. */
  lemma {:induction false} GreedyGaps(cands: seq<Episode>, next: int)
    requires WellFormed(cands)
    ensures forall a, b :: 0 <= a < b < |Greedy(cands, next)| ==>
              Greedy(cands, next)[a].endPos + 1 <= Greedy(cands, next)[b].startPos
    decreases |cands|
  {
    if cands != [] {
      var tail := cands[1..];
      assert WellFormed(tail) by {
        assert forall c :: c in tail ==> c in cands;
      }
      if cands[0].startPos >= next {
        var cursor := cands[0].endPos + 1;
        GreedyGaps(tail, cursor);
        GreedyDrawn(tail, cursor);
        var rest := Greedy(tail, cursor);
        var g := [cands[0]] + rest;
        assert Greedy(cands, next) == g;
        forall a, b | 0 <= a < b < |g|
          ensures g[a].endPos + 1 <= g[b].startPos
        {
          assert g[b] == rest[b - 1] && rest[b - 1] in rest;
          if a > 0 {
            assert g[a] == rest[a - 1];
          }
        }
      } else {
        GreedyGaps(tail, next);
      }
    }
  }

  /**
   * Every candidate the skip-ahead drops starts inside an episode it kept
   * (or before the cursor it started with).
   */
  lemma {:induction false} GreedyCovers(cands: seq<Episode>, next: int)
    requires StartsSorted(cands)
    ensures forall c :: c in cands ==>
              c in Greedy(cands, next) || c.startPos < next ||
              exists e :: e in Greedy(cands, next) && e.startPos <= c.startPos <= e.endPos
    decreases |cands|
  {
    if cands != [] {
      var rest := cands[1..];
      assert StartsSorted(rest);
      assert forall c :: c in rest ==> cands[0].startPos <= c.startPos;
      if cands[0].startPos >= next {
        GreedyCovers(rest, cands[0].endPos + 1);
      } else {
        GreedyCovers(rest, next);
      }
    }
  }

  /** Every kept episode of a ticker is the earliest-hit episode of its start row. */
  lemma EpisodesAreEarliest(s: TickerSeries, dir: Direction, thr: real, n: nat)
    ensures forall e :: e in TickerEpisodes(s, dir, thr, n) ==>
              e.startPos < |s.days| && IsEarliestEpisode(s, e.startPos, e, dir, thr, n)
  {
    var cands := Candidates(s, dir, thr, n);
    assert WellFormed(cands);
    GreedyNonOverlapping(cands, 0);
  }

  /** One ticker's episodes are in ascending start order and never overlap. */
  lemma EpisodesDoNotOverlap(s: TickerSeries, dir: Direction, thr: real, n: nat)
    ensures var es := TickerEpisodes(s, dir, thr, n);
              forall a, b :: 0 <= a < b < |es| ==>
                es[a].startPos < es[b].startPos && es[a].endPos + 1 <= es[b].startPos
  {
    var cands := Candidates(s, dir, thr, n);
    assert WellFormed(cands);
    GreedyNonOverlapping(cands, 0);
  }

  /**
   * A row with a hit is either kept as an episode or starts inside a kept
   * episode: the skip-ahead only drops overlapping candidates.
   */
  lemma DroppedRowsOverlap(s: TickerSeries, dir: Direction, thr: real, n: nat, j: nat, k: nat)
    requires j < |s.days| && 1 <= k <= n && HitAt(s.days, j, k, dir, thr)
    ensures exists e :: e in TickerEpisodes(s, dir, thr, n) && e.startPos <= j <= e.endPos
  {
    var cands := Candidates(s, dir, thr, n);
    assert HasHit(s, j, dir, thr, n);
    var c :| c in cands && c.startPos == j;
    GreedyCovers(cands, 0);
    if c in Greedy(cands, 0) {
      assert c.startPos <= j <= c.endPos;
    }
  }

  /** A row whose start price is missing or not positive never starts an episode. */
  lemma BadStartNeverCandidate(s: TickerSeries, dir: Direction, thr: real, n: nat, i: nat)
    requires i < |s.days|
    requires s.days[i].price.None? || s.days[i].price.value <= 0.0
    ensures forall e :: e in TickerEpisodes(s, dir, thr, n) ==> e.startPos != i
  {
    EpisodesAreEarliest(s, dir, thr, n);
  }

  /** Any direction other than "U" or "D" raises once the horizon is valid. */
  lemma UnknownDirectionRaises(table: seq<TickerSeries>, horizon: int, upPct: real, direction: string)
    requires horizon >= 1 && direction != "U" && direction != "D"
    ensures FindTradesSpec(table, horizon, upPct, direction).Err?
    ensures FindTradesSpec(table, horizon, upPct, direction).error.ValueError?
  {
  }

  /** An up-move of 10% within 2 rows: the earliest hit is reported. */
  lemma UpExample()
    ensures var s := TickerSeries("AAA", [DayPrice(1, Some(10.0)), DayPrice(2, Some(10.5)), DayPrice(3, Some(11.0))]);
            TickerEpisodes(s, Up, 0.1, 2) ==
              [Episode("AAA", 1, 3, 10.0, 11.0, 2, 10.0, 0, 2)]
  {
    var s := TickerSeries("AAA", [DayPrice(1, Some(10.0)), DayPrice(2, Some(10.5)), DayPrice(3, Some(11.0))]);
    assert !HitAt(s.days, 0, 1, Up, 0.1);
    assert HitAt(s.days, 0, 2, Up, 0.1);
    assert !HitAt(s.days, 1, 1, Up, 0.1);
    assert !HitAt(s.days, 1, 2, Up, 0.1);
    assert !HitAt(s.days, 2, 1, Up, 0.1) && !HitAt(s.days, 2, 2, Up, 0.1);
    assert CandidateAt(s, 2, Up, 0.1, 2) == None;
    assert CandidateAt(s, 1, Up, 0.1, 2) == None;
    assert EarliestFrom(s.days, 0, Up, 0.1, 1, 2) == Some(2);
    assert CandidateAt(s, 0, Up, 0.1, 2) == Some(Episode("AAA", 1, 3, 10.0, 11.0, 2, 10.0, 0, 2));
    assert CandidatesFrom(s, 3, Up, 0.1, 2) == [];
    assert CandidatesFrom(s, 2, Up, 0.1, 2) == [];
    assert CandidatesFrom(s, 1, Up, 0.1, 2) == [];
    assert Candidates(s, Up, 0.1, 2) == [Episode("AAA", 1, 3, 10.0, 11.0, 2, 10.0, 0, 2)];
  }
}
