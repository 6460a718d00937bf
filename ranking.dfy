/**
 * The deterministic tie-break order of the contract selector, and the
 * "first row after a stable sort" it is used with. Sorting a group with a
 * stable sort and taking its first row picks the earliest row whose key no
 * other row beats; `Best` computes exactly that row.
 */
module Ranking {
  import opened Common

  /**
   * A candidate's sort key: target distance, bid/ask spread (ascending),
   * open interest and volume (descending), contract id (ascending). NaN
   * cells sort last in every column, as pandas places them.
   */
  datatype SortKey = SortKey(
    dist: Option<real>,
    spread: Option<real>,
    openInterest: Option<real>,
    volume: Option<real>,
    id: ContractId)

  /** Ascending order with NaN last. */
  predicate AscLess(a: Option<real>, b: Option<real>) {
    a.Some? && (b.None? || a.value < b.value)
  }

  /** Descending order with NaN last. */
  predicate DescLess(a: Option<real>, b: Option<real>) {
    a.Some? && (b.None? || a.value > b.value)
  }

  /** x sorts strictly before y. */
  predicate KeyLess(x: SortKey, y: SortKey) {
    AscLess(x.dist, y.dist) ||
    (x.dist == y.dist &&
      (AscLess(x.spread, y.spread) ||
      (x.spread == y.spread &&
        (DescLess(x.openInterest, y.openInterest) ||
        (x.openInterest == y.openInterest &&
          (DescLess(x.volume, y.volume) ||
          (x.volume == y.volume && x.id < y.id)))))))
  }

  lemma KeyLessIrreflexive(x: SortKey)
    ensures !KeyLess(x, x)
  {
  }

  lemma KeyLessTransitive(x: SortKey, y: SortKey, z: SortKey)
    requires KeyLess(x, y) && KeyLess(y, z)
    ensures KeyLess(x, z)
  {
  }

  /** The order is total: two keys neither of which sorts first are equal. */
  lemma KeyLessTotal(x: SortKey, y: SortKey)
    ensures KeyLess(x, y) || KeyLess(y, x) || x == y
  {
  }

  /**
   * The first row of `pool` after a stable sort by `key`: the row no other
   * row sorts before, and among rows with that key the earliest one.
   */
  function Best<T(==)>(pool: seq<T>, key: T -> SortKey): (r: T)
    requires |pool| > 0
    ensures r in pool
    ensures forall c :: c in pool ==> !KeyLess(key(c), key(r))
    ensures exists i :: 0 <= i < |pool| && pool[i] == r &&
              forall j :: 0 <= j < i ==> KeyLess(key(r), key(pool[j]))
  {
    if |pool| == 1 then pool[0]
    else
      var b := Best(pool[1..], key);
      assert forall c :: c in pool ==> c == pool[0] || c in pool[1..];
      if KeyLess(key(b), key(pool[0])) then
        KeyLessIrreflexive(key(b));
        assert forall c :: c in pool[1..] ==> !KeyLess(key(c), key(b));
        assert !KeyLess(key(pool[0]), key(b)) by {
          if KeyLess(key(pool[0]), key(b)) {
            KeyLessTransitive(key(b), key(pool[0]), key(b));
          }
        }
        var i :| 0 <= i < |pool[1..]| && pool[1..][i] == b &&
                 forall j :: 0 <= j < i ==> KeyLess(key(b), key(pool[1..][j]));
        assert pool[i + 1] == b;
        assert forall j :: 0 <= j < i + 1 ==> KeyLess(key(b), key(pool[j]));
        b
      else
        BestPrefixNotBeaten(pool, key, b);
        pool[0]
  }

  lemma BestPrefixNotBeaten<T>(pool: seq<T>, key: T -> SortKey, b: T)
    requires |pool| > 1
    requires forall c :: c in pool[1..] ==> !KeyLess(key(c), key(b))
    requires !KeyLess(key(b), key(pool[0]))
    ensures forall c :: c in pool ==> !KeyLess(key(c), key(pool[0]))
  {
    forall c | c in pool
      ensures !KeyLess(key(c), key(pool[0]))
    {
      if c != pool[0] {
        assert c in pool[1..];
        KeyLessTotal(key(c), key(b));
        if KeyLess(key(c), key(pool[0])) {
          if KeyLess(key(b), key(c)) {
            KeyLessTransitive(key(b), key(c), key(pool[0]));
          }
        }
      } else {
        KeyLessIrreflexive(key(c));
      }
    }
  }

  /** Rows with equal keys are interchangeable: the choice depends on keys and positions only. */
  lemma BestIsFirstMinimal<T>(pool: seq<T>, key: T -> SortKey, i: int)
    requires 0 <= i < |pool|
    requires forall c :: c in pool ==> !KeyLess(key(c), key(pool[i]))
    requires forall j :: 0 <= j < i ==> KeyLess(key(pool[i]), key(pool[j]))
    ensures Best(pool, key) == pool[i]
  {
    var r := Best(pool, key);
    var k :| 0 <= k < |pool| && pool[k] == r && forall j :: 0 <= j < k ==> KeyLess(key(r), key(pool[j]));
    assert pool[i] in pool && pool[k] in pool;
    if k < i {
      assert false;
    } else if k > i {
      assert false;
    }
  }

  /** Best depends only on the keys of the rows, not on how they are computed. */
  lemma {:induction false} BestCongruent<T>(pool: seq<T>, f: T -> SortKey, g: T -> SortKey)
    requires |pool| > 0
    requires forall c :: c in pool ==> f(c) == g(c)
    ensures Best(pool, f) == Best(pool, g)
  {
    if |pool| > 1 {
      assert forall c :: c in pool[1..] ==> c in pool;
      BestCongruent(pool[1..], f, g);
    }
  }
}
