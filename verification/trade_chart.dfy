/**
 * The decision logic of the trading chart container: the order in which the
 * chart's market selector lists markets, the barrier list handed to the
 * chart, and the tick cap of the mobile tick chart.
 */
module TradeChart {
  import opened Wrappers
  import LexOrder

  const SyntheticIndex: string := "synthetic_index"

  /** One entry of the active-symbols list: its symbol, optional underlying symbol and market. */
  datatype ActiveSymbol = ActiveSymbol(symbol: string, underlyingSymbol: Option<string>, market: string)

  /** The sort key: a non-empty underlying symbol wins; an absent or empty one falls back to the symbol. */
  function SortKey(s: ActiveSymbol): (k: string)
    ensures s.underlyingSymbol.Some? && s.underlyingSymbol.value != "" ==> k == s.underlyingSymbol.value
    ensures s.underlyingSymbol.None? || s.underlyingSymbol == Some("") ==> k == s.symbol
    ensures k == "" ==> s.symbol == ""
  {
    match s.underlyingSymbol
    case Some(u) => if u != "" then u else s.symbol
    case None => s.symbol
  }

  // ---------------------------------------------------------------------------
  // Sorting by key
  // ---------------------------------------------------------------------------

  /** Neighbours are in key order (ties in either order). */
  predicate SortedByKey(s: seq<ActiveSymbol>) {
    forall i | 0 < i < |s| :: LexOrder.LessOrEqual(SortKey(s[i - 1]), SortKey(s[i]))
  }

  /** A sequence sorted between neighbours is sorted between any two positions. */
  lemma {:induction false} SortedPairwise(s: seq<ActiveSymbol>, i: nat, j: nat)
    requires SortedByKey(s)
    requires i <= j < |s|
    ensures LexOrder.LessOrEqual(SortKey(s[i]), SortKey(s[j]))
    decreases j - i
  {
    if i == j {
      LexOrder.Irreflexive(SortKey(s[i]));
    } else {
      SortedPairwise(s, i, j - 1);
      LexOrder.LessOrEqualTransitive(SortKey(s[i]), SortKey(s[j - 1]), SortKey(s[j]));
    }
  }

  /** Inserts `x` before the first element whose key is greater than its own. */
  function Insert(x: ActiveSymbol, s: seq<ActiveSymbol>): (r: seq<ActiveSymbol>)
    requires SortedByKey(s)
    ensures SortedByKey(r)
    ensures multiset(r) == multiset(s) + multiset{x}
    ensures |r| > 0 && (r[0] == x || (|s| > 0 && r[0] == s[0]))
    decreases |s|
  {
    if |s| == 0 then [x]
    else if LexOrder.Less(SortKey(x), SortKey(s[0])) then
      LexOrder.Asymmetric(SortKey(x), SortKey(s[0]));
      [x] + s
    else
      var rest := Insert(x, s[1..]);
      assert s == [s[0]] + s[1..];
      [s[0]] + rest
  }

  /**
   * A sorted copy of the active symbols. The comparator never
   * answers "equal", so the engine may order symbols with equal keys either
   * way; this insertion sort keeps them in input order.
   */
  function SortByKey(symbols: seq<ActiveSymbol>): (r: seq<ActiveSymbol>)
    ensures SortedByKey(r)
    ensures multiset(r) == multiset(symbols)
  {
    if |symbols| == 0 then []
    else
      var init := symbols[..|symbols| - 1];
      assert symbols == init + [symbols[|symbols| - 1]];
      Insert(symbols[|symbols| - 1], SortByKey(init))
  }

  /** Symbols that share a key are the same symbol. */
  predicate DistinctKeys(symbols: seq<ActiveSymbol>) {
    forall s, t | s in symbols && t in symbols && SortKey(s) == SortKey(t) :: s == t
  }

  /**
   * With distinct keys there is only one key-sorted permutation, so the
   * engine's choice of sorting algorithm cannot change the result.
   */
  lemma {:induction false} SortedPermutationUnique(a: seq<ActiveSymbol>, b: seq<ActiveSymbol>)
    requires SortedByKey(a) && SortedByKey(b) && multiset(a) == multiset(b)
    requires DistinctKeys(a)
    ensures a == b
    decreases |a|
  {
    if |a| > 0 {
      SortedHeadsEqual(a, b);
      assert a == [a[0]] + a[1..] && b == [b[0]] + b[1..];
      assert multiset(a) == multiset{a[0]} + multiset(a[1..]);
      assert multiset(b) == multiset{a[0]} + multiset(b[1..]);
      assert multiset(a[1..]) == multiset(a) - multiset{a[0]} == multiset(b[1..]);
      SortedTail(a);
      SortedTail(b);
      SortedPermutationUnique(a[1..], b[1..]);
    }
  }

  /** Two key-sorted permutations of symbols with distinct keys start with the same symbol. */
  lemma SortedHeadsEqual(a: seq<ActiveSymbol>, b: seq<ActiveSymbol>)
    requires SortedByKey(a) && SortedByKey(b) && multiset(a) == multiset(b)
    requires DistinctKeys(a) && |a| > 0
    ensures |b| > 0 && a[0] == b[0]
  {
    assert a[0] in multiset(b);
    var k :| 0 <= k < |b| && b[k] == a[0];
    assert b[0] in multiset(a);
    var k' :| 0 <= k' < |a| && a[k'] == b[0];
    SortedPairwise(b, 0, k);
    SortedPairwise(a, 0, k');
    LexOrder.Trichotomy(SortKey(a[0]), SortKey(b[0]));
  }

  lemma SortedTail(s: seq<ActiveSymbol>)
    requires SortedByKey(s) && |s| > 0
    ensures SortedByKey(s[1..])
  {
    forall i | 0 < i < |s| - 1
      ensures LexOrder.LessOrEqual(SortKey(s[1..][i - 1]), SortKey(s[1..][i]))
    {
      assert s[1..][i - 1] == s[i] && s[1..][i] == s[i + 1];
    }
  }

  // ---------------------------------------------------------------------------
  // Market order
  // ---------------------------------------------------------------------------

  /** The market of each symbol, position by position. */
  function MarketsOf(symbols: seq<ActiveSymbol>): (r: seq<string>)
    ensures |r| == |symbols|
    ensures forall i | 0 <= i < |symbols| :: r[i] == symbols[i].market
  {
    seq(|symbols|, i requires 0 <= i < |symbols| => symbols[i].market)
  }

  /** Whether some symbol belongs to market `m`, scanning the list in order. */
  function HasMarket(symbols: seq<ActiveSymbol>, m: string): (has: bool)
    ensures has <==> exists s | s in symbols :: s.market == m
    ensures has <==> m in MarketsOf(symbols)
  {
    if |symbols| == 0 then false
    else symbols[0].market == m || HasMarket(symbols[1..], m)
  }

  /** `Array.prototype.indexOf`: the first position of `x`, or -1 when it does not occur. */
  function IndexOf(s: seq<string>, x: string): (i: int)
    ensures -1 <= i < |s|
    ensures i == -1 <==> x !in s
    ensures 0 <= i ==> s[i] == x && x !in s[..i]
  {
    if |s| == 0 then -1
    else if s[0] == x then 0
    else
      var j := IndexOf(s[1..], x);
      if j == -1 then -1
      else
        assert s[..j + 1] == [s[0]] + s[1..][..j];
        j + 1
  }

  predicate NoDuplicates<T(==)>(s: seq<T>) {
    forall i, j | 0 <= i < j < |s| :: s[i] != s[j]
  }

  /** Dropping the first element shifts the first position of every other value by one. */
  lemma IndexOfTail(s: seq<string>, x: string)
    requires |s| > 0 && x != s[0] && x in s
    ensures IndexOf(s, x) == IndexOf(s[1..], x) + 1
  {
    assert x in s[1..] by {
      var k :| 0 <= k < |s| && s[k] == x;
      assert s[1..][k - 1] == x;
    }
  }

  /**
   * Folds over the markets from the seed `acc`, appending each market whose
   * position in the accumulator is -1, that is, each one not yet collected.
   */
  function Collect(acc: seq<string>, markets: seq<string>): (r: seq<string>)
    requires NoDuplicates(acc)
    ensures NoDuplicates(r)
    ensures |acc| <= |r| && r[..|acc|] == acc
    ensures forall m :: m in r <==> m in acc || m in markets
    ensures forall i | |acc| <= i < |r| :: r[i] !in acc
    decreases |markets|
  {
    if |markets| == 0 then acc
    else
      var m := markets[0];
      var next := if IndexOf(acc, m) == -1 then acc + [m] else acc;
      var r := Collect(next, markets[1..]);
      assert markets == [m] + markets[1..];
      assert forall i | |acc| <= i < |r| :: r[i] !in acc by {
        forall i | |acc| <= i < |r|
          ensures r[i] !in acc
        {
          if i < |next| {
            assert r[i] == next[i] == m;
          }
        }
      }
      r
  }

  /** What `Collect` adds comes in order of first occurrence in `markets`. */
  lemma {:induction false} CollectFollowsFirstOccurrence(acc: seq<string>, markets: seq<string>, r: seq<string>)
    requires NoDuplicates(acc)
    requires r == Collect(acc, markets)
    ensures forall i, j | |acc| <= i < j < |r| :: IndexOf(markets, r[i]) < IndexOf(markets, r[j])
    decreases |markets|
  {
    if |markets| > 0 {
      var m := markets[0];
      var next := if IndexOf(acc, m) == -1 then acc + [m] else acc;
      assert r == Collect(next, markets[1..]);
      CollectFollowsFirstOccurrence(next, markets[1..], r);
      assert m in next;
      forall i | |next| <= i < |r|
        ensures IndexOf(markets, r[i]) == IndexOf(markets[1..], r[i]) + 1
      {
        assert r[i] in markets[1..];
        IndexOfTail(markets, r[i]);
      }
      forall i, j | |acc| <= i < j < |r|
        ensures IndexOf(markets, r[i]) < IndexOf(markets, r[j])
      {
        assert r[j] !in next && r[j] in r;
        assert r[j] in markets[1..];
        if i < |next| {
          assert r[i] == next[i] == m;
          assert IndexOf(markets, r[i]) == 0;
        } else {
          assert r[i] !in next && r[i] in r;
          assert IndexOf(markets[1..], r[i]) < IndexOf(markets[1..], r[j]);
        }
      }
    }
  }

  /** Some symbol of market `a` has a key no greater than the key of every symbol of market `b`. */
  predicate MarketPrecedes(symbols: seq<ActiveSymbol>, a: string, b: string) {
    exists s | s in symbols && s.market == a ::
      forall t | t in symbols && t.market == b :: LexOrder.LessOrEqual(SortKey(s), SortKey(t))
  }

  /** In a key-sorted list, a market whose first occurrence comes earlier precedes in the sense above. */
  lemma FirstOccurrencePrecedes(sorted: seq<ActiveSymbol>, symbols: seq<ActiveSymbol>, a: string, b: string)
    requires SortedByKey(sorted) && multiset(sorted) == multiset(symbols)
    requires 0 <= IndexOf(MarketsOf(sorted), a) < IndexOf(MarketsOf(sorted), b)
    ensures MarketPrecedes(symbols, a, b)
  {
    var ms := MarketsOf(sorted);
    var fa := IndexOf(ms, a);
    var fb := IndexOf(ms, b);
    var s := sorted[fa];
    assert s in multiset(sorted);
    forall t | t in symbols && t.market == b
      ensures LexOrder.LessOrEqual(SortKey(s), SortKey(t))
    {
      assert t in multiset(sorted);
      var k :| 0 <= k < |sorted| && sorted[k] == t;
      assert ms[k] == b;
      SortedPairwise(sorted, fa, k);
    }
  }

  /** A market occurs among the markets of a permutation exactly when it occurs in the original. */
  lemma MarketsOfPermutation(sorted: seq<ActiveSymbol>, symbols: seq<ActiveSymbol>, m: string)
    requires multiset(sorted) == multiset(symbols)
    ensures m in MarketsOf(sorted) <==> HasMarket(symbols, m)
  {
    var ms := MarketsOf(sorted);
    if m in ms {
      var k :| 0 <= k < |ms| && ms[k] == m;
      assert sorted[k] in multiset(symbols);
    }
    if HasMarket(symbols, m) {
      var k :| 0 <= k < |symbols| && symbols[k].market == m;
      assert symbols[k] in multiset(sorted);
    }
  }

  /**
   * `getMarketsOrder`: markets of the active symbols, without duplicates,
   * `synthetic_index` first when present, the rest in order of their
   * smallest symbol key.
   */
  function GetMarketsOrder(symbols: seq<ActiveSymbol>): (r: seq<string>)
    ensures NoDuplicates(r)
    ensures forall m :: m in r <==> HasMarket(symbols, m)
    ensures HasMarket(symbols, SyntheticIndex) ==> |r| > 0 && r[0] == SyntheticIndex
    ensures var start := if HasMarket(symbols, SyntheticIndex) then 1 else 0;
      forall i, j | start <= i < j < |r| :: MarketPrecedes(symbols, r[i], r[j])
    ensures |symbols| == 0 ==> r == []
  {
    var seed := if HasMarket(symbols, SyntheticIndex) then [SyntheticIndex] else [];
    var sorted := SortByKey(symbols);
    var r := Collect(seed, MarketsOf(sorted));
    MarketsOrderFacts(symbols, seed, sorted);
    r
  }

  /** The proof obligations of `GetMarketsOrder`, discharged over its intermediate values. */
  lemma MarketsOrderFacts(symbols: seq<ActiveSymbol>, seed: seq<string>, sorted: seq<ActiveSymbol>)
    requires seed == if HasMarket(symbols, SyntheticIndex) then [SyntheticIndex] else []
    requires SortedByKey(sorted) && multiset(sorted) == multiset(symbols)
    ensures var r := Collect(seed, MarketsOf(sorted));
      && (forall m :: m in r <==> HasMarket(symbols, m))
      && (forall i, j | |seed| <= i < j < |r| :: MarketPrecedes(symbols, r[i], r[j]))
  {
    var markets := MarketsOf(sorted);
    var r := Collect(seed, markets);
    forall m
      ensures m in markets <==> HasMarket(symbols, m)
    {
      MarketsOfPermutation(sorted, symbols, m);
    }
    CollectFollowsFirstOccurrence(seed, markets, r);
    forall i, j | |seed| <= i < j < |r|
      ensures MarketPrecedes(symbols, r[i], r[j])
    {
      assert r[i] !in seed && r[i] in r;
      assert r[j] !in seed && r[j] in r;
      FirstOccurrencePrecedes(sorted, symbols, r[i], r[j]);
    }
  }

  /**
   * With distinct keys, collecting markets from any key-sorted copy of the
   * symbols gives the same list as `GetMarketsOrder`.
   */
  lemma MarketsOrderSortIndependent(symbols: seq<ActiveSymbol>, other: seq<ActiveSymbol>)
    requires DistinctKeys(symbols)
    requires SortedByKey(other) && multiset(other) == multiset(symbols)
    ensures Collect(if HasMarket(symbols, SyntheticIndex) then [SyntheticIndex] else [], MarketsOf(other))
         == GetMarketsOrder(symbols)
  {
    var sorted := SortByKey(symbols);
    assert DistinctKeys(other) by {
      forall s, t | s in other && t in other && SortKey(s) == SortKey(t) ensures s == t {
        assert s in multiset(symbols) && t in multiset(symbols);
      }
    }
    SortedPermutationUnique(other, sorted);
  }

  // ---------------------------------------------------------------------------
  // Chart inputs
  // ---------------------------------------------------------------------------

  /** The chart's barrier list: the main barrier, when there is one, in front of the extra barriers. */
  function Barriers<B>(mainBarrier: Option<B>, extraBarriers: seq<B>): (r: seq<B>)
    ensures |r| == |extraBarriers| + (if mainBarrier.Some? then 1 else 0)
    ensures r[|r| - |extraBarriers|..] == extraBarriers
    ensures mainBarrier.Some? ==> r[0] == mainBarrier.value
  {
    match mainBarrier
    case Some(b) => [b] + extraBarriers
    case None => extraBarriers
  }

  /** The tick cap of the mobile tick chart: 8 ticks for a tick chart (granularity 0), 24 otherwise. */
  function MaxTicks(granularity: int): (r: nat)
    ensures r == 8 || r == 24
    ensures r == 8 <==> granularity == 0
  {
    if granularity == 0 then 8 else 24
  }
}
