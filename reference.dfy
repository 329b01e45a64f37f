/**
 * ASSUMPTION, NOT MODELLED SOURCE.  The grouping that `differential_dataflow`'s
 * `reduce` operator performs lives in that library, not in this repository.
 * To state end-to-end facts about `compute_hourly_data`, this module fixes a
 * reference meaning for it over a finite, fully inserted sequence of trades:
 * every group key that some trade maps to gets the reduce body applied once
 * to the (price, 1) pairs of its trades, and the emitted records, with their
 * keys dropped, form the result.  The library hands the body consolidated
 * (price, count) pairs in its own order instead; `GroupHighOrderIndependent`,
 * `GroupHighIgnoresCounts` and `GroupHighDependsOnlyOnPrices` show that this
 * does not change the high.
 */
module HourlyReference {
  import opened Trades
  import opened Hour
  import opened HourlyData

  /** The group keys that occur among the trades. */
  function Keys(trades: seq<Trade>): (ks: set<GroupKey>)
  {
    set t | t in trades :: KeyedPrice(t).0
  }

  /** The prices of the trades whose key is `k`. */
  function GroupPrices(trades: seq<Trade>, k: GroupKey): (ps: set<Decimal>)
  {
    set t | t in trades && KeyedPrice(t).0 == k :: t.price
  }

  /**
   * The input the reduce body is given for key `k` in this reference: a
   * (price, 1) pair for each trade with that key, in sequence order.  The
   * contract promises its set of prices and its counts, which is all the
   * reduce body's result depends on.
   */
  function GroupInput(trades: seq<Trade>, k: GroupKey): (input: seq<(Decimal, int)>)
    ensures Prices(input) == GroupPrices(trades, k)
    ensures forall i :: 0 <= i < |input| ==> input[i].1 == 1
  {
    if trades == [] then []
    else
      var rest := GroupInput(trades[1..], k);
      var t := trades[0];
      var input := if KeyedPrice(t).0 == k then [(t.price, 1)] + rest else rest;
      assert GroupPrices(trades, k) ==
        (if KeyedPrice(t).0 == k then {t.price} else {}) + GroupPrices(trades[1..], k)
      by {
        assert forall u :: u in trades <==> u == t || u in trades[1..];
      }
      assert KeyedPrice(t).0 == k ==> Prices(input) == {t.price} + Prices(rest) by {
        if KeyedPrice(t).0 == k {
          assert input[0].0 == t.price;
          forall p | p in Prices(rest) ensures p in Prices(input) {
            var i :| 0 <= i < |rest| && rest[i].0 == p;
            assert input[i + 1] == rest[i];
          }
          forall p | p in Prices(input) ensures p in {t.price} + Prices(rest) {
            var i :| 0 <= i < |input| && input[i].0 == p;
            if i > 0 {
              assert input[i] == rest[i - 1];
            }
          }
        }
      }
      input
  }

  /**
   * The records the computation emits: one per group key, keys dropped.
   * The source's output is a collection with `isize` multiplicities; it is
   * a set here because every record has multiplicity exactly 1: `Reduce`
   * pushes each record with count 1, and distinct keys give distinct
   * records (`OneRecordPerGroup`).
   */
  function HourlyHighs(trades: seq<Trade>): (out: set<FHLLVData>)
    ensures forall r :: r in out ==> GroupKey(r.timestamp, r.market) in Keys(trades)
  {
    set k | k in Keys(trades) :: FHLLVData(k.hour, k.market, GroupHigh(GroupInput(trades, k)))
  }

  /** When all trades share one key, the output is that key's single record. */
  lemma HourlyHighsOfOneGroup(trades: seq<Trade>, k: GroupKey)
    requires Keys(trades) == {k}
    ensures HourlyHighs(trades) == {FHLLVData(k.hour, k.market, GroupHigh(GroupInput(trades, k)))}
  {
  }

  /**
   * Every trade is covered: its market has a record for the hour its
   * timestamp rounds to, and that record's high is at least its price.
   */
  lemma EveryTradeCovered(trades: seq<Trade>, t: Trade)
    requires t in trades
    ensures exists r :: (r in HourlyHighs(trades) &&
      r.timestamp == RoundDownToHour(t.timestamp) && r.market == t.market && t.price <= r.high)
  {
    var k := KeyedPrice(t).0;
    var input := GroupInput(trades, k);
    assert t.price in GroupPrices(trades, k);
    var i :| 0 <= i < |input| && input[i].0 == t.price;
    var r := FHLLVData(k.hour, k.market, GroupHigh(input));
    assert r in HourlyHighs(trades);
  }

  /**
   * Every record is sound: it names the hour and market of some trade, its
   * high is the price of one trade of that group, and no trade of that group
   * has a higher price.
   */
  lemma EveryRecordSound(trades: seq<Trade>, r: FHLLVData)
    requires r in HourlyHighs(trades)
    ensures exists t :: t in trades && KeyedPrice(t).0 == GroupKey(r.timestamp, r.market) && t.price == r.high
    ensures forall t :: t in trades && KeyedPrice(t).0 == GroupKey(r.timestamp, r.market) ==> t.price <= r.high
  {
    var k :| k in Keys(trades) && r == FHLLVData(k.hour, k.market, GroupHigh(GroupInput(trades, k)));
    assert k == GroupKey(r.timestamp, r.market);
    var input := GroupInput(trades, k);
    var t0 :| t0 in trades && KeyedPrice(t0).0 == k;
    assert t0.price in Prices(input);
    var i :| 0 <= i < |input| && GroupHigh(input) == input[i].0;
    assert input[i].0 in GroupPrices(trades, k);
    forall t | t in trades && KeyedPrice(t).0 == k ensures t.price <= r.high {
      assert t.price in GroupPrices(trades, k);
      var j :| 0 <= j < |input| && input[j].0 == t.price;
    }
  }

  /** At most one record per (hour, market): dropping the key loses nothing. */
  lemma OneRecordPerGroup(trades: seq<Trade>, r1: FHLLVData, r2: FHLLVData)
    requires r1 in HourlyHighs(trades) && r2 in HourlyHighs(trades)
    requires r1.timestamp == r2.timestamp && r1.market == r2.market
    ensures r1 == r2
  {
    var k1 :| k1 in Keys(trades) && r1 == FHLLVData(k1.hour, k1.market, GroupHigh(GroupInput(trades, k1)));
    var k2 :| k2 in Keys(trades) && r2 == FHLLVData(k2.hour, k2.market, GroupHigh(GroupInput(trades, k2)));
    assert k1 == k2;
  }

  /**
   * The result depends on the set of trades inserted and on nothing else:
   * neither their order nor inserting the same trade again changes it.
   */
  lemma HourlyHighsDependOnlyOnTradeSet(a: seq<Trade>, b: seq<Trade>)
    requires forall t :: t in a <==> t in b
    ensures HourlyHighs(a) == HourlyHighs(b)
  {
    assert Keys(a) == Keys(b);
    forall k | k in Keys(a)
      ensures GroupHigh(GroupInput(a, k)) == GroupHigh(GroupInput(b, k))
    {
      assert GroupPrices(a, k) == GroupPrices(b, k);
      GroupHighDependsOnlyOnPrices(GroupInput(a, k), GroupInput(b, k));
    }
  }

  /** Ten and fifteen whole currency units, in model units. */
  const Ten: Decimal := (10 * UnitsPerWhole) as Decimal
  const Fifteen: Decimal := (15 * UnitsPerWhole) as Decimal

  /**
   * Two trades of market 5 at 1717200000 (price 10.00) and 1717200500
   * (price 15.00) give the one record (1717200000, 5, 15.00); without the
   * 15.00 trade the record becomes (1717200000, 5, 10.00).
   */
  lemma TwoTradesInOneHour()
    ensures HourlyHighs([Trade(1717200000, 5, Ten), Trade(1717200500, 5, Fifteen)])
      == {FHLLVData(1717200000, 5, Fifteen)}
    ensures HourlyHighs([Trade(1717200000, 5, Ten)]) == {FHLLVData(1717200000, 5, Ten)}
  {
    var t1 := Trade(1717200000, 5, Ten);
    var t2 := Trade(1717200500, 5, Fifteen);
    var k := GroupKey(1717200000, 5);
    RoundDownToHourBucket(t1.timestamp, 1717200000);
    RoundDownToHourBucket(t2.timestamp, 1717200000);
    assert KeyedPrice(t1).0 == k && KeyedPrice(t2).0 == k;
    assert [t1, t2][1..] == [t2] && [t2][1..] == [] && [t1][1..] == [];
    assert Keys([t1, t2]) == {k};
    assert GroupInput([t2], k) == [(Fifteen, 1)];
    assert GroupInput([t1, t2], k) == [(Ten, 1), (Fifteen, 1)];
    assert GroupHigh([(Ten, 1), (Fifteen, 1)]) == Fifteen;
    HourlyHighsOfOneGroup([t1, t2], k);
    assert Keys([t1]) == {k};
    assert GroupInput([t1], k) == [(Ten, 1)];
    assert GroupHigh([(Ten, 1)]) == Ten;
    HourlyHighsOfOneGroup([t1], k);
  }
}
