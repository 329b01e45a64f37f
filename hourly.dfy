/**
 * The repository's own steps of `compute_hourly_data`: the `map` that keys
 * each trade by (hour, market) and keeps its price, the `reduce` body that
 * turns one group's (price, count) pairs into a single `FHLLVData` record,
 * and the final `map` that drops the key again.
 */
module HourlyData {
  import opened Trades
  import opened Hour

  /** The grouping key `(hour_ts, market)`. */
  datatype GroupKey = GroupKey(hour: i64, market: u32)

  /**
   * The first `map` closure: a trade becomes `((hour_ts, market), price)`.
   * The key names the trade's own market and the hour its timestamp falls
   * in, by truncation toward zero; the value carried on is its price.
   */
  function KeyedPrice(t: Trade): (kv: (GroupKey, Decimal))
    ensures kv.1 == t.price
    ensures kv.0.market == t.market
    ensures kv.0.hour as int % HourSeconds == 0
    ensures 0 <= t.timestamp ==> kv.0.hour <= t.timestamp && t.timestamp as int < kv.0.hour as int + HourSeconds
    ensures t.timestamp < 0 ==> t.timestamp <= kv.0.hour && kv.0.hour as int - HourSeconds < t.timestamp as int
  {
    (GroupKey(RoundDownToHour(t.timestamp), t.market), t.price)
  }

  /**
   * Two trades share a group exactly when they are in the same market and
   * their timestamps truncate to the same hour quotient.
   */
  lemma SameGroupIff(t1: Trade, t2: Trade)
    ensures KeyedPrice(t1).0 == KeyedPrice(t2).0 <==>
      t1.market == t2.market && TruncDiv(t1.timestamp as int, HourSeconds) == TruncDiv(t2.timestamp as int, HourSeconds)
  {
    var q1 := TruncDiv(t1.timestamp as int, HourSeconds);
    var q2 := TruncDiv(t2.timestamp as int, HourSeconds);
    assert RoundDownToHour(t1.timestamp) as int == q1 * HourSeconds;
    assert RoundDownToHour(t2.timestamp) as int == q2 * HourSeconds;
    assert q1 * HourSeconds - q2 * HourSeconds == (q1 - q2) * HourSeconds;
    MultipleIsZeroOrFar(q1 - q2, HourSeconds);
  }

  /**
   * The high of one group's input, folded left to right from `Decimal::MIN`
   * exactly as the reduce loop visits the pairs; the counts are not read.
   * It bounds every price of the input from above; an empty input keeps
   * `Decimal::MIN`, and a non-empty one has as high one of its own prices.
   */
  function GroupHigh(input: seq<(Decimal, int)>): (high: Decimal)
    ensures forall i :: 0 <= i < |input| ==> input[i].0 <= high
    ensures input == [] ==> high == DecimalMin
    ensures input != [] ==> exists i :: 0 <= i < |input| && high == input[i].0
  {
    if input == [] then DecimalMin
    else
      var init := input[..|input| - 1];
      assert forall i :: 0 <= i < |init| ==> init[i] == input[i];
      Max(GroupHigh(init), input[|input| - 1].0)
  }

  /** The distinct prices present in a group's input. */
  function Prices(input: seq<(Decimal, int)>): set<Decimal>
  {
    set i | 0 <= i < |input| :: input[i].0
  }

  /** A price is in `Prices(input)` exactly when some pair carries it. */
  lemma PricesMembers(input: seq<(Decimal, int)>)
    ensures forall i :: 0 <= i < |input| ==> input[i].0 in Prices(input)
    ensures forall p :: p in Prices(input) ==> exists i :: 0 <= i < |input| && input[i].0 == p
  {
  }

  /**
   * The high is the greatest element of `{Decimal::MIN} + Prices(input)`, so
   * it depends on the set of prices alone: neither the order of the pairs,
   * nor repeated prices, nor the counts change it.
   */
  lemma GroupHighDependsOnlyOnPrices(a: seq<(Decimal, int)>, b: seq<(Decimal, int)>)
    requires Prices(a) == Prices(b)
    ensures GroupHigh(a) == GroupHigh(b)
  {
    if a != [] {
      var i :| 0 <= i < |a| && GroupHigh(a) == a[i].0;
      assert a[i].0 in Prices(b);
      var j :| 0 <= j < |b| && b[j].0 == a[i].0;
      assert GroupHigh(a) <= GroupHigh(b);
      var k :| 0 <= k < |b| && GroupHigh(b) == b[k].0;
      assert b[k].0 in Prices(a);
      var l :| 0 <= l < |a| && a[l].0 == b[k].0;
      assert GroupHigh(b) <= GroupHigh(a);
    } else {
      PricesMembers(b);
      assert Prices(b) == {};
    }
  }

  /** Permuting the pairs of a group leaves the high unchanged. */
  lemma GroupHighOrderIndependent(a: seq<(Decimal, int)>, b: seq<(Decimal, int)>)
    requires multiset(a) == multiset(b)
    ensures GroupHigh(a) == GroupHigh(b)
  {
    forall p | p in Prices(a) ensures p in Prices(b) {
      var i :| 0 <= i < |a| && a[i].0 == p;
      assert a[i] in multiset(b);
      var j :| 0 <= j < |b| && b[j] == a[i];
    }
    forall p | p in Prices(b) ensures p in Prices(a) {
      var j :| 0 <= j < |b| && b[j].0 == p;
      assert b[j] in multiset(a);
      var i :| 0 <= i < |a| && a[i] == b[j];
    }
    GroupHighDependsOnlyOnPrices(a, b);
  }

  /** Giving the pairs of a group other counts leaves the high unchanged. */
  lemma GroupHighIgnoresCounts(a: seq<(Decimal, int)>, counts: seq<int>)
    requires |counts| == |a|
    ensures GroupHigh(seq(|a|, i requires 0 <= i < |a| => (a[i].0, counts[i]))) == GroupHigh(a)
  {
    var b := seq(|a|, i requires 0 <= i < |a| => (a[i].0, counts[i]));
    forall p | p in Prices(a) ensures p in Prices(b) {
      var i :| 0 <= i < |a| && a[i].0 == p;
      assert b[i].0 == p;
    }
    GroupHighDependsOnlyOnPrices(a, b);
  }

  /**
   * Tie stability: dropping one pair whose price another pair of the group
   * also carries leaves the high unchanged.
   */
  lemma GroupHighTieStable(a: seq<(Decimal, int)>, i: nat, j: nat)
    requires i < |a| && j < |a| && i != j && a[i].0 == a[j].0
    ensures GroupHigh(a[..i] + a[i + 1..]) == GroupHigh(a)
  {
    var b := a[..i] + a[i + 1..];
    forall p | p in Prices(a) ensures p in Prices(b) {
      var k :| 0 <= k < |a| && a[k].0 == p;
      var k' := if k == i then j else k;
      assert a[k'].0 == p;
      if k' < i {
        assert b[k'] == a[k'];
      } else {
        assert b[k' - 1] == a[k'];
      }
    }
    forall p | p in Prices(b) ensures p in Prices(a) {
      var k :| 0 <= k < |b| && b[k].0 == p;
      if k < i {
        assert b[k] == a[k];
      } else {
        assert b[k] == a[k + 1];
      }
    }
    GroupHighDependsOnlyOnPrices(a, b);
  }

  /**
   * The `reduce` closure for the group `key`: fold `max` over the input from
   * `Decimal::MIN`, then push one `FHLLVData` record with multiplicity 1
   * onto `output`.
   */
  method Reduce(key: GroupKey, input: seq<(Decimal, int)>, output: seq<(FHLLVData, int)>)
    returns (output': seq<(FHLLVData, int)>)
    ensures |output'| == |output| + 1 && output'[..|output|] == output
    ensures output'[|output|] == (FHLLVData(key.hour, key.market, GroupHigh(input)), 1)
  {
    var highPrice := DecimalMin;
    for i := 0 to |input|
      invariant highPrice == GroupHigh(input[..i])
    {
      assert input[..i + 1][..i] == input[..i];
      highPrice := Max(highPrice, input[i].0);
    }
    assert input[..|input|] == input;
    var ohlcv := FHLLVData(key.hour, key.market, highPrice);
    output' := output + [(ohlcv, 1)];
  }
}
