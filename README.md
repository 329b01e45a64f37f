# Hourly high of trades per market

This project models the repository's own logic in `compute_hourly_data`: a
stream of trades, each with an `i64` timestamp, a `u32` market id and a
`Decimal` price, is keyed by (hour, market); each group is reduced to one
`FHLLVData` record carrying the highest price of that hour in that market.

- `trades.dfy` (module `Trades`): the `Trade` and `FHLLVData` records with
  Rust's integer widths as newtypes. `Decimal` is an exact integer count of
  10^-28 units. That is the finest scale `rust_decimal` carries, so
  `Decimal::MIN` and `Decimal::MAX` are exact constants in this unit. The
  model type holds at least every representable decimal; it also holds values
  whose mantissa would exceed 96 bits, which does not matter for `max`.
- `hour.dfy` (module `Hour`): `round_down_to_hour` with Rust's truncating
  `i64` division written out (`TruncDiv`). It also holds the lemmas that place
  every timestamp in its bucket.
- `hourly.dfy` (module `HourlyData`): the key-extraction `map` closure, the
  `reduce` closure as a method with its loop, and `GroupHigh`, the function
  that specifies that loop. `GroupHigh`'s contract gives bounds and
  attainment; the lemmas about it give independence from order, repetition
  and counts.
- `reference.dfy` (module `HourlyReference`): an ASSUMPTION, not modelled
  source. The grouping done by `differential_dataflow`'s `reduce` operator
  belongs to that library. This module gives it a reference meaning over a
  finite sequence of inserted trades: apply the reduce body once to each
  non-empty group. End-to-end facts and the worked two-trade scenario are
  stated against that reference.

Bucketing policy: the code truncates toward zero, so a negative timestamp
that is not a whole hour goes to the hour boundary above it, and the bucket
of hour 0 spans the 7199 seconds from -3599 to 3599. A mathematical floor
would put such a timestamp in the hour below; the code does not, and the
model follows the code.
`RoundDownToHourVersusFloor` states exactly where the two policies agree and
where they differ. They agree on every non-negative timestamp, which includes
every timestamp the repository's trade generator produces.

## Model

| member | source | states |
|---|---|---|
| Hour.TruncDiv | src/main.rs:26 | the quotient of Rust's signed `/`: the remainder has the sign of the dividend and is smaller than the divisor |
| Hour.RoundDownToHour | src/main.rs:25-27 | the result is a multiple of 3600 and fits `i64` (no overflow); for `ts >= 0` it lies in `(ts - 3600, ts]`; for `ts < 0` it lies in `[ts, ts + 3600)`, so it rounds toward zero |
| Hour.RoundDownToHourIdempotent | src/main.rs:25-27 | rounding a rounded timestamp changes nothing |
| Hour.RoundDownToHourBucket | src/main.rs:25-27 | both directions: a positive hour `h` collects exactly `[h, h+3600)`, a negative one exactly `(h-3600, h]`, and hour 0 exactly `(-3600, 3600)` |
| Hour.RoundDownToHourVersusFloor | src/main.rs:26 | truncation equals the mathematical floor on non-negative timestamps and on whole hours, and is one hour above it on every other negative timestamp |
| Trades.Max | src/main.rs:116 | `Decimal::max`: the result is at least both arguments and is one of them |
| HourlyData.KeyedPrice | src/main.rs:108-111 | the key `map` closure: a trade's key holds its own market and the hour containing its timestamp (a multiple of 3600, bounded as `round_down_to_hour` is); the value passed on is its price |
| HourlyData.SameGroupIff | src/main.rs:108-111 | two trades get the same key if and only if they share a market and their timestamps have the same truncated hour quotient |
| HourlyData.Reduce | src/main.rs:112-125 | the closure pushes exactly one pair onto `output` and keeps what was there; the pair is `FHLLVData { timestamp: hour_ts, market, high }` with multiplicity 1, where `high` is `GroupHigh(input)`, the max fold from `Decimal::MIN` |
| HourlyData.GroupHigh | src/main.rs:113-117 | the `for` fold of `max` from `Decimal::MIN`: `high` is at least every price of the group's input; empty input leaves it at `Decimal::MIN`, otherwise it is the price of one of the input pairs |
| HourlyData.GroupHighDependsOnlyOnPrices | src/main.rs:113-117 | two inputs with the same set of prices give the same `high` |
| HourlyData.GroupHighOrderIndependent | src/main.rs:115-116 | permuting the input pairs does not change `high` |
| HourlyData.GroupHighIgnoresCounts | src/main.rs:115-116 | replacing the `count` components does not change `high` |
| HourlyData.GroupHighTieStable | src/main.rs:113-117 | dropping one pair whose price another pair also has does not change `high` |
| HourlyReference.GroupInput | src/main.rs:107-112 | assumption: the group input for a key holds exactly the prices of the trades with that key, each with count 1 |
| HourlyReference.HourlyHighs | src/main.rs:107-126 | assumption: the output of the grouping and the key-dropping `map`; every record's (timestamp, market) is the key of some trade; `EveryTradeCovered` gives the converse |
| HourlyReference.EveryTradeCovered | src/main.rs:107-126 | assumption-based: every inserted trade has a record for its market and rounded hour, with `high` at least its price |
| HourlyReference.EveryRecordSound | src/main.rs:107-126 | assumption-based: every record's (timestamp, market) is the key of some trade, its `high` is the price of a trade with that key, and no trade with that key has a higher price |
| HourlyReference.OneRecordPerGroup | src/main.rs:119-126 | assumption-based: after the key is dropped, no two records share a (timestamp, market) |
| HourlyReference.HourlyHighsDependOnlyOnTradeSet | src/main.rs:107-126 | assumption-based: the output depends only on the set of inserted trades, not on their order and not on repeated insertions |
| HourlyReference.TwoTradesInOneHour | src/main.rs:107-126 | assumption-based: market 5 trades at 1717200000 (10.00) and 1717200500 (15.00) give the single record (1717200000, 5, 15.00); without the second trade the record is (1717200000, 5, 10.00) |

## Left out

- `generate_synthetic_trades` (src/main.rs:29-81): random numbers, `f64` weights with `powf`, float rounding and `Decimal::from_f64_retain` are floating point and nondeterministic.
- `main` (src/main.rs:83-101): the timely worker harness, multi-worker execution and the `println!` inspection are concurrency and I/O.
- `InputSession` staging, `advance_to`/`flush`, and the incremental maintenance and retraction diffs inside `differential_dataflow::reduce` are library code that is not part of this model. `HourlyReference` stands in for the library's grouping only, over a finite set of insertions; retractions and the diff stream are not modelled. The library hands the reduce body consolidated (price, count) pairs sorted by price, not the per-trade (price, 1) pairs in insertion order that `GroupInput` builds; `GroupHighOrderIndependent`, `GroupHighIgnoresCounts` and `GroupHighDependsOnlyOnPrices` show that this does not change the high.
- `rust_decimal` scale and precision: every `Decimal` is modelled by its exact value in 10^-28 units, so two values that differ only in scale are one model value. The derived `Serialize`, `Deserialize` and `Ord` implementations (src/main.rs:10, 18) are not modelled.
- The `isize` multiplicities are modelled as unbounded integers. The reduce body never reads the input counts, and it emits the constant 1.
