/**
 * The record shapes of the hourly aggregation: a trade as it enters the
 * dataflow, and the per-hour, per-market statistics record it produces.
 *
 * Integer widths follow the Rust declarations: timestamps are `i64`, market
 * ids are `u32`.  Prices are `rust_decimal::Decimal` values, modelled exactly
 * as integers counting units of 10^-28, the finest scale a `Decimal` can
 * carry.  Every `Decimal` is a 96-bit mantissa scaled by 10^-s with
 * 0 <= s <= 28, so every one of them is an integer number of such units and
 * lies between `DecimalMin` and `DecimalMax` below.  The model type holds at
 * least every representable decimal, and more: 79228162514264337593543950334.5
 * is in range but would need a mantissa over 2^96.  Only the order of prices
 * matters to the computation, so the extra values change nothing.
 */
module Trades {

  /** Signed 64-bit integer, Rust's `i64`. */
  newtype i64 = x: int | -0x8000_0000_0000_0000 <= x < 0x8000_0000_0000_0000

  /** Unsigned 32-bit integer, Rust's `u32`. */
  newtype u32 = x: int | 0 <= x < 0x1_0000_0000

  /** Number of model units in one whole currency unit (10^28). */
  const UnitsPerWhole: int := 10_000_000_000_000_000_000_000_000_000

  /**
   * An exact decimal price in units of 10^-28, a superset of the values a
   * `Decimal` can hold.  The bounds are
   * -(2^96 - 1) and 2^96 - 1 whole units, `Decimal::MIN` and `Decimal::MAX`.
   */
  newtype Decimal = x: int |
    -79228162514264337593543950335_0000000000000000000000000000 <= x <=
    79228162514264337593543950335_0000000000000000000000000000

  /** `Decimal::MIN`, the least value a `Decimal` can hold. */
  const DecimalMin: Decimal := -79228162514264337593543950335_0000000000000000000000000000

  /** `Decimal::MAX`, the greatest value a `Decimal` can hold. */
  const DecimalMax: Decimal := 79228162514264337593543950335_0000000000000000000000000000

  /** `Decimal::max`: the larger of two prices. */
  function Max(a: Decimal, b: Decimal): (m: Decimal)
    ensures a <= m && b <= m
    ensures m == a || m == b
  {
    if a < b then b else a
  }

  /** A single trade: when it happened, in which market, at what price. */
  datatype Trade = Trade(timestamp: i64, market: u32, price: Decimal)

  /** Statistics of the trades of one market within one hour. */
  datatype FHLLVData = FHLLVData(timestamp: i64, market: u32, high: Decimal)
}
