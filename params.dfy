/**
 * Compile-time constants of the IVF-PQ index, the machine integer widths the
 * Rust code relies on, and the IEEE-754 double values that distances take.
 */
module Params {

  const EMBEDDING_DIM: nat := 12
  const EMBEDDING_M_SEGMENTS: nat := 4
  /** EMBEDDING_DIM is a multiple of EMBEDDING_M_SEGMENTS; the quotient is the segment length. */
  const SEGMENT_DIM: nat := EMBEDDING_DIM / EMBEDDING_M_SEGMENTS
  const CENTROIDS_PER_SUBSPACE_CLUSTER: nat := 8
  const K_MAX_CENTROIDS: nat := EMBEDDING_M_SEGMENTS * CENTROIDS_PER_SUBSPACE_CLUSTER
  const RETRIEVE_KNN: nat := 10
  const CQ_K_CENTROIDS: nat := 8

  const U8_MAX: nat := 255
  const U32_MAX: nat := 4294967295

  type u8 = x: nat | x <= U8_MAX
  type u32 = x: nat | x <= U32_MAX
  type i32 = x: int | -2147483648 <= x <= 2147483647

  /** The largest finite f64, 2^1024 - 2^971 (Rust's `f64::MAX`). */
  const F64_MAX: real := 179769313486231570814527423731704356798070567525844996598917476803157260780028538760589558632766878171540458953514382464234321326889464182768467546703537516986049910576551282076245490090389328944075868508455133942304583236903222948165808559332123348274797826204144723168738177180919299881250404026184124858368.0

  datatype Option<T> = None | Some(value: T)

  /**
   * A computed f64 distance: a number, or NaN. Rounding is not modelled, so
   * a number is an exact real.
   */
  datatype Float = Num(v: real) | NaN

  /** f64 `a > b`: false as soon as either side is NaN. */
  predicate Gt(a: Float, b: Float)
  {
    a.Num? && b.Num? && a.v > b.v
  }

  /** f64 addition: NaN is absorbing. */
  function Add(a: Float, b: Float): (r: Float)
    ensures r.NaN? <==> a.NaN? || b.NaN?
  {
    if a.Num? && b.Num? then Num(a.v + b.v) else NaN
  }
}
