/**
 * `mathx.between`, the bounds helper both the path search and the map
 * smoothing use. Its definition is not part of this model; it is taken to
 * be strict on both sides, so `Between(-1, size, v)` holds exactly for
 * `0 <= v < size`.
 */
module Mathx {
  predicate Between(lo: int, hi: int, v: int)
  {
    lo < v < hi
  }
}
