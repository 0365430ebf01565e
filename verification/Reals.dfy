/** The absolute value, and rounding to integers. */
module Reals {

  function Abs(r: real): real {
    if r < 0.0 then -r else r
  }

  function Ceil(r: real): int {
    -((-r).Floor)
  }
}
