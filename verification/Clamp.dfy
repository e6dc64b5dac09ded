/** Saturating arithmetic shared by the scorer and the simulator:
    `Math.max`, `Math.min` and `clamp01`. */
module Clamp {

  function Max(a: real, b: real): (r: real)
    ensures r >= a && r >= b
    ensures r == a || r == b
  {
    if a >= b then a else b
  }

  function Min(a: real, b: real): (r: real)
    ensures r <= a && r <= b
    ensures r == a || r == b
  {
    if a <= b then a else b
  }

  /** `Math.max(lo, Math.min(hi, x))`: saturates x into [lo, hi] whenever lo <= hi. */
  function ClampTo(lo: real, hi: real, x: real): (r: real)
    ensures lo <= hi ==> lo <= r <= hi
    ensures lo <= x <= hi ==> r == x
    ensures x < lo ==> r == lo
    ensures lo <= hi < x ==> r == hi
  {
    Max(lo, Min(hi, x))
  }

  /** clamp01: the result always lies in [0, 1]; a value already in [0, 1] is
      returned unchanged, anything below saturates to 0 and anything above to 1. */
  function Clamp01(x: real): (r: real)
    ensures 0.0 <= r <= 1.0
    ensures 0.0 <= x <= 1.0 ==> r == x
    ensures x < 0.0 ==> r == 0.0
    ensures x > 1.0 ==> r == 1.0
  {
    ClampTo(0.0, 1.0, x)
  }
}
