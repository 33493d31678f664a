/** The few scalar helpers of the engine's math library that the bone controller uses,
    over real numbers (IEEE rounding is not modelled). */
module Mathf {

  /** Mathf.Min */
  function Min(a: real, b: real): (r: real)
    ensures r <= a && r <= b
    ensures r == a || r == b
  {
    if a < b then a else b
  }

  /** Mathf.Max */
  function Max(a: real, b: real): (r: real)
    ensures r >= a && r >= b
    ensures r == a || r == b
  {
    if a > b then a else b
  }

  /** Mathf.Clamp: the value itself when it lies in [lo, hi], else the bound it overshoots. */
  function Clamp(x: real, lo: real, hi: real): (r: real)
    requires lo <= hi
    ensures lo <= r <= hi
    ensures lo <= x <= hi ==> r == x
    ensures x < lo ==> r == lo
    ensures x > hi ==> r == hi
  {
    if x < lo then lo else if x > hi then hi else x
  }

  /** Mathf.Lerp: interpolation from a to b by t, with t clamped to [0, 1]. */
  function Lerp(a: real, b: real, t: real): (r: real)
    ensures 0.0 <= t <= 1.0 ==> r == a + (b - a) * t
    ensures t <= 0.0 ==> r == a
    ensures t >= 1.0 ==> r == b
  {
    a + (b - a) * Clamp(t, 0.0, 1.0)
  }
}
