/** Small shared vocabulary: an optional value and exact real helpers. */
module Wrappers {

  /** A value that may be absent (a JavaScript `undefined`, or a result left unset). */
  datatype Option<+T> = None | Some(value: T)
}

module Numeric {

  /** Math.abs over the reals. */
  function Abs(x: real): (r: real)
    ensures r >= 0.0
    ensures r == x || r == -x
  {
    if x < 0.0 then -x else x
  }

  /** 2^k as a real, used to state how bracket widths shrink. */
  function Pow2(k: nat): (r: real)
    ensures r >= 1.0
  {
    if k == 0 then 1.0 else 2.0 * Pow2(k - 1)
  }
}
