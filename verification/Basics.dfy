/** Types and functions shared by all models. */
module Basics {
  /** A value that may be absent: an undefined result, or a call that throws. */
  datatype Option<+T> = None | Some(value: T) {
    function GetOr(default: T): T {
      if None? then default else value
    }
  }

  type byte = n: int | 0 <= n < 256

  function Pow2(n: nat): (p: nat)
    ensures p > 0
  {
    if n == 0 then 1 else 2 * Pow2(n - 1)
  }
}
