/** Small shared definitions: an Option type for Python's raised errors and
    powers of two for rotation angles, repetition counts and phase denominators. */
module Wrappers {

  datatype Option<+T> = None | Some(value: T)
}

module Powers {

  /** 2^k, the `2 ** k` of the source. */
  function Pow2(k: nat): (r: nat)
    ensures r >= 1
  {
    if k == 0 then 1 else 2 * Pow2(k - 1)
  }
}
