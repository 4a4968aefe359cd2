/** Small definitions shared by the CAN simulation and the secure-vault model. */
module Common {

  /** Python's `None` or a value. */
  datatype Option<+T> = None | Some(value: T)

  /** A wire-level bit: 0 is dominant, 1 is recessive. */
  type Bit = b: int | 0 <= b <= 1

  /** 2 to the power `n`. */
  function Pow2(n: nat): (r: nat)
    ensures r >= 1
  {
    if n == 0 then 1 else 2 * Pow2(n - 1)
  }
}
