module Common {
  /** A value that may be absent. */
  datatype Option<+T> = None | Some(value: T)

  type Byte = b: int | 0 <= b < 256

  const INT_MAX := 0x7fff_ffff

  function Pow2(k: nat): (p: nat)
    ensures p >= 1
  {
    if k == 0 then 1 else 2 * Pow2(k - 1)
  }
}
