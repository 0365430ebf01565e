/** Powers of two, 64-bit arithmetic, and a value that may be missing. */
module MachineWords {

  datatype Option<T> = None | Some(value: T)

  const TWO_16: int := 0x1_0000
  const TWO_32: int := 0x1_0000_0000
  const TWO_63: int := 0x8000_0000_0000_0000
  const TWO_64: int := 0x1_0000_0000_0000_0000

  function Pow2(n: nat): (p: nat)
    ensures p > 0
  {
    if n == 0 then 1 else 2 * Pow2(n - 1)
  }

  /** A number as 64 bits hold it. */
  function Wrap64(n: int): (w: nat)
    ensures w < TWO_64
  {
    n % TWO_64
  }

  lemma WrapSmall(n: int)
    ensures 0 <= n < TWO_64 ==> Wrap64(n) == n
  {
  }

  lemma WrapBelow()
    ensures Wrap64(-1) == TWO_64 - 1
  {
  }

  lemma WrapMinusOne(n: int, k: nat)
    ensures Wrap64(Wrap64(n - k) - 1) == Wrap64(n - (k + 1))
  {
  }
}
