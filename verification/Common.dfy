/** Types shared by the models: an optional value and bytes as bounded integers. */
module Common {

  datatype Option<+T> = None | Some(value: T)

  type Byte = x: int | 0 <= x < 256

  const UINT8_MAX := 0xff
  const UINT16_MAX := 0xffff
  const UINT32_MAX := 0xffff_ffff
  const UINT64_MAX := 0xffff_ffff_ffff_ffff
  const INT64_MAX := 0x7fff_ffff_ffff_ffff

  type UInt16 = x: int | 0 <= x <= UINT16_MAX
  type UInt32 = x: int | 0 <= x <= UINT32_MAX
  type UInt64 = x: int | 0 <= x <= UINT64_MAX

  function Min(a: int, b: int): (m: int)
    ensures m <= a && m <= b && (m == a || m == b)
  {
    if a <= b then a else b
  }

  function Max(a: int, b: int): (m: int)
    ensures m >= a && m >= b && (m == a || m == b)
  {
    if a >= b then a else b
  }

  function Zeros(n: nat): (bits: seq<bool>)
    ensures |bits| == n
  {
    seq(n, i => false)
  }

  function Pow2(n: nat): (p: nat)
    ensures p > 0
  {
    if n == 0 then 1 else 2 * Pow2(n - 1)
  }

  lemma Regroup<T>(a: seq<T>, b: seq<T>, c: seq<T>)
    ensures a + b + c == a + (b + c)
  {
  }
}
