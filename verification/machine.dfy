/** Fixed-width integers and the small vocabulary shared by every component. */
module Machine {

  const TWO16: int := 0x1_0000
  const TWO31: int := 0x8000_0000
  const TWO32: int := 0x1_0000_0000
  const TWO64: int := 0x1_0000_0000_0000_0000

  type u8 = x: int | 0 <= x < 0x100
  type u16 = x: int | 0 <= x < 0x1_0000
  type u32 = x: int | 0 <= x < 0x1_0000_0000
  type u64 = x: int | 0 <= x < 0x1_0000_0000_0000_0000

  datatype Option<+T> = None | Some(value: T)

  function Min(a: int, b: int): int {
    if a <= b then a else b
  }

  function Max(a: int, b: int): int {
    if a <= b then b else a
  }

  function Distance(a: int, b: int): nat {
    if a <= b then b - a else a - b
  }

  /** The C++ conversion to a 32-bit signed integer: reduce modulo 2^32, then take the signed representative. */
  function ToInt32(x: int): (r: int)
    ensures -TWO31 <= x < TWO31 ==> r == x
    ensures -TWO31 <= r < TWO31 && (x - r) % TWO32 == 0
  {
    var r := x % TWO32;
    if r < TWO31 then r else r - TWO32
  }
}
