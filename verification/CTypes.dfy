// Bytes, and the arithmetic of size_t: unsigned and 64 bits wide, so that it wraps around.
module CTypes {
  datatype Option<+T> = None | Some(value: T)

  type Byte = x: int | 0 <= x < 256

  const SIZE_MAX: int := 0xFFFF_FFFF_FFFF_FFFF

  type Size = x: int | 0 <= x <= SIZE_MAX

  function Plus(a: Size, b: Size): Size {
    if a + b <= SIZE_MAX then a + b else a + b - SIZE_MAX - 1
  }

  function Minus(a: Size, b: Size): Size {
    if b <= a then a - b else a - b + SIZE_MAX + 1
  }
}
