// Small vocabulary shared by every model: an optional value and the fixed
// integer widths the repository narrows to.
module Basics {
  datatype Option<+T> = None | Some(value: T)

  type Byte = b: int | 0 <= b < 0x100

  // `as u32` on a machine word keeps the low 32 bits.
  const U32_RANGE: nat := 0x1_0000_0000

  function TruncateToU32(n: nat): nat {
    n % U32_RANGE
  }

  // `usize::saturating_sub`
  function SaturatingSub(a: nat, b: nat): nat {
    if a < b then 0 else a - b
  }

  function Min(a: nat, b: nat): nat {
    if a < b then a else b
  }

  function Max(a: nat, b: nat): nat {
    if a < b then b else a
  }
}
