/** Types shared by the models of the DWARF reader. */
module Common {
  type Byte = b: int | 0 <= b < 256

  const TWO63: int := 0x8000_0000_0000_0000
  const TWO64: int := 0x1_0000_0000_0000_0000

  /** Reduction to 64 bits, as C's unsigned arithmetic does it. */
  function Wrap64(v: int): (u: int)
    ensures 0 <= u < TWO64
    ensures 0 <= v < TWO64 ==> u == v
  {
    v % 0x1_0000_0000_0000_0000
  }

  /** Dwarf_Unsigned and Dwarf_Signed, both 64 bits wide. */
  predicate IsU64(v: int) { 0 <= v < TWO64 }
  predicate IsS64(v: int) { -TWO63 <= v < TWO63 }

  /** The signed reading of a 64-bit pattern. */
  function AsSigned(u: int): int
    requires IsU64(u)
  {
    if u < TWO63 then u else u - TWO64
  }

  datatype Option<+T> = None | Some(value: T)

  /** DW_DLV_OK, DW_DLV_NO_ENTRY and DW_DLV_ERROR; error codes and texts are dropped. */
  datatype Res<+T> = Ok(value: T) | NoEntry | Error
}
