/** The unsigned 64-bit integers and bytes the node computes with, and the
    saturating operations it uses on them. */
module MachineIntegers {

  const U64_MAX: nat := 0xFFFF_FFFF_FFFF_FFFF

  type U64 = n: nat | n <= U64_MAX

  type Byte = n: nat | n < 256

  function SatAdd(a: U64, b: U64): U64 {
    if a + b <= U64_MAX then a + b else U64_MAX
  }

  function SatSub(a: U64, b: U64): U64 {
    if a >= b then a - b else 0
  }

  function SatMul(a: U64, b: U64): U64 {
    if a * b <= U64_MAX then a * b else U64_MAX
  }
}
