/** Fixed-width integers and byte strings as they appear in the protobuf schema. */
module Types {

  type byte = x: int | 0 <= x < 0x100

  type Bytes = seq<byte>

  type u32 = x: int | 0 <= x < 0x1_0000_0000

  type u64 = x: int | 0 <= x < 0x1_0000_0000_0000_0000

  function Min(a: int, b: int): (r: int) {
    if a <= b then a else b
  }
}
