/** The fixed-width integers of the decoder, as subsets of `int`. */
module BoundedInts {
  const TWO_TO_THE_8: int := 0x100
  const TWO_TO_THE_16: int := 0x1_0000
  const TWO_TO_THE_24: int := 0x100_0000
  const TWO_TO_THE_31: int := 0x8000_0000
  const TWO_TO_THE_32: int := 0x1_0000_0000
  const TWO_TO_THE_63: int := 0x8000_0000_0000_0000
  const TWO_TO_THE_64: int := 0x1_0000_0000_0000_0000

  type uint8 = x: int | 0 <= x < 0x100
  type uint16 = x: int | 0 <= x < 0x1_0000
  type uint32 = x: int | 0 <= x < 0x1_0000_0000
  type int32 = x: int | -0x8000_0000 <= x < 0x8000_0000
  type uint64 = x: int | 0 <= x < 0x1_0000_0000_0000_0000
  type int64 = x: int | -0x8000_0000_0000_0000 <= x < 0x8000_0000_0000_0000

  /** An `f32` read from the archive. No code computes with these values,
      so they are kept as the raw 32 bits in which they are stored. */
  type Float32Bits = uint32

  /** Rust's `w as i32`: the same 32 bits read as a two's complement number. */
  function AsInt32(w: uint32): (r: int32)
    ensures r % TWO_TO_THE_32 == w
    ensures r < 0 <==> w >= TWO_TO_THE_31
  {
    if w < 0x8000_0000 then w else w as int - 0x1_0000_0000
  }

  /** `AsInt32` is the only `int32` with the same bits as `w`. */
  lemma AsInt32Unique(w: uint32, x: int32)
    requires x % TWO_TO_THE_32 == w
    ensures x == AsInt32(w)
  {
    if x < 0 {
      assert x + TWO_TO_THE_32 == w;
    } else {
      assert x == w;
    }
  }

  /** Rust's wrapping `u32` addition (release-mode `+`). */
  function WrappingAdd(a: uint32, b: uint32): (r: uint32)
    ensures a as int + b as int < 0x1_0000_0000 ==> r == a as int + b as int
    ensures a as int + b as int >= 0x1_0000_0000 ==> r == a as int + b as int - 0x1_0000_0000
  {
    (a as int + b as int) % 0x1_0000_0000
  }
}
