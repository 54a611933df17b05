/**
  Fixed-width integers, the RGB8 pixel of the `smart_leds` crate and time.
  Integers are unbounded in Dafny: each Rust width is a subset type, and the
  conversions the firmware relies on (`as u8`, wrap-around, truncating
  division) are written out as functions.
 */
module Primitives {

  type U8 = x: int | 0 <= x < 0x100
  type I8 = x: int | -0x80 <= x < 0x80
  type I16 = x: int | -0x8000 <= x < 0x8000
  type U32 = x: int | 0 <= x < 0x1_0000_0000

  /** An `embassy_time::Instant`, in milliseconds since boot. */
  type Instant = nat
  /** An `embassy_time::Duration`, in milliseconds. */
  type Duration = nat

  /** A pixel: three 8-bit channels. */
  datatype RGB8 = RGB8(r: U8, g: U8, b: U8)

  /** `RGB8::default()`: every channel off. */
  const BLACK: RGB8 := RGB8(0, 0, 0)
  const WHITE: RGB8 := RGB8(255, 255, 255)

  /** `v as u8` on a wider integer: Rust keeps the low eight bits. */
  function AsU8(v: int): (r: U8)
    ensures 0 <= v < 0x100 ==> r == v
    ensures (r - v) % 0x100 == 0
  {
    v % 0x100
  }

  /** The two's-complement wrap-around of a 16-bit signed operation. */
  function WrapI16(v: int): (r: I16)
    ensures -0x8000 <= v < 0x8000 ==> r == v
    ensures (r - v) % 0x1_0000 == 0
  {
    (v + 0x8000) % 0x1_0000 - 0x8000
  }

  function Abs(v: int): nat {
    if v < 0 then -v else v
  }

  /** Rust's integer `/`, which rounds toward zero (Dafny's `/` is Euclidean). */
  function TruncDiv(a: int, d: int): (q: int)
    requires d > 0
    ensures Abs(q) * d <= Abs(a) < (Abs(q) + 1) * d
    ensures a >= 0 ==> q >= 0
    ensures a <= 0 ==> q <= 0
  {
    if a >= 0 then a / d else -((-a) / d)
  }
}
