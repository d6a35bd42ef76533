/** Fixed-width integers used by the core and the usual Option wrapper. */
module Primitives {

  /** Rust's `u8`. */
  newtype u8 = x: int | 0 <= x < 0x100

  /** Rust's `u16`, the type of a framebuffer's width and height. */
  newtype u16 = x: int | 0 <= x < 0x1_0000

  /** C's `unsigned int`, the type of a libretro device port. */
  newtype u32 = x: int | 0 <= x < 0x1_0000_0000

  datatype Option<+T> = None | Some(value: T)
}
