/** Shared vocabulary of the overlay: optional values, the Rust integer widths
    the program relies on, colours, and the user events that the HID task and
    the mouse hook post to the window's event loop. */
module Types {

  /** Rust's `Option`: a value that may be absent. */
  datatype Option<+T> = None | Some(value: T)

  const I32_MIN: int := -0x8000_0000
  const I32_MAX: int := 0x7FFF_FFFF
  const U32_MODULUS: int := 0x1_0000_0000

  /** Rust `i32`. */
  type i32 = x: int | -0x8000_0000 <= x <= 0x7FFF_FFFF

  /** Rust `u32`. */
  type u32 = x: int | 0 <= x <= 0xFFFF_FFFF

  /** Two's-complement wrap-around into `i32`, which is what `+` on `i32`
      does in a release build (a debug build panics instead). */
  function WrapI32(v: int): (r: i32)
    ensures I32_MIN <= v <= I32_MAX ==> r == v
    ensures (r - v) % U32_MODULUS == 0
  {
    (v - I32_MIN) % U32_MODULUS + I32_MIN
  }

  /** Wrap-around into `u32`, which is what `*` on `u32` does in a release build. */
  function WrapU32(v: nat): (r: u32)
    ensures v <= 0xFFFF_FFFF ==> r == v
    ensures r <= v
    ensures (v - r) % U32_MODULUS == 0
  {
    v % U32_MODULUS
  }

  /** A colour as the `(u8, u8, u8)` triple stored by the window. */
  datatype Rgb = Rgb(r: bv8, g: bv8, b: bv8)

  /** `CustomEventLoopEvent`: the user events the window's event loop accepts. */
  datatype Command =
    | Redraw
    | SetColor(r: bv8, g: bv8, b: bv8)
    | SetPos(x: i32, y: i32)
}
