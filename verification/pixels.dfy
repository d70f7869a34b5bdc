/**
 * Pixels and the 64-pixel frame every animation renders.
 *
 * A frame is a flat buffer of 64 RGB samples; index `i` stands for the
 * grid cell at column `x = i % 8` and row `y = i / 8`.
 */
module Pixels {

  /** An 8-bit unsigned value, as Rust's `u8`. */
  type Byte = b: int | 0 <= b < 256

  /** A 64-bit unsigned value, as Rust's `u64`. */
  type U64 = n: int | 0 <= n < 0x1_0000_0000_0000_0000

  /** One RGB sample, as `smart_leds::RGB8`. */
  datatype RGB = RGB(r: Byte, g: Byte, b: Byte)

  /** `RGB8::default()`. */
  const Black: RGB := RGB(0, 0, 0)

  /** `(255, 255, 255).into()`. */
  const White: RGB := RGB(255, 255, 255)

  /** A colour in HSV form, as `smart_leds::hsv::Hsv`. */
  datatype Hsv = Hsv(hue: Byte, sat: Byte, val: Byte)

  /** A full frame: exactly 64 pixels. */
  type Frame = f: seq<RGB> | |f| == 64 witness seq(64, _ => RGB(0, 0, 0))

  /** Column of flat index `i`. */
  function Col(i: nat): nat { i % 8 }

  /** Row of flat index `i`. */
  function Row(i: nat): nat { i / 8 }

  /** Flat index of the cell at `row`, `col`. */
  function Index(row: nat, col: nat): (k: nat)
    requires row < 8 && col < 8
    ensures k < 64
    ensures Row(k) == row && Col(k) == col
  {
    row * 8 + col
  }

  /** Every flat index is the index of its own row and column. */
  lemma IndexOfRowCol(k: nat)
    requires k < 64
    ensures Row(k) < 8 && Col(k) < 8 && Index(Row(k), Col(k)) == k
  {
  }
}
