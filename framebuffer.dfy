/** The packed 4-bit framebuffer of the 256×64 panel: each byte holds two horizontally
    adjacent pixels, the even x in the high nibble and the odd x in the low nibble. */
module Framebuffer {

  const Width: int := 256
  const Height: int := 64
  /** Column-bytes per row: two pixels per byte, Width / 2. */
  const BytesPerRow: int := 128
  /** The framebuffer's size in bytes, Width * Height / 2. */
  const BufferSize: int := 8192

  /** A 4-bit gray level, the value `Gray4::luma` yields. */
  type Gray4 = g: bv8 | g <= 0x0F

  function UpperNibble(b: bv8): Gray4 { b >> 4 }

  function LowerNibble(b: bv8): Gray4 { b & 0x0F }

  /** `update_upper_nibble`: the low four bits of `color` become the high nibble, and the
      low nibble of `input` is kept. */
  function UpdateUpperNibble(input: bv8, color: bv8): (r: bv8)
    ensures UpperNibble(r) == LowerNibble(color)
    ensures LowerNibble(r) == LowerNibble(input)
  {
    ((color << 4) & 0xF0) | (input & 0x0F)
  }

  /** `update_lower_nibble`: the low four bits of `color` become the low nibble, and the
      high nibble of `input` is kept. */
  function UpdateLowerNibble(input: bv8, color: bv8): (r: bv8)
    ensures LowerNibble(r) == LowerNibble(color)
    ensures UpperNibble(r) == UpperNibble(input)
  {
    (color & 0x0F) | (input & 0xF0)
  }

  /** A byte is determined by its two nibbles. */
  lemma NibblesDetermineByte(b1: bv8, b2: bv8)
    requires UpperNibble(b1) == UpperNibble(b2) && LowerNibble(b1) == LowerNibble(b2)
    ensures b1 == b2
  {
    assert b1 == (UpperNibble(b1) << 4) | LowerNibble(b1);
    assert b2 == (UpperNibble(b2) << 4) | LowerNibble(b2);
  }

  /** Whether (x, y) is a pixel of the panel; anything else, negative coordinates
      included, is off-screen. */
  predicate InBounds(x: int, y: int) {
    0 <= x < Width && 0 <= y < Height
  }

  /** The byte that holds pixel (x, y), in row-major order. */
  function Index(x: int, y: int): (i: nat)
    requires InBounds(x, y)
    ensures i < BufferSize
    ensures i / 128 == y && i % 128 == x / 2
  {
    RowMajor(x / 2, y);
    x / 2 + y * 128
  }

  /** Division by the row length recovers the row and the column-byte. */
  lemma RowMajor(col: int, row: int)
    requires 0 <= col < 128
    ensures (col + row * 128) / 128 == row
    ensures (col + row * 128) % 128 == col
  {
    var i := col + row * 128;
    var q, r := i / 128, i % 128;
    assert i == q * 128 + r;
    assert (q - row) * 128 == col - r;
  }

  /** Two pixels share a byte exactly when they are the even/odd pair of one row. */
  lemma IndexSameByte(x1: int, y1: int, x2: int, y2: int)
    requires InBounds(x1, y1) && InBounds(x2, y2)
    ensures Index(x1, y1) == Index(x2, y2) <==> x1 / 2 == x2 / 2 && y1 == y2
  {
  }

  /** The nibble of a byte that holds pixel x. */
  function Nibble(b: bv8, x: int): Gray4 {
    if x % 2 == 0 then UpperNibble(b) else LowerNibble(b)
  }

  /** The new value of the byte holding pixel x after writing `color` there. */
  function WriteNibble(b: bv8, x: int, color: Gray4): (r: bv8)
    ensures Nibble(r, x) == color
    ensures Nibble(r, x + 1 - 2 * (x % 2)) == Nibble(b, x + 1 - 2 * (x % 2))
  {
    if x % 2 == 0 then UpdateUpperNibble(b, color) else UpdateLowerNibble(b, color)
  }

  /** A write leaves its byte as it was exactly when the pixel already had that color. */
  lemma WriteNibbleUnchangedIff(b: bv8, x: int, color: Gray4)
    ensures WriteNibble(b, x, color) == b <==> Nibble(b, x) == color
  {
    var r := WriteNibble(b, x, color);
    if Nibble(b, x) == color {
      NibblesDetermineByte(r, b);
    }
  }

  /** The gray level of pixel (x, y). */
  function PixelAt(buf: seq<bv8>, x: int, y: int): Gray4
    requires |buf| == BufferSize && InBounds(x, y)
  {
    Nibble(buf[Index(x, y)], x)
  }

  /** Writing one in-bounds pixel: only the byte holding it changes. */
  function SetPixel(buf: seq<bv8>, x: int, y: int, color: Gray4): (r: seq<bv8>)
    requires |buf| == BufferSize && InBounds(x, y)
    ensures |r| == BufferSize
    ensures forall i :: 0 <= i < BufferSize && i != Index(x, y) ==> r[i] == buf[i]
  {
    buf[Index(x, y) := WriteNibble(buf[Index(x, y)], x, color)]
  }

  /** Reading a pixel back after writing it yields the color written. */
  lemma ReadAfterWrite(buf: seq<bv8>, x: int, y: int, color: Gray4)
    requires |buf| == BufferSize && InBounds(x, y)
    ensures PixelAt(SetPixel(buf, x, y, color), x, y) == color
  {
  }

  /** Writing a pixel leaves every other pixel, its byte-mate included, as it was. */
  lemma WriteKeepsOtherPixels(buf: seq<bv8>, x: int, y: int, color: Gray4, x': int, y': int)
    requires |buf| == BufferSize && InBounds(x, y) && InBounds(x', y')
    requires (x', y') != (x, y)
    ensures PixelAt(SetPixel(buf, x, y, color), x', y') == PixelAt(buf, x', y')
  {
    IndexSameByte(x, y, x', y');
    if Index(x, y) == Index(x', y') {
      assert x' == x + 1 - 2 * (x % 2);
    }
  }

  /** The byte `clear` fills the buffer with: both nibbles set to `g`. */
  function ClearByte(g: Gray4): (r: bv8)
    ensures UpperNibble(r) == g && LowerNibble(r) == g
  {
    (g << 4) | g
  }

  /** After a clear to `g`, every pixel of the panel reads `g`. */
  lemma ClearedPixels(buf: seq<bv8>, g: Gray4, x: int, y: int)
    requires |buf| == BufferSize && InBounds(x, y)
    requires forall i :: 0 <= i < BufferSize ==> buf[i] == ClearByte(g)
    ensures PixelAt(buf, x, y) == g
  {
    assert buf[Index(x, y)] == ClearByte(g);
  }
}
