/** Bytes, colours and the per-channel blend of the software compositor (Renderer.cs). */
module Pixels {

  /** An unsigned 8-bit value, the element type of every pixel buffer. */
  newtype byte = x: int | 0 <= x < 256

  /** A System.Drawing colour, given by its alpha, red, green and blue components. */
  datatype Color = Color(a: byte, r: byte, g: byte, b: byte)

  /** Color.Black: opaque, all colour channels zero. */
  const Black: Color := Color(255, 0, 0, 0)

  /** Offsets of the channels inside one 4-byte BGRA pixel. */
  const Blue: nat := 0
  const Green: nat := 1
  const Red: nat := 2
  const Alpha: nat := 3

  /** The byte a BGRA pixel of colour `c` stores at offset `k`. */
  function Channel(c: Color, k: nat): byte
    requires k < 4
  {
    if k == Blue then c.b else if k == Green then c.g else if k == Red then c.r else c.a
  }

  /** The colour of pixel `i` of a BGRA buffer: bytes 4i, 4i+1, 4i+2, 4i+3 are B, G, R, A. */
  function PixelAt(fb: seq<byte>, i: nat): Color
    requires 4 * i + 4 <= |fb|
  {
    Color(fb[4 * i + Alpha], fb[4 * i + Red], fb[4 * i + Green], fb[4 * i + Blue])
  }

  /** Source-over blend of one colour channel: source `s` weighted by alpha `a` over
      destination `d`, with the fraction truncated as the (byte) cast does. */
  function Blend(s: byte, d: byte, a: byte): (r: byte)
    ensures a == 255 ==> r == s
    ensures a == 0 ==> r == d
    ensures s <= d ==> s <= r <= d
    ensures d <= s ==> d <= r <= s
  {
    var w := s as int * a as int + d as int * (255 - a as int);
    BlendWeightBounds(s as int, d as int, a as int);
    (w / 255) as byte
  }

  /** The weighted sum of a blend lies between 255 times the smaller and 255 times the
      larger of the two channel values. */
  lemma BlendWeightBounds(s: int, d: int, a: int)
    requires 0 <= s < 256 && 0 <= d < 256 && 0 <= a < 256
    ensures var w := s * a + d * (255 - a);
      (s <= d ==> s * 255 <= w <= d * 255) && (d <= s ==> d * 255 <= w <= s * 255)
  {
    var w := s * a + d * (255 - a);
    if s <= d {
      assert w - s * 255 == (d - s) * (255 - a);
      assert d * 255 - w == (d - s) * a;
      assert (d - s) * (255 - a) >= 0 && (d - s) * a >= 0 by { MulNonneg(d - s, 255 - a); MulNonneg(d - s, a); }
    } else {
      assert w - d * 255 == (s - d) * a;
      assert s * 255 - w == (s - d) * (255 - a);
      assert (s - d) * (255 - a) >= 0 && (s - d) * a >= 0 by { MulNonneg(s - d, 255 - a); MulNonneg(s - d, a); }
    }
  }

  lemma MulNonneg(x: int, y: int)
    requires x >= 0 && y >= 0
    ensures x * y >= 0
  {
  }
}
