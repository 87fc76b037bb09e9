/** Index arithmetic of a row-major, top-down BGRA buffer: pixel (x, y) of a buffer
    `width` pixels wide starts at byte (y * width + x) * 4 (Renderer.cs). */
module Geometry {

  /** Byte offset of channel `k` of pixel (x, y). */
  function ByteIndex(width: nat, x: nat, y: nat, k: nat): nat
  {
    (y * width + x) * 4 + k
  }

  /** Column, row and channel of the pixel that byte `j` belongs to. */
  function Col(width: nat, j: nat): nat
    requires width > 0
  {
    (j / 4) % width
  }

  function Row(width: nat, j: nat): nat
    requires width > 0
  {
    (j / 4) / width
  }

  function Chan(j: nat): nat
  {
    j % 4
  }

  /** Every byte offset of an in-range (x, y, k) lies inside a width * height * 4 buffer. */
  lemma {:induction false} ByteIndexInBounds(width: nat, height: nat, x: nat, y: nat, k: nat)
    requires x < width && y < height && k < 4
    ensures ByteIndex(width, x, y, k) < width * height * 4
  {
    assert y * width <= (height - 1) * width by { MulMonotone(y, height - 1, width); }
    assert (height - 1) * width == height * width - width;
  }

  /** Decoding the offset of (x, y, k) gives back x, y and k. */
  lemma {:induction false} CoordinatesOfIndex(width: nat, x: nat, y: nat, k: nat)
    requires x < width && k < 4
    ensures Col(width, ByteIndex(width, x, y, k)) == x
    ensures Row(width, ByteIndex(width, x, y, k)) == y
    ensures Chan(ByteIndex(width, x, y, k)) == k
  {
    var p := y * width + x;
    assert ByteIndex(width, x, y, k) / 4 == p;
    RowMajorUnique(width, p, x, y);
  }

  /** Every byte of a width * height * 4 buffer is the offset of exactly one in-range
      (x, y, k): its own column, row and channel. */
  lemma {:induction false} IndexOfCoordinates(width: nat, height: nat, j: nat)
    requires j < width * height * 4
    ensures width > 0
    ensures Col(width, j) < width && Row(width, j) < height && Chan(j) < 4
    ensures ByteIndex(width, Col(width, j), Row(width, j), Chan(j)) == j
    ensures forall x: nat, y: nat, k: nat :: x < width && y < height && k < 4 && ByteIndex(width, x, y, k) == j ==>
      x == Col(width, j) && y == Row(width, j) && k == Chan(j)
  {
    forall x: nat, y: nat, k: nat | x < width && y < height && k < 4 && ByteIndex(width, x, y, k) == j
      ensures x == Col(width, j) && y == Row(width, j) && k == Chan(j)
    {
      CoordinatesOfIndex(width, x, y, k);
    }
    if width == 0 {
      assert false;
    }
    var p := j / 4;
    assert p < width * height;
    var x, y := p % width, p / width;
    assert p == y * width + x;
    if y >= height {
      MulMonotone(height, y, width);
      assert false;
    }
  }

  /** Quotient and remainder by `width` are unique. */
  lemma {:induction false} RowMajorUnique(width: nat, p: nat, x: nat, y: nat)
    requires x < width && p == y * width + x
    ensures p / width == y && p % width == x
  {
    var q, r := p / width, p % width;
    assert q * width + r == y * width + x;
    assert (q - y) * width == x - r;
    if q > y {
      MulMonotone(1, q - y, width);
      assert false;
    } else if q < y {
      MulMonotone(1, y - q, width);
      assert false;
    }
  }

  lemma MulMonotone(a: nat, b: nat, c: nat)
    requires a <= b
    ensures a * c <= b * c
  {
  }
}
