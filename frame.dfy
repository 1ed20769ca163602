/** The RGBA pixel buffer that the canvas hands to the ASCII converter: row-major,
    four bytes per pixel (red, green, blue, alpha), each byte in 0..255; and its
    decoding into rows of colours. */
module Frames {

  /** One channel value of a canvas pixel buffer (a Uint8ClampedArray element). */
  newtype Byte = x: int | 0 <= x < 256

  /** Bytes per pixel: red, green, blue, alpha. */
  const Channels: nat := 4

  /** A frame as a value: its dimensions and a snapshot of its pixel bytes. */
  datatype Frame = Frame(width: nat, height: nat, data: seq<Byte>)

  /** The colour channels of one pixel that the converter reads. */
  datatype Colour = Colour(r: Byte, g: Byte, b: Byte)

  /** The shape every canvas image buffer has: exactly four bytes per pixel. */
  predicate WellFormed(f: Frame) {
    |f.data| == f.width * f.height * Channels
  }

  /** Index of the red byte of pixel (x, y); green, blue and alpha follow it. It
      starts a four-byte group, the group of the pixel's row-major number. */
  function Offset(width: nat, x: nat, y: nat): (offset: nat)
    ensures offset % Channels == 0
    ensures offset / Channels == y * width + x
  {
    (y * width + x) * Channels
  }

  /** Every pixel inside the frame has all four of its bytes inside the buffer,
      so the reads of red, green and blue never run past the end. */
  lemma OffsetInBounds(f: Frame, x: nat, y: nat)
    requires WellFormed(f)
    requires x < f.width && y < f.height
    ensures Offset(f.width, x, y) + Channels <= |f.data|
  {
    var w, h := f.width, f.height;
    assert y * w + x < (y + 1) * w;
    assert (y + 1) * w <= h * w by {
      MulMonotone(y + 1, h, w);
    }
    assert (y * w + x + 1) * 4 <= h * w * 4;
  }

  /** Multiplication by a natural number keeps the order of its left factor. */
  lemma MulMonotone(a: nat, b: nat, c: nat)
    requires a <= b
    ensures a * c <= b * c
  {
  }

  /** One more row of m adds m to the product. */
  lemma MulSucc(a: nat, m: nat)
    ensures (a + 1) * m == a * m + m
  {
  }

  /** The red byte of every pixel sits at a multiple of four, so bytes 0, 1 and 2
      of a pixel are never an alpha byte (the byte at index 3 modulo 4). */
  lemma OffsetChannel(width: nat, x: nat, y: nat, j: nat)
    requires j < Channels
    ensures (Offset(width, x, y) + j) % Channels == j
  {
  }

  /** The red, green and blue bytes of pixel (x, y): the first three bytes of its
      group, all inside the buffer; its alpha byte is not read. */
  function ColourAt(f: Frame, x: nat, y: nat): (c: Colour)
    requires WellFormed(f)
    requires x < f.width && y < f.height
    ensures Offset(f.width, x, y) + Channels <= |f.data|
    ensures c.r == f.data[Offset(f.width, x, y)]
    ensures c.g == f.data[Offset(f.width, x, y) + 1]
    ensures c.b == f.data[Offset(f.width, x, y) + 2]
  {
    OffsetInBounds(f, x, y);
    var offset := Offset(f.width, x, y);
    Colour(f.data[offset], f.data[offset + 1], f.data[offset + 2])
  }

  /** Every row of img has exactly width pixels. */
  predicate Rectangular(img: seq<seq<Colour>>, width: nat) {
    forall y :: 0 <= y < |img| ==> |img[y]| == width
  }

  /** The frame read as height rows of width colours, top to bottom and left to
      right, in the order the nested loops visit them. */
  function Grid(f: Frame): (img: seq<seq<Colour>>)
    requires WellFormed(f)
    ensures |img| == f.height && Rectangular(img, f.width)
  {
    seq(f.height, y requires 0 <= y < f.height =>
      seq(f.width, x requires 0 <= x < f.width => ColourAt(f, x, y)))
  }

  /** Row y, column x of the decoded frame is the colour at pixel (x, y). */
  lemma GridAt(f: Frame, x: nat, y: nat)
    requires WellFormed(f)
    requires x < f.width && y < f.height
    ensures Grid(f)[y][x] == ColourAt(f, x, y)
  {
  }

  /** The alpha byte never reaches the colours: two frames of the same size whose
      buffers agree on every red, green and blue byte decode to the same rows. */
  lemma {:induction false} AlphaIgnoredByGrid(f1: Frame, f2: Frame)
    requires WellFormed(f1) && WellFormed(f2)
    requires f1.width == f2.width && f1.height == f2.height
    requires forall i :: 0 <= i < |f1.data| && i % Channels != 3 ==> f1.data[i] == f2.data[i]
    ensures Grid(f1) == Grid(f2)
  {
    var g1, g2 := Grid(f1), Grid(f2);
    forall y | 0 <= y < f1.height
      ensures g1[y] == g2[y]
    {
      forall x | 0 <= x < f1.width
        ensures g1[y][x] == g2[y][x]
      {
        GridAt(f1, x, y);
        GridAt(f2, x, y);
        OffsetInBounds(f1, x, y);
        OffsetChannel(f1.width, x, y, 0);
        OffsetChannel(f1.width, x, y, 1);
        OffsetChannel(f1.width, x, y, 2);
      }
    }
  }
}
