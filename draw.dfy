/** The conversion step of the animation-frame callback: it walks the canvas
    image buffer row by row and builds the ASCII text by appending to a string. */
module Draw {
  import opened Frames
  import opened AsciiArt

  /** The image buffer read back from the canvas: its dimensions and its RGBA
      bytes. The converter only reads it. */
  class ImageData {
    const width: nat
    const height: nat
    const data: array<Byte>

    /** Four bytes per pixel, as every canvas read-back has. */
    predicate Valid() {
      data.Length == width * height * Channels
    }

    constructor (width: nat, height: nat, data: array<Byte>)
      requires data.Length == width * height * Channels
      ensures Valid()
      ensures this.width == width && this.height == height && this.data == data
    {
      this.width := width;
      this.height := height;
      this.data := data;
    }

    /** The buffer's current contents as a frame value. */
    function Snapshot(): (f: Frame)
      requires Valid()
      reads data
      ensures WellFormed(f)
      ensures f.width == width && f.height == height && f.data == data[..]
    {
      Frame(width, height, data[..])
    }
  }

  /** Converts one image buffer to ASCII art: for each row, one ramp character
      per pixel, then a newline. The method has no modifies clause, so it cannot
      change the buffer it reads. */
  method FrameToAscii(frame: ImageData) returns (ascii: string)
    requires frame.Valid()
    ensures ascii == AsciiOf(frame.Snapshot())
  {
    ghost var img := Grid(frame.Snapshot());
    ascii := "";
    for y := 0 to frame.height
      invariant ascii == Render(img[..y])
    {
      ascii := AppendRowText(frame, y, ascii);
      AppendRow(img, y);
      ascii := ascii + [Newline];
    }
    assert img[..frame.height] == img;
  }

  /** The inner loop of the conversion: appends the ramp character of each pixel
      of row y, left to right, to the text built so far. */
  method AppendRowText(frame: ImageData, y: nat, ascii: string) returns (extended: string)
    requires frame.Valid()
    requires y < frame.height
    ensures extended == ascii + RowText(Grid(frame.Snapshot())[y])
  {
    ghost var row := Grid(frame.Snapshot())[y];
    extended := ascii;
    for x := 0 to frame.width
      invariant extended == ascii + RowText(row[..x])
    {
      var offset := (y * frame.width + x) * Channels;
      PixelBytes(frame, x, y);
      var r := frame.data[offset];
      var g := frame.data[offset + 1];
      var b := frame.data[offset + 2];
      var charIndex := PixelIndex(r, g, b);
      AppendPixel(row, x);
      extended := extended + [Ramp[charIndex]];
    }
    assert row[..frame.width] == row;
  }

  /** The ramp position of one pixel, computed as the callback does: the mean of
      the three bytes, divided by 255, scaled by the last ramp position and
      rounded down. It is the pixel's character index. */
  method PixelIndex(r: Byte, g: Byte, b: Byte) returns (charIndex: int)
    ensures 0 <= charIndex < |Ramp|
    ensures charIndex == CharIndex(Colour(r, g, b))
  {
    var brightness := Brightness(Colour(r, g, b));
    charIndex := ((brightness / 255.0) * (|Ramp| - 1) as real).Floor;
    CharIndexIsScaledBrightness(Colour(r, g, b));
  }

  /** The three bytes read for pixel (x, y) lie inside the buffer and are the
      colour the frame decodes to at that position. */
  lemma PixelBytes(frame: ImageData, x: nat, y: nat)
    requires frame.Valid()
    requires x < frame.width && y < frame.height
    ensures Offset(frame.width, x, y) + 2 < frame.data.Length
    ensures var offset := Offset(frame.width, x, y);
      Grid(frame.Snapshot())[y][x] ==
        Colour(frame.data[offset], frame.data[offset + 1], frame.data[offset + 2])
  {
    OffsetInBounds(frame.Snapshot(), x, y);
    GridAt(frame.Snapshot(), x, y);
  }

  /** Appending the character of pixel x extends the text of the row by one column. */
  lemma AppendPixel(row: seq<Colour>, x: nat)
    requires x < |row|
    ensures RowText(row[..x + 1]) == RowText(row[..x]) + [PixelChar(row[x])]
  {
    assert row[..x + 1][..x] == row[..x];
  }

  /** Appending a newline after the whole of row y completes the first y + 1 rows. */
  lemma AppendRow(img: seq<seq<Colour>>, y: nat)
    requires y < |img|
    ensures Render(img[..y + 1]) == Render(img[..y]) + RowText(img[y]) + [Newline]
  {
    assert img[..y + 1][..y] == img[..y];
  }
}
