/** The pure model of the frame-to-ASCII conversion: the brightness ramp, the
    brightness-to-character rule, the text that rows of colours turn into, and
    the properties of that text. */
module AsciiArt {
  import opened Frames

  /** The character ramp, from darkest (index 0) to lightest (index 9). */
  const Ramp: string := "@%#*+=-:. "

  /** The row separator appended after each row of characters. */
  const Newline: char := '\n'

  /** The ramp has ten characters, all distinct, none of them a newline. */
  lemma RampShape()
    ensures |Ramp| == 10
    ensures Ramp[0] == '@' && Ramp[|Ramp| - 1] == ' '
    ensures Newline !in Ramp
    ensures forall i, j :: 0 <= i < j < |Ramp| ==> Ramp[i] != Ramp[j]
  {
  }

  /** The sum of the red, green and blue bytes of a pixel. */
  function ChannelSum(c: Colour): (sum: nat)
    ensures sum <= 3 * 255
    ensures sum == 0 <==> c == Colour(0, 0, 0)
    ensures sum == 3 * 255 <==> c == Colour(255, 255, 255)
  {
    c.r as int + c.g as int + c.b as int
  }

  /** The brightness of a pixel: the mean of its red, green and blue bytes,
      taken exactly (the division does not truncate). */
  function Brightness(c: Colour): (v: real)
    ensures 0.0 <= v <= 255.0
    ensures 3.0 * v == ChannelSum(c) as real
  {
    ChannelSum(c) as real / 3.0
  }

  /** The ramp index of a pixel: brightness scaled from 0..255 to 0..9 (the last
      ramp position) and rounded down, computed exactly on integers as
      floor(sum * 9 / 765). The index is always a valid ramp position, and it is
      the number of whole steps of 85 in the channel sum. */
  function CharIndex(c: Colour): (i: nat)
    ensures i < |Ramp|
    ensures 85 * i <= ChannelSum(c) < 85 * (i + 1)
  {
    (ChannelSum(c) * 9) / (3 * 255)
  }

  /** The integer index is the source's formula taken over exact rationals: the
      brightness divided by 255, scaled by the last ramp position, rounded down. */
  lemma CharIndexIsScaledBrightness(c: Colour)
    ensures CharIndex(c) == ((Brightness(c) / 255.0) * (|Ramp| - 1) as real).Floor
  {
    var scaled := (Brightness(c) / 255.0) * (|Ramp| - 1) as real;
    assert 85.0 * scaled == ChannelSum(c) as real;
  }

  /** The darkest ramp character is reached exactly by the channel sums below 85,
      and the lightest only by pure white. */
  lemma CharIndexExtremes(c: Colour)
    ensures CharIndex(c) == 0 <==> ChannelSum(c) < 85
    ensures CharIndex(c) == |Ramp| - 1 <==> c == Colour(255, 255, 255)
  {
  }

  /** A brighter pixel never maps to an earlier (darker) ramp position. */
  lemma CharIndexMonotone(c1: Colour, c2: Colour)
    requires ChannelSum(c1) <= ChannelSum(c2)
    ensures CharIndex(c1) <= CharIndex(c2)
  {
  }

  /** The character drawn for a pixel of the given colour. */
  function PixelChar(c: Colour): (ch: char)
    ensures ch != Newline
  {
    RampShape();
    Ramp[CharIndex(c)]
  }

  /** The character drawn for a pixel is always one of the ramp's characters. */
  lemma PixelCharInRamp(c: Colour)
    ensures PixelChar(c) in Ramp
  {
    assert PixelChar(c) == Ramp[CharIndex(c)];
  }

  /** Black is drawn as the darkest ramp character and white as the lightest. */
  lemma BlackAndWhite()
    ensures PixelChar(Colour(0, 0, 0)) == '@'
    ensures PixelChar(Colour(255, 255, 255)) == ' '
  {
    assert CharIndex(Colour(0, 0, 0)) == 0;
    assert CharIndex(Colour(255, 255, 255)) == 9;
  }

  /** The characters of one row, in the order they are appended. */
  function RowText(row: seq<Colour>): (s: string)
    ensures |s| == |row|
  {
    if row == [] then []
    else RowText(row[..|row| - 1]) + [PixelChar(row[|row| - 1])]
  }

  /** The text of some rows: each row's characters followed by a newline. */
  function Render(img: seq<seq<Colour>>): (s: string)
    ensures s == [] <==> img == []
    ensures img != [] ==> s[|s| - 1] == Newline
  {
    if img == [] then []
    else Render(img[..|img| - 1]) + RowText(img[|img| - 1]) + [Newline]
  }

  /** The ASCII art of a whole frame: height lines of width + 1 characters. */
  function AsciiOf(f: Frame): (s: string)
    requires WellFormed(f)
    ensures |s| == f.height * (f.width + 1)
  {
    RenderLength(Grid(f), f.width);
    LineStartIsProduct(f.width, f.height);
    Render(Grid(f))
  }

  /** Position in the text where line y starts: every earlier line holds width
      characters and its newline. */
  function LineStart(width: nat, y: nat): nat {
    if y == 0 then 0 else LineStart(width, y - 1) + width + 1
  }

  /** Position of column x (x == width for the newline) of row y in the text. */
  function TextIndex(width: nat, x: nat, y: nat): nat {
    LineStart(width, y) + x
  }

  /** Line y starts after y full lines of width + 1 characters. */
  lemma {:induction false} LineStartIsProduct(width: nat, y: nat)
    ensures LineStart(width, y) == y * (width + 1)
  {
    if y > 0 {
      LineStartIsProduct(width, y - 1);
      MulSucc(y - 1, width + 1);
    }
  }

  /** A later line starts at least one whole line further on. */
  lemma {:induction false} LineStartMonotone(width: nat, y: nat, n: nat)
    requires y < n
    ensures LineStart(width, y) + width + 1 <= LineStart(width, n)
  {
    if y < n - 1 {
      LineStartMonotone(width, y, n - 1);
    }
  }

  /** Character x of a row's text is the character of pixel x of the row. */
  lemma {:induction false} RowTextAt(row: seq<Colour>, x: nat)
    requires x < |row|
    ensures RowText(row)[x] == PixelChar(row[x])
  {
    if x < |row| - 1 {
      RowTextAt(row[..|row| - 1], x);
    }
  }

  /** A row's text holds no newline. */
  lemma {:induction false} RowTextNoNewline(row: seq<Colour>)
    ensures Newline !in RowText(row)
  {
    if row != [] {
      RowTextNoNewline(row[..|row| - 1]);
    }
  }

  /** Rows of width pixels render to width + 1 characters each. */
  lemma {:induction false} RenderLength(img: seq<seq<Colour>>, width: nat)
    requires Rectangular(img, width)
    ensures |Render(img)| == LineStart(width, |img|)
  {
    if img != [] {
      RenderLength(img[..|img| - 1], width);
    }
  }

  /** Layout of rendered rows: column x < width of row y holds the character of
      pixel x of row y, and column width holds the newline that ends the row. */
  lemma {:induction false} RenderAt(img: seq<seq<Colour>>, width: nat, x: nat, y: nat)
    requires Rectangular(img, width)
    requires y < |img| && x <= width
    ensures TextIndex(width, x, y) < |Render(img)|
    ensures Render(img)[TextIndex(width, x, y)] ==
      if x < width then PixelChar(img[y][x]) else Newline
  {
    RenderLineAt(img, width, x, y);
    RowTextLineAt(img[y], x);
  }

  /** Position x of line y of the text is position x of row y's text followed by
      its newline. */
  lemma {:induction false} RenderLineAt(img: seq<seq<Colour>>, width: nat, x: nat, y: nat)
    requires Rectangular(img, width)
    requires y < |img| && x <= width
    ensures TextIndex(width, x, y) < |Render(img)|
    ensures Render(img)[TextIndex(width, x, y)] == (RowText(img[y]) + [Newline])[x]
  {
    var k := |img|;
    var prefix := Render(img[..k - 1]);
    var line := RowText(img[k - 1]) + [Newline];
    assert Render(img) == prefix + line;
    RenderLength(img[..k - 1], width);
    if y < k - 1 {
      assert Rectangular(img[..k - 1], width);
      LineStartMonotone(width, y, k - 1);
      RenderLineAt(img[..k - 1], width, x, y);
      assert img[..k - 1][y] == img[y];
    }
  }

  /** Column x of a row's line (its text and the newline after it) is the pixel's
      character, or the newline at column width. */
  lemma RowTextLineAt(row: seq<Colour>, x: nat)
    requires x <= |row|
    ensures (RowText(row) + [Newline])[x] ==
      if x < |row| then PixelChar(row[x]) else Newline
  {
    if x < |row| {
      RowTextAt(row, x);
    }
  }

  /** Layout of the whole text: row y, column x holds the character of pixel
      (x, y) and every row ends in a newline. */
  lemma AsciiOfAt(f: Frame, x: nat, y: nat)
    requires WellFormed(f)
    requires y < f.height && x <= f.width
    ensures TextIndex(f.width, x, y) < |AsciiOf(f)|
    ensures AsciiOf(f)[TextIndex(f.width, x, y)] ==
      if x < f.width then PixelChar(ColourAt(f, x, y)) else Newline
  {
    RenderAt(Grid(f), f.width, x, y);
    if x < f.width {
      GridAt(f, x, y);
    }
  }

  /** The layout in closed form: line y, column x of the text sits at position
      y * (width + 1) + x. */
  lemma AsciiOfCell(f: Frame, x: nat, y: nat)
    requires WellFormed(f)
    requires y < f.height && x <= f.width
    ensures y * (f.width + 1) + x < |AsciiOf(f)|
    ensures AsciiOf(f)[y * (f.width + 1) + x] ==
      if x < f.width then PixelChar(ColourAt(f, x, y)) else Newline
  {
    AsciiOfAt(f, x, y);
    LineStartIsProduct(f.width, y);
  }

  /** Every position of the text is some column x <= width of some row y. */
  lemma TextIndexSplit(width: nat, height: nat, k: nat) returns (x: nat, y: nat)
    requires k < height * (width + 1)
    ensures x <= width && y < height
    ensures k == TextIndex(width, x, y)
    ensures x == k % (width + 1)
  {
    y := k / (width + 1);
    x := k % (width + 1);
    LineStartIsProduct(width, y);
    if y >= height {
      assert height * (width + 1) <= y * (width + 1) by {
        MulMonotone(height, y, width + 1);
      }
      assert false;
    }
  }

  /** A character of the text is a newline exactly at the end of each row, that
      is at every position congruent to width modulo width + 1. */
  lemma NewlinesEndRows(f: Frame, k: nat)
    requires WellFormed(f)
    requires k < |AsciiOf(f)|
    ensures AsciiOf(f)[k] == Newline <==> k % (f.width + 1) == f.width
  {
    var x, y := TextIndexSplit(f.width, f.height, k);
    AsciiOfAt(f, x, y);
  }

  /** Every character of the text other than a newline is a ramp character. */
  lemma OnlyRampCharacters(f: Frame, k: nat)
    requires WellFormed(f)
    requires k < |AsciiOf(f)|
    ensures AsciiOf(f)[k] == Newline || AsciiOf(f)[k] in Ramp
  {
    var x, y := TextIndexSplit(f.width, f.height, k);
    AsciiOfAt(f, x, y);
    if x < f.width {
      PixelCharInRamp(ColourAt(f, x, y));
    }
  }

  /** Line y of rendered rows is exactly the text of row y, and the newline
      right after it. */
  lemma RenderLine(img: seq<seq<Colour>>, width: nat, y: nat)
    requires Rectangular(img, width)
    requires y < |img|
    ensures TextIndex(width, width, y) < |Render(img)|
    ensures Render(img)[TextIndex(width, 0, y)..TextIndex(width, width, y)] == RowText(img[y])
    ensures Render(img)[TextIndex(width, width, y)] == Newline
  {
    var s := Render(img);
    var text := RowText(img[y]) + [Newline];
    RenderLineAt(img, width, width, y);
    var start := TextIndex(width, 0, y);
    var line := s[start..TextIndex(width, width, y)];
    forall x | 0 <= x < width
      ensures line[x] == text[x]
    {
      assert start + x == TextIndex(width, x, y);
      RenderLineAt(img, width, x, y);
    }
    assert line == text[..width];
  }

  /** Line y of the text of a frame is exactly the text of row y of its pixels,
      and the newline right after it. */
  lemma LineOfRow(f: Frame, y: nat)
    requires WellFormed(f)
    requires y < f.height
    ensures TextIndex(f.width, f.width, y) < |AsciiOf(f)|
    ensures AsciiOf(f)[TextIndex(f.width, 0, y)..TextIndex(f.width, f.width, y)] ==
      RowText(Grid(f)[y])
    ensures AsciiOf(f)[TextIndex(f.width, f.width, y)] == Newline
  {
    RenderLine(Grid(f), f.width, y);
  }

  /** The number of occurrences of c in s. */
  function Occurrences(s: string, c: char): (n: nat)
    ensures n <= |s|
  {
    if s == [] then 0 else Occurrences(s[..|s| - 1], c) + (if s[|s| - 1] == c then 1 else 0)
  }

  /** A character that does not occur in s is counted zero times. */
  lemma {:induction false} OccurrencesAbsent(s: string, c: char)
    requires c !in s
    ensures Occurrences(s, c) == 0
  {
    if s != [] {
      OccurrencesAbsent(s[..|s| - 1], c);
    }
  }

  /** Counting distributes over concatenation. */
  lemma {:induction false} OccurrencesAppend(s: string, t: string, c: char)
    ensures Occurrences(s + t, c) == Occurrences(s, c) + Occurrences(t, c)
  {
    if t != [] {
      assert (s + t)[..|s + t| - 1] == s + t[..|t| - 1];
      OccurrencesAppend(s, t[..|t| - 1], c);
    } else {
      assert s + t == s;
    }
  }

  /** Rendered rows hold exactly one newline per row. */
  lemma {:induction false} RenderNewlineCount(img: seq<seq<Colour>>)
    ensures Occurrences(Render(img), Newline) == |img|
  {
    if img != [] {
      var prefix := Render(img[..|img| - 1]);
      var row := RowText(img[|img| - 1]);
      assert Occurrences(prefix + row, Newline) == |img| - 1 by {
        RenderNewlineCount(img[..|img| - 1]);
        RowTextNoNewline(img[|img| - 1]);
        OccurrencesAbsent(row, Newline);
        OccurrencesAppend(prefix, row, Newline);
      }
      assert Occurrences([Newline], Newline) == 1 by {
        assert [Newline][..0] == [];
      }
      OccurrencesAppend(prefix + row, [Newline], Newline);
    }
  }

  /** The text of a frame has one newline per row. */
  lemma AsciiOfNewlineCount(f: Frame)
    requires WellFormed(f)
    ensures Occurrences(AsciiOf(f), Newline) == f.height
  {
    RenderNewlineCount(Grid(f));
  }

  /** The character at row y, column x depends only on the red, green and blue
      bytes of pixel (x, y): two frames of the same size that agree on those three
      bytes have the same character there. */
  lemma PixelLocality(f1: Frame, f2: Frame, x: nat, y: nat)
    requires WellFormed(f1) && WellFormed(f2)
    requires f1.width == f2.width && f1.height == f2.height
    requires x < f1.width && y < f1.height
    requires ColourAt(f1, x, y) == ColourAt(f2, x, y)
    ensures TextIndex(f1.width, x, y) < |AsciiOf(f1)| == |AsciiOf(f2)|
    ensures AsciiOf(f1)[TextIndex(f1.width, x, y)] == AsciiOf(f2)[TextIndex(f2.width, x, y)]
  {
    AsciiOfAt(f1, x, y);
    AsciiOfAt(f2, x, y);
  }

  /** The alpha byte never affects the output: two frames of the same size whose
      buffers differ only in alpha bytes give the same text. */
  lemma AlphaIgnored(f1: Frame, f2: Frame)
    requires WellFormed(f1) && WellFormed(f2)
    requires f1.width == f2.width && f1.height == f2.height
    requires forall i :: 0 <= i < |f1.data| && i % Channels != 3 ==> f1.data[i] == f2.data[i]
    ensures AsciiOf(f1) == AsciiOf(f2)
  {
    AlphaIgnoredByGrid(f1, f2);
  }

  /** A black pixel is drawn as the darkest ramp character '@'. */
  lemma BlackPixel(f: Frame, x: nat, y: nat)
    requires WellFormed(f)
    requires x < f.width && y < f.height
    requires ColourAt(f, x, y) == Colour(0, 0, 0)
    ensures TextIndex(f.width, x, y) < |AsciiOf(f)|
    ensures AsciiOf(f)[TextIndex(f.width, x, y)] == '@'
  {
    AsciiOfAt(f, x, y);
  }

  /** A white pixel is drawn as the lightest ramp character, a space. */
  lemma WhitePixel(f: Frame, x: nat, y: nat)
    requires WellFormed(f)
    requires x < f.width && y < f.height
    requires ColourAt(f, x, y) == Colour(255, 255, 255)
    ensures TextIndex(f.width, x, y) < |AsciiOf(f)|
    ensures AsciiOf(f)[TextIndex(f.width, x, y)] == ' '
  {
    AsciiOfAt(f, x, y);
  }
}
