# Webcam ASCII art: the frame-to-text conversion

The app shows a webcam feed as ASCII art. On every animation frame, the `draw`
callback in `src/App.js` reads the current video frame back from a canvas as an
RGBA byte buffer and turns it into text:

- For each pixel it averages the red, green and blue bytes into a brightness.
- It divides that brightness by 255 and scales it by 9, the last position of the
  ten-character ramp `'@%#*+=-:. '` (dark to light).
- It rounds the result down to pick a ramp character.
- It appends one character per pixel, row by row, with a newline after each row.

This project models that conversion and proves what its output looks like.

- `frame.dfy` (module `Frames`): the buffer as a value. A `Frame` holds a width,
  a height and bytes, four per pixel. `Grid` decodes it into rows of colours,
  and the alpha byte is never read.
- `ascii_art.dfy` (module `AsciiArt`): the ramp and the brightness-to-character
  rule. `AsciiOf` is the text of a frame, defined by appending rows just as the
  callback does. This module also holds the lemmas about the text: its length,
  its layout, its newlines, its alphabet, and which bytes each character
  depends on.
- `draw.dfy` (module `Draw`): the callback's nested loops as methods over an
  `ImageData` object whose bytes live in an array. `FrameToAscii` is proved to
  return exactly `AsciiOf` of the buffer. It has no `modifies` clause, so it
  only reads the buffer.

Brightness is taken over exact rationals (`real`). Over the rationals,
`CharIndexIsScaledBrightness` proves that the source's formula,
`floor((r+g+b)/3/255*9)`, equals the integer `(r+g+b)*9/765`. That is the number
of whole steps of 85 in `r+g+b`. The source evaluates the formula in IEEE-754
doubles instead, and there the two differ at exactly one channel sum, 425 (see
"Left out").

The code has a 10-character ramp ending in a space (`src/App.js:28`) and scales
by `asciiChars.length - 1`, which is 9 (`src/App.js:46`). It does not clamp the
index, and no clamp is needed: the index is proved to stay within 0..9.

## Model

| member | source | states |
|---|---|---|
| AsciiArt.RampShape | src/App.js:28 | the ramp has ten distinct characters, from '@' (darkest) to ' ' (lightest), and no newline |
| AsciiArt.Brightness | src/App.js:45 | the brightness lies in 0..255 and is exactly one third of the channel sum |
| AsciiArt.CharIndex | src/App.js:45-46 | the ramp index is always a valid position of the ramp (0..9), so the character lookup never goes out of range; it is the number of whole steps of 85 in r+g+b |
| AsciiArt.CharIndexIsScaledBrightness | src/App.js:45-46 | the index equals floor(brightness / 255 * (ramp length - 1)), taken over exact rationals |
| AsciiArt.CharIndexExtremes | src/App.js:45-46 | index 0 is reached exactly when r+g+b < 85; the last index is reached exactly by pure white |
| AsciiArt.CharIndexMonotone | src/App.js:45-46 | a pixel with a larger channel sum never gets an earlier, darker ramp position |
| AsciiArt.PixelChar | src/App.js:46-47 | the character drawn for a pixel is never a newline |
| AsciiArt.PixelCharInRamp | src/App.js:47 | the character drawn for a pixel is always one of the ramp's characters |
| AsciiArt.BlackAndWhite | src/App.js:28 | black (0,0,0) is drawn as '@' and white (255,255,255) as ' ' |
| AsciiArt.ChannelSum | src/App.js:45 | the sum r + g + b of a pixel is at most 765; it is 0 exactly for black and 765 exactly for white |
| AsciiArt.RowText | src/App.js:40-48 | a row's text has one character per pixel |
| AsciiArt.RowTextAt | src/App.js:40-48 | character x of a row's text is the character of pixel x |
| AsciiArt.RowTextNoNewline | src/App.js:40-48 | a row's text contains no newline |
| AsciiArt.Render | src/App.js:38-50 | the text of some rows is empty exactly when there are no rows, and otherwise ends with the newline after the last row; its length, layout and newline count are given by RenderLength, RenderAt and RenderNewlineCount |
| AsciiArt.RenderLength | src/App.js:38-50 | rows of width pixels render to width + 1 characters per row |
| AsciiArt.RenderLineAt | src/App.js:38-50 | position x of line y is position x of row y's text followed by its newline |
| AsciiArt.RowTextLineAt | src/App.js:40-49 | in a row's line, column x < width is pixel x's character and column width is the newline |
| AsciiArt.RenderAt | src/App.js:38-50 | column x < width of line y holds the character of pixel x of row y, and column width holds a newline |
| AsciiArt.AsciiOf | src/App.js:38-50 | the text of a frame is height lines of width + 1 characters, so its length is height * (width + 1); its layout is given by AsciiOfAt and AsciiOfCell, its newlines by NewlinesEndRows and AsciiOfNewlineCount |
| AsciiArt.AsciiOfAt | src/App.js:38-50 | line y, column x of the text is the character of the pixel at (x, y); column width is a newline |
| AsciiArt.AsciiOfCell | src/App.js:38-50 | in closed form, position y * (width + 1) + x of the text holds the character of the pixel at (x, y) for x < width, and a newline for x = width |
| AsciiArt.TextIndexSplit | src/App.js:39-40 | every position of the text is column x <= width of a row y < height, with x the position modulo width + 1 |
| AsciiArt.NewlinesEndRows | src/App.js:49 | a character of the text is a newline exactly when its position modulo width + 1 is width, in both directions |
| AsciiArt.OnlyRampCharacters | src/App.js:28 | every character of the text is a newline or a ramp character |
| AsciiArt.RenderLine | src/App.js:38-50 | line y of rendered rows is exactly row y's text, followed by a newline |
| AsciiArt.LineOfRow | src/App.js:38-50 | line y of a frame's text is exactly the text of pixel row y, followed by a newline |
| AsciiArt.RenderNewlineCount | src/App.js:49 | rendered rows contain exactly one newline per row |
| AsciiArt.AsciiOfNewlineCount | src/App.js:49 | the text of a frame contains exactly height newlines |
| AsciiArt.PixelLocality | src/App.js:41-47 | the character at (x, y) depends only on the red, green and blue bytes of pixel (x, y) |
| AsciiArt.AlphaIgnored | src/App.js:41-44 | frames that differ only in alpha bytes produce the same text |
| AsciiArt.BlackPixel | src/App.js:41-47 | a black pixel appears as '@' at its position in the text |
| AsciiArt.WhitePixel | src/App.js:41-47 | a white pixel appears as ' ' at its position in the text |
| Frames.Offset | src/App.js:41 | the offset of pixel (x, y) is a multiple of 4, and its quotient by 4 is the pixel's row-major number y * width + x |
| Frames.ColourAt | src/App.js:41-44 | the colour of pixel (x, y) is the three bytes at its offset, offset + 1 and offset + 2, all within the buffer; the alpha byte at offset + 3 is not read |
| Frames.OffsetInBounds | src/App.js:41-44 | for every pixel inside the frame, the offset of its red byte plus 4 stays within the buffer |
| Frames.Grid | src/App.js:39-44 | the decoded frame has height rows of width colours each |
| Frames.GridAt | src/App.js:41-44 | row y, column x of the decoded frame is the red, green and blue bytes at offset (y * width + x) * 4 |
| Frames.AlphaIgnoredByGrid | src/App.js:41-44 | buffers that agree on every non-alpha byte decode to the same rows of colours |
| Draw.ImageData.constructor | src/App.js:36 | the image buffer holds four bytes per pixel |
| Draw.ImageData.Snapshot | src/App.js:36 | the buffer's contents, as a frame of the same size and bytes |
| Draw.FrameToAscii | src/App.js:38-50 | the nested loops return exactly the text of the buffer's frame, reading the buffer without changing it |
| Draw.AppendRowText | src/App.js:40-48 | the inner loop appends exactly the text of row y to what was built before |
| Draw.PixelIndex | src/App.js:45-46 | the index computed from the brightness is in 0..9 and is the pixel's ramp position |
| Draw.PixelBytes | src/App.js:41-44 | the three bytes read for pixel (x, y) lie within the buffer and are that pixel's colour |
| Draw.AppendPixel | src/App.js:47 | appending pixel x's character extends the row's text by one column |
| Draw.AppendRow | src/App.js:49 | appending a newline after row y completes the text of the first y + 1 rows |

## Left out

- Webcam access through `getUserMedia`, and its error log (`src/App.js:8-20`): these are browser I/O.
- Canvas creation, `drawImage` scaling and `getImageData` (`src/App.js:25-26`, `src/App.js:32-36`): these are browser calls. The frame's size and bytes are inputs to the model. The canvas's truncation of the non-integer `videoWidth / 8` is not modelled.
- The `readyState` guard, the `requestAnimationFrame` loop and the `canplay` listener with its cleanup (`src/App.js:31`, `src/App.js:53-64`): this is scheduling and event handling.
- React state, the ref, `setAsciiArt` and the JSX output (`src/App.js:4-5`, `src/App.js:51`, `src/App.js:67-73`): this is UI.
- AsciiArt.CharIndexIsScaledBrightness: the index formula is taken over exact rationals, not IEEE-754 doubles. In doubles, `((s / 3) / 255) * 9` comes to 4.999999999999999 for the channel sum s = 425, and the source floors that to 4. So a pixel with r+g+b = 425 is drawn as '+' by the source and as '=' by the model. For every other sum in 0..765 the double computation floors to the same index as the model's.
- Draw.PixelIndex: computes the same formula over exact rationals, so the same s = 425 difference applies.
- Draw.FrameToAscii: the promise that the buffer is not modified comes from the method's empty `modifies` frame, not from an `ensures` clause.
- JavaScript strings are UTF-16. Here text is a sequence of `char`, which is the same for the ASCII characters the conversion produces.
