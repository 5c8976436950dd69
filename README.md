# A verified model of the home-grown "QR" encoder

The web page's script carries two small classes, `QRCode` and `QRCodeModel`,
that turn a text into a black-and-white picture. Despite the names, no
ISO/IEC 18004 symbol is produced. `QRCodeModel.makeMatrix` allocates a
`height` x `width` grid of zeros. It expands every character code into eight
bits, most significant first, and writes them in row-major order with an
`x`/`y` cursor. It stops without notice when the grid is full.
`QRCodeModel.makeImage` paints a white `width` x `height` canvas and blackens
pixel `(x, y)` when `qrCodeMatrix[x][y]` is truthy, so it reads the matrix
transposed. `QRCodeModel.make` composes the two, and `QRCode.make` delegates
to a fresh `QRCodeModel`.

The project has four modules:

- `Bits` (`bits.dfy`): `(c >> (7 - j)) & 1` as floor halving and a remainder,
  the eight bits of a byte most significant first, and reading them back.
- `BitRaster` (`bit_raster.dfy`): the matrix `makeMatrix` returns, as a value
  (`Matrix`), and what is proved about it. This covers where stream bit k lands,
  which cells stay 0, truncation to the grid's capacity, the low byte, and the
  row-major round trip.
- `Rendering` (`rendering.dfy`): the picture `makeImage` paints, as a value
  (`Render`). Its result is `Ok(rows of pixels)` or `TypeError`, the exception
  the transposed read raises.
- `QRCodeLib` (`qr_code.dfy`): the classes `QRCodeModel` and `QRCode`.
  `MakeMatrix` and `MakeImage` are imperative methods over `array2` with the
  source's loops, cursor, wrap-around and `break`s. Each is proved equal to the
  value-level definition.

The text is a sequence of UTF-16 code units (0 .. 65535), which is what
`split('')` and `charCodeAt(0)` deliver. The dimensions are taken as given
non-negative integers. The page's click handler nests them under
`options.renderer`, so at run time `options.width` and `options.height` are
`undefined`. The model assumes they are supplied. A JavaScript `break` leaves
only the inner loop over the eight bits. Once the grid is full, every later
character breaks out again at once, and the model does the same. The canvas
starts white. The model's image is a grid of booleans, `image[y][x]` for pixel
`(x, y)`, `true` for black.

## Model

| member | source | states |
|---|---|---|
| `QRCodeLib.QRCodeModel.MakeMatrix` | script.js:105-138 | The array the loops fill is exactly `Matrix(text, width, height)`: a fresh `height` x `width` grid whose cell at row-major index k holds stream bit k while k < 8·|text| and k < width·height, and 0 elsewhere. Every write is proved inside the allocated grid. |
| `QRCodeLib.QRCodeModel.MakeImage` | script.js:140-156 | It throws exactly when `Render` of the same matrix throws (a row index x past the last row). Otherwise it returns a fresh `height` x `width` canvas equal to `Render`: pixel (x, y) is black iff column y of row x exists and is nonzero. |
| `QRCodeLib.QRCodeModel.Make` | script.js:99-103 | The image of the text is `Render(Matrix(...))`. It throws exactly when height > 0 and width > height. |
| `QRCodeLib.QRCode.Make` | script.js:81-91 | Same outcome as `QRCodeModel.Make` on the same text and options: the same `TypeError` condition and the same picture. |
| `Bits.Bit` | script.js:119 | `(c >> (7 - j)) & 1` is always 0 or 1. |
| `Bits.ShiftRightIsDiv` | script.js:119 | The halving model of `c >> n` is floor division by 2^n. |
| `Bits.BitIsMsbFirst` | script.js:116-119 | The bits produced for j = 0 .. 7 are the eight low bits of the code, most significant first. |
| `Bits.BitOfLowByte` | script.js:117-119 | Bit j of a code unit equals bit j of its low byte, so the high byte never reaches the matrix. |
| `Bits.ByteRoundTrip` | script.js:116-119 | Reading the eight bits back, most significant first, gives the code modulo 256. |
| `BitRaster.StreamBit` | script.js:113-119 | Stream bit 8i + j, taken from code unit i, is 0 or 1. |
| `BitRaster.Matrix` | script.js:106-112 | Exactly `height` rows of `width` cells each, and every cell is 0 or 1. |
| `BitRaster.BitLandsAt` | script.js:116-129 | For k = 8i + j < width·height, bit j of character i lies at row k / width, column k % width, which is inside the grid. It holds `(code >> (7 - j)) & 1`. |
| `BitRaster.UnwrittenCellsZero` | script.js:106-116 | Cells whose row-major index is at least 8·|text| keep their initial 0. The empty text gives the all-zero grid. |
| `BitRaster.TruncatedToCapacity` | script.js:120-133 | Once n characters supply width·height bits, the characters after them make no difference to the matrix. |
| `BitRaster.CapacityPrefix` | script.js:120-133 | Any text gives the same matrix as its first min(|text|, ceil(width·height / 8)) characters, a partly written last character included. Nothing signals the loss. |
| `BitRaster.LowByteInvariance` | script.js:117-119 | Replacing every code c by c % 256 leaves the matrix unchanged. |
| `BitRaster.StreamAt` | script.js:116-119 | Element k of the concatenated MSB-first bytes of the text is the bit the inner loop computes for k = 8i + j. |
| `BitRaster.MatrixRowMajor` | script.js:120-129 | Read row by row, the matrix has width·height cells. Cell k is stream bit k where the text reaches, and 0 after that. |
| `BitRaster.RoundTrip` | script.js:113-129 | When 8·|text| <= width·height, reading the cells in row-major order eight at a time, most significant first, gives back every character code modulo 256. |
| `BitRaster.RowPerCodeUnit` | script.js:113-129 | At width 8, row i holds the eight bits of character i, most significant first. |
| `BitRaster.HiExample` | script.js:113-129 | "Hi" at width 8, height 2 gives rows 01001000 and 01101001. |
| `Rendering.Render` | script.js:145-154 | A picture that does not throw has `height` rows of `width` pixels. |
| `Rendering.RenderMatrixThrows` | script.js:148-153 | Painting the matrix of any text throws exactly when height > 0 and width > height. Column x reads row x, and only `height` rows exist. |
| `Rendering.RenderMatrixTransposed` | script.js:148-154 | For width <= height the painting succeeds. Pixel (x, y) is black exactly when y < width and stream bit x·width + y was written and is 1. Every other pixel keeps the white base fill. |
| `Rendering.ZeroMatrixRendersWhite` | script.js:145-154 | A matrix with no nonzero cell paints an all-white picture whenever painting does not throw. |
| `Rendering.EmptyTextRendersWhite` | script.js:106-154 | For width <= height, the empty text gives the all-white picture. |
| `Rendering.OnesMatrixRendering` | script.js:148-154 | A `height` x `width` matrix of ones with width <= height paints exactly the rows y < width black. The transposed read leaves the rest white. |
| `Rendering.HiExampleThrows` | script.js:145-153 | "Hi" at width 8, height 2 throws on painting. |

## Left out

- DOM wiring and the click handlers (script.js:2-50): element lookup, `trim`, `alert` and showing containers are user-interface glue.
- Camera acquisition (script.js:34-49): `getUserMedia`, `video.play()` and the logged rejection are asynchronous I/O.
- `QRCodeScanner` (script.js:52-78): a `setInterval` timer, canvas capture and ZXing decoding, a library outside this model. Its only logic is that a decode exception is swallowed and the callback is skipped on that tick.
- The canvas calls in `makeImage` (`createElement`, `getContext`, `fillRect`, `toDataURL`): the picture is a grid of booleans, not a PNG data URL.
- The options `errorCorrectLevel`, `type` and `margin` (script.js:11-16) are never read.
- JavaScript's comparisons against `undefined` dimensions: the dimensions are assumed to be given numbers.
- The lazy row creation at script.js:123-125: every write is proved to lie inside the allocated rows, so that branch never runs and has no counterpart.
- `c >> n` is modelled as floor halving, which agrees with JavaScript's signed 32-bit shift for 0 <= c < 2^31. Code units stay below 2^16.
- The QR standard itself (ISO/IEC 18004): the code does not implement it.
