/** What `QRCodeModel.makeMatrix` computes, as a value: the text's code units
    are expanded into a stream of bits, eight per code unit, most significant
    first, and stream bit k is written to row k / width, column k % width of a
    height x width grid of zeros, for as long as the grid has room. */
module BitRaster {
  import opened Bits

  /** A UTF-16 code unit, as `split('')` and `charCodeAt(0)` deliver them. */
  type CodeUnit = c: int | 0 <= c < 0x1_0000

  /** Bit k of the text's bit stream: bit k % 8, most significant first, of code unit k / 8. */
  function StreamBit(text: seq<CodeUnit>, k: nat): (b: int)
    requires k < 8 * |text|
    ensures b == 0 || b == 1
  {
    Bit(text[k / 8], k % 8)
  }

  /** The value left in row r, column c: the stream bit with row-major index
      r * width + c if the text reaches that far, the initial 0 otherwise. */
  function Cell(text: seq<CodeUnit>, width: nat, r: nat, c: nat): (b: int)
    ensures b == 0 || b == 1
  {
    var k := r * width + c;
    if k < 8 * |text| then StreamBit(text, k) else 0
  }

  /** A grid of `height` rows of `width` cells each. */
  predicate Shaped<T>(rows: seq<seq<T>>, width: nat, height: nat)
  {
    |rows| == height && forall r :: 0 <= r < |rows| ==> |rows[r]| == width
  }

  /** The matrix `makeMatrix` returns, row by row. */
  function Matrix(text: seq<CodeUnit>, width: nat, height: nat): (rows: seq<seq<int>>)
    ensures Shaped(rows, width, height)
    ensures forall r, c :: 0 <= r < height && 0 <= c < width ==> rows[r][c] == 0 || rows[r][c] == 1
  {
    seq(height, r requires 0 <= r < height =>
      seq(width, c requires 0 <= c < width => Cell(text, width, r, c)))
  }

  /** A height x width grid of zeros. */
  function ZeroMatrix(width: nat, height: nat): (rows: seq<seq<int>>)
    ensures Shaped(rows, width, height)
  {
    seq(height, _ => seq(width, _ => 0))
  }

  /** Every cell of a grid has a row-major index below width * height. */
  lemma CellIndexInGrid(width: nat, height: nat, r: nat, c: nat)
    requires r < height && c < width
    ensures r * width + c < width * height
  {
    assert (height - r) * width >= width by {
      MulAtLeast(width, height - r);
    }
  }

  lemma MulMonotone(a: nat, b: nat, c: nat)
    requires b <= c
    ensures a * b <= a * c
  {
    assert a * c == a * b + a * (c - b);
  }

  /** A row-major index below width * height names a cell of the grid. */
  lemma RowColumnOf(width: nat, height: nat, k: nat)
    requires width > 0 && k < width * height
    ensures k / width < height && k % width < width
    ensures (k / width) * width + k % width == k
  {
    var r := k / width;
    if r >= height {
      MulMonotone(width, height, r);
    }
  }

  /** Stream bit k lands in row k / width, column k % width, which lies inside
      the grid whenever k < width * height. */
  lemma BitLandsAt(text: seq<CodeUnit>, width: nat, height: nat, k: nat)
    requires width > 0 && k < 8 * |text| && k < width * height
    ensures k / width < height && k % width < width
    ensures Matrix(text, width, height)[k / width][k % width] == Bit(text[k / 8], k % 8)
  {
    RowColumnOf(width, height, k);
    var r, c := k / width, k % width;
    assert Matrix(text, width, height)[r][c] == Cell(text, width, r, c);
  }

  /** Cells past the end of the text keep their initial 0; an empty text gives
      a grid of zeros. */
  lemma UnwrittenCellsZero(text: seq<CodeUnit>, width: nat, height: nat)
    ensures forall r, c :: 0 <= r < height && 0 <= c < width && r * width + c >= 8 * |text| ==>
      Matrix(text, width, height)[r][c] == 0
    ensures text == [] ==> Matrix(text, width, height) == ZeroMatrix(width, height)
  {
    if text == [] {
      var m, z := Matrix(text, width, height), ZeroMatrix(width, height);
      forall r | 0 <= r < height
        ensures m[r] == z[r]
      {
        assert forall c :: 0 <= c < width ==> m[r][c] == z[r][c];
      }
    }
  }

  /** Only the first width * height stream bits reach the grid: once n code
      units supply that many bits, the rest of the text makes no difference. */
  lemma {:induction false} TruncatedToCapacity(text: seq<CodeUnit>, width: nat, height: nat, n: nat)
    requires n <= |text| && width * height <= 8 * n
    ensures Matrix(text, width, height) == Matrix(text[..n], width, height)
  {
    var m, p := Matrix(text, width, height), Matrix(text[..n], width, height);
    forall r | 0 <= r < height
      ensures m[r] == p[r]
    {
      forall c | 0 <= c < width
        ensures m[r][c] == p[r][c]
      {
        CellIndexInGrid(width, height, r, c);
      }
    }
  }

  /** The matrix is that of the text's first ceil(width * height / 8) code units
      (all of it when it is shorter), a partly written last one included. */
  lemma CapacityPrefix(text: seq<CodeUnit>, width: nat, height: nat)
    ensures var n := if |text| < (width * height + 7) / 8 then |text| else (width * height + 7) / 8;
      Matrix(text, width, height) == Matrix(text[..n], width, height)
  {
    var n := if |text| < (width * height + 7) / 8 then |text| else (width * height + 7) / 8;
    if n == |text| {
      assert text[..n] == text;
    } else {
      TruncatedToCapacity(text, width, height, n);
    }
  }

  /** Each code unit reduced to its low byte. */
  function LowBytes(text: seq<CodeUnit>): (low: seq<CodeUnit>)
    ensures |low| == |text|
    ensures forall i :: 0 <= i < |text| ==> low[i] == text[i] % 256
  {
    seq(|text|, i requires 0 <= i < |text| => text[i] % 256)
  }

  /** Replacing every code unit c by c % 256 leaves the matrix unchanged. */
  lemma LowByteInvariance(text: seq<CodeUnit>, width: nat, height: nat)
    ensures Matrix(LowBytes(text), width, height) == Matrix(text, width, height)
  {
    var m, p := Matrix(LowBytes(text), width, height), Matrix(text, width, height);
    forall r | 0 <= r < height
      ensures m[r] == p[r]
    {
      forall c | 0 <= c < width
        ensures m[r][c] == p[r][c]
      {
        var k := r * width + c;
        if k < 8 * |text| {
          BitOfLowByte(text[k / 8], k % 8);
        }
      }
    }
  }

  /** The whole bit stream of the text: eight bits per code unit, most significant first. */
  function Stream(text: seq<CodeUnit>): (bits: seq<int>)
    ensures |bits| == 8 * |text|
  {
    if text == [] then [] else MsbBits(text[0], 8) + Stream(text[1..])
  }

  /** Bits 8i .. 8i+7 of the stream are those of code unit i. */
  lemma {:induction false} StreamChunk(text: seq<CodeUnit>, i: nat)
    requires i < |text|
    ensures Stream(text)[8 * i .. 8 * i + 8] == MsbBits(text[i], 8)
  {
    if i > 0 {
      StreamChunk(text[1..], i - 1);
      assert Stream(text)[8 * i .. 8 * i + 8] == Stream(text[1..])[8 * (i - 1) .. 8 * (i - 1) + 8];
    }
  }

  /** The stream agrees with the bit the source computes in its inner loop. */
  lemma StreamAt(text: seq<CodeUnit>, k: nat)
    requires k < 8 * |text|
    ensures Stream(text)[k] == StreamBit(text, k)
  {
    var i, j := k / 8, k % 8;
    StreamChunk(text, i);
    assert Stream(text)[k] == Stream(text)[8 * i .. 8 * i + 8][j];
    BitIsMsbFirst(text[i], j);
  }

  /** The cells read in row-major order. */
  function RowMajor(rows: seq<seq<int>>): seq<int>
  {
    if rows == [] then [] else rows[0] + RowMajor(rows[1..])
  }

  /** Row-major position r * width + c holds row r, column c. */
  lemma {:induction false} RowMajorAt(rows: seq<seq<int>>, width: nat, r: nat, c: nat)
    requires Shaped(rows, width, |rows|) && r < |rows| && c < width
    ensures r * width + c < |RowMajor(rows)| && RowMajor(rows)[r * width + c] == rows[r][c]
  {
    RowMajorLength(rows, width);
    CellIndexInGrid(width, |rows|, r, c);
    var tail := rows[1..];
    assert RowMajor(rows) == rows[0] + RowMajor(tail);
    if r > 0 {
      RowMajorAt(tail, width, r - 1, c);
      var k := (r - 1) * width + c;
      assert r * width + c == width + k by {
        assert r * width == (r - 1) * width + width;
      }
      assert RowMajor(rows)[width + k] == RowMajor(tail)[k];
    }
  }

  lemma {:induction false} RowMajorLength(rows: seq<seq<int>>, width: nat)
    requires Shaped(rows, width, |rows|)
    ensures |RowMajor(rows)| == |rows| * width
  {
    if rows != [] {
      RowMajorLength(rows[1..], width);
    }
  }

  /** Read in row-major order, the matrix is the bit stream cut to width * height
      bits, or padded with zeros up to that length. */
  lemma MatrixRowMajor(text: seq<CodeUnit>, width: nat, height: nat)
    ensures |RowMajor(Matrix(text, width, height))| == width * height
    ensures forall k :: 0 <= k < width * height ==>
      RowMajor(Matrix(text, width, height))[k] == if k < 8 * |text| then Stream(text)[k] else 0
  {
    RowMajorLength(Matrix(text, width, height), width);
    forall k | 0 <= k < width * height
      ensures RowMajor(Matrix(text, width, height))[k] == if k < 8 * |text| then Stream(text)[k] else 0
    {
      RowColumnOf(width, height, k);
      MatrixRowMajorCell(text, width, height, k / width, k % width);
    }
  }

  lemma MatrixRowMajorCell(text: seq<CodeUnit>, width: nat, height: nat, r: nat, c: nat)
    requires r < height && c < width
    ensures r * width + c < |RowMajor(Matrix(text, width, height))|
    ensures var k := r * width + c;
      RowMajor(Matrix(text, width, height))[k] == if k < 8 * |text| then Stream(text)[k] else 0
  {
    var k := r * width + c;
    RowMajorAt(Matrix(text, width, height), width, r, c);
    if k < 8 * |text| {
      StreamAt(text, k);
    }
  }

  /** Bits read back eight at a time, most significant first. */
  function DecodeBytes(bits: seq<int>): (bytes: seq<int>)
    ensures |bytes| == |bits| / 8
  {
    if |bits| < 8 then [] else [FromBits(bits[..8])] + DecodeBytes(bits[8..])
  }

  lemma {:induction false} DecodeAt(bits: seq<int>, i: nat)
    requires 8 * i + 8 <= |bits|
    ensures i < |DecodeBytes(bits)| && DecodeBytes(bits)[i] == FromBits(bits[8 * i .. 8 * i + 8])
  {
    var rest := bits[8..];
    assert DecodeBytes(bits) == [FromBits(bits[..8])] + DecodeBytes(rest);
    if i > 0 {
      DecodeAt(rest, i - 1);
      var chunk, byte := rest[8 * (i - 1) .. 8 * (i - 1) + 8], bits[8 * i .. 8 * i + 8];
      forall t | 0 <= t < 8
        ensures chunk[t] == byte[t]
      {
        assert chunk[t] == bits[8 + 8 * (i - 1) + t];
      }
      assert chunk == byte;
    }
  }

  /** When the text fits (8 * |text| <= width * height), reading the matrix in
      row-major order, eight bits at a time, gives back every code unit modulo 256. */
  lemma RoundTrip(text: seq<CodeUnit>, width: nat, height: nat)
    requires 8 * |text| <= width * height
    ensures |text| <= |DecodeBytes(RowMajor(Matrix(text, width, height)))|
    ensures DecodeBytes(RowMajor(Matrix(text, width, height)))[..|text|] == LowBytes(text)
  {
    var bits := RowMajor(Matrix(text, width, height));
    MatrixRowMajor(text, width, height);
    var decoded := DecodeBytes(bits);
    forall i | 0 <= i < |text|
      ensures decoded[i] == text[i] % 256
    {
      DecodeAt(bits, i);
      assert bits[8 * i .. 8 * i + 8] == Stream(text)[8 * i .. 8 * i + 8];
      StreamChunk(text, i);
      ByteRoundTrip(text[i]);
    }
  }

  /** At width 8, row i holds the eight bits of code unit i. */
  lemma RowPerCodeUnit(text: seq<CodeUnit>, height: nat, i: nat)
    requires i < |text| && i < height
    ensures Matrix(text, 8, height)[i] == MsbBits(text[i], 8)
  {
    var row := Matrix(text, 8, height)[i];
    forall c | 0 <= c < 8
      ensures row[c] == MsbBits(text[i], 8)[c]
    {
      assert row[c] == StreamBit(text, 8 * i + c);
      BitIsMsbFirst(text[i], c);
    }
  }

  /** The code units of "Hi", bit by bit. */
  lemma HiBits()
    ensures MsbBits(72, 8) == [0, 1, 0, 0, 1, 0, 0, 0]
    ensures MsbBits(105, 8) == [0, 1, 1, 0, 1, 0, 0, 1]
  {
  }

  /** "Hi" (code units 72 and 105) at width 8, height 2: one character per row. */
  lemma HiExample()
    ensures Matrix([72, 105], 8, 2) == [[0, 1, 0, 0, 1, 0, 0, 0], [0, 1, 1, 0, 1, 0, 0, 1]]
  {
    var m := Matrix([72, 105], 8, 2);
    RowPerCodeUnit([72, 105], 2, 0);
    RowPerCodeUnit([72, 105], 2, 1);
    HiBits();
    assert m == [m[0], m[1]];
  }
}
