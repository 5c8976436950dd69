/** What `QRCodeModel.makeImage` paints, as a value. The canvas starts white;
    pixel (x, y) is painted black when `qrCodeMatrix[x][y]` is truthy, so the
    matrix, written as [row][column], is read transposed. Reading a row index
    x past the last row gives `undefined`, and indexing that throws a TypeError;
    reading a column past the end of a row gives `undefined`, which is falsy. */
module Rendering {
  import opened BitRaster

  /** The outcome of a call that can throw. */
  datatype Result<T> = Ok(value: T) | TypeError

  /** The picture, as rows of pixels: image[y][x] is pixel (x, y), true for black. */
  function Render(matrix: seq<seq<int>>, width: nat, height: nat): (image: Result<seq<seq<bool>>>)
    ensures image.Ok? ==> Shaped(image.value, width, height)
  {
    if height > 0 && width > |matrix| then TypeError
    else Ok(seq(height, y requires 0 <= y < height =>
      seq(width, x requires 0 <= x < width => y < |matrix[x]| && matrix[x][y] != 0)))
  }

  /** The height x width image every pixel of which is white. */
  function WhiteImage(width: nat, height: nat): (image: seq<seq<bool>>)
    ensures Shaped(image, width, height)
  {
    seq(height, _ => seq(width, _ => false))
  }

  /** Rendering the matrix of a text throws exactly when the picture is wider
      than it is tall (and not empty): column x of the picture reads row x of the
      matrix, and the matrix has only `height` rows. */
  lemma {:induction false} RenderMatrixThrows(text: seq<CodeUnit>, width: nat, height: nat)
    ensures Render(Matrix(text, width, height), width, height).TypeError? <==> height > 0 && width > height
  {
    assert |Matrix(text, width, height)| == height;
  }

  /** When the picture is at least as tall as it is wide, pixel (x, y) shows the
      stream bit of matrix row x, column y: black exactly when y < width, that
      bit was written (x * width + y < 8 * |text|) and it is 1. Rows y >= width
      stay white. */
  lemma {:induction false} RenderMatrixTransposed(text: seq<CodeUnit>, width: nat, height: nat)
    requires width <= height
    ensures Render(Matrix(text, width, height), width, height).Ok?
    ensures forall y, x :: 0 <= y < height && 0 <= x < width ==>
      Render(Matrix(text, width, height), width, height).value[y][x] ==
        (y < width && x * width + y < 8 * |text| && StreamBit(text, x * width + y) == 1)
  {
    var m := Matrix(text, width, height);
    var image := Render(m, width, height).value;
    forall y, x | 0 <= y < height && 0 <= x < width
      ensures image[y][x] == (y < width && x * width + y < 8 * |text| && StreamBit(text, x * width + y) == 1)
    {
      if y < width {
        assert m[x][y] == Cell(text, width, x, y);
      }
    }
  }

  /** A matrix holding no 1 renders all white, when it renders at all. */
  lemma ZeroMatrixRendersWhite(matrix: seq<seq<int>>, width: nat, height: nat)
    requires forall x, y :: 0 <= x < |matrix| && 0 <= y < |matrix[x]| ==> matrix[x][y] == 0
    ensures Render(matrix, width, height).Ok? ==> Render(matrix, width, height).value == WhiteImage(width, height)
  {
    if Render(matrix, width, height).Ok? {
      var image, white := Render(matrix, width, height).value, WhiteImage(width, height);
      forall y | 0 <= y < height
        ensures image[y] == white[y]
      {
        assert forall x :: 0 <= x < width ==> image[y][x] == white[y][x];
      }
    }
  }

  /** The empty text renders all white whenever rendering does not throw. */
  lemma EmptyTextRendersWhite(width: nat, height: nat)
    requires width <= height
    ensures Render(Matrix([], width, height), width, height) == Ok(WhiteImage(width, height))
  {
    UnwrittenCellsZero([], width, height);
    var m := Matrix([], width, height);
    assert forall x, y :: 0 <= x < |m| && 0 <= y < |m[x]| ==> m[x][y] == 0;
    ZeroMatrixRendersWhite(m, width, height);
  }

  /** A height x width matrix of ones, with width <= height, paints the rows
      y < width black and leaves the others white: only a square one is painted
      black all over. */
  lemma OnesMatrixRendering(matrix: seq<seq<int>>, width: nat, height: nat)
    requires Shaped(matrix, width, height) && width <= height
    requires forall x, y :: 0 <= x < height && 0 <= y < width ==> matrix[x][y] == 1
    ensures Render(matrix, width, height).Ok?
    ensures forall y, x :: 0 <= y < height && 0 <= x < width ==>
      Render(matrix, width, height).value[y][x] == (y < width)
  {
    var image := Render(matrix, width, height).value;
    forall y, x | 0 <= y < height && 0 <= x < width
      ensures image[y][x] == (y < width)
    {
      assert |matrix[x]| == width;
    }
  }

  /** "Hi" at width 8, height 2 does not render: the click handler's call would throw. */
  lemma HiExampleThrows()
    ensures Render(Matrix([72, 105], 8, 2), 8, 2) == TypeError
  {
    RenderMatrixThrows([72, 105], 8, 2);
  }
}
