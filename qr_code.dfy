/** The encoder classes `QRCode` and `QRCodeModel`: `makeMatrix` fills a
    height x width grid in place, `makeImage` paints a canvas from it, and
    `make` composes the two. Only `width` and `height` of the options are read;
    they are taken as given numbers. */
module QRCodeLib {
  import opened Bits
  import opened BitRaster
  import opened Rendering

  /** The options `makeMatrix` and `makeImage` read. */
  datatype Options = Options(width: nat, height: nat)

  /** The contents of a two-dimensional array, row by row. */
  function Grid<T>(a: array2<T>): (g: seq<seq<T>>)
    reads a
    ensures Shaped(g, a.Length1, a.Length0)
    ensures forall i, j :: 0 <= i < a.Length0 && 0 <= j < a.Length1 ==> g[i][j] == a[i, j]
  {
    seq(a.Length0, i requires 0 <= i < a.Length0 reads a =>
      seq(a.Length1, j requires 0 <= j < a.Length1 reads a => a[i, j]))
  }

  function Min(a: int, b: int): int
  {
    if a < b then a else b
  }

  /** Index r * width + c names row r, column c and no other cell. */
  lemma IndexDetermines(width: nat, r: nat, c: nat, r': nat, c': nat)
    requires c < width && c' < width && r * width + c == r' * width + c'
    ensures r == r' && c == c'
  {
    DivModUnique(r * width + c, width, r, c);
    DivModUnique(r' * width + c', width, r', c');
  }

  /** With the cursor at row y, column x after n written bits, there is room
      for another bit exactly when the cursor is inside the grid. */
  lemma CursorInGrid(width: nat, height: nat, x: nat, y: nat, n: nat)
    requires x < width || (width == 0 && x == 0)
    requires y * width + x == n
    ensures (y < height && x < width) <==> n < width * height
  {
    if y < height && x < width {
      CellIndexInGrid(width, height, y, x);
    } else if width > 0 {
      MulMonotone(width, height, y);
    }
  }

  /** Row r, column c after the first n stream bits have been written. */
  function Written(text: seq<CodeUnit>, width: nat, n: nat, r: nat, c: nat): int
    requires n <= 8 * |text|
  {
    var k := r * width + c;
    if k < n then StreamBit(text, k) else 0
  }

  /** An array holding the cells of Matrix(text, width, height) is that matrix. */
  lemma GridIsMatrix(m: array2<int>, text: seq<CodeUnit>, width: nat, height: nat)
    requires m.Length0 == height && m.Length1 == width
    requires forall r, c :: 0 <= r < height && 0 <= c < width ==> m[r, c] == Cell(text, width, r, c)
    ensures Grid(m) == Matrix(text, width, height)
  {
    var g, spec := Grid(m), Matrix(text, width, height);
    forall r | 0 <= r < height
      ensures g[r] == spec[r]
    {
      assert forall c :: 0 <= c < width ==> g[r][c] == spec[r][c];
    }
  }

  class QRCodeModel {
    const text: seq<CodeUnit>
    const options: Options

    constructor (text: seq<CodeUnit>, options: Options)
      ensures this.text == text && this.options == options
    {
      this.text := text;
      this.options := options;
    }

    /** The image of the text; it throws exactly when the picture is wider than
        it is tall and not empty. */
    method Make() returns (image: Result<array2<bool>>)
      ensures image.TypeError? <==> options.height > 0 && options.width > options.height
      ensures image.Ok? ==> fresh(image.value)
      ensures image.Ok? ==>
        Grid(image.value) == Render(Matrix(text, options.width, options.height), options.width, options.height).value
    {
      var matrix := MakeMatrix();
      image := MakeImage(matrix);
      RenderMatrixThrows(text, options.width, options.height);
    }

    /** Fills a fresh height x width grid of zeros with the text's bit stream in
        row-major order, as far as it fits. */
    method MakeMatrix() returns (m: array2<int>)
      ensures fresh(m)
      ensures Grid(m) == Matrix(text, options.width, options.height)
    {
      var width, height := options.width, options.height;
      m := new int[height, width];
      for i := 0 to height
        invariant forall r, c :: 0 <= r < i && 0 <= c < width ==> m[r, c] == 0
      {
        for j := 0 to width
          invariant forall r, c :: 0 <= r < i && 0 <= c < width ==> m[r, c] == 0
          invariant forall c :: 0 <= c < j ==> m[i, c] == 0
        {
          m[i, j] := 0;
        }
      }
      ghost var capacity := width * height;
      ghost var n := 0;  // bits written so far
      var x, y := 0, 0;
      for i := 0 to |text|
        invariant n == Min(8 * i, capacity) && n <= 8 * |text|
        invariant x < width || (width == 0 && x == 0)
        invariant y * width + x == n
        invariant forall r, c :: 0 <= r < height && 0 <= c < width ==>
          m[r, c] == Written(text, width, n, r, c)
      {
        var charCode := text[i];
        for j := 0 to 8
          invariant n == Min(8 * i + j, capacity)
          invariant x < width || (width == 0 && x == 0)
          invariant y * width + x == n
          invariant forall r, c :: 0 <= r < height && 0 <= c < width ==>
            m[r, c] == Written(text, width, n, r, c)
        {
          var bit := Bit(charCode, j);
          CursorInGrid(width, height, x, y, n);
          if y >= height || x >= width {
            assert n == capacity == Min(8 * (i + 1), capacity);
            break;
          }
          assert n == 8 * i + j;
          m[y, x] := bit;
          forall r, c | 0 <= r < height && 0 <= c < width
            ensures m[r, c] == Written(text, width, n + 1, r, c)
          {
            if (r != y || c != x) && r * width + c == n {
              IndexDetermines(width, r, c, y, x);
            }
          }
          n := n + 1;
          x := x + 1;
          if x >= width {
            assert (y + 1) * width == y * width + width;
            x := 0;
            y := y + 1;
            if y >= height {
              assert n == capacity == Min(8 * (i + 1), capacity) by {
                CursorInGrid(width, height, x, y, n);
              }
              break;
            }
          }
        }
      }
      forall r, c | 0 <= r < height && 0 <= c < width
        ensures m[r, c] == Cell(text, width, r, c)
      {
        CellIndexInGrid(width, height, r, c);
      }
      GridIsMatrix(m, text, width, height);
    }

    /** Paints a fresh white width x height canvas, pixel (x, y) black when
        row x, column y of the matrix holds a nonzero value; throws on reaching
        a column x for which the matrix has no row. */
    method MakeImage(m: array2<int>) returns (image: Result<array2<bool>>)
      ensures image.TypeError? <==> Render(Grid(m), options.width, options.height).TypeError?
      ensures image.Ok? ==> fresh(image.value)
      ensures image.Ok? ==>
        Grid(image.value) == Render(Grid(m), options.width, options.height).value
    {
      var width, height := options.width, options.height;
      var canvas := new bool[height, width]((_, _) => false);
      for y := 0 to height
        invariant y > 0 ==> width <= m.Length0
        invariant forall py, px :: 0 <= py < height && 0 <= px < width ==>
          canvas[py, px] == (py < y && px < m.Length0 && py < m.Length1 && m[px, py] != 0)
      {
        for x := 0 to width
          invariant x <= m.Length0
          invariant forall py, px :: 0 <= py < height && 0 <= px < width ==>
            canvas[py, px] == ((py < y || (py == y && px < x)) && px < m.Length0 && py < m.Length1 && m[px, py] != 0)
        {
          if x >= m.Length0 {
            return TypeError;
          }
          if y < m.Length1 && m[x, y] != 0 {
            canvas[y, x] := true;
          }
        }
      }
      image := Ok(canvas);
      var g, spec := Grid(canvas), Render(Grid(m), width, height).value;
      forall py | 0 <= py < height
        ensures g[py] == spec[py]
      {
        assert forall px :: 0 <= px < width ==> g[py][px] == spec[py][px];
      }
    }
  }

  class QRCode {
    const text: seq<CodeUnit>
    const options: Options

    constructor (text: seq<CodeUnit>, options: Options)
      ensures this.text == text && this.options == options
    {
      this.text := text;
      this.options := options;
    }

    /** Builds a `QRCodeModel` for the same text and options and returns its image. */
    method Make() returns (image: Result<array2<bool>>)
      ensures image.TypeError? <==> options.height > 0 && options.width > options.height
      ensures image.Ok? ==> fresh(image.value)
      ensures image.Ok? ==>
        Grid(image.value) == Render(Matrix(text, options.width, options.height), options.width, options.height).value
    {
      var model := new QRCodeModel(text, options);
      image := model.Make();
    }
  }
}
