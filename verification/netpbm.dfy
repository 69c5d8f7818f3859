/**
 * The plain-text ("P3") PPM raster of the Netpbm family: a `width` x `height`
 * grid of RGB pixels, stored column-major (`data[x][y]`), with a bounds-checked
 * pixel write and a serialiser that writes the grid row by row.
 *
 * The same structure and code appear twice in the repository (src/ppm.rs and
 * the private `ppm` module of src/raytracer/formats/mod.rs); both are modelled
 * by this module.
 */
module Netpbm {
  import opened Wrappers
  import opened Decimal
  import opened Text

  type Byte = n: nat | n < 0x100
  type U16 = n: nat | n < 0x1_0000

  datatype Pixel = Pixel(r: Byte, g: Byte, b: Byte)

  datatype Ppm = Ppm(width: U16, height: U16, data: seq<seq<Pixel>>)

  const White := Pixel(255, 255, 255)

  /** `data` holds `width` columns of `height` pixels each. */
  predicate Valid(img: Ppm) {
    && |img.data| == img.width
    && forall x :: 0 <= x < |img.data| ==> |img.data[x]| == img.height
  }

  /** The pixel at column `x`, row `y`. */
  function Get(img: Ppm, x: nat, y: nat): Pixel
    requires Valid(img) && x < img.width && y < img.height
  {
    img.data[x][y]
  }

  /** `Pixel::new`: the three channel bytes, stored as given. */
  function NewPixel(r: Byte, g: Byte, b: Byte): (p: Pixel)
    ensures (p.r, p.g, p.b) == (r, g, b)
  {
    Pixel(r, g, b)
  }

  /** `PPM::new`: an all-white image of the given size. */
  function New(width: U16, height: U16): (img: Ppm)
    ensures Valid(img)
    ensures GetDimensions(img) == (width, height)
    ensures forall x, y :: 0 <= x < width && 0 <= y < height ==> Get(img, x, y) == White
  {
    Ppm(width, height, seq(width, _ => seq(height, _ => White)))
  }

  /** `get_dimensions`: `(width, height)`, the shape of the pixel grid. */
  function GetDimensions(img: Ppm): (d: (U16, U16))
    ensures Valid(img) ==> d.0 == |img.data|
    ensures Valid(img) ==> forall x :: 0 <= x < |img.data| ==> |img.data[x]| == d.1
  {
    (img.width, img.height)
  }

  /** The error text of an out-of-bounds `set`. */
  function OutOfBounds(x: U16, y: U16, width: U16, height: U16): string
  {
    "set(" + NatToString(x) + ", " + NatToString(y) + ") out of bounds for "
      + NatToString(width) + "x" + NatToString(height) + " image"
  }

  /**
   * `set(x, y, pixel)`: the image after the call and the returned value.
   * Inside the grid the old pixel comes back and only that cell changes;
   * outside it the image is untouched and an error message comes back.
   */
  function Set(img: Ppm, x: U16, y: U16, pixel: Pixel): (res: (Ppm, Result<Pixel, string>))
    requires Valid(img)
    ensures Valid(res.0) && GetDimensions(res.0) == GetDimensions(img)
    ensures res.1.Success? <==> x < img.width && y < img.height
    ensures res.1.Success? ==>
      && res.1.value == Get(img, x, y)
      && Get(res.0, x, y) == pixel
      && forall i, j :: 0 <= i < img.width && 0 <= j < img.height && (i, j) != (x, y) ==>
           Get(res.0, i, j) == Get(img, i, j)
    ensures res.1.Failure? ==> res.0 == img && res.1.error == OutOfBounds(x, y, img.width, img.height)
  {
    if x < img.width && y < img.height then
      var previous := img.data[x][y];
      (img.(data := img.data[x := img.data[x][y := pixel]]), Success(previous))
    else
      (img, Failure(OutOfBounds(x, y, img.width, img.height)))
  }

  /** Writing back the pixel an in-bounds `set` returned restores the image. */
  lemma SetRestore(img: Ppm, x: U16, y: U16, pixel: Pixel)
    requires Valid(img)
    ensures var (img', res) := Set(img, x, y, pixel);
      res.Success? ==> Set(img', x, y, res.value).0 == img
  {
    var (img', res) := Set(img, x, y, pixel);
    if res.Success? {
      var img'' := Set(img', x, y, res.value).0;
      assert img''.data[x] == img.data[x];
      assert img''.data == img.data;
    }
  }

  /** A second `set` of the same cell overrides the first. */
  lemma SetTwice(img: Ppm, x: U16, y: U16, p: Pixel, q: Pixel)
    requires Valid(img)
    ensures Set(Set(img, x, y, p).0, x, y, q).0 == Set(img, x, y, q).0
  {
    if x < img.width && y < img.height {
      assert Set(Set(img, x, y, p).0, x, y, q).0.data[x] == Set(img, x, y, q).0.data[x];
    }
  }

  /** `Pixel::to_string`: the three channels in decimal, separated by single spaces. */
  function PixelToString(p: Pixel): (s: string)
    ensures SplitOn(s, ' ') == [NatToString(p.r), NatToString(p.g), NatToString(p.b)]
    ensures '\n' !in s
  {
    var r, g, b := NatToString(p.r), NatToString(p.g), NatToString(p.b);
    NumberSeparators(p.r);
    NumberSeparators(p.g);
    NumberSeparators(p.b);
    SplitPiece(r, ' ', g + [' '] + b);
    SplitPiece(g, ' ', b);
    SplitWhole(b, ' ');
    assert r + " " + g + " " + b == r + [' '] + (g + [' '] + b);
    r + " " + g + " " + b
  }

  // ---- The text of `to_string`, line by line ----

  /** The three header lines: magic number, dimensions, maximum channel value. */
  function HeaderLines(img: Ppm): seq<string>
  {
    ["P3", NatToString(img.width) + " " + NatToString(img.height), "255"]
  }

  /** The pixel lines of row `row`, left to right. */
  function RowLines(img: Ppm, row: nat): (lines: seq<string>)
    requires Valid(img) && row < img.height
    ensures |lines| == img.width
  {
    seq(img.width, col requires 0 <= col < img.width => PixelToString(img.data[col][row]))
  }

  /** The pixel lines of the first `rows` rows, top to bottom. */
  function TopRows(img: Ppm, rows: nat): seq<string>
    requires Valid(img) && rows <= img.height
  {
    if rows == 0 then [] else TopRows(img, rows - 1) + RowLines(img, rows - 1)
  }

  /** One line per pixel, in row-major order. */
  function PixelLines(img: Ppm): seq<string>
    requires Valid(img)
  {
    TopRows(img, img.height)
  }

  function Lines(img: Ppm): seq<string>
    requires Valid(img)
  {
    HeaderLines(img) + PixelLines(img)
  }

  /** The serialised image: all lines joined by newlines, with no newline at the end. */
  function ImageText(img: Ppm): string
    requires Valid(img)
  {
    Join(Lines(img), '\n')
  }

  // ---- Row-major arithmetic ----

  lemma MulMonotone(a: nat, b: nat, w: nat)
    requires a <= b
    ensures a * w <= b * w
  {
  }

  lemma ZeroMultiple(d: int, w: nat)
    requires -(w as int) < d * w < w
    ensures d == 0
  {
    if d >= 1 {
      MulMonotone(1, d, w);
    }
  }

  lemma DivModUnique(k: nat, w: nat, q: nat, r: nat)
    requires r < w && k == q * w + r
    ensures k / w == q && k % w == r
  {
    var q', r' := k / w, k % w;
    assert (q - q') * w == r' - r;
    ZeroMultiple(q - q', w);
  }

  /** Cell `(x, y)` of a `width * height` block sits at `y * width + x`. */
  lemma RowMajor(x: nat, y: nat, width: nat, height: nat)
    requires x < width
    ensures (y * width + x) / width == y && (y * width + x) % width == x
    ensures y < height ==> y * width + x < height * width
  {
    DivModUnique(y * width + x, width, y, x);
    if y < height {
      assert y * width + x < (y + 1) * width;
      MulMonotone(y + 1, height, width);
    }
  }

  /** A position in a `width * height` block, split into column and row. */
  lemma FlatIndex(k: nat, w: nat, h: nat)
    requires k < w * h
    ensures w > 0 && k % w < w && k / w < h && k == (k / w) * w + k % w
  {
    if k / w >= h {
      MulMonotone(h, k / w, w);
    }
  }

  lemma {:induction false} TopRowsLength(img: Ppm, rows: nat)
    requires Valid(img) && rows <= img.height
    ensures |TopRows(img, rows)| == rows * img.width
    decreases rows
  {
    if rows > 0 {
      TopRowsLength(img, rows - 1);
      assert (rows - 1) * img.width + img.width == rows * img.width;
    }
  }

  /** In the first `rows` rows, line `y * width + x` is the pixel at `(x, y)`. */
  lemma {:induction false} TopRowsAt(img: Ppm, rows: nat, x: nat, y: nat, k: nat)
    requires Valid(img) && rows <= img.height && x < img.width && y < rows
    requires k == y * img.width + x
    ensures k < |TopRows(img, rows)| && TopRows(img, rows)[k] == PixelToString(img.data[x][y])
    decreases rows
  {
    var earlier := TopRows(img, rows - 1);
    TopRowsLength(img, rows - 1);
    var base := (rows - 1) * img.width;
    assert |earlier| == base;
    assert TopRows(img, rows) == earlier + RowLines(img, rows - 1);
    if y < rows - 1 {
      RowMajor(x, y, img.width, rows - 1);
      TopRowsAt(img, rows - 1, x, y, k);
    } else {
      assert k == base + x;
    }
  }

  /** There is one pixel line per pixel. */
  lemma PixelLinesLength(img: Ppm)
    requires Valid(img)
    ensures |PixelLines(img)| == img.width * img.height
  {
    TopRowsLength(img, img.height);
  }

  /**
   * The pixel block is in row-major order: the outer order is over rows, the
   * inner over columns, so the pixel at `(x, y)` is line `y * width + x`.
   */
  lemma PixelLinesRowMajor(img: Ppm, x: nat, y: nat)
    requires Valid(img) && x < img.width && y < img.height
    ensures y * img.width + x < |PixelLines(img)|
    ensures PixelLines(img)[y * img.width + x] == PixelToString(img.data[x][y])
  {
    TopRowsAt(img, img.height, x, y, y * img.width + x);
  }

  /**
   * An image without pixels is just its header; the final `pop` removes the
   * newline after `255`.
   */
  lemma EmptyImageText(img: Ppm)
    requires Valid(img) && (img.width == 0 || img.height == 0)
    ensures ImageText(img) == "P3\n" + NatToString(img.width) + " " + NatToString(img.height) + "\n255"
  {
    PixelLinesLength(img);
    var hl := HeaderLines(img);
    assert Lines(img) == hl;
    assert hl[1..][1..] == ["255"];
    assert Join(hl[1..], '\n') == hl[1] + "\n255";
    assert Join(hl, '\n') == "P3\n" + (hl[1] + "\n255");
  }

  // ---- `to_string` ----

  /** The header written by `to_string`, as three newline-terminated lines. */
  lemma HeaderText(img: Ppm)
    ensures "P3\n" + NatToString(img.width) + " " + NatToString(img.height) + "\n255\n"
         == Terminated(HeaderLines(img), '\n')
  {
    var hl := HeaderLines(img);
    assert hl[..2][..1][..0] == [];
    assert hl[..2][..1] == ["P3"];
    assert hl[..2] == ["P3", hl[1]];
    assert Terminated(hl[..2][..1], '\n') == "P3\n";
    assert Terminated(hl[..2], '\n') == "P3\n" + hl[1] + "\n";
  }

  /** The lines `to_string` has written when it is about to write pixel `(col, row)`. */
  function Written(img: Ppm, row: nat, col: nat): seq<string>
    requires Valid(img) && row <= img.height && col <= img.width
    requires row == img.height ==> col == 0
  {
    if row == img.height then Lines(img)
    else HeaderLines(img) + TopRows(img, row) + RowLines(img, row)[..col]
  }

  lemma WrittenStart(img: Ppm)
    requires Valid(img)
    ensures Written(img, 0, 0) == HeaderLines(img)
  {
  }

  lemma WrittenStep(img: Ppm, row: nat, col: nat)
    requires Valid(img) && row < img.height && col < img.width
    ensures Written(img, row, col + 1) == Written(img, row, col) + [PixelToString(img.data[col][row])]
  {
    var lines := RowLines(img, row);
    assert lines[..col + 1] == lines[..col] + [lines[col]];
  }

  lemma WrittenRowDone(img: Ppm, row: nat)
    requires Valid(img) && row < img.height
    ensures Written(img, row, img.width) == Written(img, row + 1, 0)
  {
    var lines := RowLines(img, row);
    assert lines[..img.width] == lines;
    if row + 1 < img.height {
      assert RowLines(img, row + 1)[..0] == [];
    }
  }

  /**
   * The inner loop of `PPM::to_string`: the pixels of row `row`, column by
   * column (reading `data[col][row]`), each followed by a newline.
   */
  method WriteRow(img: Ppm, row: nat, s: string, ghost written: seq<string>)
      returns (s': string, ghost written': seq<string>)
    requires Valid(img) && row < img.height
    requires written == Written(img, row, 0) && s == Terminated(written, '\n')
    ensures written' == Written(img, row + 1, 0) && s' == Terminated(written', '\n')
  {
    var w: nat := img.width;
    s', written' := s, written;
    var col: nat := 0;
    while col < w
      invariant col <= w
      invariant written' == Written(img, row, col)
      invariant s' == Terminated(written', '\n')
    {
      var line := PixelToString(img.data[col][row]);
      WrittenStep(img, row, col);
      TerminatedSnoc(written', line, '\n');
      s' := s' + line;
      s' := s' + "\n";
      written' := written' + [line];
      col := col + 1;
    }
    WrittenRowDone(img, row);
  }

  /**
   * `PPM::to_string`: the header, then the rows from top to bottom (the outer
   * loop), then the last character popped. The result is every line of
   * `Lines` joined by single newlines.
   */
  method Serialize(img: Ppm) returns (s: string)
    requires Valid(img)
    ensures s == ImageText(img)
  {
    s := "P3\n" + NatToString(img.width) + " " + NatToString(img.height) + "\n255\n";
    HeaderText(img);
    WrittenStart(img);
    ghost var written := HeaderLines(img);
    var row: nat := 0;
    while row < img.height
      invariant row <= img.height
      invariant written == Written(img, row, 0)
      invariant s == Terminated(written, '\n')
    {
      s, written := WriteRow(img, row, s, written);
      row := row + 1;
    }
    PopTerminated(Lines(img), '\n');
    s := Pop(s);
  }
}
