/**
 * A reader for the plain-text PPM that `Netpbm.Serialize` writes: the magic
 * number `P3`, the dimensions, the maximum value `255`, then one
 * `r g b` line per pixel in row-major order. It is the inverse the
 * serialiser is checked against: reading back the text of any image gives
 * that image.
 */
module NetpbmDecode {
  import opened Wrappers
  import opened Decimal
  import opened Text
  import opened Netpbm

  /** A decimal number below `bound`. */
  function ParseBounded(s: string, bound: nat): (r: Option<nat>)
    ensures r.Some? ==> r.value < bound && ParseNat(s) == Some(r.value)
    ensures ParseNat(s).Some? && ParseNat(s).value < bound ==> r.Some?
  {
    match ParseNat(s)
    case Some(n) => if n < bound then Some(n) else None
    case None => None
  }

  /** One pixel line: three channel values below 256, separated by single spaces. */
  function ParsePixel(line: string): Option<Pixel>
  {
    var parts := SplitOn(line, ' ');
    if |parts| != 3 then None
    else
      match (ParseBounded(parts[0], 0x100), ParseBounded(parts[1], 0x100), ParseBounded(parts[2], 0x100))
      case (Some(r), Some(g), Some(b)) => Some(Pixel(r, g, b))
      case _ => None
  }

  /** All pixel lines, or nothing if any of them is malformed. */
  function ParsePixels(lines: seq<string>): (r: Option<seq<Pixel>>)
    ensures r.Some? <==> forall i :: 0 <= i < |lines| ==> ParsePixel(lines[i]).Some?
    ensures r.Some? ==> |r.value| == |lines|
    ensures r.Some? ==> forall i :: 0 <= i < |lines| ==> ParsePixel(lines[i]) == Some(r.value[i])
  {
    if |lines| == 0 then Some([])
    else
      match (ParsePixel(lines[0]), ParsePixels(lines[1..]))
      case (Some(p), Some(ps)) =>
        assert forall i :: 1 <= i < |lines| ==> lines[i] == lines[1..][i - 1];
        Some([p] + ps)
      case (None, _) => None
      case (_, None) =>
        assert forall i :: 0 <= i < |lines| - 1 ==> lines[1..][i] == lines[i + 1];
        None
  }

  /** Cell `(x, y)` of a row-major block of `w * h` pixels. */
  function GridCell(flat: seq<Pixel>, w: nat, h: nat, x: nat, y: nat): Pixel
    requires |flat| == w * h && x < w && y < h
  {
    RowMajor(x, y, w, h);
    flat[y * w + x]
  }

  /** The column-major grid of a row-major block. */
  function Grid(flat: seq<Pixel>, w: nat, h: nat): (data: seq<seq<Pixel>>)
    requires |flat| == w * h
    ensures |data| == w && forall x :: 0 <= x < w ==> |data[x]| == h
    ensures forall x, y :: 0 <= x < w && 0 <= y < h ==> data[x][y] == GridCell(flat, w, h, x, y)
  {
    seq(w, x requires 0 <= x < w => seq(h, y requires 0 <= y < h => GridCell(flat, w, h, x, y)))
  }

  /** Reads a whole image; the error says which part of the text is malformed. */
  function Decode(text: string): (r: Result<Ppm, string>)
    ensures r.Success? ==> Valid(r.value)
  {
    var lines := SplitOn(text, '\n');
    if |lines| < 3 || lines[0] != "P3" || lines[2] != "255" then Failure("malformed header")
    else
      var dims := SplitOn(lines[1], ' ');
      if |dims| != 2 then Failure("malformed dimensions")
      else
        match (ParseBounded(dims[0], 0x1_0000), ParseBounded(dims[1], 0x1_0000))
        case (Some(w), Some(h)) =>
          if |lines| != 3 + w * h then Failure("wrong number of pixels")
          else
            (match ParsePixels(lines[3..])
             case Some(flat) => Success(Ppm(w, h, Grid(flat, w, h)))
             case None => Failure("malformed pixel"))
        case _ => Failure("malformed dimensions")
  }

  // ---- The round trip ----

  /** `Pixel::to_string` is read back by `ParsePixel`. */
  lemma ParsePixelToString(p: Pixel)
    ensures ParsePixel(PixelToString(p)) == Some(p)
  {
    ParseNatToString(p.r);
    ParseNatToString(p.g);
    ParseNatToString(p.b);
  }

  lemma {:induction false} TopRowsNewlineFree(img: Ppm, rows: nat)
    requires Valid(img) && rows <= img.height
    ensures SeparatorFree(TopRows(img, rows), '\n')
    decreases rows
  {
    if rows > 0 {
      TopRowsNewlineFree(img, rows - 1);
    }
  }

  /** Splitting the serialised text at newlines gives back its lines. */
  lemma TextLines(img: Ppm)
    requires Valid(img)
    ensures SplitOn(ImageText(img), '\n') == Lines(img)
  {
    NumberSeparators(img.width);
    NumberSeparators(img.height);
    TopRowsNewlineFree(img, img.height);
    SplitJoin(Lines(img), '\n');
  }

  /** The dimensions line reads back as the image's width and height. */
  lemma DimensionsLine(img: Ppm)
    ensures var dims := SplitOn(HeaderLines(img)[1], ' ');
      && dims == [NatToString(img.width), NatToString(img.height)]
      && ParseBounded(dims[0], 0x1_0000) == Some(img.width as nat)
      && ParseBounded(dims[1], 0x1_0000) == Some(img.height as nat)
  {
    var w, h := NatToString(img.width), NatToString(img.height);
    NumberSeparators(img.width);
    NumberSeparators(img.height);
    assert HeaderLines(img)[1] == w + [' '] + h;
    SplitPiece(w, ' ', h);
    SplitWhole(h, ' ');
    ParseNatToString(img.width);
    ParseNatToString(img.height);
  }

  /** Every pixel line of a serialised image reads back. */
  lemma PixelLinesParse(img: Ppm)
    requires Valid(img)
    ensures ParsePixels(PixelLines(img)).Some?
    ensures |ParsePixels(PixelLines(img)).value| == img.width * img.height
  {
    var lines := PixelLines(img);
    PixelLinesLength(img);
    forall i | 0 <= i < |lines|
      ensures ParsePixel(lines[i]).Some?
    {
      PixelLineParses(img, i);
    }
  }

  lemma PixelLineParses(img: Ppm, i: nat)
    requires Valid(img) && i < img.width * img.height
    ensures i < |PixelLines(img)| && ParsePixel(PixelLines(img)[i]).Some?
  {
    FlatIndex(i, img.width, img.height);
    var x, y := i % img.width, i / img.width;
    PixelLinesRowMajor(img, x, y);
    ParsePixelToString(img.data[x][y]);
  }

  /** A cell of the grid holds the pixel its row-major line reads back as. */
  lemma GridCellAt(lines: seq<string>, flat: seq<Pixel>, w: nat, h: nat, x: nat, y: nat, p: Pixel)
    requires |flat| == |lines| == w * h && x < w && y < h
    requires forall i :: 0 <= i < |lines| ==> ParsePixel(lines[i]) == Some(flat[i])
    requires y * w + x < |lines| && lines[y * w + x] == PixelToString(p)
    ensures GridCell(flat, w, h, x, y) == p
  {
    ParsePixelToString(p);
  }

  /** The pixels read back, arranged in columns, are the image's grid. */
  lemma PixelGrid(img: Ppm)
    requires Valid(img)
    ensures ParsePixels(PixelLines(img)).Some?
    ensures var flat := ParsePixels(PixelLines(img)).value;
      |flat| == img.width * img.height && Grid(flat, img.width, img.height) == img.data
  {
    PixelLinesParse(img);
    PixelLinesLength(img);
    var lines := PixelLines(img);
    var flat := ParsePixels(lines).value;
    var data := Grid(flat, img.width, img.height);
    forall x | 0 <= x < img.width
      ensures data[x] == img.data[x]
    {
      forall y | 0 <= y < img.height
        ensures data[x][y] == img.data[x][y]
      {
        PixelLinesRowMajor(img, x, y);
        GridCellAt(lines, flat, img.width, img.height, x, y, img.data[x][y]);
      }
    }
  }

  /** Reading back the text `to_string` writes gives the image that was written. */
  lemma DecodeImageText(img: Ppm)
    requires Valid(img)
    ensures Decode(ImageText(img)) == Success(img)
  {
    TextLines(img);
    DimensionsLine(img);
    PixelLinesLength(img);
    var lines := Lines(img);
    assert lines[3..] == PixelLines(img);
    PixelGrid(img);
  }

  /** Serialisation loses nothing: different images have different text. */
  lemma ImageTextInjective(a: Ppm, b: Ppm)
    requires Valid(a) && Valid(b) && ImageText(a) == ImageText(b)
    ensures a == b
  {
    DecodeImageText(a);
    DecodeImageText(b);
  }
}
