/** The pixel loops of `YandereImage`. Every loop reads colour `c` of pixel
    `(x, y)` at `y * width * bpp + x * bpp + c`, computed inline with the
    formula of `pixel_color_pos`; inside an image of at most 2^32 bytes that
    is byte `c` of pixel number `y * width + x`, so each loop is proved
    against the per-pixel definitions of module Pixels. The image
    is passed in as a value and the new bytes are returned. */
module PixelLoops {
  import opened Bytes
  import opened Raster
  import opened Pixels
  import Adler

  // ---------------------------------------------------------------------
  // Positions
  // ---------------------------------------------------------------------

  /** Pixel `(x, y)` lies wholly inside the image. */
  lemma PixelInside(width: nat, height: nat, bpp: nat, x: nat, y: nat)
    requires x < width && y < height
    ensures Start(bpp, Start(width, y) + x + 1) <= Size(width, height, bpp)
  {
    StartWithin(width, y, x, height);
    StartMonotone(bpp, Start(width, y) + x + 1, Start(width, height));
  }

  /** Row `y` of `r = bpp * width` bytes runs from the first byte of pixel
      `y * width` to the first byte of pixel `(y + 1) * width`. */
  lemma RowIsLine(width: nat, bpp: nat, y: nat)
    ensures Start(Start(bpp, width), y) == Start(bpp, Start(width, y))
    ensures Start(Start(bpp, width), y) + Start(bpp, width) == Start(bpp, Start(width, y + 1))
  {
    StartNest(bpp, width, y);
    StartNest(bpp, width, y + 1);
  }

  /** The index the pixel loops compute inline, the formula of
      `pixel_color_pos`; inside an image of at most 2^32 bytes it is byte
      `c` of pixel number `y * width + x`. */
  method Position(width: nat, height: nat, bpp: nat, x: nat, y: nat, c: nat) returns (p: nat)
    requires x < width && y < height && c < bpp && Size(width, height, bpp) <= U32
    ensures p == Start(bpp, Start(width, y) + x) + c && p < Size(width, height, bpp)
  {
    ColorPosAt(width, height, bpp, x, y, c);
    p := ColorPos(width, bpp, x, y, c);
  }

  /** Adjacent slices join. */
  lemma SliceJoin(s: seq<byte>, i: nat, j: nat, k: nat)
    requires i <= j <= k <= |s|
    ensures s[i..j] + s[j..k] == s[i..k]
  {
  }

  // ---------------------------------------------------------------------
  // The `bppi` loops, over the bytes of one pixel
  // ---------------------------------------------------------------------

  /** The `bppi` loop of `flip`, `ppm_save` and `png_save`: the bytes of
      pixel `(x, y)` appended. */
  method CopyPixel(image: seq<byte>, width: nat, height: nat, bpp: nat, x: nat, y: nat,
                   ghost n: nat, out: seq<byte>)
    returns (res: seq<byte>)
    requires x < width && y < height && Size(width, height, bpp) <= |image| && Size(width, height, bpp) <= U32
    requires n == Start(width, y) + x
    ensures Start(bpp, n + 1) <= |image|
    ensures res == out + PixelOf(image, bpp, n)
  {
    PixelInside(width, height, bpp, x, y);
    ghost var p := PixelOf(image, bpp, n);
    res := out;
    var c: nat := 0;
    while c < bpp
      invariant c <= bpp
      invariant res == out + p[..c]
    {
      var pos := Position(width, height, bpp, x, y, c);
      assert p[..c + 1] == p[..c] + [p[c]];
      res := res + [image[pos]];
      c := c + 1;
    }
    assert p[..bpp] == p;
  }

  /** The `bppi` loop of `grayscale` and the division after it: the bytes
      of pixel `(x, y)` summed, then divided by `bpp`. */
  method PixelAverage(image: seq<byte>, width: nat, height: nat, bpp: nat, x: nat, y: nat, ghost n: nat)
    returns (avg: byte)
    requires 0 < bpp && x < width && y < height
    requires Size(width, height, bpp) <= |image| && Size(width, height, bpp) <= U32
    requires n == Start(width, y) + x
    ensures Start(bpp, n + 1) <= |image|
    ensures avg == Mean(PixelOf(image, bpp, n))
  {
    PixelInside(width, height, bpp, x, y);
    ghost var p := PixelOf(image, bpp, n);
    var avgPixel: nat := 0;
    var c: nat := 0;
    while c < bpp
      invariant c <= bpp
      invariant avgPixel == Adler.Sum(p[..c])
    {
      var pos := Position(width, height, bpp, x, y, c);
      assert p[..c + 1][..c] == p[..c];
      avgPixel := avgPixel + image[pos];
      c := c + 1;
    }
    assert p[..bpp] == p;
    MeanIsDivision(p);
    avgPixel := avgPixel / bpp;
    avg := avgPixel as byte;
  }

  /** The `bppi` loop of `bpp_resize`: the first `desiredBpp` values of
      pixel `(x, y)`, `extraChannel` past its own. */
  method RecolorPixel(image: seq<byte>, width: nat, height: nat, bpp: nat, x: nat, y: nat,
                      ghost n: nat, desiredBpp: nat, extraChannel: byte, out: seq<byte>)
    returns (res: seq<byte>)
    requires x < width && y < height && Size(width, height, bpp) <= |image| && Size(width, height, bpp) <= U32
    requires n == Start(width, y) + x
    ensures Start(bpp, n + 1) <= |image|
    ensures res == out + Pad(PixelOf(image, bpp, n), desiredBpp, extraChannel)
  {
    PixelInside(width, height, bpp, x, y);
    ghost var wide := Pad(PixelOf(image, bpp, n), desiredBpp, extraChannel);
    res := out;
    var c: nat := 0;
    while c < desiredBpp
      invariant c <= desiredBpp
      invariant res == out + wide[..c]
    {
      assert wide[..c + 1] == wide[..c] + [wide[c]];
      if c < bpp {
        var pos := Position(width, height, bpp, x, y, c);
        res := res + [image[pos]];
      } else {
        res := res + [extraChannel];
      }
      c := c + 1;
    }
    assert wide[..desiredBpp] == wide;
  }

  // ---------------------------------------------------------------------
  // The `x` loops, over the pixels of one row
  // ---------------------------------------------------------------------

  /** The `x` loop of `flip`, `ppm_save` and `png_save`: row `y`'s bytes
      appended. */
  method CopyRow(image: seq<byte>, width: nat, height: nat, bpp: nat, y: nat, out: seq<byte>)
    returns (res: seq<byte>)
    requires y < height && Size(width, height, bpp) <= |image| && Size(width, height, bpp) <= U32
    ensures Start(bpp, Start(width, y)) <= Start(bpp, Start(width, y + 1)) <= |image|
    ensures res == out + image[Start(bpp, Start(width, y))..Start(bpp, Start(width, y + 1))]
  {
    ghost var first := Start(bpp, Start(width, y));
    StartMonotone(width, y + 1, height);
    StartMonotone(bpp, Start(width, y + 1), Start(width, height));
    StartMonotone(bpp, Start(width, y), Start(width, y + 1));
    res := out;
    var x: nat := 0;
    ghost var n := Start(width, y);
    while x < width
      invariant x <= width && n == Start(width, y) + x
      invariant first <= Start(bpp, n) <= |image|
      invariant res == out + image[first..Start(bpp, n)]
    {
      res := CopyPixel(image, width, height, bpp, x, y, n, res);
      SliceJoin(image, first, Start(bpp, n), Start(bpp, n + 1));
      x, n := x + 1, n + 1;
    }
  }

  /** The `x` loop of `grayscale` over row `y`: each pixel's average
      appended. */
  method GrayRow(image: seq<byte>, width: nat, height: nat, bpp: nat, y: nat, out: seq<byte>)
    returns (res: seq<byte>)
    requires 0 < bpp && y < height && Size(width, height, bpp) <= |image| && Size(width, height, bpp) <= U32
    requires Start(bpp, Start(width, y)) <= |image|
    requires out == Grays(image, bpp, Start(width, y))
    ensures Start(bpp, Start(width, y + 1)) <= |image|
    ensures res == Grays(image, bpp, Start(width, y + 1))
  {
    StartMonotone(width, y + 1, height);
    StartMonotone(bpp, Start(width, y + 1), Start(width, height));
    res := out;
    var x: nat := 0;
    ghost var n := Start(width, y);
    while x < width
      invariant x <= width && n == Start(width, y) + x
      invariant Start(bpp, n) <= |image|
      invariant res == Grays(image, bpp, n)
    {
      var avgPixel := PixelAverage(image, width, height, bpp, x, y, n);
      GraysNext(image, bpp, n);
      res := res + [avgPixel];
      x, n := x + 1, n + 1;
    }
  }

  /** The `x` loop of `bpp_resize` over row `y`: each pixel cut or padded
      to `desiredBpp` bytes and appended. */
  method RecolorRow(image: seq<byte>, width: nat, height: nat, bpp: nat, y: nat,
                    desiredBpp: nat, extraChannel: byte, out: seq<byte>)
    returns (res: seq<byte>)
    requires y < height && Size(width, height, bpp) <= |image| && Size(width, height, bpp) <= U32
    requires Start(bpp, Start(width, y)) <= |image|
    requires out == Recolored(image, bpp, Start(width, y), desiredBpp, extraChannel)
    ensures Start(bpp, Start(width, y + 1)) <= |image|
    ensures res == Recolored(image, bpp, Start(width, y + 1), desiredBpp, extraChannel)
  {
    StartMonotone(width, y + 1, height);
    StartMonotone(bpp, Start(width, y + 1), Start(width, height));
    res := out;
    var x: nat := 0;
    ghost var n := Start(width, y);
    while x < width
      invariant x <= width && n == Start(width, y) + x
      invariant Start(bpp, n) <= |image|
      invariant res == Recolored(image, bpp, n, desiredBpp, extraChannel)
    {
      res := RecolorPixel(image, width, height, bpp, x, y, n, desiredBpp, extraChannel, res);
      RecoloredNext(image, bpp, n, desiredBpp, extraChannel);
      x, n := x + 1, n + 1;
    }
  }

  // ---------------------------------------------------------------------
  // The `y` loops, over the rows of the image
  // ---------------------------------------------------------------------

  /** The loops of `flip`: the rows from the last to the first. */
  method FlipRows(image: seq<byte>, width: nat, height: nat, bpp: nat) returns (flippedData: seq<byte>)
    requires Size(width, height, bpp) <= |image| && Size(width, height, bpp) <= U32
    ensures Start(Start(bpp, width), height) <= |image|
    ensures flippedData == Flipped(image, Start(bpp, width), height)
  {
    ghost var r := Start(bpp, width);
    StartNest(bpp, width, height);
    ghost var rows := Lines(image, r, height);
    LinesAre(image, r, height);
    ghost var rev := Reversed(rows);
    flippedData := [];
    var y: nat := height;
    while y > 0
      invariant y <= height == |rev|
      invariant flippedData == Flatten(rev[..height - y])
    {
      flippedData := CopyRow(image, width, height, bpp, y - 1, flippedData);
      RowIsLine(width, bpp, y - 1);
      ReversedAt(rows, height - y);
      FlattenNext(rev, height - y);
      y := y - 1;
    }
    assert rev[..height] == rev;
  }

  /** The loops of `ppm_save`: every row in order, so the image's first
      `Size` bytes. */
  method CopyRows(image: seq<byte>, width: nat, height: nat, bpp: nat) returns (imageData: seq<byte>)
    requires Size(width, height, bpp) <= |image| && Size(width, height, bpp) <= U32
    ensures imageData == image[..Size(width, height, bpp)]
  {
    imageData := [];
    var y: nat := 0;
    while y < height
      invariant y <= height
      invariant Start(bpp, Start(width, y)) <= |image|
      invariant imageData == image[..Start(bpp, Start(width, y))]
    {
      imageData := CopyRow(image, width, height, bpp, y, imageData);
      SliceJoin(image, 0, Start(bpp, Start(width, y)), Start(bpp, Start(width, y + 1)));
      y := y + 1;
    }
  }

  /** The loops of `grayscale`: the average of every pixel. */
  method GrayRows(image: seq<byte>, width: nat, height: nat, bpp: nat) returns (grayscaleImage: seq<byte>)
    requires 0 < bpp && Size(width, height, bpp) <= |image| && Size(width, height, bpp) <= U32
    ensures grayscaleImage == Grays(image, bpp, Start(width, height))
  {
    grayscaleImage := [];
    var y: nat := 0;
    while y < height
      invariant y <= height
      invariant Start(bpp, Start(width, y)) <= |image|
      invariant grayscaleImage == Grays(image, bpp, Start(width, y))
    {
      grayscaleImage := GrayRow(image, width, height, bpp, y, grayscaleImage);
      y := y + 1;
    }
  }

  /** The loops of `bpp_resize`: every pixel cut or padded to `desiredBpp`
      bytes. */
  method RecolorRows(image: seq<byte>, width: nat, height: nat, bpp: nat, desiredBpp: nat, extraChannel: byte)
    returns (recoloredImage: seq<byte>)
    requires Size(width, height, bpp) <= |image| && Size(width, height, bpp) <= U32
    ensures recoloredImage == Recolored(image, bpp, Start(width, height), desiredBpp, extraChannel)
  {
    recoloredImage := [];
    var y: nat := 0;
    while y < height
      invariant y <= height
      invariant Start(bpp, Start(width, y)) <= |image|
      invariant recoloredImage == Recolored(image, bpp, Start(width, y), desiredBpp, extraChannel)
    {
      recoloredImage := RecolorRow(image, width, height, bpp, y, desiredBpp, extraChannel, recoloredImage);
      y := y + 1;
    }
  }
}
