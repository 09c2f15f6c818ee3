/** `YandereImage`: the image object of yanconv.cpp, with the methods that
    change its pixels in place (`flip`, `grayscale`, `bpp_resize`) and those
    that turn it into file bytes (`pgm_save`, `ppm_save`, `png_save`). A
    saver returns the bytes it would write. The pixel loops are those of
    module PixelLoops; `png_read` is the function `Png.ReadPng` over the
    whole file, with its row loop in `Unfilter.UnfilterRows`. */
module Image {
  import opened Bytes
  import opened Raster
  import opened Pixels
  import opened PixelLoops
  import Png
  import Unfilter
  import Encoder
  import Crc

  // ---------------------------------------------------------------------
  // The loops of png_save
  // ---------------------------------------------------------------------

  /** The `y` loop of the IDAT branch of `png_save`: every row preceded by
      its filter type 0, that is the scanlines `Png.Scanlines` describes. */
  method ScanlineRows(image: seq<byte>, width: nat, height: nat, bpp: nat) returns (imageBytes: seq<byte>)
    requires Size(width, height, bpp) <= |image| && Size(width, height, bpp) <= U32
    ensures Png.Holds(Png.Picture(width, height, bpp, image))
    ensures imageBytes == Png.Scanlines(Png.Picture(width, height, bpp, image))
  {
    SizeIsProduct(width, height, bpp);
    StartIsProduct(bpp, width);
    ghost var r := Start(bpp, width);
    StartNest(bpp, width, height);
    ghost var lines := Lines(image, r, height);
    LinesAre(image, r, height);
    ghost var raw := Unfilter.RawScanlines(lines, Png.Zeros(height));
    imageBytes := [];
    var y: nat := 0;
    while y < height
      invariant y <= height == |raw|
      invariant imageBytes == Flatten(raw[..y])
    {
      var lineFilter: byte := 0;
      imageBytes := CopyRow(image, width, height, bpp, y, imageBytes + [lineFilter]);
      RowIsLine(width, bpp, y);
      assert raw[y] == [0] + Line(image, r, y);
      FlattenNext(raw, y);
      assert raw[y][..|raw[y]|] == raw[y];
      y := y + 1;
    }
    assert raw[..height] == raw;
  }

  /** One turn of the chunk loop of `png_save` after the data is built:
      the CRC loop over the covered bytes of type and data, then the
      length in front and the CRC behind, both big-endian. */
  method WriteChunk(kind: seq<byte>, data: seq<byte>) returns (dataChunk: seq<byte>)
    requires |kind| == 4
    ensures dataChunk == Png.Chunk(kind, data)
  {
    var chunkLength := |data| % U32;
    var crcLength := Png.CrcSpan(|data|);
    var covered := (kind + data)[..crcLength];
    var chunkCrc := Crc.ChunkCrc(covered);
    Crc.Crc32Bound(covered);
    dataChunk := Be32(chunkLength) + kind + data + Be32(chunkCrc);
  }

  // ---------------------------------------------------------------------
  // The image object
  // ---------------------------------------------------------------------

  class YandereImage {
    var width: nat
    var height: nat
    var bpp: byte
    var image: seq<byte>

    /** The fields as a value. */
    function Pic(): Png.Picture
      reads this
    {
      Png.Picture(width, height, bpp, image)
    }

    /** The default constructor: an empty image. The fields it leaves
        uninitialised are zero here. */
    constructor ()
      ensures width == 0 && height == 0 && bpp == 0 && image == []
    {
      width, height, bpp, image := 0, 0, 0, [];
    }

    /** `pixel_color_pos`. */
    function PixelColorPos(x: nat, y: nat, color: nat): (p: nat)
      reads this
      requires x < width && y < height && color < bpp && Size(width, height, bpp) <= U32
      ensures p == Start(bpp, Start(width, y) + x) + color && p < Size(width, height, bpp)
    {
      ColorPosAt(width, height, bpp, x, y, color);
      ColorPos(width, bpp, x, y, color)
    }

    /** `pixel_color`: the value at `pixel_color_pos`, which is byte
        `color` of the pixel. */
    function PixelColor(x: nat, y: nat, color: nat): (v: byte)
      reads this
      requires x < width && y < height && color < bpp && Size(width, height, bpp) <= U32
      requires Size(width, height, bpp) <= |image|
      ensures Start(bpp, Start(width, y) + x + 1) <= |image|
      ensures v == PixelOf(image, bpp, Start(width, y) + x)[color]
    {
      PixelInside(width, height, bpp, x, y);
      image[PixelColorPos(x, y, color)]
    }

    /** `flip`: the rows in the opposite order, nothing else changed. */
    method Flip()
      modifies this
      requires Size(width, height, bpp) <= |image| && Size(width, height, bpp) <= U32
      ensures Start(Start(bpp, width), height) <= |old(image)|
      ensures image == Flipped(old(image), Start(bpp, width), height)
      ensures width == old(width) && height == old(height) && bpp == old(bpp)
    {
      image := FlipRows(image, width, height, bpp);
    }

    /** `grayscale`: nothing for a one-byte image; otherwise every pixel
        becomes the average of its bytes and `bpp` becomes 1. With `bpp` 0
        there must be no pixel to divide by it. */
    method Grayscale()
      modifies this
      requires bpp != 1 ==> Size(width, height, bpp) <= |image| && Size(width, height, bpp) <= U32
      requires bpp == 0 ==> Start(width, height) == 0
      ensures width == old(width) && height == old(height)
      ensures bpp == 1
      ensures old(bpp) == 1 ==> image == old(image)
      ensures old(bpp) != 1 ==> image == Grays(old(image), old(bpp), Start(width, height))
    {
      if bpp == 1 {
        return;
      }
      var grayscaleImage: seq<byte> := [];
      if 0 < bpp {
        grayscaleImage := GrayRows(image, width, height, bpp);
      }
      bpp := 1;
      image := grayscaleImage;
    }

    /** `bpp_resize`: nothing when the size is already `desiredBpp`;
        otherwise every pixel is cut or padded with `extraChannel` (255
        unless given) to `desiredBpp` bytes. */
    method BppResize(desiredBpp: byte, extraChannel: byte := 255)
      modifies this
      requires bpp != desiredBpp ==> Size(width, height, bpp) <= |image| && Size(width, height, bpp) <= U32
      ensures width == old(width) && height == old(height)
      ensures bpp == desiredBpp
      ensures old(bpp) == desiredBpp ==> image == old(image)
      ensures old(bpp) != desiredBpp ==>
        image == Recolored(old(image), old(bpp), Start(width, height), desiredBpp, extraChannel)
    {
      if bpp == desiredBpp {
        return;
      }
      var recoloredImage := RecolorRows(image, width, height, bpp, desiredBpp, extraChannel);
      bpp := desiredBpp;
      image := recoloredImage;
    }

    /** `png_save`: the signature, then the IHDR, IDAT and IEND chunks,
        the IDAT data being the scanlines deflated by `yan_inflate`; a
        `bpp` outside 1 to 4 stops after the signature. */
    method PngSave() returns (file: seq<byte>)
      requires Png.Saveable(Pic())
      requires 1 <= bpp <= 4 ==> Size(width, height, bpp) <= U32
      ensures file == Png.PngFile(Pic(), false)
    {
      file := Png.Signature;
      var colorType: byte;
      if bpp == 1 {
        colorType := 0;
      } else if bpp == 2 {
        colorType := 4;
      } else if bpp == 3 {
        colorType := 2;
      } else if bpp == 4 {
        colorType := 6;
      } else {
        return;
      }
      SizeIsProduct(width, height, bpp);
      var ihdr := WriteChunk(Png.Ihdr, Be32(width) + Be32(height) + [8, colorType, 0, 0, 0]);
      var imageBytes := ScanlineRows(image, width, height, bpp);
      var inflatedBytes := Encoder.Encode(imageBytes);
      var idat := WriteChunk(Png.Idat, inflatedBytes);
      var iend := WriteChunk(Png.Iend, []);
      file := file + ihdr + idat + iend;
    }

    /** `pgm_save`: no file for an image that is not one byte per pixel;
        otherwise the header and every byte of `image`. */
    method PgmSave() returns (file: Option<seq<byte>>)
      ensures file == PgmFile(width, height, bpp, image)
    {
      if bpp != 1 {
        return None;
      }
      var imageHeader := PnmHeader(0x35, width, height);
      var imageData: seq<byte> := [];
      var i := 0;
      while i < |image|
        invariant i <= |image|
        invariant imageData == image[..i]
      {
        assert image[..i + 1] == image[..i] + [image[i]];
        imageData := imageData + [image[i]];
        i := i + 1;
      }
      assert image[..|image|] == image;
      return Some(imageHeader + imageData);
    }

    /** `ppm_save`: no file for an image that is not three bytes per pixel;
        otherwise the header and the colour values of every pixel, row
        after row. */
    method PpmSave() returns (file: Option<seq<byte>>)
      requires bpp == 3 ==> Size(width, height, bpp) <= |image| && Size(width, height, bpp) <= U32
      ensures file == PpmFile(width, height, bpp, image)
    {
      if bpp != 3 {
        return None;
      }
      var imageHeader := PnmHeader(0x36, width, height);
      var imageData := CopyRows(image, width, height, bpp);
      return Some(imageHeader + imageData);
    }
  }
}
