/** Scanline reconstruction in `png_read` (sections 9.2 to 9.4 of the PNG
    specification, W3C second edition): after the IDAT stream has been
    inflated, each row starts with a filter-type byte and each value is
    reconstructed from the filtered byte and its already reconstructed
    neighbours, which are written back into the decoded buffer. Indexed
    (palette) rows are looked up instead. Reading outside the buffer, or
    a filter type above 4 (which pushes an uninitialised value), is
    undefined behaviour in the source and `None` here. */
module Unfilter {
  import opened Bytes
  import opened Raster

  /** `sub_positive(l, r)`: `l + r - 256` narrowed to `uint8_t`, which is
      addition modulo 256. */
  function SubPositive(l: byte, r: byte): (v: byte)
    ensures v == (l + r) % 256
  {
    (l + r - 256) % 256
  }

  function Abs(x: int): nat {
    if x < 0 then -x else x
  }

  /** The Paeth predictor as `png_read` computes it: the estimate
      `left + up - upLeft`, then the first of left, up and up-left whose
      distance from the estimate is smallest. */
  function Paeth(a: byte, b: byte, c: byte): byte {
    var p := a + b - c;
    var pa, pb, pc := Abs(p - a), Abs(p - b), Abs(p - c);
    if pa <= pb && pa <= pc then a else if pb <= pc then b else c
  }

  /** The Paeth choice is a nearest of the three neighbours to the estimate,
      and among the nearest the first in the order left, up, up-left. */
  lemma PaethNearest(a: byte, b: byte, c: byte)
    ensures var p, r := a + b - c, Paeth(a, b, c);
      (r == a || r == b || r == c) &&
      Abs(p - r) <= Abs(p - a) && Abs(p - r) <= Abs(p - b) && Abs(p - r) <= Abs(p - c) &&
      (Abs(p - a) == Abs(p - r) ==> r == a) &&
      (Abs(p - b) == Abs(p - r) && Abs(p - a) > Abs(p - r) ==> r == b)
  {
  }

  /** The predictor of each filter type (section 9.2): none, left, up,
      the floor of the mean of left and up, and Paeth. */
  function Predictor(ft: nat, left: byte, up: byte, upLeft: byte): byte
    requires ft <= 4
  {
    match ft
    case 0 => 0
    case 1 => left
    case 2 => up
    case 3 => (left + up) / 2
    case 4 => Paeth(left, up, upLeft)
  }

  /** What `png_read` knows about the image while it reconstructs it, as
      derived from IHDR: the number of rows, the values per row (one palette
      index per pixel, or `vpp` values per pixel), the distance back to the
      value above (`1 + (width * vpp) / valsPerByte`), `bpp`, whether rows
      hold palette indices, and the palette. */
  datatype Geometry = Geometry(height: nat, rowLen: nat, stride: nat, bpp: nat,
                               indexed: bool, palette: seq<byte>)

  /** The byte at `i`, or 0 where there is none. */
  function At(d: seq<byte>, i: int): byte {
    if 0 <= i < |d| then d[i] else 0
  }

  /** The left, up and up-left neighbours of the `x`-th value of row `y`
      at `pos`, each 0 where the row or column has none (section 9.2). */
  function Near(d: seq<byte>, g: Geometry, y: nat, pos: nat, x: nat): (byte, byte, byte)
  {
    (if x < g.bpp then 0 else At(d, pos - g.bpp),
     if y == 0 then 0 else At(d, pos - g.stride),
     if y == 0 || x < g.bpp then 0 else At(d, pos - g.stride - g.bpp))
  }

  /** The neighbours read for filter types 3 and 4, or `None` where an
      index the source computes in unsigned arithmetic would wrap or leave
      the buffer (the up-left one only for Paeth). */
  function Neighbours(d: seq<byte>, g: Geometry, y: nat, pos: nat, x: nat, withUpLeft: bool)
    : Option<(byte, byte, byte)>
  {
    if y > 0 && (pos < g.stride || pos - g.stride >= |d|) then None
    else if x >= g.bpp && (pos < g.bpp || pos - g.bpp >= |d|) then None
    else if withUpLeft && y > 0 && x >= g.bpp && pos < g.stride + g.bpp then None
    else Some(Near(d, g, y, pos, x))
  }

  /** The value the switch in `png_read` derives at `pos`, the `x`-th value
      of row `y` with filter type `ft`, from the buffer `d` as it stands. */
  function Recon(d: seq<byte>, g: Geometry, y: nat, ft: byte, pos: nat, x: nat): (r: Option<byte>)
    ensures r.Some? ==> pos < |d|
  {
    if pos >= |d| then None
    else if ft == 0 then Some(d[pos])
    else if ft == 1 then
      if x < g.bpp then Some(d[pos])
      else if pos < g.bpp then None
      else Some(SubPositive(d[pos], d[pos - g.bpp]))
    else if ft == 2 then
      if y == 0 then Some(d[pos])
      else if pos < g.stride then None
      else Some(SubPositive(d[pos], d[pos - g.stride]))
    else if ft == 3 || ft == 4 then
      match Neighbours(d, g, y, pos, x, ft == 4)
      case None => None
      case Some(n) =>
        var pred := if ft == 3 then (n.0 + n.1) / 2 else Paeth(n.0, n.1, n.2);
        Some(SubPositive(d[pos], pred))
    else None
  }

  /** Every reconstructed value is the filtered byte plus the predictor of
      its filter type, modulo 256, where a missing neighbour counts as 0. */
  lemma ReconIsPredicted(d: seq<byte>, g: Geometry, y: nat, ft: byte, pos: nat, x: nat)
    requires ft <= 4
    requires Recon(d, g, y, ft, pos, x).Some?
    ensures var n := Near(d, g, y, pos, x);
      Recon(d, g, y, ft, pos, x) == Some((d[pos] + Predictor(ft, n.0, n.1, n.2)) % 256)
  {
    var n := Near(d, g, y, pos, x);
    var pred := Predictor(ft, n.0, n.1, n.2);
    if ft == 1 {
      assert x >= g.bpp ==> d[pos - g.bpp] == n.0;
    } else if ft == 2 {
      assert y > 0 ==> d[pos - g.stride] == n.1;
    }
    assert Recon(d, g, y, ft, pos, x) == Some(SubPositive(d[pos], pred));
  }

  /** A filter type above 4 leaves the value undefined. */
  lemma UnknownFilterUndefined(d: seq<byte>, g: Geometry, y: nat, ft: byte, pos: nat, x: nat)
    requires ft > 4
    ensures Recon(d, g, y, ft, pos, x) == None
  {
  }

  // ---------------------------------------------------------------------
  // The row loop, as tail-recursive functions over the loop state
  // ---------------------------------------------------------------------

  /** The rows from `y` on, starting at `pos` in the buffer `d`, with the
      values pushed so far in `out`: the pixel values `png_read` keeps, or
      `None` when it would read outside the buffer. */
  function Rows(d: seq<byte>, g: Geometry, y: nat, pos: nat, out: seq<byte>): Option<seq<byte>>
    decreases g.height - y, 2, 0
  {
    if y >= g.height then Some(out)
    else if pos >= |d| then None
    else if g.indexed then PaletteRow(d, g, y, pos + 1, 0, out)
    else FilterRow(d, g, y, d[pos], pos + 1, 0, out)
  }

  /** The rest of an indexed row: each index selects three palette bytes. */
  function PaletteRow(d: seq<byte>, g: Geometry, y: nat, pos: nat, x: nat, out: seq<byte>)
    : Option<seq<byte>>
    requires y < g.height
    decreases g.height - y, 1, g.rowLen - x
  {
    if x >= g.rowLen then Rows(d, g, y + 1, pos, out)
    else if pos >= |d| || 3 * (d[pos] as int) + 2 >= |g.palette| then None
    else
      var p := 3 * (d[pos] as int);
      PaletteRow(d, g, y, pos + 1, x + 1, out + [g.palette[p], g.palette[p + 1], g.palette[p + 2]])
  }

  /** The rest of a filtered row: each value is reconstructed, written back
      into the buffer and pushed. */
  function FilterRow(d: seq<byte>, g: Geometry, y: nat, ft: byte, pos: nat, x: nat, out: seq<byte>)
    : Option<seq<byte>>
    requires y < g.height
    decreases g.height - y, 1, g.rowLen - x
  {
    if x >= g.rowLen then Rows(d, g, y + 1, pos, out)
    else
      match Recon(d, g, y, ft, pos, x)
      case None => None
      case Some(v) => FilterRow(d[pos := v], g, y, ft, pos + 1, x + 1, out + [v])
  }

  /** The pixel values of the whole image. */
  function Unfiltered(d: seq<byte>, g: Geometry): Option<seq<byte>>
  {
    Rows(d, g, 0, 0, [])
  }

  // ---------------------------------------------------------------------
  // The source's loops, in place on the decoded buffer
  // ---------------------------------------------------------------------

  /** The row loop of `png_read`: reconstructs `imageData` in place and
      returns the pushed values, or `ok == false` where the source's
      behaviour is undefined. */
  method UnfilterRows(imageData: array<byte>, g: Geometry) returns (tempData: seq<byte>, ok: bool)
    modifies imageData
    ensures ok <==> Unfiltered(old(imageData[..]), g).Some?
    ensures ok ==> Unfiltered(old(imageData[..]), g) == Some(tempData)
  {
    ghost var result := Rows(imageData[..], g, 0, 0, []);
    tempData := [];
    var streamPos: nat := 0;
    var y: nat := 0;
    while y < g.height
      invariant Rows(imageData[..], g, y, streamPos, tempData) == result
      decreases g.height - y
    {
      if streamPos >= imageData.Length {
        return [], false;
      }
      var filterType := imageData[streamPos];
      streamPos := streamPos + 1;
      if g.indexed {
        tempData, streamPos, ok := PaletteLoop(imageData, g, y, streamPos, tempData, result);
      } else {
        tempData, streamPos, ok := FilterLoop(imageData, g, y, filterType, streamPos, tempData, result);
      }
      if !ok {
        return [], false;
      }
      y := y + 1;
    }
    return tempData, true;
  }

  /** The loop over one indexed row. */
  method PaletteLoop(imageData: array<byte>, g: Geometry, y: nat, pos0: nat, out0: seq<byte>,
                     ghost result: Option<seq<byte>>)
    returns (out: seq<byte>, pos: nat, ok: bool)
    requires y < g.height
    requires PaletteRow(imageData[..], g, y, pos0, 0, out0) == result
    ensures ok ==> Rows(imageData[..], g, y + 1, pos, out) == result
    ensures !ok ==> result == None
  {
    out, pos := out0, pos0;
    var x := 0;
    while x < g.rowLen
      invariant PaletteRow(imageData[..], g, y, pos, x, out) == result
      decreases g.rowLen - x
    {
      if pos >= imageData.Length || 3 * (imageData[pos] as int) + 2 >= |g.palette| {
        return out, pos, false;
      }
      var palettePixel := 3 * (imageData[pos] as int);
      out := out + [g.palette[palettePixel], g.palette[palettePixel + 1], g.palette[palettePixel + 2]];
      x, pos := x + 1, pos + 1;
    }
    ok := true;
  }

  /** The loop over one filtered row: the switch on the filter type, with
      the reconstructed value written back for types 1 to 4. */
  method FilterLoop(imageData: array<byte>, g: Geometry, y: nat, ft: byte, pos0: nat, out0: seq<byte>,
                    ghost result: Option<seq<byte>>)
    returns (out: seq<byte>, pos: nat, ok: bool)
    requires y < g.height
    requires FilterRow(imageData[..], g, y, ft, pos0, 0, out0) == result
    modifies imageData
    ensures ok ==> Rows(imageData[..], g, y + 1, pos, out) == result
    ensures !ok ==> result == None
  {
    out, pos := out0, pos0;
    var x := 0;
    while x < g.rowLen
      invariant FilterRow(imageData[..], g, y, ft, pos, x, out) == result
      decreases g.rowLen - x
    {
      var pixelData, defined := ReconAt(imageData, g, y, ft, pos, x);
      if !defined {
        return out, pos, false;
      }
      ghost var before := imageData[..];
      if ft != 0 {
        imageData[pos] := pixelData;
      }
      assert imageData[..] == before[pos := pixelData];
      out := out + [pixelData];
      x, pos := x + 1, pos + 1;
    }
    ok := true;
  }

  /** Case 4 of the switch: the estimate `left + up - upLeft` in `int`,
      then the neighbour nearest to it, preferring left, then up. */
  method PaethChoice(leftPixel: byte, upPixel: byte, upLeftPixel: byte) returns (rightSidePixel: byte)
    ensures rightSidePixel == Paeth(leftPixel, upPixel, upLeftPixel)
  {
    var initialEst := leftPixel + upPixel - upLeftPixel;
    var distanceLeft := Abs(initialEst - leftPixel);
    var distanceUp := Abs(initialEst - upPixel);
    var distanceUpLeft := Abs(initialEst - upLeftPixel);
    if distanceLeft <= distanceUp && distanceLeft <= distanceUpLeft {
      rightSidePixel := leftPixel;
    } else if distanceUp <= distanceUpLeft {
      rightSidePixel := upPixel;
    } else {
      rightSidePixel := upLeftPixel;
    }
  }

  /** The switch of `png_read` for one value: the byte as it stands for
      type 0 (and for the first column or row where type 1 or 2 has no
      neighbour), otherwise the byte plus the predictor read from the
      buffer at `streamPos - bpp`, at `aboveIndex` and at
      `aboveIndex - bpp`. */
  method ReconAt(imageData: array<byte>, g: Geometry, y: nat, ft: byte, pos: nat, x: nat)
    returns (pixelData: byte, defined: bool)
    ensures defined <==> Recon(imageData[..], g, y, ft, pos, x).Some?
    ensures defined ==> Recon(imageData[..], g, y, ft, pos, x) == Some(pixelData)
    ensures defined ==> pos < imageData.Length
    ensures defined && ft == 0 ==> pixelData == imageData[pos]
  {
    if pos >= imageData.Length || ft > 4 {
      return 0, false;
    }
    if ft == 0 || (ft == 1 && x < g.bpp) || (ft == 2 && y == 0) {
      return imageData[pos], true;
    }
    if ft == 1 {
      if pos < g.bpp {
        return 0, false;
      }
      return SubPositive(imageData[pos], imageData[pos - g.bpp]), true;
    }
    if ft == 2 {
      if pos < g.stride {
        return 0, false;
      }
      return SubPositive(imageData[pos], imageData[pos - g.stride]), true;
    }
    if y > 0 && (pos < g.stride || pos - g.stride >= imageData.Length) {
      return 0, false;
    }
    if x >= g.bpp && (pos < g.bpp || pos - g.bpp >= imageData.Length) {
      return 0, false;
    }
    if ft == 4 && y > 0 && x >= g.bpp && pos < g.stride + g.bpp {
      return 0, false;
    }
    var upPixel: byte := if y == 0 then 0 else imageData[pos - g.stride];
    var leftPixel: byte := if x < g.bpp then 0 else imageData[pos - g.bpp];
    var rightSidePixel: byte;
    if ft == 3 {
      rightSidePixel := (leftPixel + upPixel) / 2;
    } else {
      var upLeftPixel: byte := if y == 0 || x < g.bpp then 0 else imageData[pos - g.stride - g.bpp];
      rightSidePixel := PaethChoice(leftPixel, upPixel, upLeftPixel);
    }
    return SubPositive(imageData[pos], rightSidePixel), true;
  }

  // ---------------------------------------------------------------------
  // Filtering, the encoder's side of section 9.2, and its inverse
  // ---------------------------------------------------------------------

  /** The left, up and up-left neighbours of column `x` in row `y` of an
      image, each 0 where there is none. */
  function RefNear(img: seq<seq<byte>>, y: nat, x: nat, bpp: nat): (byte, byte, byte)
    requires y < |img|
  {
    (if x < bpp then 0 else At(img[y], x - bpp),
     if y == 0 then 0 else At(img[y - 1], x),
     if y == 0 || x < bpp then 0 else At(img[y - 1], x - bpp))
  }

  /** The byte at column `x` of row `y` filtered with type `ft`: the
      original minus its predictor, modulo 256. */
  function FilterByte(img: seq<seq<byte>>, y: nat, x: nat, ft: nat, bpp: nat): byte
    requires y < |img| && x < |img[y]| && ft <= 4
  {
    var n := RefNear(img, y, x, bpp);
    (img[y][x] - Predictor(ft, n.0, n.1, n.2)) % 256
  }

  /** Row `y` filtered with type `ft`. */
  function FilteredLine(img: seq<seq<byte>>, y: nat, ft: nat, bpp: nat): (line: seq<byte>)
    requires y < |img| && ft <= 4
    ensures |line| == |img[y]|
  {
    seq(|img[y]|, x requires 0 <= x < |img[y]| => FilterByte(img, y, x, ft, bpp))
  }

  /** The filter types are all defined ones. */
  predicate KnownTypes(fts: seq<byte>) {
    forall y :: 0 <= y < |fts| ==> fts[y] <= 4
  }

  /** The unfiltered scanlines: each row's filter type followed by the row. */
  function RawScanlines(img: seq<seq<byte>>, fts: seq<byte>): (lines: seq<seq<byte>>)
    requires |fts| == |img|
    ensures |lines| == |img|
  {
    seq(|img|, i requires 0 <= i < |img| => [fts[i]] + img[i])
  }

  /** The filtered scanlines: each row's filter type followed by the row
      filtered with it. */
  function FilteredScanlines(img: seq<seq<byte>>, fts: seq<byte>, bpp: nat): (lines: seq<seq<byte>>)
    requires |fts| == |img| && KnownTypes(fts)
    ensures |lines| == |img|
  {
    seq(|img|, i requires 0 <= i < |img| => [fts[i]] + FilteredLine(img, i, fts[i], bpp))
  }

  /** The byte stream an encoder produces from the image and the filter
      type chosen for each row. */
  function FilterImage(img: seq<seq<byte>>, fts: seq<byte>, bpp: nat): seq<byte>
    requires |fts| == |img| && KnownTypes(fts)
  {
    Flatten(FilteredScanlines(img, fts, bpp))
  }

  /** The image and the geometry agree: 8-bit values (one per byte, so the
      value above is one scanline back), rows of `rowLen` bytes, no
      palette, a positive `bpp`. */
  predicate Shaped(img: seq<seq<byte>>, fts: seq<byte>, g: Geometry) {
    |fts| == |img| == g.height && KnownTypes(fts) &&
    !g.indexed && g.stride == g.rowLen + 1 && g.bpp >= 1 &&
    forall y :: 0 <= y < |img| ==> |img[y]| == g.rowLen
  }

  /** `o` is the raw stream of the image: row `i` starts at
      `Start(rowLen + 1, i)` with its filter type, followed by its bytes. */
  predicate RawStream(img: seq<seq<byte>>, fts: seq<byte>, g: Geometry, o: seq<byte>)
    requires Shaped(img, fts, g)
  {
    |o| == Start(g.rowLen + 1, |img|) &&
    (forall i :: 0 <= i < |img| && Start(g.rowLen + 1, i) < |o| ==> o[Start(g.rowLen + 1, i)] == fts[i]) &&
    forall i, j :: 0 <= i < |img| && 0 <= j < g.rowLen && Start(g.rowLen + 1, i) + 1 + j < |o| ==>
      o[Start(g.rowLen + 1, i) + 1 + j] == img[i][j]
  }

  /** `f` is the filtered stream of the image: as the raw one, with each
      byte filtered with its row's type. */
  predicate FilteredStream(img: seq<seq<byte>>, fts: seq<byte>, g: Geometry, f: seq<byte>)
    requires Shaped(img, fts, g)
  {
    |f| == Start(g.rowLen + 1, |img|) &&
    (forall i :: 0 <= i < |img| && Start(g.rowLen + 1, i) < |f| ==> f[Start(g.rowLen + 1, i)] == fts[i]) &&
    forall i, j :: 0 <= i < |img| && 0 <= j < g.rowLen && Start(g.rowLen + 1, i) + 1 + j < |f| ==>
      f[Start(g.rowLen + 1, i) + 1 + j] == FilterByte(img, i, j, fts[i], g.bpp)
  }

  /** The bytes of a raw scanline. */
  lemma RawLine(img: seq<seq<byte>>, fts: seq<byte>, i: nat, j: nat)
    requires |fts| == |img| && i < |img| && j <= |img[i]|
    ensures RawScanlines(img, fts)[i][j] == if j == 0 then fts[i] else img[i][j - 1]
  {
  }

  /** The bytes of a filtered scanline. */
  lemma FilteredLineAt(img: seq<seq<byte>>, fts: seq<byte>, bpp: nat, i: nat, j: nat)
    requires |fts| == |img| && KnownTypes(fts) && i < |img| && j <= |img[i]|
    ensures FilteredScanlines(img, fts, bpp)[i][j] == if j == 0 then fts[i] else FilterByte(img, i, j - 1, fts[i], bpp)
  {
  }

  /** A stream that lays out the raw scanlines is the raw stream. */
  lemma RawFromLaid(img: seq<seq<byte>>, fts: seq<byte>, g: Geometry, o: seq<byte>)
    requires Shaped(img, fts, g) && Laid(o, RawScanlines(img, fts), g.rowLen + 1)
    ensures RawStream(img, fts, g, o)
  {
    forall i | 0 <= i < |img| && Start(g.rowLen + 1, i) < |o|
      ensures o[Start(g.rowLen + 1, i)] == fts[i]
    {
      LaidAt(o, RawScanlines(img, fts), g.rowLen + 1, i, 0);
      RawLine(img, fts, i, 0);
    }
    forall i, j | 0 <= i < |img| && 0 <= j < g.rowLen && Start(g.rowLen + 1, i) + 1 + j < |o|
      ensures o[Start(g.rowLen + 1, i) + 1 + j] == img[i][j]
    {
      LaidAt(o, RawScanlines(img, fts), g.rowLen + 1, i, 1 + j);
      RawLine(img, fts, i, 1 + j);
    }
  }

  /** A stream that lays out the filtered scanlines is the filtered stream. */
  lemma FilteredFromLaid(img: seq<seq<byte>>, fts: seq<byte>, g: Geometry, f: seq<byte>)
    requires Shaped(img, fts, g) && Laid(f, FilteredScanlines(img, fts, g.bpp), g.rowLen + 1)
    ensures FilteredStream(img, fts, g, f)
  {
    forall i | 0 <= i < |img| && Start(g.rowLen + 1, i) < |f|
      ensures f[Start(g.rowLen + 1, i)] == fts[i]
    {
      LaidAt(f, FilteredScanlines(img, fts, g.bpp), g.rowLen + 1, i, 0);
      FilteredLineAt(img, fts, g.bpp, i, 0);
    }
    forall i, j | 0 <= i < |img| && 0 <= j < g.rowLen && Start(g.rowLen + 1, i) + 1 + j < |f|
      ensures f[Start(g.rowLen + 1, i) + 1 + j] == FilterByte(img, i, j, fts[i], g.bpp)
    {
      LaidAt(f, FilteredScanlines(img, fts, g.bpp), g.rowLen + 1, i, 1 + j);
      FilteredLineAt(img, fts, g.bpp, i, 1 + j);
    }
  }

  /** The buffer holds the raw stream `o` before `p` and the filtered
      stream `f` from `p` on. */
  predicate Agree(d: seq<byte>, o: seq<byte>, f: seq<byte>, p: nat) {
    |d| == |o| == |f| && p <= |d| &&
    (forall k :: 0 <= k < p ==> d[k] == o[k]) &&
    (forall k :: p <= k < |d| ==> d[k] == f[k])
  }

  /** Storing the raw byte at `p` moves the boundary on. */
  lemma AgreeStore(d: seq<byte>, o: seq<byte>, f: seq<byte>, p: nat)
    requires Agree(d, o, f, p) && p < |d|
    ensures Agree(d[p := o[p]], o, f, p + 1)
  {
  }

  /** A byte both streams share moves the boundary on by itself. */
  lemma AgreeSkip(d: seq<byte>, o: seq<byte>, f: seq<byte>, p: nat)
    requires Agree(d, o, f, p) && p < |d| && o[p] == f[p]
    ensures Agree(d, o, f, p + 1)
  {
  }

  /** Adding back the predictor undoes subtracting it, modulo 256. */
  lemma AddBack(v: byte, p: byte)
    ensures (((v - p) % 256) + p) % 256 == v
  {
  }

  /** Where every index `Recon` computes is inside the buffer, it yields
      the byte whose filtered form the buffer holds at `pos`. */
  lemma ReconFrom(d: seq<byte>, g: Geometry, y: nat, ft: byte, pos: nat, x: nat, v: byte, n: (byte, byte, byte))
    requires ft <= 4 && pos < |d|
    requires x >= g.bpp ==> pos >= g.bpp
    requires y > 0 ==> pos >= g.stride
    requires y > 0 && x >= g.bpp ==> pos >= g.stride + g.bpp
    requires Near(d, g, y, pos, x) == n
    requires d[pos] == (v - Predictor(ft, n.0, n.1, n.2)) % 256
    ensures Recon(d, g, y, ft, pos, x) == Some(v)
  {
    assert Recon(d, g, y, ft, pos, x).Some?;
    ReconIsPredicted(d, g, y, ft, pos, x);
    AddBack(v, Predictor(ft, n.0, n.1, n.2));
  }

  /** The state of the reconstruction at stream position `p`: the image
      and geometry agree, `o` and `f` are its raw and filtered streams and
      the buffer `d` holds the first before `p` and the second after. */
  predicate Midway(img: seq<seq<byte>>, fts: seq<byte>, g: Geometry, o: seq<byte>, f: seq<byte>, d: seq<byte>, p: nat)
  {
    Shaped(img, fts, g) && RawStream(img, fts, g, o) && FilteredStream(img, fts, g, f) && Agree(d, o, f, p)
  }

  /** Behind the boundary the buffer holds the original bytes. */
  lemma RawBehind(img: seq<seq<byte>>, fts: seq<byte>, g: Geometry, o: seq<byte>, f: seq<byte>, d: seq<byte>,
                  p: nat, i: nat, j: nat)
    requires Midway(img, fts, g, o, f, d, p) && i < |img| && j < g.rowLen
    requires Start(g.rowLen + 1, i) + 1 + j < p
    ensures d[Start(g.rowLen + 1, i) + 1 + j] == img[i][j]
  {
  }

  /** The left neighbour the reconstruction reads is the original one. */
  lemma LeftRestored(img: seq<seq<byte>>, fts: seq<byte>, g: Geometry, o: seq<byte>, f: seq<byte>, d: seq<byte>,
                     y: nat, x: nat)
    requires Midway(img, fts, g, o, f, d, Start(g.rowLen + 1, y) + 1 + x)
    requires y < |img| && g.bpp <= x < g.rowLen
    ensures At(d, Start(g.rowLen + 1, y) + 1 + x - g.bpp) == At(img[y], x - g.bpp)
  {
    RawBehind(img, fts, g, o, f, d, Start(g.rowLen + 1, y) + 1 + x, y, x - g.bpp);
  }

  /** The neighbour `k` columns back in the row above is the original one. */
  lemma AboveRestored(img: seq<seq<byte>>, fts: seq<byte>, g: Geometry, o: seq<byte>, f: seq<byte>, d: seq<byte>,
                      y: nat, x: nat, k: nat)
    requires Midway(img, fts, g, o, f, d, Start(g.rowLen + 1, y) + 1 + x)
    requires 0 < y < |img| && k <= x < g.rowLen
    ensures At(d, Start(g.rowLen + 1, y) + 1 + x - g.stride - k) == At(img[y - 1], x - k)
  {
    var m := g.rowLen + 1;
    assert Start(m, y) == Start(m, y - 1) + m;
    RawBehind(img, fts, g, o, f, d, Start(m, y) + 1 + x, y - 1, x - k);
  }

  /** The neighbours the reconstruction reads at column `x` of row `y` are
      those of the original image. */
  lemma NearRestored(img: seq<seq<byte>>, fts: seq<byte>, g: Geometry, o: seq<byte>, f: seq<byte>, d: seq<byte>,
                     y: nat, x: nat)
    requires Midway(img, fts, g, o, f, d, Start(g.rowLen + 1, y) + 1 + x)
    requires y < |img| && x < g.rowLen
    ensures Near(d, g, y, Start(g.rowLen + 1, y) + 1 + x, x) == RefNear(img, y, x, g.bpp)
  {
    if x >= g.bpp {
      LeftRestored(img, fts, g, o, f, d, y, x);
    }
    if y > 0 {
      AboveRestored(img, fts, g, o, f, d, y, x, 0);
      if x >= g.bpp {
        AboveRestored(img, fts, g, o, f, d, y, x, g.bpp);
      }
    }
  }

  /** One value: where the buffer is reconstructed up to column `x` of row
      `y`, the reconstruction yields the original byte there. */
  lemma ReconRestores(img: seq<seq<byte>>, fts: seq<byte>, g: Geometry, o: seq<byte>, f: seq<byte>, d: seq<byte>,
                      y: nat, x: nat)
    requires Midway(img, fts, g, o, f, d, Start(g.rowLen + 1, y) + 1 + x)
    requires y < |img| && x < g.rowLen
    ensures Recon(d, g, y, fts[y], Start(g.rowLen + 1, y) + 1 + x, x) == Some(img[y][x])
  {
    var m := g.rowLen + 1;
    var pos := Start(m, y) + 1 + x;
    var n := RefNear(img, y, x, g.bpp);
    StartWithin(m, y, 1 + x, |img|);
    FilteredAt(img, fts, g, f, y, x);
    AgreeAhead(d, o, f, pos);
    NearRestored(img, fts, g, o, f, d, y, x);
    if y > 0 {
      assert Start(m, y) == Start(m, y - 1) + m;
    }
    ReconFrom(d, g, y, fts[y], pos, x, img[y][x], n);
  }

  /** The filtered stream holds, after the filter type of row `i`, the
      filtered bytes of that row. */
  lemma FilteredAt(img: seq<seq<byte>>, fts: seq<byte>, g: Geometry, f: seq<byte>, i: nat, j: nat)
    requires Shaped(img, fts, g) && FilteredStream(img, fts, g, f)
    requires i < |img| && j < g.rowLen && Start(g.rowLen + 1, i) + 1 + j < |f|
    ensures fts[i] <= 4 && j < |img[i]|
    ensures f[Start(g.rowLen + 1, i) + 1 + j] == FilterByte(img, i, j, fts[i], g.bpp)
  {
    assert fts[i] <= 4 && |img[i]| == g.rowLen;
    var k := Start(g.rowLen + 1, i) + 1 + j;
    assert f[k] == FilterByte(img, i, j, fts[i], g.bpp);
  }

  /** At the boundary itself the buffer holds the filtered byte. */
  lemma AgreeAhead(d: seq<byte>, o: seq<byte>, f: seq<byte>, p: nat)
    requires Agree(d, o, f, p) && p < |f|
    ensures p < |d| && d[p] == f[p]
  {
  }

  /** One step of a filtered row. */
  lemma FilterRowStep(d: seq<byte>, g: Geometry, y: nat, ft: byte, pos: nat, x: nat, out: seq<byte>, v: byte)
    requires y < g.height && x < g.rowLen && Recon(d, g, y, ft, pos, x) == Some(v)
    ensures FilterRow(d, g, y, ft, pos, x, out) == FilterRow(d[pos := v], g, y, ft, pos + 1, x + 1, out + [v])
  {
  }

  /** The end of a filtered row goes on with the next row. */
  lemma FilterRowEnd(d: seq<byte>, g: Geometry, y: nat, ft: byte, pos: nat, x: nat, out: seq<byte>)
    requires y < g.height && x >= g.rowLen
    ensures FilterRow(d, g, y, ft, pos, x, out) == Rows(d, g, y + 1, pos, out)
  {
  }

  /** A row of a non-indexed image starts with its filter type byte. */
  lemma RowsStart(d: seq<byte>, g: Geometry, y: nat, pos: nat, out: seq<byte>)
    requires y < g.height && pos < |d| && !g.indexed
    ensures Rows(d, g, y, pos, out) == FilterRow(d, g, y, d[pos], pos + 1, 0, out)
  {
  }

  /** One more byte of a row extends its prefix. */
  lemma PrefixStep(front: seq<byte>, r: seq<byte>, x: nat)
    requires x < |r|
    ensures front + r[..x] + [r[x]] == front + r[..x + 1]
  {
    assert r[..x] + [r[x]] == r[..x + 1];
  }

  /** One value of a row: the reconstruction stores the original byte,
      which moves the boundary on and extends the pushed prefix. */
  lemma StepRestores(img: seq<seq<byte>>, fts: seq<byte>, g: Geometry, o: seq<byte>, f: seq<byte>, d: seq<byte>,
                     y: nat, x: nat)
    requires Midway(img, fts, g, o, f, d, Start(g.rowLen + 1, y) + 1 + x)
    requires y < |img| && x < g.rowLen
    ensures var pos := Start(g.rowLen + 1, y) + 1 + x;
      pos < |d| &&
      Midway(img, fts, g, o, f, d[pos := img[y][x]], pos + 1) &&
      FilterRow(d, g, y, fts[y], pos, x, Flatten(img[..y]) + img[y][..x])
        == FilterRow(d[pos := img[y][x]], g, y, fts[y], pos + 1, x + 1, Flatten(img[..y]) + img[y][..x + 1])
  {
    var pos := Start(g.rowLen + 1, y) + 1 + x;
    var v := img[y][x];
    StartWithin(g.rowLen + 1, y, 1 + x, |img|);
    ReconRestores(img, fts, g, o, f, d, y, x);
    FilterRowStep(d, g, y, fts[y], pos, x, Flatten(img[..y]) + img[y][..x], v);
    assert o[pos] == v;
    AgreeStore(d, o, f, pos);
    PrefixStep(Flatten(img[..y]), img[y], x);
  }

  /** The rest of row `y`, from column `x`, and the rows after it restore
      the rest of the image. */
  lemma {:induction false} RowRestores(img: seq<seq<byte>>, fts: seq<byte>, g: Geometry, o: seq<byte>, f: seq<byte>,
                                       d: seq<byte>, y: nat, x: nat)
    requires Midway(img, fts, g, o, f, d, Start(g.rowLen + 1, y) + 1 + x)
    requires y < |img| && x <= g.rowLen
    ensures FilterRow(d, g, y, fts[y], Start(g.rowLen + 1, y) + 1 + x, x, Flatten(img[..y]) + img[y][..x])
      == Some(Flatten(img))
    decreases |img| - y, 0, g.rowLen - x
  {
    var pos := Start(g.rowLen + 1, y) + 1 + x;
    if x == g.rowLen {
      assert Start(g.rowLen + 1, y + 1) == pos;
      FilterRowEnd(d, g, y, fts[y], pos, x, Flatten(img[..y]) + img[y][..x]);
      FlattenNext(img, y);
      RowsRestore(img, fts, g, o, f, d, y + 1);
    } else {
      StepRestores(img, fts, g, o, f, d, y, x);
      assert Start(g.rowLen + 1, y) + 1 + (x + 1) == pos + 1;
      RowRestores(img, fts, g, o, f, d[pos := img[y][x]], y, x + 1);
    }
  }

  /** The rows from `y` on restore the rest of the image. */
  lemma {:induction false} RowsRestore(img: seq<seq<byte>>, fts: seq<byte>, g: Geometry, o: seq<byte>, f: seq<byte>,
                                       d: seq<byte>, y: nat)
    requires Midway(img, fts, g, o, f, d, Start(g.rowLen + 1, y))
    requires y <= |img|
    ensures Rows(d, g, y, Start(g.rowLen + 1, y), Flatten(img[..y])) == Some(Flatten(img))
    decreases |img| - y, 1, 0
  {
    if y == |img| {
      assert img[..y] == img;
    } else {
      var p := Start(g.rowLen + 1, y);
      var front := Flatten(img[..y]);
      StartWithin(g.rowLen + 1, y, 0, |img|);
      assert o[p] == f[p] == fts[y];
      AgreeSkip(d, o, f, p);
      RowsStart(d, g, y, p, front);
      assert front + img[y][..0] == front;
      RowRestores(img, fts, g, o, f, d, y, 0);
    }
  }

  /** Reconstruction inverts filtering: whatever defined filter type each
      row was filtered with, `png_read` recovers the original bytes of an
      8-bit, non-indexed image. */
  lemma UnfilterInvertsFilter(img: seq<seq<byte>>, fts: seq<byte>, g: Geometry)
    requires Shaped(img, fts, g)
    ensures Unfiltered(FilterImage(img, fts, g.bpp), g) == Some(Flatten(img))
  {
    var o := Flatten(RawScanlines(img, fts));
    var f := FilterImage(img, fts, g.bpp);
    var m := g.rowLen + 1;
    assert Uniform(RawScanlines(img, fts), m);
    assert Uniform(FilteredScanlines(img, fts, g.bpp), m);
    FlattenLaid(RawScanlines(img, fts), m);
    FlattenLaid(FilteredScanlines(img, fts, g.bpp), m);
    RawFromLaid(img, fts, g, o);
    FilteredFromLaid(img, fts, g, f);
    assert Agree(f, o, f, 0);
    RowsRestore(img, fts, g, o, f, f, 0);
    assert img[..0] == [];
  }
}
