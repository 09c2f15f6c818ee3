/** The PNG container of yanconv.cpp (PNG, W3C Recommendation, second
    edition): the chunk walk of `png_read` over the bytes of a file, and the
    file `png_save` writes: the signature of section 5.2, then IHDR, IDAT
    and IEND laid out as in section 5.3 with the CRC of section 5.5, the
    IDAT data being the deflated rows, each with filter type 0. */
module Png {
  import opened Bytes
  import opened Raster
  import Crc
  import InflateSpec
  import Encoder
  import Unfilter

  /** The eight bytes a PNG file starts with. */
  const Signature: seq<byte> := [0x89, 0x50, 0x4E, 0x47, 0x0D, 0x0A, 0x1A, 0x0A]

  /** The chunk types, in ASCII. */
  const Ihdr: seq<byte> := [0x49, 0x48, 0x44, 0x52]
  const Idat: seq<byte> := [0x49, 0x44, 0x41, 0x54]
  const Plte: seq<byte> := [0x50, 0x4C, 0x54, 0x45]
  const Iend: seq<byte> := [0x49, 0x45, 0x4E, 0x44]

  /** The image fields of `YandereImage`: `width`, `height`, `bpp` (bytes
      per pixel) and `image`, the pixel bytes row after row. */
  datatype Picture = Picture(width: nat, height: nat, bpp: nat, pixels: seq<byte>)

  /** The image holds the `width * height * bpp` bytes the pixel loops
      index. */
  predicate Holds(pic: Picture) {
    pic.height * (pic.width * pic.bpp) <= |pic.pixels|
  }

  /** The fields fit their C++ types: `unsigned` width and height, a
      `uint8_t` bpp. */
  predicate Bounded(pic: Picture) {
    pic.width < U32 && pic.height < U32 && pic.bpp < 256
  }

  // ---------------------------------------------------------------------
  // Reading: the chunk walk of png_read
  // ---------------------------------------------------------------------

  /** The IHDR fields `png_read` keeps (interlacing is read but unused). */
  datatype Header = Header(width: nat, height: nat, bitDepth: byte, colorType: byte)

  /** Colour-type bit 0: the pixels are palette indices. */
  predicate Indexed(h: Header) {
    h.colorType % 2 == 1
  }

  /** `valuesPerPixel`: one, two more with colour (bit 1), one more with
      alpha (bit 2). */
  function ValuesPerPixel(h: Header): (v: nat)
    ensures 1 <= v <= 4
  {
    2 * ((h.colorType / 2) % 2) + (h.colorType / 4) % 2 + 1
  }

  /** `bpp = ceil(valuesPerPixel * bitDepth / 8.0f)`: the bytes a pixel's
      values take, rounded up. */
  function PixelBytes(h: Header): (b: nat)
    ensures 8 * b >= ValuesPerPixel(h) * h.bitDepth
    ensures 8 * b < ValuesPerPixel(h) * h.bitDepth + 8
  {
    (ValuesPerPixel(h) * h.bitDepth + 7) / 8
  }

  /** What the walk has collected: the last IHDR, the IDAT data laid end to
      end and the PLTE entries. */
  datatype Scan = Scan(header: Option<Header>, stream: seq<byte>, palette: seq<byte>)

  /** What `png_read` leaves behind: its return value and the image fields,
      or `Undefined` where its behaviour is undefined. */
  datatype ReadResult = Returned(ok: bool, pic: Picture) | Undefined

  /** The chunk types `png_read` tells apart (`strncmp` on the four type
      bytes). */
  datatype ChunkType = IHDR | IDAT | PLTE | IEND | Other

  /** The chunk length at `pos`, big-endian (`cAToNumber`). */
  function Length(file: seq<byte>, pos: nat): nat
    requires pos + 4 <= |file|
  {
    BigEndian(file[pos..pos + 4])
  }

  /** The chunk type four type bytes name. */
  function TypeOf(k: seq<byte>): ChunkType
    requires |k| == 4
  {
    if k[0] == 0x49 && k[1] == 0x48 && k[2] == 0x44 && k[3] == 0x52 then IHDR
    else if k[0] == 0x49 && k[1] == 0x44 && k[2] == 0x41 && k[3] == 0x54 then IDAT
    else if k[0] == 0x50 && k[1] == 0x4C && k[2] == 0x54 && k[3] == 0x45 then PLTE
    else if k[0] == 0x49 && k[1] == 0x45 && k[2] == 0x4E && k[3] == 0x44 then IEND
    else Other
  }

  /** Each type is named by its own four bytes. */
  lemma TypeOfNames(k: seq<byte>)
    requires |k| == 4
    ensures TypeOf(k) == IHDR <==> k == Ihdr
    ensures TypeOf(k) == IDAT <==> k == Idat
    ensures TypeOf(k) == PLTE <==> k == Plte
    ensures TypeOf(k) == IEND <==> k == Iend
  {
  }

  /** The type of the chunk at `pos`. */
  function TypeAt(file: seq<byte>, pos: nat): ChunkType
    requires pos + 8 <= |file|
  {
    TypeOf(file[pos + 4..pos + 8])
  }

  /** The bytes of a chunk's data that the file holds: all `len` of them,
      or those up to the end of a file that is cut short. */
  function Body(file: seq<byte>, pos: nat, len: nat): (body: seq<byte>)
    requires pos + 8 <= |file|
    ensures |body| <= len
    ensures pos + 8 + len <= |file| ==> |body| == len
  {
    file[pos + 8..if pos + 8 + len <= |file| then pos + 8 + len else |file|]
  }

  /** The header an IHDR chunk describes. */
  function ReadHeader(body: seq<byte>): Header
    requires |body| >= 10
  {
    Header(BigEndian(body[0..4]), BigEndian(body[4..8]), body[8], body[9])
  }

  /** The effect of a chunk other than IEND: IHDR replaces the header and
      sets `bpp`, IDAT and PLTE append their data; nothing else changes,
      and the image itself is left alone. */
  function Absorb(t: ChunkType, body: seq<byte>, sc: Scan, pic: Picture): (r: (Scan, Picture))
    requires t == IHDR ==> |body| >= 10
    ensures r.1.width == pic.width && r.1.height == pic.height && r.1.pixels == pic.pixels
    ensures t != IHDR ==> r.1 == pic && r.0.header == sc.header
  {
    match t
    case IHDR =>
      var h := ReadHeader(body);
      (sc.(header := Some(h)), pic.(bpp := PixelBytes(h)))
    case IDAT => (sc.(stream := sc.stream + body), pic)
    case PLTE => (sc.(palette := sc.palette + body), pic)
    case _ => (sc, pic)
  }

  /** Where the chunk loop of `png_read` stops: at IEND, with what it has
      collected and the fields as they stand, or on its own, with its
      result. */
  datatype Stop = AtEnd(sc: Scan, pic: Picture) | Stopped(result: ReadResult)

  /** The length, type and data of a chunk, as the loop reads them. */
  datatype Head = Head(len: nat, t: ChunkType, body: seq<byte>)

  /** The chunk head at `pos`. */
  function HeadAt(file: seq<byte>, pos: nat): Head
    requires pos + 8 <= |file|
  {
    var len := Length(file, pos);
    Head(len, TypeAt(file, pos), Body(file, pos, len))
  }

  /** What one chunk does to the loop: end it, or let it go on with what it
      has collected. */
  datatype Visit = Ends(stop: Stop) | Goes(sc: Scan, pic: Picture)

  /** One turn of the chunk loop. IEND ends it for the IEND branch; a PLTE
      length that is not a multiple of 3 returns false; an IHDR with fewer
      than 13 bytes of data in the file, or with bit depth 0 (`8/bitDepth`),
      is undefined; any other chunk is absorbed. */
  function Visited(hd: Head, sc: Scan, pic: Picture): Visit {
    if hd.t == IEND then Ends(AtEnd(sc, pic))
    else if hd.t == PLTE && hd.len % 3 != 0 then Ends(Stopped(Returned(false, pic)))
    else if hd.t == IHDR && (|hd.body| < 13 || hd.body[8] == 0) then Ends(Stopped(Undefined))
    else
      var r := Absorb(hd.t, hd.body, sc, pic);
      Goes(r.0, r.1)
  }

  /** The chunks the loop of `png_read` reads from `pos` on, in order. It
      goes on while a chunk's length and type are wholly in the file (the
      stream fails otherwise), and the chunk whose data or CRC runs past the
      end of the file is the last. */
  function Heads(file: seq<byte>, pos: nat): seq<Head>
    decreases |file| - pos
  {
    if pos + 8 > |file| then []
    else
      var hd := HeadAt(file, pos);
      if pos + 12 + hd.len > |file| then [hd]
      else [hd] + Heads(file, pos + 12 + hd.len)
  }

  /** The chunk loop of `png_read` over the chunks it reads. It stops at
      IEND, hands on what it has collected to the IEND branch, or ends on its
      own; running out of chunks returns true. CRCs are not checked. */
  function Walk(hs: seq<Head>, sc: Scan, pic: Picture): Stop
    decreases |hs|
  {
    if hs == [] then Stopped(Returned(true, pic))
    else
      match Visited(hs[0], sc, pic)
      case Ends(stop) => stop
      case Goes(sc', pic') => Walk(hs[1..], sc', pic')
  }

  /** The state the chunk loop of `png_read` starts from. */
  const Fresh := Scan(None, [], [])

  /** `png_read`: the chunk loop starts after the eight signature bytes,
      which are skipped without being looked at, and IEND finishes the
      image. */
  function ReadPng(file: seq<byte>, pic: Picture): ReadResult {
    match Walk(Heads(file, 8), Fresh, pic)
    case AtEnd(sc, p) => Finish(sc, p)
    case Stopped(r) => r
  }

  /** The row geometry for an IHDR with a bit depth of 1 to 8, where
      `valsPerByte = 8 / bitDepth`. The row bound `tempWidth*valuesPerPixel`
      is an `unsigned` product, so it wraps at 2^32, and so does the stride
      `1+(tempWidth*valuesPerPixel)/valsPerByte` back to the row above. */
  function Layout(h: Header, bpp: nat, palette: seq<byte>): (g: Unfilter.Geometry)
    requires 1 <= h.bitDepth <= 8
    ensures g.rowLen < U32 || Indexed(h)
    ensures g.stride < U32
  {
    var vpp := ValuesPerPixel(h);
    var row := (h.width * vpp) % U32;
    Unfilter.Geometry(h.height, if Indexed(h) then h.width else row,
                      (1 + row / (8 / h.bitDepth)) % U32, bpp, Indexed(h), palette)
  }

  /** The IEND branch. The IDAT data is inflated; an empty result gives an
      empty image of the header's size (0 by 0 without a header); otherwise
      the rows are reconstructed, which needs a header (the fields it sets
      are read uninitialised otherwise) and a bit depth of at most 8 (above
      it `valsPerByte` is 0 and the size hint divides by it). It never
      returns false. */
  function Finish(sc: Scan, pic: Picture): (r: ReadResult)
    ensures r.Returned? ==> r.ok && r.pic.bpp == pic.bpp
    ensures r.Returned? && sc.header.Some? ==>
      r.pic.width == sc.header.value.width && r.pic.height == sc.header.value.height
  {
    match InflateSpec.Inflate(sc.stream)
    case Undefined => Undefined
    case Output(data) =>
      if data == [] then
        match sc.header
        case None => Returned(true, Picture(0, 0, pic.bpp, []))
        case Some(h) => Returned(true, Picture(h.width, h.height, pic.bpp, []))
      else
        match sc.header
        case None => Undefined
        case Some(h) =>
          if h.bitDepth == 0 || h.bitDepth > 8 then Undefined
          else
            match Unfilter.Unfiltered(data, Layout(h, pic.bpp, sc.palette))
            case None => Undefined
            case Some(px) => Returned(true, Picture(h.width, h.height, pic.bpp, px))
  }

  // ---------------------------------------------------------------------
  // Properties of the walk
  // ---------------------------------------------------------------------

  /** The chunks from `pos` on depend only on the bytes from `pos` on. */
  lemma {:induction false} HeadsReadAhead(a: seq<byte>, b: seq<byte>, pos: nat)
    requires pos <= |a| == |b| && a[pos..] == b[pos..]
    ensures Heads(a, pos) == Heads(b, pos)
    decreases |a| - pos
  {
    if pos + 8 <= |a| {
      SameHead(a, b, pos);
      var next := pos + 12 + HeadAt(a, pos).len;
      if next <= |a| {
        assert a[next..] == a[pos..][next - pos..];
        assert b[next..] == b[pos..][next - pos..];
        HeadsReadAhead(a, b, next);
      }
    }
  }

  /** Files that agree from `pos` on hold the same chunk head there. */
  lemma SameHead(a: seq<byte>, b: seq<byte>, pos: nat)
    requires pos + 8 <= |a| == |b| && a[pos..] == b[pos..]
    ensures HeadAt(a, pos) == HeadAt(b, pos)
  {
    var rest := a[pos..];
    var len := Length(a, pos);
    assert a[pos..pos + 4] == rest[..4] == b[pos..pos + 4];
    assert a[pos + 4..pos + 8] == rest[4..8] == b[pos + 4..pos + 8];
    if pos + 8 + len <= |a| {
      assert Body(a, pos, len) == rest[8..8 + len] == Body(b, pos, len);
    } else {
      assert Body(a, pos, len) == rest[8..] == Body(b, pos, len);
    }
  }

  /** `png_read` never looks at the signature: files that agree after the
      first eight bytes read the same. */
  lemma SignatureUnchecked(a: seq<byte>, b: seq<byte>, pic: Picture)
    requires |a| >= 8 && |b| >= 8 && a[8..] == b[8..]
    ensures ReadPng(a, pic) == ReadPng(b, pic)
  {
    HeadsReadAhead(a, b, 8);
  }

  /** The fields the chunk loop leaves, wherever it stops. */
  function Left(s: Stop): Option<Picture> {
    match s
    case AtEnd(_, p) => Some(p)
    case Stopped(Returned(_, p)) => Some(p)
    case Stopped(Undefined) => None
  }

  /** Before IEND only `bpp` changes: wherever the chunk loop stops, the
      image, its width and its height are as they were. */
  lemma {:induction false} WalkKeepsImage(hs: seq<Head>, sc: Scan, pic: Picture)
    requires Left(Walk(hs, sc, pic)).Some?
    ensures var p := Left(Walk(hs, sc, pic)).value;
      p.width == pic.width && p.height == pic.height && p.pixels == pic.pixels
    decreases |hs|
  {
    if hs != [] {
      var v := Visited(hs[0], sc, pic);
      if v.Goes? {
        WalkKeepsImage(hs[1..], v.sc, v.pic);
      }
    }
  }

  /** No chunk the loop reads is IEND. */
  predicate NoEnd(hs: seq<Head>) {
    forall i :: 0 <= i < |hs| ==> hs[i].t != IEND
  }

  /** Without IEND the chunk loop stops on its own. */
  lemma {:induction false} WalkWithoutEnd(hs: seq<Head>, sc: Scan, pic: Picture)
    requires NoEnd(hs)
    ensures Walk(hs, sc, pic).Stopped?
    decreases |hs|
  {
    if hs != [] {
      var v := Visited(hs[0], sc, pic);
      assert hs[0].t != IEND;
      if v.Goes? {
        assert NoEnd(hs[1..]) by {
          forall i | 0 <= i < |hs| - 1
            ensures hs[1..][i].t != IEND
          {
            assert hs[1..][i] == hs[i + 1];
          }
        }
        WalkWithoutEnd(hs[1..], v.sc, v.pic);
      }
    }
  }

  /** Returning false leaves the image, its width and its height as they
      were: the only failure is a bad PLTE length, met before IEND. */
  lemma FailureKeepsImage(file: seq<byte>, pic: Picture)
    requires ReadPng(file, pic).Returned? && !ReadPng(file, pic).ok
    ensures var p := ReadPng(file, pic).pic;
      p.width == pic.width && p.height == pic.height && p.pixels == pic.pixels
  {
    WalkKeepsImage(Heads(file, 8), Fresh, pic);
  }

  /** A file in which the loop meets no IEND chunk leaves the image, its
      width and its height as they were, whatever `png_read` returns. */
  lemma NoEndKeepsImage(file: seq<byte>, pic: Picture)
    requires NoEnd(Heads(file, 8))
    requires ReadPng(file, pic).Returned?
    ensures var p := ReadPng(file, pic).pic;
      p.width == pic.width && p.height == pic.height && p.pixels == pic.pixels
  {
    WalkWithoutEnd(Heads(file, 8), Fresh, pic);
    WalkKeepsImage(Heads(file, 8), Fresh, pic);
  }

  /** The fields an IHDR chunk sets fit their C++ types: its width and
      height are 32-bit fields and `bpp` is at most 128. */
  lemma HeaderBounded(body: seq<byte>)
    requires |body| >= 10
    ensures var h := ReadHeader(body);
      h.width < U32 && h.height < U32 && PixelBytes(h) <= 128
  {
    Crc.Pow2Value32();
    var h := ReadHeader(body);
    assert ValuesPerPixel(h) * h.bitDepth <= 4 * 255;
  }

  /** The header collected so far fits the 32-bit fields. */
  predicate HeaderFits(sc: Scan) {
    sc.header.Some? ==> sc.header.value.width < U32 && sc.header.value.height < U32
  }

  /** The chunk loop keeps the fields within their C++ types, and the
      header it hands to IEND fits them too. */
  lemma {:induction false} WalkBounded(hs: seq<Head>, sc: Scan, pic: Picture)
    requires Bounded(pic) && HeaderFits(sc)
    requires Left(Walk(hs, sc, pic)).Some?
    ensures Bounded(Left(Walk(hs, sc, pic)).value)
    ensures Walk(hs, sc, pic).AtEnd? ==> HeaderFits(Walk(hs, sc, pic).sc)
    decreases |hs|
  {
    if hs != [] {
      var v := Visited(hs[0], sc, pic);
      if hs[0].t == IHDR && v.Goes? {
        HeaderBounded(hs[0].body);
      }
      if v.Goes? {
        WalkBounded(hs[1..], v.sc, v.pic);
      }
    }
  }

  /** `png_read` keeps the fields within their C++ types. */
  lemma ReadBounded(file: seq<byte>, pic: Picture)
    requires Bounded(pic)
    requires ReadPng(file, pic).Returned?
    ensures Bounded(ReadPng(file, pic).pic)
  {
    WalkBounded(Heads(file, 8), Fresh, pic);
  }

  // ---------------------------------------------------------------------
  // Writing: the file png_save produces
  // ---------------------------------------------------------------------

  /** The IHDR colour type `png_save` writes for a pixel size (grey, grey
      with alpha, truecolour, truecolour with alpha); read back with bit
      depth 8 it gives that many 8-bit values per pixel. */
  function ColourType(bpp: nat): (ct: Option<byte>)
    ensures ct.Some? <==> 1 <= bpp <= 4
    ensures ct.Some? ==> var h := Header(0, 0, 8, ct.value);
      !Indexed(h) && ValuesPerPixel(h) == bpp && PixelBytes(h) == bpp
  {
    if bpp == 1 then Some(0)
    else if bpp == 2 then Some(4)
    else if bpp == 3 then Some(2)
    else if bpp == 4 then Some(6)
    else None
  }

  /** The number of bytes the CRC loop covers: `chunkLength + 4` computed
      in 32 bits and kept in an `int`, so none when it is 2^31 or more. */
  function CrcSpan(n: nat): (k: nat)
    ensures k <= n + 4
    ensures n + 4 < 0x8000_0000 ==> k == n + 4
  {
    var c := (n % U32 + 4) % U32;
    if c < 0x8000_0000 then c else 0
  }

  /** A chunk as `png_save` writes it: the data length as a 32-bit
      big-endian value, the type, the data, and the CRC of the covered
      bytes of type and data, big-endian. */
  function Chunk(kind: seq<byte>, data: seq<byte>): (c: seq<byte>)
    requires |kind| == 4
    ensures |c| == |data| + 12
  {
    var covered := (kind + data)[..CrcSpan(|data|)];
    Crc.Crc32Bound(covered);
    Be32(|data| % U32) + kind + data + Be32(Crc.Crc32(covered))
  }

  /** The rows `png_save` deflates: filter type 0, then the row's
      `width * bpp` bytes, for every row. */
  function Scanlines(pic: Picture): seq<byte>
    requires Holds(pic)
  {
    var r := pic.width * pic.bpp;
    StartIsProduct(r, pic.height);
    Flatten(Unfilter.RawScanlines(Lines(pic.pixels, r, pic.height), Zeros(pic.height)))
  }

  /** `n` filter types 0. */
  function Zeros(n: nat): (z: seq<byte>)
    ensures |z| == n && Unfilter.KnownTypes(z)
  {
    seq(n, _ => 0)
  }

  /** IHDR data: width and height big-endian, bit depth 8, the colour type,
      then compression, filter and interlace methods 0. */
  function IhdrData(pic: Picture, ct: byte): seq<byte>
    requires pic.width < U32 && pic.height < U32
  {
    Be32(pic.width) + Be32(pic.height) + [8, ct, 0, 0, 0]
  }

  /** What `png_save` needs of the image: fields within their types, and
      the pixel bytes when it gets as far as writing them. */
  predicate Saveable(pic: Picture) {
    pic.width < U32 && pic.height < U32 && (1 <= pic.bpp <= 4 ==> Holds(pic))
  }

  /** The file `png_save` writes. With `corrected` false the IDAT data is
      `yan_inflate` as written; with `corrected` true it is the encoder with
      exact LEN fields and an Adler-32 trailer. A `bpp` outside 1 to 4
      writes the signature alone. */
  function PngFile(pic: Picture, corrected: bool): (f: seq<byte>)
    requires Saveable(pic)
    ensures |f| >= 8 && f[..8] == Signature
    ensures ColourType(pic.bpp).None? <==> f == Signature
  {
    match ColourType(pic.bpp)
    case None => Signature
    case Some(ct) =>
      var raw := Scanlines(pic);
      var idat := if corrected then Encoder.EncodedRfc(raw) else Encoder.Encoded(raw);
      Signature + Chunk(Ihdr, IhdrData(pic, ct)) + Chunk(Idat, idat) + Chunk(Iend, [])
  }

  // ---------------------------------------------------------------------
  // Properties of the written file
  // ---------------------------------------------------------------------

  /** Where the four fields of a chunk sit. */
  lemma FieldsAt(lenField: seq<byte>, kind: seq<byte>, data: seq<byte>, tail: seq<byte>)
    requires |lenField| == 4 && |kind| == 4
    ensures var c := lenField + kind + data + tail;
      c[..4] == lenField && c[4..8] == kind && c[8..8 + |data|] == data && c[8 + |data|..] == tail
  {
  }

  /** A written chunk holds its length, type and data where section 5.3
      of the PNG specification puts them. */
  lemma ChunkLayout(kind: seq<byte>, data: seq<byte>)
    requires |kind| == 4
    ensures var c := Chunk(kind, data);
      c[4..8] == kind && c[8..8 + |data|] == data &&
      (|data| < U32 ==> BigEndian(c[..4]) == |data|)
  {
    var covered := (kind + data)[..CrcSpan(|data|)];
    Crc.Crc32Bound(covered);
    var n := |data| % U32;
    var c := Be32(n) + kind + data + Be32(Crc.Crc32(covered));
    assert Chunk(kind, data) == c;
    FieldsAt(Be32(n), kind, data, Be32(Crc.Crc32(covered)));
    assert Chunk(kind, data)[..4] == Be32(n);
    if |data| < U32 {
      LengthFieldReadsBack(|data|);
    }
  }

  /** The length field of a chunk whose length fits 32 bits reads back as
      that length. */
  lemma LengthFieldReadsBack(len: nat)
    requires len < U32
    ensures BigEndian(Be32(len % U32)) == len
  {
    assert len % U32 == len;
    Be32RoundTrip(len);
  }

  /** The last four bytes of a written chunk are the CRC of its type and
      data, as long as `chunkLength + 4` fits the `int` that counts them. */
  lemma ChunkCrcField(kind: seq<byte>, data: seq<byte>)
    requires |kind| == 4 && |data| + 4 < 0x8000_0000
    ensures BigEndian(Chunk(kind, data)[8 + |data|..]) == Crc.Crc32(kind + data)
  {
    var covered := (kind + data)[..CrcSpan(|data|)];
    assert covered == kind + data;
    Crc.Crc32Bound(covered);
    FieldsAt(Be32(|data| % U32), kind, data, Be32(Crc.Crc32(covered)));
    Be32RoundTrip(Crc.Crc32(covered));
  }

  /** `c` is a whole chunk whose head is `hd`. */
  predicate IsChunk(c: seq<byte>, hd: Head) {
    |c| == hd.len + 12 && HeadAt(c, 0) == hd
  }

  /** A written chunk with a 32-bit length is read back as its own length,
      type and data. */
  lemma ChunkHead(kind: seq<byte>, data: seq<byte>)
    requires |kind| == 4 && |data| < U32
    ensures IsChunk(Chunk(kind, data), Head(|data|, TypeOf(kind), data))
  {
    ChunkLayout(kind, data);
  }

  /** A whole chunk reads the same wherever it sits in a file. */
  lemma HeadAtShift(file: seq<byte>, pos: nat, c: seq<byte>, hd: Head)
    requires IsChunk(c, hd) && pos + |c| <= |file| && file[pos..pos + |c|] == c
    ensures HeadAt(file, pos) == hd
  {
    forall k | 0 <= k < |c|
      ensures file[pos + k] == c[k]
    {
      assert file[pos..pos + |c|][k] == file[pos + k];
    }
    assert file[pos..pos + 4] == c[0..4];
    assert file[pos + 4..pos + 8] == c[4..8];
    assert file[pos + 8..pos + 8 + hd.len] == c[8..8 + hd.len];
  }

  /** The loop reads a whole chunk as its head and goes on after it. */
  lemma HeadsOverChunk(file: seq<byte>, pos: nat, c: seq<byte>, hd: Head)
    requires IsChunk(c, hd) && pos + |c| <= |file| && file[pos..pos + |c|] == c
    ensures Heads(file, pos) == [hd] + Heads(file, pos + |c|)
  {
    HeadAtShift(file, pos, c, hd);
  }

  /** The loop reads three whole chunks that end the file after the
      signature as their three heads. */
  lemma HeadsOfChunks(file: seq<byte>, c1: seq<byte>, c2: seq<byte>, c3: seq<byte>, h1: Head, h2: Head, h3: Head)
    requires IsChunk(c1, h1) && IsChunk(c2, h2) && IsChunk(c3, h3)
    requires |file| == 8 + |c1| + |c2| + |c3|
    requires file[8..8 + |c1|] == c1 && file[8 + |c1|..8 + |c1| + |c2|] == c2
    requires file[8 + |c1| + |c2|..] == c3
    ensures Heads(file, 8) == [h1, h2, h3]
  {
    var p2, p3 := 8 + |c1|, 8 + |c1| + |c2|;
    assert file[p3..p3 + |c3|] == c3;
    HeadsOverChunk(file, 8, c1, h1);
    HeadsOverChunk(file, p2, c2, h2);
    HeadsOverChunk(file, p3, c3, h3);
    assert Heads(file, p3 + |c3|) == [];
  }

  /** Where the three chunks of a written file sit. */
  lemma ChunksSit(sig: seq<byte>, c1: seq<byte>, c2: seq<byte>, c3: seq<byte>)
    requires |sig| == 8
    ensures var file := sig + c1 + c2 + c3;
      file[8..8 + |c1|] == c1 && file[8 + |c1|..8 + |c1| + |c2|] == c2 && file[8 + |c1| + |c2|..] == c3
  {
  }

  /** Reading back an IHDR chunk `png_save` wrote gives its width, height,
      bit depth 8 and colour type. */
  lemma IhdrReadsBack(pic: Picture, ct: byte)
    requires pic.width < U32 && pic.height < U32
    ensures |IhdrData(pic, ct)| == 13
    ensures ReadHeader(IhdrData(pic, ct)) == Header(pic.width, pic.height, 8, ct)
  {
    var d := IhdrData(pic, ct);
    assert d[0..4] == Be32(pic.width);
    assert d[4..8] == Be32(pic.height);
    Be32RoundTrip(pic.width);
    Be32RoundTrip(pic.height);
  }

  /** With filter type 0 everywhere the filtered rows are the raw rows, and
      reconstructing them gives the pixels back. */
  lemma ScanlinesUnfilter(pic: Picture, g: Unfilter.Geometry)
    requires |pic.pixels| == pic.height * (pic.width * pic.bpp) && 1 <= pic.bpp
    requires g == Unfilter.Geometry(pic.height, pic.width * pic.bpp, pic.width * pic.bpp + 1, pic.bpp, false, [])
    ensures Unfilter.Unfiltered(Scanlines(pic), g) == Some(pic.pixels)
  {
    var r := pic.width * pic.bpp;
    StartIsProduct(r, pic.height);
    var img := Lines(pic.pixels, r, pic.height);
    var fts := Zeros(pic.height);
    LinesAre(pic.pixels, r, pic.height);
    assert Unfilter.Shaped(img, fts, g);
    var filtered := Unfilter.FilteredScanlines(img, fts, g.bpp);
    var raw := Unfilter.RawScanlines(img, fts);
    forall i | 0 <= i < |img|
      ensures filtered[i] == raw[i]
    {
      assert Unfilter.FilteredLine(img, i, 0, g.bpp) == img[i];
    }
    assert filtered == raw;
    Unfilter.UnfilterInvertsFilter(img, fts, g);
    FlattenLines(pic.pixels, r, pic.height);
    assert pic.pixels[..Start(r, pic.height)] == pic.pixels;
  }

  /** The number of bytes `png_save` deflates: one filter byte per row on
      top of the pixels. */
  lemma ScanlinesLength(pic: Picture)
    requires Holds(pic)
    ensures |Scanlines(pic)| == pic.height * (pic.width * pic.bpp + 1)
  {
    var r := pic.width * pic.bpp;
    StartIsProduct(r, pic.height);
    var lines := Unfilter.RawScanlines(Lines(pic.pixels, r, pic.height), Zeros(pic.height));
    LinesAre(pic.pixels, r, pic.height);
    assert Uniform(lines, r + 1);
    FlattenLength(lines, r + 1);
    StartIsProduct(r + 1, pic.height);
  }

  /** The IEND step of reading back a written file. */
  lemma FinishReadsBack(pic: Picture, held: Picture, ct: byte, idat: seq<byte>)
    requires held.bpp == pic.bpp
    requires Holds(pic) && 1 <= pic.bpp <= 4 && ColourType(pic.bpp) == Some(ct)
    requires |pic.pixels| == pic.height * (pic.width * pic.bpp)
    requires InflateSpec.Inflate(idat) == InflateSpec.Output(Scanlines(pic))
    requires pic.height > 0 ==> pic.width * pic.bpp + 1 < U32
    ensures Finish(Scan(Some(Header(pic.width, pic.height, 8, ct)), idat, []), held) == Returned(true, pic)
  {
    var h := Header(pic.width, pic.height, 8, ct);
    assert ValuesPerPixel(h) == ValuesPerPixel(Header(0, 0, 8, ct));
    ScanlinesLength(pic);
    if pic.height == 0 {
      assert pic.pixels == [];
    } else {
      var g := Unfilter.Geometry(pic.height, pic.width * pic.bpp, pic.width * pic.bpp + 1, pic.bpp, false, []);
      LayoutUnwrapped(h, pic.bpp, pic.width * pic.bpp);
      ScanlinesUnfilter(pic, g);
      assert Scanlines(pic) != [];
      assert Finish(Scan(Some(h), idat, []), held) == Returned(true, Picture(h.width, h.height, held.bpp, pic.pixels));
    }
  }

  /** Below 2^32 the row bound and the stride of an 8-bit image do not wrap. */
  lemma LayoutUnwrapped(h: Header, bpp: nat, row: nat)
    requires h.bitDepth == 8 && !Indexed(h) && row == h.width * ValuesPerPixel(h) && row + 1 < U32
    ensures Layout(h, bpp, []) == Unfilter.Geometry(h.height, row, row + 1, bpp, false, [])
  {
  }

  /** A row bound of 2^32 wraps to 0: an RGBA image 2^30 pixels wide and one
      row high, whose IDAT data inflates to its lone filter byte, reads back
      as an image of that size with no pixel bytes. */
  lemma WideRowWraps(held: Picture)
    ensures Finish(Scan(Some(Header(0x4000_0000, 1, 8, 6)), Encoder.EncodedRfc([0]), []), held)
      == Returned(true, Picture(0x4000_0000, 1, held.bpp, []))
  {
    var h := Header(0x4000_0000, 1, 8, 6);
    Encoder.RfcRoundTrip([0]);
    WideLayout(held.bpp);
    EmptyRowUnfilters(Layout(h, held.bpp, []));
  }

  /** The geometry of that header: one row whose bound wrapped to 0. */
  lemma WideLayout(bpp: nat)
    ensures var g := Layout(Header(0x4000_0000, 1, 8, 6), bpp, []);
      g.height == 1 && g.rowLen == 0 && !g.indexed
  {
    assert ValuesPerPixel(Header(0x4000_0000, 1, 8, 6)) == 4;
  }

  /** A single row of no values unfilters from its lone filter byte to
      nothing. */
  lemma EmptyRowUnfilters(g: Unfilter.Geometry)
    requires g.height == 1 && g.rowLen == 0 && !g.indexed
    ensures Unfilter.Unfiltered([0], g) == Some([])
  {
    assert Unfilter.Rows([0], g, 1, 1, []) == Some([]);
    assert Unfilter.FilterRow([0], g, 0, 0, 1, 0, []) == Some([]);
  }

  /** The chunks the loop reads from the file `png_save` writes: its IHDR,
      IDAT and IEND. */
  lemma WrittenHeads(pic: Picture, ct: byte, idat: seq<byte>)
    requires pic.width < U32 && pic.height < U32
    requires |idat| < U32
    ensures Heads(Signature + Chunk(Ihdr, IhdrData(pic, ct)) + Chunk(Idat, idat) + Chunk(Iend, []), 8)
      == [Head(13, IHDR, IhdrData(pic, ct)), Head(|idat|, IDAT, idat), Head(0, IEND, [])]
  {
    IhdrReadsBack(pic, ct);
    assert TypeOf(Ihdr) == IHDR && TypeOf(Idat) == IDAT && TypeOf(Iend) == IEND;
    ChunkHead(Ihdr, IhdrData(pic, ct));
    ChunkHead(Idat, idat);
    ChunkHead(Iend, []);
    ChunksSit(Signature, Chunk(Ihdr, IhdrData(pic, ct)), Chunk(Idat, idat), Chunk(Iend, []));
    HeadsOfChunks(Signature + Chunk(Ihdr, IhdrData(pic, ct)) + Chunk(Idat, idat) + Chunk(Iend, []),
                  Chunk(Ihdr, IhdrData(pic, ct)), Chunk(Idat, idat), Chunk(Iend, []),
                  Head(13, IHDR, IhdrData(pic, ct)), Head(|idat|, IDAT, idat), Head(0, IEND, []));
  }

  /** The chunk loop over the chunks `png_save` writes reads the IHDR and the
      IDAT and stops at IEND with the header, the IDAT data and `bpp` set. */
  lemma WrittenWalk(pic: Picture, before: Picture, ct: byte, idat: seq<byte>)
    requires pic.width < U32 && pic.height < U32 && ColourType(pic.bpp) == Some(ct)
    ensures |IhdrData(pic, ct)| == 13
    ensures Walk([Head(13, IHDR, IhdrData(pic, ct)), Head(|idat|, IDAT, idat), Head(0, IEND, [])], Fresh, before)
      == AtEnd(Scan(Some(Header(pic.width, pic.height, 8, ct)), idat, []), before.(bpp := pic.bpp))
  {
    var d1 := IhdrData(pic, ct);
    IhdrReadsBack(pic, ct);
    var h := Header(pic.width, pic.height, 8, ct);
    assert ValuesPerPixel(h) == ValuesPerPixel(Header(0, 0, 8, ct));
    var hs := [Head(13, IHDR, d1), Head(|idat|, IDAT, idat), Head(0, IEND, [])];
    var pic1 := before.(bpp := pic.bpp);
    var sc1 := Scan(Some(h), [], []);
    var sc2 := Scan(Some(h), idat, []);
    var rest1, rest2 := [Head(|idat|, IDAT, idat), Head(0, IEND, [])], [Head(0, IEND, [])];
    assert hs[1..] == rest1 && rest1[1..] == rest2 && rest2[1..] == [];
    assert Visited(hs[0], Fresh, before) == Goes(sc1, pic1);
    assert Walk(hs, Fresh, before) == Walk(rest1, sc1, pic1);
    assert Visited(rest1[0], sc1, pic1) == Goes(sc2, pic1);
    assert Walk(rest1, sc1, pic1) == Walk(rest2, sc2, pic1);
    assert Walk(rest2, sc2, pic1) == AtEnd(sc2, pic1);
  }

  /** Reading back the file `png_save` writes restores the image, whatever
      the image held before, given the 32-bit chunk length: always with the
      corrected encoder, and with `yan_inflate` as written when the bytes it
      deflates come in whole 255-byte blocks. */
  lemma PngRoundTrip(pic: Picture, before: Picture, corrected: bool)
    requires Saveable(pic) && 1 <= pic.bpp <= 4
    requires |pic.pixels| == pic.height * (pic.width * pic.bpp)
    requires pic.height * (pic.width * pic.bpp + 1) < 0x2000_0000
    requires !corrected ==> var n := pic.height * (pic.width * pic.bpp + 1);
      n > 0 && n % Encoder.BlockSize == 0
    ensures ReadPng(PngFile(pic, corrected), before) == Returned(true, pic)
  {
    var ct := ColourType(pic.bpp).value;
    var raw := Scanlines(pic);
    ScanlinesLength(pic);
    var idat := if corrected then Encoder.EncodedRfc(raw) else Encoder.Encoded(raw);
    Encoder.EncodedLength(raw);
    if corrected {
      Encoder.RfcRoundTrip(raw);
    } else {
      Encoder.SourceRoundTrip(raw);
    }
    assert PngFile(pic, corrected) == Signature + Chunk(Ihdr, IhdrData(pic, ct)) + Chunk(Idat, idat) + Chunk(Iend, []);
    WrittenHeads(pic, ct, idat);
    WrittenWalk(pic, before, ct, idat);
    var pic1 := before.(bpp := pic.bpp);
    if pic.height > 0 {
      assert pic.width * pic.bpp + 1 <= pic.height * (pic.width * pic.bpp + 1);
    }
    FinishReadsBack(pic, pic1, ct, idat);
  }
}
