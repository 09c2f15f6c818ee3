/** The pixel arithmetic of `YandereImage`: where `pixel_color_pos` puts a
    colour value, and what the per-pixel loops of `grayscale`, `bpp_resize`,
    `flip`, `ppm_save` and `png_save` produce from the pixel bytes. An image
    of `width` by `height` pixels of `bpp` bytes holds its pixels row after
    row, so pixel `(x, y)` is pixel number `y * width + x` of the stream. */
module Pixels {
  import opened Bytes
  import opened Raster
  import Adler

  // ---------------------------------------------------------------------
  // Positions
  // ---------------------------------------------------------------------

  /** The bytes a `width` by `height` image of `bpp`-byte pixels takes. */
  function Size(width: nat, height: nat, bpp: nat): nat {
    Start(bpp, Start(width, height))
  }

  /** `pixel_color_pos`: `y * width * bpp + x * bpp + color` in `unsigned`
      arithmetic, that is modulo 2^32. */
  function ColorPos(width: nat, bpp: nat, x: nat, y: nat, color: nat): (p: nat)
    ensures p < U32
  {
    (y * width * bpp + x * bpp + color) % U32
  }

  /** Adding blocks: `a + b` blocks of `m` bytes. */
  lemma {:induction false} StartAdd(m: nat, a: nat, b: nat)
    ensures Start(m, a + b) == Start(m, a) + Start(m, b)
    decreases b
  {
    if b > 0 {
      StartAdd(m, a, b - 1);
    }
  }

  /** `y` rows of `width` pixels of `bpp` bytes are `y * width` pixels. */
  lemma {:induction false} StartNest(bpp: nat, width: nat, y: nat)
    ensures Start(Start(bpp, width), y) == Start(bpp, Start(width, y))
    decreases y
  {
    if y > 0 {
      StartNest(bpp, width, y - 1);
      StartAdd(bpp, Start(width, y - 1), width);
    }
  }

  /** The size is the product the source reserves. */
  lemma SizeIsProduct(width: nat, height: nat, bpp: nat)
    ensures Size(width, height, bpp) == height * (width * bpp)
  {
    StartIsProduct(width, height);
    StartIsProduct(bpp, height * width);
  }

  /** Row `y` starts where pixel `y * width` does, and pixel `x` of it sits
      `x * bpp` bytes further on. */
  lemma Nested(width: nat, bpp: nat, y: nat, x: nat)
    ensures Start(Start(bpp, width), y) + Start(bpp, x) == Start(bpp, Start(width, y) + x)
  {
    StartNest(bpp, width, y);
    StartAdd(bpp, Start(width, y), x);
  }

  /** A pixel inside the image lies inside its first `Size` bytes. */
  lemma PixelWithin(width: nat, height: nat, bpp: nat, x: nat, y: nat, c: nat)
    requires x < width && y < height && c < bpp
    ensures Start(bpp, Start(width, y) + x) + c < Size(width, height, bpp)
  {
    StartMonotone(width, y + 1, height);
    StartWithin(bpp, Start(width, y) + x, c, Start(width, height));
  }

  /** Inside an image of at most 2^32 bytes the position does not wrap: it
      is the offset of colour `c` of pixel `y * width + x`, inside the
      image. */
  lemma ColorPosAt(width: nat, height: nat, bpp: nat, x: nat, y: nat, c: nat)
    requires x < width && y < height && c < bpp && Size(width, height, bpp) <= U32
    ensures ColorPos(width, bpp, x, y, c) == Start(bpp, Start(width, y) + x) + c
    ensures ColorPos(width, bpp, x, y, c) < Size(width, height, bpp)
  {
    PixelWithin(width, height, bpp, x, y, c);
    ProductIsStart(width, bpp, x, y);
  }

  /** The products of `pixel_color_pos` are the repeated sums. */
  lemma ProductIsStart(width: nat, bpp: nat, x: nat, y: nat)
    ensures y * width * bpp + x * bpp == Start(bpp, Start(width, y) + x)
  {
    StartIsProduct(width, y);
    StartIsProduct(bpp, y * width + x);
    assert (y * width + x) * bpp == y * width * bpp + x * bpp;
  }

  /** Distinct colour values of distinct pixels have distinct positions. */
  lemma {:induction false} ColorPosUnique(width: nat, height: nat, bpp: nat,
                                          x: nat, y: nat, c: nat, x': nat, y': nat, c': nat)
    requires x < width && y < height && c < bpp
    requires x' < width && y' < height && c' < bpp
    requires Size(width, height, bpp) <= U32
    requires ColorPos(width, bpp, x, y, c) == ColorPos(width, bpp, x', y', c')
    ensures x == x' && y == y' && c == c'
  {
    ColorPosAt(width, height, bpp, x, y, c);
    ColorPosAt(width, height, bpp, x', y', c');
    SameSlot(bpp, Start(width, y) + x, c, Start(width, y') + x', c');
    SameSlot(width, y, x, y', x');
  }

  /** Block `i` and offset `j` are the only ones that name `Start(m, i) + j`. */
  lemma SameSlot(m: nat, i: nat, j: nat, i': nat, j': nat)
    requires j < m && j' < m && Start(m, i) + j == Start(m, i') + j'
    ensures i == i' && j == j'
  {
    if i < i' {
      StartGap(m, i, i');
    } else if i' < i {
      StartGap(m, i', i);
    }
  }

  /** A later block starts at least a whole block later. */
  lemma {:induction false} StartGap(m: nat, a: nat, b: nat)
    requires a < b
    ensures Start(m, a) + m <= Start(m, b)
    decreases b
  {
    if a < b - 1 {
      StartGap(m, a, b - 1);
    }
  }

  // ---------------------------------------------------------------------
  // Pixels
  // ---------------------------------------------------------------------

  /** Pixel number `i` of a stream of `bpp`-byte pixels. */
  function PixelOf(s: seq<byte>, bpp: nat, i: nat): (p: seq<byte>)
    requires Start(bpp, i + 1) <= |s|
    ensures |p| == bpp
  {
    s[Start(bpp, i)..Start(bpp, i + 1)]
  }

  // ---------------------------------------------------------------------
  // grayscale
  // ---------------------------------------------------------------------

  /** The sum of a pixel's bytes lies between `n` times its darkest and `n`
      times its brightest byte. */
  lemma {:induction false} SumBetween(p: seq<byte>, lo: nat, hi: nat)
    requires forall c :: 0 <= c < |p| ==> lo <= p[c] <= hi
    ensures Start(lo, |p|) <= Adler.Sum(p) <= Start(hi, |p|)
    decreases |p|
  {
    if p != [] {
      SumBetween(p[..|p| - 1], lo, hi);
    }
  }

  /** `a / n` rounded down, by repeated subtraction. */
  function Quotient(a: nat, n: nat): nat
    requires 0 < n
    decreases a
  {
    if a < n then 0 else 1 + Quotient(a - n, n)
  }

  /** A number between `lo` and `hi` blocks of `n` holds between `lo` and
      `hi` whole blocks. */
  lemma {:induction false} QuotientBetween(a: nat, n: nat, lo: nat, hi: nat)
    requires 0 < n && Start(n, lo) <= a <= Start(n, hi)
    ensures lo <= Quotient(a, n) <= hi
    decreases a
  {
    if a < n {
      if lo > 0 {
        assert false;
      }
    } else {
      if hi == 0 {
        assert false;
      }
      QuotientBetween(a - n, n, if lo == 0 then 0 else lo - 1, hi - 1);
    }
  }

  /** Repeated subtraction is the `unsigned` division of the source. */
  lemma {:induction false} QuotientIsDivision(a: nat, n: nat)
    requires 0 < n
    ensures Quotient(a, n) == a / n
    decreases a
  {
    if a >= n {
      QuotientIsDivision(a - n, n);
      DivUnique(a, n, (a - n) / n + 1, (a - n) % n);
    }
  }

  lemma DivUnique(a: nat, n: nat, q: nat, r: nat)
    requires r < n && a == q * n + r
    ensures a / n == q
  {
    var q0, r0 := a / n, a % n;
    assert a == q0 * n + r0 && r0 < n;
    MulStep(q0, n);
    MulStep(q, n);
    if q0 < q {
      MulMonotone(q0 + 1, q, n);
    } else if q < q0 {
      MulMonotone(q + 1, q0, n);
    }
  }

  lemma MulStep(k: nat, n: nat)
    ensures (k + 1) * n == k * n + n
  {
  }

  lemma MulMonotone(a: nat, b: nat, n: nat)
    requires a <= b
    ensures a * n <= b * n
  {
  }

  /** `m` blocks of `n` are `n` blocks of `m`. */
  lemma StartSwap(m: nat, n: nat)
    ensures Start(m, n) == Start(n, m)
  {
    StartIsProduct(m, n);
    StartIsProduct(n, m);
  }

  /** The `unsigned` average of `grayscale`: the sum of the pixel's bytes
      divided by their number, rounded down. */
  function Mean(p: seq<byte>): (m: byte)
    requires p != []
  {
    SumBetween(p, 0, 255);
    StartSwap(255, |p|);
    QuotientBetween(Adler.Sum(p), |p|, 0, 255);
    Quotient(Adler.Sum(p), |p|)
  }

  /** The average lies between the pixel's darkest and brightest byte, so a
      grey pixel, whose bytes are all `v`, averages to `v`. */
  lemma MeanBetween(p: seq<byte>, lo: nat, hi: nat)
    requires p != []
    requires forall c :: 0 <= c < |p| ==> lo <= p[c] <= hi
    ensures lo <= Mean(p) <= hi
  {
    SumBetween(p, lo, hi);
    StartSwap(lo, |p|);
    StartSwap(hi, |p|);
    QuotientBetween(Adler.Sum(p), |p|, lo, hi);
  }

  /** The averages of the first `n` pixels, one byte each. */
  function Grays(s: seq<byte>, bpp: nat, n: nat): (t: seq<byte>)
    requires (0 < bpp || n == 0) && Start(bpp, n) <= |s|
    ensures |t| == n
    decreases n
  {
    if n == 0 then []
    else
      StartMonotone(bpp, n - 1, n);
      Grays(s, bpp, n - 1) + [Mean(PixelOf(s, bpp, n - 1))]
  }

  /** One more pixel appends its average. */
  lemma GraysNext(s: seq<byte>, bpp: nat, n: nat)
    requires 0 < bpp && Start(bpp, n + 1) <= |s|
    ensures Start(bpp, n) <= |s|
    ensures Grays(s, bpp, n + 1) == Grays(s, bpp, n) + [Mean(PixelOf(s, bpp, n))]
  {
  }

  /** The average is the `unsigned` division of the sum by the number of
      bytes. */
  lemma MeanIsDivision(p: seq<byte>)
    requires p != []
    ensures Mean(p) == Adler.Sum(p) / |p|
  {
    QuotientIsDivision(Adler.Sum(p), |p|);
  }

  /** Grey pixel `i` is the average of pixel `i`. */
  lemma {:induction false} GraysAt(s: seq<byte>, bpp: nat, n: nat, i: nat)
    requires 0 < bpp && Start(bpp, n) <= |s| && i < n
    ensures Start(bpp, i + 1) <= |s|
    ensures Grays(s, bpp, n)[i] == Mean(PixelOf(s, bpp, i))
    decreases n
  {
    StartMonotone(bpp, i + 1, n);
    if i < n - 1 {
      StartMonotone(bpp, n - 1, n);
      GraysAt(s, bpp, n - 1, i);
    }
  }

  // ---------------------------------------------------------------------
  // bpp_resize
  // ---------------------------------------------------------------------

  /** A pixel cut or padded to `d` bytes, the new ones `extra`. */
  function Pad(p: seq<byte>, d: nat, extra: byte): (q: seq<byte>)
    ensures |q| == d
  {
    seq(d, c requires 0 <= c < d => if c < |p| then p[c] else extra)
  }

  /** The first `n` pixels, each cut or padded to `d` bytes. */
  function Recolored(s: seq<byte>, bpp: nat, n: nat, d: nat, extra: byte): (t: seq<byte>)
    requires Start(bpp, n) <= |s|
    ensures |t| == Start(d, n)
    decreases n
  {
    if n == 0 then []
    else
      StartMonotone(bpp, n - 1, n);
      Recolored(s, bpp, n - 1, d, extra) + Pad(PixelOf(s, bpp, n - 1), d, extra)
  }

  /** One more pixel appends it, cut or padded. */
  lemma RecoloredNext(s: seq<byte>, bpp: nat, n: nat, d: nat, extra: byte)
    requires Start(bpp, n + 1) <= |s|
    ensures Start(bpp, n) <= |s|
    ensures Recolored(s, bpp, n + 1, d, extra) == Recolored(s, bpp, n, d, extra) + Pad(PixelOf(s, bpp, n), d, extra)
  {
  }

  /** Colour value `c` of recoloured pixel `i`: the pixel's own below its
      old size, `extra` from there on. */
  lemma {:induction false} RecoloredAt(s: seq<byte>, bpp: nat, n: nat, d: nat, extra: byte, i: nat, c: nat)
    requires Start(bpp, n) <= |s| && i < n && c < d
    ensures Start(bpp, i + 1) <= |s|
    ensures Start(d, i) + c < Start(d, n)
    ensures Recolored(s, bpp, n, d, extra)[Start(d, i) + c]
         == if c < bpp then PixelOf(s, bpp, i)[c] else extra
    decreases n
  {
    StartMonotone(bpp, i + 1, n);
    StartWithin(d, i, c, n);
    StartMonotone(bpp, n - 1, n);
    var front := Recolored(s, bpp, n - 1, d, extra);
    var last := Pad(PixelOf(s, bpp, n - 1), d, extra);
    assert Recolored(s, bpp, n, d, extra) == front + last;
    if i < n - 1 {
      RecoloredAt(s, bpp, n - 1, d, extra, i, c);
      assert (front + last)[Start(d, i) + c] == front[Start(d, i) + c];
    } else {
      assert (front + last)[|front| + c] == last[c];
    }
  }

  /** Bytes after the first `n` pixels do not matter. */
  lemma {:induction false} RecoloredPrefix(s: seq<byte>, t: seq<byte>, bpp: nat, n: nat, d: nat, extra: byte)
    requires Start(bpp, n) <= |s|
    ensures Recolored(s + t, bpp, n, d, extra) == Recolored(s, bpp, n, d, extra)
    decreases n
  {
    if n > 0 {
      StartMonotone(bpp, n - 1, n);
      RecoloredPrefix(s, t, bpp, n - 1, d, extra);
      assert PixelOf(s + t, bpp, n - 1) == PixelOf(s, bpp, n - 1);
    }
  }

  /** Padding a pixel and cutting it back to its size gives it back. */
  lemma PadCut(p: seq<byte>, d: nat, e: byte, e': byte)
    requires |p| <= d
    ensures Pad(Pad(p, d, e), |p|, e') == p
  {
  }

  /** Widening the pixels and narrowing them back gives the image back,
      whatever the padding bytes. */
  lemma {:induction false} RecolorBack(s: seq<byte>, bpp: nat, n: nat, d: nat, e: byte, e': byte)
    requires Start(bpp, n) <= |s| && bpp <= d
    ensures Recolored(Recolored(s, bpp, n, d, e), d, n, bpp, e') == s[..Start(bpp, n)]
    decreases n
  {
    if n > 0 {
      StartMonotone(bpp, n - 1, n);
      var front := Recolored(s, bpp, n - 1, d, e);
      var p := PixelOf(s, bpp, n - 1);
      var wide := Pad(p, d, e);
      var m := front + wide;
      assert Recolored(s, bpp, n, d, e) == m;
      assert |m| == Start(d, n - 1) + d == Start(d, n);
      RecolorBack(s, bpp, n - 1, d, e, e');
      RecoloredPrefix(front, wide, d, n - 1, bpp, e');
      assert PixelOf(m, d, n - 1) == wide;
      PadCut(p, d, e, e');
      assert Recolored(m, d, n, bpp, e') == Recolored(m, d, n - 1, bpp, e') + p;
      assert s[..Start(bpp, n - 1)] + p == s[..Start(bpp, n)];
    }
  }

  // ---------------------------------------------------------------------
  // flip
  // ---------------------------------------------------------------------

  /** The elements of `t` in the opposite order. */
  function Reversed<T>(t: seq<T>): (u: seq<T>)
    ensures |u| == |t|
  {
    if t == [] then [] else Reversed(t[1..]) + [t[0]]
  }

  /** Element `i` of the reversal is element `|t| - 1 - i` of `t`. */
  lemma {:induction false} ReversedAt<T>(t: seq<T>, i: nat)
    requires i < |t|
    ensures Reversed(t)[i] == t[|t| - 1 - i]
    decreases |t|
  {
    if i < |t| - 1 {
      ReversedAt(t[1..], i);
    }
  }

  /** Reversing twice gives the sequence back. */
  lemma ReversedTwice<T>(t: seq<T>)
    ensures Reversed(Reversed(t)) == t
  {
    forall i | 0 <= i < |t|
      ensures Reversed(Reversed(t))[i] == t[i]
    {
      ReversedAt(Reversed(t), i);
      ReversedAt(t, |t| - 1 - i);
    }
  }

  /** The image upside down: its first `height` rows of `r` bytes, last row
      first. */
  function Flipped(s: seq<byte>, r: nat, height: nat): seq<byte>
    requires Start(r, height) <= |s|
  {
    Flatten(Reversed(Lines(s, r, height)))
  }

  /** The rows of a raster, reversed, are all `r` bytes long. */
  lemma ReversedUniform(s: seq<byte>, r: nat, height: nat)
    requires Start(r, height) <= |s|
    ensures Uniform(Reversed(Lines(s, r, height)), r)
  {
    LinesAre(s, r, height);
    var rows := Lines(s, r, height);
    forall i | 0 <= i < height
      ensures |Reversed(rows)[i]| == r
    {
      ReversedAt(rows, i);
    }
  }

  /** Flipping keeps the size, and byte `j` of row `y` of the flipped
      image is byte `j` of row `height - 1 - y` of the image. */
  lemma FlippedAt(s: seq<byte>, r: nat, height: nat, y: nat, j: nat)
    requires Start(r, height) <= |s| && y < height && j < r
    ensures |Flipped(s, r, height)| == Start(r, height)
    ensures Start(r, y) + j < Start(r, height) && Start(r, height - 1 - y) + j < Start(r, height)
    ensures Flipped(s, r, height)[Start(r, y) + j] == s[Start(r, height - 1 - y) + j]
  {
    var rows := Lines(s, r, height);
    ReversedUniform(s, r, height);
    FlattenLength(Reversed(rows), r);
    FlattenIndex(Reversed(rows), r, y, j);
    ReversedAt(rows, y);
    LinesAre(s, r, height);
    StartWithin(r, y, j, height);
    StartWithin(r, height - 1 - y, j, height);
  }

  /** Flipping an image twice gives it back. */
  lemma FlipTwice(s: seq<byte>, r: nat, height: nat)
    requires Start(r, height) == |s|
    ensures |Flipped(s, r, height)| == |s|
    ensures Flipped(Flipped(s, r, height), r, height) == s
  {
    var rows := Lines(s, r, height);
    ReversedUniform(s, r, height);
    LinesFlatten(Reversed(rows), r);
    FlattenLength(Reversed(rows), r);
    ReversedTwice(rows);
    FlattenLines(s, r, height);
    assert s[..Start(r, height)] == s;
  }

  // ---------------------------------------------------------------------
  // pgm_save and ppm_save
  // ---------------------------------------------------------------------

  /** The ASCII codes the headers use. */
  const Newline: byte := 10
  const Zero: byte := 48

  /** `std::to_string` of an `unsigned`: its decimal digits in ASCII, most
      significant first, without leading zeros. */
  function Decimal(n: nat): (d: seq<byte>)
    ensures 1 <= |d|
    ensures forall i :: 0 <= i < |d| ==> Zero <= d[i] < Zero + 10
    ensures |d| > 1 ==> d[0] != Zero
    decreases n
  {
    if n < 10 then [Zero + n] else Decimal(n / 10) + [Zero + n % 10]
  }

  /** The number a string of ASCII digits spells. */
  function DecimalValue(d: seq<byte>): nat
    requires forall i :: 0 <= i < |d| ==> Zero <= d[i] < Zero + 10
  {
    if d == [] then 0 else 10 * DecimalValue(d[..|d| - 1]) + (d[|d| - 1] - Zero)
  }

  /** Reading the digits back gives the number. */
  lemma {:induction false} DecimalRoundTrip(n: nat)
    ensures DecimalValue(Decimal(n)) == n
    decreases n
  {
    if n >= 10 {
      var d := Decimal(n);
      DecimalRoundTrip(n / 10);
      assert d[..|d| - 1] == Decimal(n / 10);
    }
  }

  /** The header of a binary PGM (`magic` '5') or PPM (`magic` '6') file:
      the magic number, width, height and the maximum value 255, each
      followed by a newline. */
  function PnmHeader(magic: byte, width: nat, height: nat): seq<byte> {
    [0x50, magic, Newline] + Decimal(width) + [Newline] + Decimal(height) + [Newline]
      + [0x32, 0x35, 0x35, Newline]
  }

  /** The fields of a PNM file as a reader splits them. */
  datatype Pnm = Pnm(magic: byte, width: nat, height: nat, maxval: nat, data: seq<byte>)

  /** The bytes up to the first newline, and those after it. */
  function Token(s: seq<byte>): (r: Option<(seq<byte>, seq<byte>)>)
    ensures r.Some? ==> |r.value.1| < |s| && s == r.value.0 + [Newline] + r.value.1
    decreases |s|
  {
    if s == [] then None
    else if s[0] == Newline then Some(([], s[1..]))
    else
      match Token(s[1..])
      case None => None
      case Some((a, b)) => Some(([s[0]] + a, b))
  }

  /** The digits are a decimal number. */
  predicate IsDecimal(d: seq<byte>) {
    d != [] && forall i :: 0 <= i < |d| ==> Zero <= d[i] < Zero + 10
  }

  /** A field of digits ended by a newline, and what follows. */
  function Field(s: seq<byte>): (r: Option<(nat, seq<byte>)>)
    ensures r.Some? ==> |r.value.1| < |s|
  {
    match Token(s)
    case None => None
    case Some((a, b)) => if IsDecimal(a) then Some((DecimalValue(a), b)) else None
  }

  /** Reading a PNM file the way its header is laid out: "P", the magic
      digit and a newline, then width, height and maximum value. */
  function ReadPnm(f: seq<byte>): Option<Pnm> {
    if |f| < 3 || f[0] != 0x50 || f[2] != Newline then None
    else
      match Field(f[3..])
      case None => None
      case Some((w, r1)) =>
        match Field(r1)
        case None => None
        case Some((h, r2)) =>
          match Field(r2)
          case None => None
          case Some((m, r3)) => Some(Pnm(f[1], w, h, m, r3))
  }

  /** The digits of a number hold no newline, so the token ends where they
      do. */
  lemma {:induction false} TokenAfterDigits(d: seq<byte>, rest: seq<byte>)
    requires forall i :: 0 <= i < |d| ==> Zero <= d[i] < Zero + 10
    ensures Token(d + [Newline] + rest) == Some((d, rest))
    decreases |d|
  {
    if d != [] {
      TokenAfterDigits(d[1..], rest);
      assert (d + [Newline] + rest)[1..] == d[1..] + [Newline] + rest;
      assert [d[0]] + d[1..] == d;
    } else {
      assert (d + [Newline] + rest)[1..] == rest;
    }
  }

  /** A number written by `Decimal` and a newline is read back. */
  lemma FieldOfDecimal(n: nat, rest: seq<byte>)
    ensures Field(Decimal(n) + [Newline] + rest) == Some((n, rest))
  {
    TokenAfterDigits(Decimal(n), rest);
    DecimalRoundTrip(n);
  }

  /** A reader gets back the magic digit, width, height, the maximum value
      255 and the pixel bytes that follow the header. */
  lemma PnmReadsBack(magic: byte, width: nat, height: nat, data: seq<byte>)
    ensures ReadPnm(PnmHeader(magic, width, height) + data) == Some(Pnm(magic, width, height, 255, data))
  {
    var f := PnmHeader(magic, width, height) + data;
    var r1 := Decimal(height) + [Newline] + [0x32, 0x35, 0x35, Newline] + data;
    var r2 := [0x32, 0x35, 0x35] + [Newline] + data;
    assert f[3..] == Decimal(width) + [Newline] + r1;
    FieldOfDecimal(width, r1);
    assert r1 == Decimal(height) + [Newline] + r2;
    FieldOfDecimal(height, r2);
    assert [0x32, 0x35, 0x35] == Decimal(255);
    FieldOfDecimal(255, data);
  }

  /** `pgm_save`: nothing for an image that is not one byte per pixel;
      otherwise the "P5" header and every byte of the image. */
  function PgmFile(width: nat, height: nat, bpp: nat, image: seq<byte>): (f: Option<seq<byte>>)
    ensures f.Some? <==> bpp == 1
  {
    if bpp != 1 then None else Some(PnmHeader(0x35, width, height) + image)
  }

  /** `ppm_save`: nothing for an image that is not three bytes per pixel;
      otherwise the "P6" header and the colour values of every pixel, row
      after row. */
  function PpmFile(width: nat, height: nat, bpp: nat, image: seq<byte>): (f: Option<seq<byte>>)
    requires bpp == 3 ==> Size(width, height, bpp) <= |image|
    ensures f.Some? <==> bpp == 3
  {
    if bpp != 3 then None
    else Some(PnmHeader(0x36, width, height) + image[..Size(width, height, bpp)])
  }

  /** A saved PPM file reads back as the image: its size, the maximum
      value 255 and exactly the image's pixel bytes. */
  lemma PpmReadsBack(width: nat, height: nat, image: seq<byte>)
    requires Size(width, height, 3) == |image|
    ensures ReadPnm(PpmFile(width, height, 3, image).value) == Some(Pnm(0x36, width, height, 255, image))
  {
    assert image[..Size(width, height, 3)] == image;
    PnmReadsBack(0x36, width, height, image);
  }

  /** A saved PGM file reads back as the image. */
  lemma PgmReadsBack(width: nat, height: nat, image: seq<byte>)
    ensures ReadPnm(PgmFile(width, height, 1, image).value) == Some(Pnm(0x35, width, height, 255, image))
  {
    PnmReadsBack(0x35, width, height, image);
  }
}
