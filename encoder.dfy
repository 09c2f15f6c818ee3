/** `yan_inflate` (yanconv.cpp), which, despite its name, compresses: it
    writes a zlib stream (RFC 1950) of DEFLATE stored blocks (RFC 1951
    section 3.2.4). Only stored blocks are reachable, since the block type
    is fixed at 0. */
module Encoder {
  import opened Bytes
  import opened Adler
  import opened InflateSpec
  import opened InflateProps

  /** `cmfData`: compression method 8, window information 7. */
  const Cmf: byte := 0x78

  /** `flgData`: FLEVEL and FDICT are 0, and FCHECK is whatever makes
      `CMF * 256 + FLG` a multiple of 31. */
  function Flg(cmf: byte): byte {
    var rem := (cmf as int * 256) % 31;
    if rem != 0 then 31 - rem else 0
  }

  /** Whatever CMF is, FCHECK makes the header word a multiple of 31. */
  lemma {:induction false} FlgMakesMultiple(cmf: byte)
    ensures (cmf as int * 256 + Flg(cmf)) % 31 == 0
  {
    var x := cmf as int * 256;
    assert x == 31 * (x / 31) + x % 31;
  }

  /** The number of input bytes a stored block holds. */
  const BlockSize: nat := 255

  /** The five bytes before a stored block's data: the BFINAL/BTYPE byte,
      LEN and its ones' complement NLEN, both little-endian. */
  function BlockHeader(final: bool, len: nat): (h: seq<byte>)
    requires len < 0x1_0000
    ensures |h| == 5
  {
    [if final then 1 else 0, len % 256, len / 256, 255 - len % 256, 255 - len / 256]
  }

  /** The stored blocks for the input from index `i` on: at most 255 bytes
      each, BFINAL set on the block that reaches the end of the input. The
      source writes LEN = 255 in every block (`exact` false); with `exact`
      set, LEN is the number of bytes the block holds. */
  function StoredBlocks(input: seq<byte>, i: nat, exact: bool): seq<byte>
    requires i <= |input|
    decreases |input| - i
  {
    var last := i + BlockSize >= |input|;
    var bound := if last then |input| else i + BlockSize;
    var block := BlockHeader(last, if exact then bound - i else BlockSize) + input[i..bound];
    if last then block else block + StoredBlocks(input, bound, exact)
  }

  /** The first block of the blocks from `i` on, and the blocks after it. */
  lemma {:induction false} StoredBlocksUnfold(input: seq<byte>, i: nat, exact: bool)
    requires i <= |input|
    ensures var last := i + BlockSize >= |input|;
      var bound := if last then |input| else i + BlockSize;
      StoredBlocks(input, i, exact)
        == BlockHeader(last, if exact then bound - i else BlockSize) + input[i..bound] +
           (if last then [] else StoredBlocks(input, bound, exact))
  {
  }

  /** The stream `yan_inflate` returns. */
  function Encoded(input: seq<byte>): seq<byte> {
    [Cmf, Flg(Cmf)] + StoredBlocks(input, 0, false) + Trailer(SourceSums(input))
  }

  /** The stream with the two corrections: LEN is the block's length and
      the trailer is Adler-32. */
  function EncodedRfc(input: seq<byte>): seq<byte> {
    [Cmf, Flg(Cmf)] + StoredBlocks(input, 0, true) + Trailer(Adler32(input))
  }

  // ---------------------------------------------------------------------
  // The source's loops
  // ---------------------------------------------------------------------

  /** `yan_inflate`: the header, the block loop with its inner copy loop,
      and the checksum loop. */
  method Encode(input: seq<byte>) returns (out: seq<byte>)
    ensures out == Encoded(input)
  {
    out := [Cmf, Flg(Cmf)];
    var n := |input|;
    var i := 0;
    var last := false;
    while !last
      invariant i <= n
      invariant last ==> i == n
      invariant (if last then out else out + StoredBlocks(input, i, false))
             == [Cmf, Flg(Cmf)] + StoredBlocks(input, 0, false)
      decreases n - i, if last then 0 else 1
    {
      var edge := i + BlockSize;
      last := edge >= n;
      var bound := if edge < n then edge else n;
      ghost var before := out;
      ghost var start := i;
      out := CopyRange(out + BlockHeader(last, BlockSize), input, i, bound);
      i := bound;
      ghost var rest := if last then [] else StoredBlocks(input, i, false);
      StoredBlocksUnfold(input, start, false);
      Regroup(before, BlockHeader(last, BlockSize), input[start..i], rest);
    }
    var s1, s2 := SumsLoop(input);
    out := out + Trailer((s1, s2));
  }

  /** The copy loop `for (; i < maxBound; ++i) emplace_back(inputData[i])`. */
  method CopyRange(out0: seq<byte>, input: seq<byte>, from: nat, to: nat) returns (out: seq<byte>)
    requires from <= to <= |input|
    ensures out == out0 + input[from..to]
  {
    out := out0;
    var i := from;
    while i < to
      invariant from <= i <= to
      invariant out == out0 + input[from..i]
    {
      assert input[from..i + 1] == input[from..i] + [input[i]];
      out := out + [input[i]];
      i := i + 1;
    }
  }

  lemma {:induction false} Regroup(a: seq<byte>, b: seq<byte>, c: seq<byte>, d: seq<byte>)
    ensures a + b + c + d == a + (b + c + d)
  {
  }

  /** The checksum loop: `adlerSum1 += inputData[s] % 65521` and
      `adlerSum2 += adlerSum1 % 65521` on 32-bit `int`s. */
  method SumsLoop(input: seq<byte>) returns (s1: nat, s2: nat)
    ensures (s1, s2) == SourceSums(input)
  {
    s1, s2 := 1, 0;
    var k := 0;
    while k < |input|
      invariant 0 <= k <= |input|
      invariant (s1, s2) == SourceSums(input[..k])
    {
      assert input[..k + 1][..k] == input[..k];
      s1 := (s1 + input[k] % Base) % U32;
      s2 := (s2 + TruncRem(Signed(s1), Base)) % U32;
      k := k + 1;
    }
    assert input[..k] == input;
  }

  // ---------------------------------------------------------------------
  // Round trips through the decoder
  // ---------------------------------------------------------------------

  /** The header `yan_inflate` writes is 0x78 0x01 and passes the check of
      the decoder. */
  lemma {:induction false} HeaderIsZlib()
    ensures Flg(Cmf) == 0x01
    ensures MethodAccepted(Cmf) && (Cmf as int * 256 + Flg(Cmf) as int) % 31 == 0
  {
  }

  /** Slicing a stream that holds `x + y` at byte `a`. */
  lemma {:induction false} SliceSplit(data: seq<byte>, a: nat, x: seq<byte>, y: seq<byte>)
    requires a + |x| + |y| <= |data| && data[a..a + |x| + |y|] == x + y
    ensures data[a..a + |x|] == x
    ensures data[a + |x|..a + |x| + |y|] == y
  {
    var w := data[a..a + |x| + |y|];
    assert w[..|x|] == x && w[|x|..] == y;
    assert data[a..a + |x|] == w[..|x|];
    assert data[a + |x|..a + |x| + |y|] == w[|x|..];
  }

  /** The stream holds the exact blocks for the input from index `i` on,
      starting at byte `q`. */
  predicate HoldsBlocks(data: seq<byte>, q: nat, input: seq<byte>, i: nat)
    requires i <= |input|
  {
    q + |StoredBlocks(input, i, true)| <= |data| && data[q..q + |StoredBlocks(input, i, true)|] == StoredBlocks(input, i, true)
  }

  /** The blocks from index `i` on, wherever they sit in the stream, decode
      to the rest of the input when their LEN fields are exact. */
  lemma {:induction false} ExactBlocksDecode(data: seq<byte>, q: nat, input: seq<byte>, i: nat)
    requires i <= |input| && HoldsBlocks(data, q, input, i)
    ensures Blocks(data, 8 * q, input[..i]) == Output(input)
    decreases |input| - i
  {
    var last := i + BlockSize >= |input|;
    var bound := if last then |input| else i + BlockSize;
    ExactBlockStep(data, q, input, i, last, bound);
    if !last {
      ExactBlocksDecode(data, q + 5 + (bound - i), input, bound);
    }
  }

  /** One exact block, covering the input from `i` to `bound`: decoding it
      either ends with the whole input or goes on at the next block with the
      input up to `bound`. */
  lemma {:induction false} ExactBlockStep(data: seq<byte>, q: nat, input: seq<byte>, i: nat, last: bool, bound: nat)
    requires i <= |input| && HoldsBlocks(data, q, input, i)
    requires last == (i + BlockSize >= |input|)
    requires bound == if last then |input| else i + BlockSize
    ensures last ==> Blocks(data, 8 * q, input[..i]) == Output(input)
    ensures !last ==> Blocks(data, 8 * q, input[..i]) == Blocks(data, 8 * (q + 5 + (bound - i)), input[..bound])
    ensures !last ==> HoldsBlocks(data, q + 5 + (bound - i), input, bound)
  {
    var body := input[i..bound];
    FirstBlockHeld(data, q, input, i, last, bound);
    BlockDecodes(data, q, last, bound - i, body, input[..i]);
    PrefixExtend(input, i, bound);
  }

  /** The input up to `i`, then from `i` to `bound`, is the input up to `bound`. */
  lemma {:induction false} PrefixExtend(input: seq<byte>, i: nat, bound: nat)
    requires i <= bound <= |input|
    ensures input[..i] + input[i..bound] == input[..bound]
    ensures bound == |input| ==> input[..bound] == input
  {
  }

  /** Where the stream holds the blocks from `i` on, it holds the first of
      them, and the others right after it. */
  lemma {:induction false} FirstBlockHeld(data: seq<byte>, q: nat, input: seq<byte>, i: nat, last: bool, bound: nat)
    requires i <= |input| && HoldsBlocks(data, q, input, i)
    requires last == (i + BlockSize >= |input|)
    requires bound == if last then |input| else i + BlockSize
    ensures q + 5 + (bound - i) <= |data|
    ensures data[q..q + 5 + (bound - i)] == BlockHeader(last, bound - i) + input[i..bound]
    ensures !last ==> HoldsBlocks(data, q + 5 + (bound - i), input, bound)
  {
    var block := BlockHeader(last, bound - i) + input[i..bound];
    var rest := if last then [] else StoredBlocks(input, bound, true);
    StoredBlocksUnfold(input, i, true);
    SliceSplit(data, q, block, rest);
  }

  /** One block with an exact LEN at byte `q` appends its bytes and either
      ends decoding or hands over to the byte after it. */
  lemma {:induction false} BlockDecodes(data: seq<byte>, q: nat, final: bool, len: nat, body: seq<byte>, out: seq<byte>)
    requires len < 256 && |body| == len
    requires q + 5 + len <= |data| && data[q..q + 5 + len] == BlockHeader(final, len) + body
    ensures Blocks(data, 8 * q, out)
         == if final then Output(out + body) else Blocks(data, 8 * (q + 5 + len), out + body)
  {
    BlockFields(data, q, final, len, body);
    StoredBlockNext(data, q, data[q], len, body, out);
  }

  /** The fields of such a block as the decoder reads them. */
  lemma {:induction false} BlockFields(data: seq<byte>, q: nat, final: bool, len: nat, body: seq<byte>)
    requires len < 256 && |body| == len
    requires q + 5 + len <= |data| && data[q..q + 5 + len] == BlockHeader(final, len) + body
    ensures data[q] == if final then 1 else 0
    ensures Le16(data, q + 1) == len
    ensures data[q + 5..q + 5 + len] == body
  {
    SliceSplit(data, q, BlockHeader(final, len), body);
    assert data[q] == BlockHeader(final, len)[0];
    assert data[q + 1] == len && data[q + 2] == 0;
  }

  /** StoredBlockStep with the fields named. */
  lemma {:induction false} StoredBlockNext(data: seq<byte>, q: nat, final: byte, len: nat, body: seq<byte>, out: seq<byte>)
    requires final < 2 && q + 5 + len <= |data| && data[q] == final
    requires Le16(data, q + 1) == len && data[q + 5..q + 5 + len] == body
    ensures Blocks(data, 8 * q, out)
         == if final == 1 then Output(out + body) else Blocks(data, 8 * (q + 5 + len), out + body)
  {
    StoredBlockStep(data, q, out);
    assert 8 * (q + 5 + Le16(data, q + 1)) == 8 * (q + 5 + len);
    assert out + data[q + 5..q + 5 + Le16(data, q + 1)] == out + body;
  }

  /** The corrected encoder round-trips every input. */
  lemma {:induction false} RfcRoundTrip(input: seq<byte>)
    ensures Inflate(EncodedRfc(input)) == Output(input)
  {
    var data := EncodedRfc(input);
    var blocks := StoredBlocks(input, 0, true);
    HeaderIsZlib();
    assert data[0] == Cmf && data[1] == Flg(Cmf);
    HeaderAccepted(data);
    assert data[2..2 + |blocks|] == blocks;
    assert input[..0] == [];
    ExactBlocksDecode(data, 2, input, 0);
  }

  /** When every block is full, LEN = 255 is exact, so the source's blocks
      are the corrected ones. */
  lemma {:induction false} FullBlocksAreExact(input: seq<byte>, i: nat)
    requires i < |input| && (|input| - i) % BlockSize == 0
    ensures StoredBlocks(input, i, false) == StoredBlocks(input, i, true)
    decreases |input| - i
  {
    if i + BlockSize < |input| {
      FullBlocksAreExact(input, i + BlockSize);
    }
  }

  /** `yan_inflate` followed by `yan_deflate` gives the input back when its
      length is a positive multiple of 255. */
  lemma {:induction false} SourceRoundTrip(input: seq<byte>)
    requires |input| > 0 && |input| % BlockSize == 0
    ensures Inflate(Encoded(input)) == Output(input)
  {
    var data := Encoded(input);
    var blocks := StoredBlocks(input, 0, true);
    FullBlocksAreExact(input, 0);
    HeaderIsZlib();
    assert data[0] == Cmf && data[1] == Flg(Cmf);
    HeaderAccepted(data);
    assert data[2..2 + |blocks|] == blocks;
    assert input[..0] == [];
    ExactBlocksDecode(data, 2, input, 0);
  }

  /** The empty input: its only block claims 255 bytes that the stream does
      not hold, so decoding reads past the end. */
  lemma {:induction false} EmptyInputUnreadable()
    ensures Inflate(Encoded([])) == Undefined
  {
    var data := Encoded([]);
    assert data == [0x78, 0x01, 1, 0xFF, 0, 0, 0xFF, 0, 0, 0, 1];
    HeaderIsZlib();
    HeaderAccepted(data);
    StoredHeaderBits(data, 2);
    assert AlignedByte(19) == 3;
    assert Stored(data, 19, []) == Fault;
  }

  /** Every stored block adds five header bytes to at least one input byte
      (the empty input still gets one block). */
  lemma {:induction false} StoredBlocksLength(input: seq<byte>, i: nat, exact: bool)
    requires i <= |input|
    ensures |StoredBlocks(input, i, exact)| <= 6 * (|input| - i) + 5
    decreases |input| - i
  {
    StoredBlocksUnfold(input, i, exact);
    if i + BlockSize < |input| {
      StoredBlocksLength(input, i + BlockSize, exact);
    }
  }

  /** The stream is at most six bytes per input byte plus eleven, with or
      without the corrections. */
  lemma EncodedLength(input: seq<byte>)
    ensures |Encoded(input)| <= 6 * |input| + 11
    ensures |EncodedRfc(input)| <= 6 * |input| + 11
  {
    StoredBlocksLength(input, 0, false);
    StoredBlocksLength(input, 0, true);
  }
}
