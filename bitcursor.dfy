/** The bit cursor of the inflate decoder (`i` / `bitOffset` and the lambdas
    `shiftOffset`, `shiftOffsets` and `readForward`), and the reference
    reading of a DEFLATE bit stream that RFC 1951 section 3.1.1 fixes: inside
    a byte, bits are numbered from the least significant one. */
module BitCursor {
  import opened Bytes

  /** `bitOffset`: the invariant `bitOffset < 8` is carried by the type. */
  type Offset = x: int | 0 <= x < 8

  /** The decoder's read position: byte `i`, bit `off` inside it. */
  datatype Cursor = Cursor(i: nat, off: Offset)

  /** The number of bits that lie before the cursor. */
  function Pos(c: Cursor): nat {
    8 * c.i + c.off
  }

  /** Bits of `data` that lie at or after bit position `p` (none once `p`
      is past the end). Every decoding loop decreases it. */
  function Remaining(data: seq<byte>, p: nat): nat {
    if p < 8 * |data| then 8 * |data| - p else 0
  }

  // ---------------------------------------------------------------------
  // Reference reading, by absolute bit position (RFC 1951 section 3.1.1)
  // ---------------------------------------------------------------------

  /** Bit number `p` of the stream: bit `p % 8` of byte `p / 8`, counted from
      the least significant bit. */
  function BitAt(data: seq<byte>, p: nat): (b: nat)
    requires p < 8 * |data|
    ensures b < 2
  {
    ShiftRight(data[p / 8], p % 8) % 2
  }

  /** `n` bits starting at bit `p`, the first one being the least significant
      (how DEFLATE packs every data element other than a Huffman code). */
  function LsbFirst(data: seq<byte>, p: nat, n: nat): (v: nat)
    requires p + n <= 8 * |data|
    ensures v < Pow2(n)
    decreases 8 * |data| - p, n
  {
    if n == 0 then 0 else BitAt(data, p) + 2 * LsbFirst(data, p + 1, n - 1)
  }

  /** `n` bits starting at bit `p`, the first one being the most significant
      (how DEFLATE packs Huffman codes). */
  function MsbFirst(data: seq<byte>, p: nat, n: nat): nat
    requires p + n <= 8 * |data|
    decreases 8 * |data| - p, n
  {
    if n == 0 then 0 else MsbFirst(data, p, n - 1) * 2 + BitAt(data, p + n - 1)
  }

  lemma {:induction false} MsbFirstBound(data: seq<byte>, p: nat, n: nat)
    requires p + n <= 8 * |data|
    ensures MsbFirst(data, p, n) < Pow2(n)
    decreases n
  {
    if n > 0 {
      MsbFirstBound(data, p, n - 1);
    }
  }

  // ---------------------------------------------------------------------
  // The cursor operations of the decoder
  // ---------------------------------------------------------------------

  /** The bit under the cursor: `(inputData[i] >> bitOffset) & 0x1`. */
  function Bit(data: seq<byte>, c: Cursor): (b: nat)
    requires c.i < |data|
    ensures b == BitAt(data, Pos(c))
  {
    assert Pos(c) / 8 == c.i && Pos(c) % 8 == c.off;
    ShiftRight(data[c.i], c.off) % 2
  }

  /** `shiftOffset`: one bit forward, carrying into the byte index. */
  function ShiftOffset(c: Cursor): (r: Cursor)
    ensures Pos(r) == Pos(c) + 1
  {
    if c.off + 1 == 8 then Cursor(c.i + 1, 0) else Cursor(c.i, c.off + 1)
  }

  /** `shiftOffsets(num)`: `num` bits forward. It carries at most one byte,
      which is all that its callers (num <= 7) need. */
  function ShiftOffsets(c: Cursor, num: nat): (r: Cursor)
    requires num <= 8
    ensures Pos(r) == Pos(c) + num
  {
    if c.off + num > 7 then Cursor(c.i + 1, (c.off + num) % 8) else Cursor(c.i, c.off + num)
  }

  /** `readForward(num)`: the low `num` bits of the current byte shifted
      right by `bitOffset`, together with the bits that the next byte
      supplies above them. The two masked parts have no set bit in common,
      so the C `|` between them is written as `+`. The source reads
      `inputData[i+1]` unconditionally, hence the bound on `i`. The value is
      the next `num` bits of the stream, least significant first. */
  function ReadForward(data: seq<byte>, c: Cursor, num: nat): (v: nat)
    requires 1 <= num <= 7
    requires c.i + 1 < |data|
    ensures v == LsbFirst(data, Pos(c), num)
    ensures v < Pow2(num)
  {
    ReadForwardParts(data, c, num);
    LowBits(ShiftRight(data[c.i], c.off), num) + LowBits(ShiftLeft(data[c.i + 1], 8 - c.off), num)
  }

  // ---------------------------------------------------------------------
  // readForward reads LSB-first
  // ---------------------------------------------------------------------

  /** Inside one byte, `LsbFirst` is a shift and a mask. */
  lemma {:induction false} LsbFirstInByte(data: seq<byte>, i: nat, off: nat, n: nat)
    requires i < |data| && off + n <= 8
    ensures LsbFirst(data, 8 * i + off, n) == LowBits(ShiftRight(data[i], off), n)
    decreases n
  {
    if n > 0 {
      var p := 8 * i + off;
      assert p / 8 == i && p % 8 == off;
      ShiftRightSucc(data[i], off);
      if n > 1 {
        LsbFirstInByte(data, i, off + 1, n - 1);
      }
    }
  }

  /** A read of `a + b` bits is a read of `a` bits followed by a read of `b`. */
  lemma {:induction false} LsbFirstSplit(data: seq<byte>, p: nat, a: nat, b: nat)
    requires p + a + b <= 8 * |data|
    ensures LsbFirst(data, p, a + b) == LsbFirst(data, p, a) + ShiftLeft(LsbFirst(data, p + a, b), a)
    decreases a
  {
    if a > 0 {
      var rest := LsbFirst(data, p + a, b);
      LsbFirstSplit(data, p + 1, a - 1, b);
      assert p + 1 + (a - 1) == p + a;
      assert LsbFirst(data, p + 1, a + b - 1) == LsbFirst(data, p + 1, a - 1) + ShiftLeft(rest, a - 1);
      assert ShiftLeft(rest, a) == 2 * ShiftLeft(rest, a - 1);
    }
  }

  /** The two masked parts of `readForward` make up the next `num` bits. */
  lemma {:induction false} ReadForwardParts(data: seq<byte>, c: Cursor, num: nat)
    requires 1 <= num <= 7
    requires c.i + 1 < |data|
    ensures LowBits(ShiftRight(data[c.i], c.off), num) + LowBits(ShiftLeft(data[c.i + 1], 8 - c.off), num)
         == LsbFirst(data, Pos(c), num)
  {
    if num <= 8 - c.off {
      LsbFirstInByte(data, c.i, c.off, num);
      LowBitsOfShifted(data[c.i + 1], 8 - c.off, num);
    } else {
      CrossByteValue(data[c.i], data[c.i + 1], c.off, num);
      CrossByteBits(data, c, num);
    }
  }

  /** A cross-byte `readForward` as whole numbers: all `8 - off` bits of the
      current byte above the offset, then the low bits of the next byte. */
  lemma {:induction false} CrossByteValue(d0: byte, d1: byte, off: Offset, num: nat)
    requires 8 - off < num <= 7
    ensures LowBits(ShiftRight(d0, off), num) + LowBits(ShiftLeft(d1, 8 - off), num)
         == ShiftRight(d0, off) + ShiftLeft(LowBits(d1, num - (8 - off)), 8 - off)
  {
    var a := 8 - off;
    assert ShiftRight(d0, off) < Pow2(a) by {
      assert Pow2(8) == 256;
      ShiftRightBound(d0, off, a);
    }
    Pow2Monotone(a, num);
    LowBitsOfSmall(ShiftRight(d0, off), num);
    LowBitsOfShiftedWide(d1, a, num - a);
  }

  /** The reference reading of the same bits. */
  lemma {:induction false} CrossByteBits(data: seq<byte>, c: Cursor, num: nat)
    requires 8 - c.off < num <= 7
    requires c.i + 1 < |data|
    ensures LsbFirst(data, Pos(c), num)
         == ShiftRight(data[c.i], c.off) + ShiftLeft(LowBits(data[c.i + 1], num - (8 - c.off)), 8 - c.off)
  {
    var a := 8 - c.off;
    var b := num - a;
    var p := Pos(c);
    var low := ShiftRight(data[c.i], c.off);
    assert low < Pow2(a) by {
      assert Pow2(8) == 256;
      ShiftRightBound(data[c.i], c.off, a);
    }
    assert LsbFirst(data, p, a) == low by {
      LsbFirstInByte(data, c.i, c.off, a);
      LowBitsOfSmall(low, a);
    }
    assert LsbFirst(data, p + a, b) == LowBits(data[c.i + 1], b) by {
      assert p + a == 8 * (c.i + 1) + 0;
      LsbFirstInByte(data, c.i + 1, 0, b);
    }
    LsbFirstSplit(data, p, a, b);
  }
}
