/** `yan_deflate` (yanconv.cpp) as the loops the source runs: the block loop
    over the cursor `i` / `bitOffset`, the byte copy of a stored block, the
    symbol loops of fixed and dynamic blocks and the byte-by-byte copy of a
    back reference. Each method is proved to compute the matching function
    of `InflateSpec`, so every property proved there holds of the loops. */
module Decoder {
  import opened Bytes
  import opened BitCursor
  import opened Prefix
  import opened InflateSpec
  import opened LzTables
  import opened CodeLoops

  /** The whole decoder: the zlib header check, then `while (!lastBlock)`
      over the blocks. It returns exactly what `Inflate` specifies, the
      bytes decoded or `Undefined` where the source reads past its input. */
  method Deflate(data: seq<byte>) returns (r: Outcome)
    ensures r == Inflate(data)
  {
    if |data| == 0 {
      return Undefined;
    }
    if !MethodAccepted(data[0]) {
      return Output([]);
    }
    if |data| < 2 {
      return Undefined;
    }
    if HeaderWord(data[0], data[1]) % 31 != 0 {
      return Output([]);
    }
    r := BlockLoop(data, 2, []);
  }

  /** `while (!lastBlock)` from byte `i0` on, after the bytes `out0`. The
      loop keeps the cursor as the bit position `p = 8 * i + bitOffset`;
      the methods that read bits split it back into `i` and `bitOffset`. */
  method BlockLoop(data: seq<byte>, i0: nat, out0: seq<byte>) returns (r: Outcome)
    ensures r == Blocks(data, 8 * i0, out0)
  {
    ghost var result := Blocks(data, 8 * i0, out0);
    var out := out0;
    var p: nat := 8 * i0;
    var lastBlock := false;
    while !lastBlock
      invariant !lastBlock ==> Blocks(data, p, out) == result
      invariant lastBlock ==> Output(out) == result
      decreases Remaining(data, p)
    {
      var next := BlockStep(data, p, out);
      match next
      case Done(o) =>
        return o;
      case Next(out', p', final) =>
        out, p := out', p';
        lastBlock := final;
    }
    r := Output(out);
  }

  /** What one turn of the block loop leaves: the decoder has returned
      `o`, or the block ended at bit `p` with the bytes `out`, and `final`
      says whether it was the last. */
  datatype Turn = Done(o: Outcome) | Next(out: seq<byte>, p: nat, final: bool)

  /** A turn from bit `p` with the bytes `out` agrees with `Blocks`, and a
      turn that goes on moves forward. */
  predicate TurnFollows(data: seq<byte>, p: nat, out: seq<byte>, t: Turn) {
    match t
    case Done(o) => Blocks(data, p, out) == o
    case Next(out', p', final) =>
      Remaining(data, p') < Remaining(data, p) &&
      Blocks(data, p, out) == if final then Output(out') else Blocks(data, p', out')
  }

  /** One turn of `while (!lastBlock)`: the block header bits, then the
      block. */
  method BlockStep(data: seq<byte>, p: nat, out: seq<byte>) returns (t: Turn)
    ensures TurnFollows(data, p, out, t)
  {
    var ok, final, compressionType := BlockHeaderBits(data, p);
    if !ok {
      BlocksCutShort(data, p, out);
      return Done(Undefined);
    }
    if compressionType == 3 {
      ReservedBlockType(data, p, out);
      return Done(Output(out));
    }
    var step := BlockBody(data, p + 3, compressionType, out);
    BlocksAfterBody(data, p, out, final, compressionType, step);
    t := if step.Fault? then Done(Undefined) else Next(step.v, step.p, final == 1);
  }

  /** Fewer than three bits left: the header read runs past the input. */
  lemma {:induction false} BlocksCutShort(data: seq<byte>, p: nat, out: seq<byte>)
    requires p + 3 > 8 * |data|
    ensures Blocks(data, p, out) == Undefined
  {
    BlocksUnfold(data, p, out);
  }

  /** BTYPE 3 returns the bytes decoded so far. */
  lemma {:induction false} ReservedBlockType(data: seq<byte>, p: nat, out: seq<byte>)
    requires p + 3 <= 8 * |data| && BitAt(data, p + 1) + 2 * BitAt(data, p + 2) == 3
    ensures Blocks(data, p, out) == Output(out)
  {
    BlocksUnfold(data, p, out);
  }

  /** BFINAL and the two BTYPE bits read from bit `p` on, one
      `shiftOffset()` after each; `ok` is false where the source would read
      past its input. */
  method BlockHeaderBits(data: seq<byte>, p: nat)
    returns (ok: bool, final: nat, compressionType: nat)
    ensures ok <==> p + 3 <= 8 * |data|
    ensures ok ==> final == BitAt(data, p)
    ensures ok ==> compressionType == BitAt(data, p + 1) + 2 * BitAt(data, p + 2)
  {
    var i: nat, bitOffset: Offset := p / 8, p % 8;
    ok, final, compressionType := false, 0, 0;
    if i >= |data| {
      return;
    }
    final, i, bitOffset := TakeBit(data, i, bitOffset);
    if i >= |data| {
      return;
    }
    var t0, t1;
    t0, i, bitOffset := TakeBit(data, i, bitOffset);
    if i >= |data| {
      return;
    }
    t1, i, bitOffset := TakeBit(data, i, bitOffset);
    ok, compressionType := true, t0 + 2 * t1;
  }

  /** One turn of the block loop, as `Blocks` defines it. */
  lemma {:induction false} BlocksUnfold(data: seq<byte>, p: nat, out: seq<byte>)
    ensures p + 3 > 8 * |data| ==> Blocks(data, p, out) == Undefined
    ensures p + 3 <= 8 * |data| ==>
      var final := BitAt(data, p);
      var btype := BitAt(data, p + 1) + 2 * BitAt(data, p + 2);
      Blocks(data, p, out) ==
        if btype == 3 then Output(out)
        else
          var step := Block(data, p + 3, btype, out);
          if step.Fault? then Undefined
          else if final == 1 then Output(step.v)
          else Blocks(data, step.p, step.v)
  {
    if p + 3 <= 8 * |data| {
      assert ReadBit(data, p) == Ok(BitAt(data, p), p + 1);
      assert ReadBit(data, p + 1) == Ok(BitAt(data, p + 1), p + 2);
      assert ReadBit(data, p + 2) == Ok(BitAt(data, p + 2), p + 3);
    } else if p < 8 * |data| {
      assert ReadBit(data, p) == Ok(BitAt(data, p), p + 1);
      if p + 1 < 8 * |data| {
        assert ReadBit(data, p + 1) == Ok(BitAt(data, p + 1), p + 2);
        assert ReadBit(data, p + 2) == Fault;
      } else {
        assert ReadBit(data, p + 1) == Fault;
      }
    }
  }

  /** The block loop once the body of a block has given `step`. */
  lemma {:induction false} BlocksAfterBody(data: seq<byte>, p: nat, out: seq<byte>, final: nat, btype: nat,
                                           step: Step<seq<byte>>)
    requires p + 3 <= 8 * |data| && btype < 3
    requires final == BitAt(data, p) && btype == BitAt(data, p + 1) + 2 * BitAt(data, p + 2)
    requires step == Block(data, p + 3, btype, out)
    ensures TurnFollows(data, p, out, if step.Fault? then Done(Undefined) else Next(step.v, step.p, final == 1))
  {
    BlocksUnfold(data, p, out);
  }

  /** The body of a block of type 0, 1 or 2. */
  method BlockBody(data: seq<byte>, p: nat, compressionType: nat, out: seq<byte>)
    returns (step: Step<seq<byte>>)
    requires compressionType < 3
    ensures step == Block(data, p, compressionType, out)
  {
    if compressionType == 0 {
      step := StoredCopy(data, p, out);
    } else if compressionType == 1 {
      step := FixedSymbols(data, p, out);
    } else {
      step := DynamicBlockDecode(data, p, out);
    }
  }

  /** A stored block: align the cursor, read LEN, skip it and NLEN, then
      `deflatedData.push_back(inputData[i++])` LEN times. */
  method StoredCopy(data: seq<byte>, p: nat, out0: seq<byte>) returns (r: Step<seq<byte>>)
    ensures r == Stored(data, p, out0)
  {
    var i: nat, bitOffset: Offset := p / 8, p % 8;
    if bitOffset > 0 {
      i := i + 1;
    }
    assert i == AlignedByte(p);
    if i + 1 >= |data| {
      return Fault;
    }
    var dataLength := Le16(data, i);
    i := i + 4;
    var start := i;
    var out := out0;
    var d := 0;
    while d < dataLength
      invariant 0 <= d <= dataLength && i == start + d
      invariant d == 0 ==> out == out0
      invariant d > 0 ==> i <= |data| && out == out0 + data[start..i]
    {
      if i >= |data| {
        return Fault;
      }
      out := out + [data[i]];
      i := i + 1;
      d := d + 1;
    }
    r := Ok(out, 8 * i);
  }

  /** `for (rb = 0; rb < readLength; ++rb)
      deflatedData.emplace_back(deflatedData[deflDataEnd - readDistance + rb])`:
      the copy of a length/distance pair, one byte at a time. */
  method CopyBack(out0: seq<byte>, dist: nat, len: nat) returns (out: seq<byte>)
    requires 1 <= dist <= |out0|
    ensures out == BackCopy(out0, dist, len)
  {
    out := out0;
    var end := |out0|;
    var rb := 0;
    while rb < len
      invariant 0 <= rb <= len && |out| == end + rb
      invariant BackCopy(out, dist, len - rb) == BackCopy(out0, dist, len)
    {
      out := out + [out[end - dist + rb]];
      rb := rb + 1;
    }
  }

  /** The copy of a length/distance pair: nothing for a length of zero,
      `Fault` where the distance leaves the output, otherwise the
      byte-by-byte copy. */
  method PairCopy(out: seq<byte>, len: int, dist: int) returns (r: Option<seq<byte>>)
    ensures r == CopyPair(out, len, dist)
  {
    if len <= 0 {
      return Some(out);
    }
    if dist < 1 || dist > |out| {
      return None;
    }
    var copied := CopyBack(out, dist, len);
    return Some(copied);
  }

  /** A length symbol of a fixed block: its extra bits, the 5-bit distance
      code, its extra bits and the copy. */
  method FixedPairDecode(data: seq<byte>, p: nat, sym: nat, out: seq<byte>) returns (r: Step<seq<byte>>)
    ensures r == FixedPair(data, p, sym, out)
  {
    var (base, extra) := Counted(FixedLengthCode(sym));
    var e1 := ReadLsb(data, p, extra);
    if e1.Fault? {
      return Fault;
    }
    var d5 := ReadMsb(data, e1.p, 5);
    if d5.Fault? {
      return Fault;
    }
    var (dbase, dextra) := FixedDistanceCode(d5.v);
    var e2 := ReadLsb(data, d5.p, dextra);
    if e2.Fault? {
      return Fault;
    }
    var copied := PairCopy(out, base + e1.v, dbase + e2.v);
    if copied.None? {
      return Fault;
    }
    return Ok(copied.value, e2.p);
  }

  /** A length symbol of a dynamic block: its extra bits, the distance
      symbol read by the Huffman loop at lines 486-509, its extra bits and
      the copy. */
  method DynPairDecode(data: seq<byte>, p: nat, sym: nat, dist: Code, out: seq<byte>) returns (r: Step<seq<byte>>)
    requires |dist.codes| == |dist.lens|
    ensures r == DynPair(data, p, sym, dist, out)
  {
    var (base, extra) := Counted(DynLengthCode(sym));
    var e1 := ReadLsb(data, p, extra);
    if e1.Fault? {
      return Fault;
    }
    var dsym := SymbolLoop(data, e1.p, dist, false);
    assert dsym == DistSymbol(data, e1.p, dist);
    if dsym.Fault? {
      return Fault;
    }
    var (dbase, dextra) := Counted(DynDistanceCode(dsym.v));
    var e2 := ReadLsb(data, dsym.p, dextra);
    if e2.Fault? {
      return Fault;
    }
    var copied := PairCopy(out, base + e1.v, dbase + e2.v);
    if copied.None? {
      return Fault;
    }
    return Ok(copied.value, e2.p);
  }

  /** The `while (true)` symbol loop of a fixed-Huffman block. */
  method FixedSymbols(data: seq<byte>, p0: nat, out0: seq<byte>) returns (r: Step<seq<byte>>)
    ensures r == FixedBlock(data, p0, out0)
  {
    var p, out := p0, out0;
    while true
      invariant FixedBlock(data, p, out) == FixedBlock(data, p0, out0)
      decreases Remaining(data, p)
    {
      var s := FixedSymbol(data, p);
      if s.Fault? {
        return Fault;
      }
      if s.v < 256 {
        out, p := out + [s.v], s.p;
      } else if s.v == 256 {
        return Ok(out, s.p);
      } else {
        var pair := FixedPairDecode(data, s.p, s.v, out);
        if pair.Fault? {
          return Fault;
        }
        out, p := pair.v, pair.p;
      }
    }
  }

  /** The symbol loop of a dynamic-Huffman block. */
  method DynamicSymbols(data: seq<byte>, p0: nat, lit: Code, dist: Code, out0: seq<byte>) returns (r: Step<seq<byte>>)
    requires |lit.codes| == |lit.lens| && |dist.codes| == |dist.lens|
    ensures r == DynSymbols(data, p0, lit, dist, out0)
  {
    var p, out := p0, out0;
    while true
      invariant DynSymbols(data, p, lit, dist, out) == DynSymbols(data, p0, lit, dist, out0)
      decreases Remaining(data, p)
    {
      var s := SymbolLoop(data, p, lit, true);
      if s.Fault? {
        return Fault;
      }
      if s.v < 256 {
        out, p := out + [s.v], s.p;
      } else if s.v == 256 {
        return Ok(out, s.p);
      } else {
        var pair := DynPairDecode(data, s.p, s.v, dist, out);
        if pair.Fault? {
          return Fault;
        }
        out, p := pair.v, pair.p;
      }
    }
  }

  /** A prefix code built by `lengthsToPrefix`, or `None` where the source
      would index past its count vector. */
  method MakeCode(lens: seq<nat>) returns (r: Option<Code>)
    ensures r == BuildCode(lens)
  {
    if !ValidLengths(lens) {
      return None;
    }
    var codes, highest := LengthsToPrefix(lens, UintMax);
    assert codes == PrefixCodes(lens, UintMax);
    r := Some(Code(lens, codes, highest));
  }

  /** A dynamic-Huffman block: HLIT, HDIST, HCLEN and the permuted
      code-length code lengths, then the rest of the block. */
  method DynamicBlockDecode(data: seq<byte>, p: nat, out: seq<byte>) returns (r: Step<seq<byte>>)
    ensures r == DynamicBlock(data, p, out)
  {
    var header := DynamicHeader(data, p);
    if header.Fault? {
      return Fault;
    }
    var h := header.v;
    r := DynamicCodesDecode(data, header.p, h.clens, h.litTotal, h.distTotal, out);
  }

  /** The rest of a dynamic block: the code-length code, the two runs of
      code lengths, the two codes built by `lengthsToPrefix`, then the
      symbol loop. */
  method DynamicCodesDecode(data: seq<byte>, p: nat, clens: seq<nat>, litTotal: nat, distTotal: nat,
                            out: seq<byte>) returns (r: Step<seq<byte>>)
    requires |clens| == 19
    ensures r == DynamicCodes(data, p, clens, litTotal, distTotal, out)
  {
    var ccodes := PrefixCodes(clens, UintMax);
    var litLens := CodeLengthsLoop(data, p, clens, ccodes, litTotal);
    if litLens.Fault? {
      return Fault;
    }
    var lit := MakeCode(litLens.v);
    if lit.None? {
      return Fault;
    }
    var distLens := CodeLengthsLoop(data, litLens.p, clens, ccodes, distTotal);
    if distLens.Fault? {
      return Fault;
    }
    var dist := MakeCode(distLens.v);
    if dist.None? {
      return Fault;
    }
    r := DynamicSymbols(data, distLens.p, lit.value, dist.value, out);
  }
}
