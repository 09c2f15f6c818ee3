/** What `yan_deflate` (yanconv.cpp) computes, as functions: the zlib
    header check of RFC 1950 section 2.2 and the DEFLATE block decoder of
    RFC 1951 (stored, fixed-Huffman and dynamic-Huffman blocks). Every step
    that the source performs with undefined behaviour (reading past the
    input, indexing past a vector) ends in `Undefined`; every early
    `return` ends in `Output` with the bytes decoded so far. */
module InflateSpec {
  import opened Bytes
  import opened BitCursor
  import opened Prefix
  import opened LzTables

  /** `UINT_MAX`, the code that `lengthsToPrefix` gives unused symbols. */
  const UintMax: nat := 0xFFFF_FFFF
  /** The range of `uint_fast16_t` (64 bits wide on the targets the source
      is built for). */
  const U64: nat := 0x1_0000_0000_0000_0000

  /** The end of a call to `yan_deflate`. */
  datatype Outcome = Output(bytes: seq<byte>) | Undefined

  /** One decoding step: a value and the read position after it, or
      undefined behaviour. The decoder's cursor (`i`, `bitOffset`) is kept
      as the bit position `8 * i + bitOffset` (see `BitCursor.Pos`). */
  datatype Step<T> = Ok(v: T, p: nat) | Fault

  /** A prefix code as the dynamic decoder keeps it: the code length of every
      symbol, the codes `lengthsToPrefix` gave them and the longest length. */
  datatype Code = Code(lens: seq<nat>, codes: seq<nat>, highest: nat)

  // ---------------------------------------------------------------------
  // Reading bits
  // ---------------------------------------------------------------------

  /** `(inputData[i] >> bitOffset) & 0x1` followed by `shiftOffset()`
      (`BitCursor.Bit` and `BitCursor.ShiftOffset` are the same on `i` and
      `bitOffset`). */
  function ReadBit(data: seq<byte>, p: nat): (r: Step<nat>)
    ensures r.Ok? <==> p < 8 * |data|
    ensures r.Ok? ==> r.v == BitAt(data, p) && r.p == p + 1
  {
    if p < 8 * |data| then Ok(BitAt(data, p), p + 1) else Fault
  }

  /** The loops `for (ext = 0; ext < n; ++ext) x += bit << ext`: `n` bits,
      one at a time, least significant first. Each bit reads the byte under
      the cursor, so the read is defined exactly when the bits exist. */
  function ReadLsb(data: seq<byte>, p: nat, n: nat): (r: Step<nat>)
    ensures r.Ok? <==> p + n <= 8 * |data|
    ensures r.Ok? ==> r.p == p + n && r.v < Pow2(n)
  {
    if p + n <= 8 * |data| then Ok(LsbFirst(data, p, n), p + n) else Fault
  }

  /** `n` bits one at a time, each shifted in from the right (the
      accumulation of Huffman codes and of the fixed 5-bit distance). */
  function ReadMsb(data: seq<byte>, p: nat, n: nat): (r: Step<nat>)
    ensures r.Ok? <==> p + n <= 8 * |data|
    ensures r.Ok? ==> r.p == p + n && r.v < Pow2(n)
  {
    if p + n <= 8 * |data| then
      MsbFirstBound(data, p, n);
      Ok(MsbFirst(data, p, n), p + n)
    else Fault
  }

  /** `readForward(num)` (`BitCursor.ReadForward` on `i` and `bitOffset`):
      defined only while `inputData[i+1]` exists, even when the bits it
      needs all lie in `inputData[i]`. */
  function ReadForwardStep(data: seq<byte>, p: nat, num: nat): (r: Step<nat>)
    requires 1 <= num <= 7
    ensures r.Ok? <==> p / 8 + 1 < |data|
    ensures r.Ok? ==> r.v == LsbFirst(data, p, num) && r.p == p + num
  {
    if p / 8 + 1 < |data| then Ok(LsbFirst(data, p, num), p + num) else Fault
  }

  // ---------------------------------------------------------------------
  // The zlib header (RFC 1950 section 2.2)
  // ---------------------------------------------------------------------

  /** CM (the low nibble of CMF) must be 8 and CINFO (the high nibble) at
      most 7. */
  predicate MethodAccepted(cmf: byte) {
    cmf % 16 == 8 && cmf / 16 <= 7
  }

  /** The header word as the source checks it: `cAToNumber` of the four
      bytes CMF, FLG, 0, 0, that is CMF and FLG in the top half of a
      big-endian word. */
  function HeaderWord(cmf: byte, flg: byte): nat {
    cmf as int * 0x100_0000 + flg as int * 0x1_0000
  }

  /** The whole of `yan_deflate`. */
  function Inflate(data: seq<byte>): Outcome {
    if |data| == 0 then Undefined
    else if !MethodAccepted(data[0]) then Output([])
    else if |data| < 2 then Undefined
    else if HeaderWord(data[0], data[1]) % 31 != 0 then Output([])
    else Blocks(data, 16, [])
  }

  // ---------------------------------------------------------------------
  // Blocks (RFC 1951 section 3.2.3)
  // ---------------------------------------------------------------------

  /** The loop `while (!lastBlock)`: BFINAL, then the two BTYPE bits, then
      the block; BTYPE 3 returns what has been decoded so far. */
  function Blocks(data: seq<byte>, p: nat, out: seq<byte>): Outcome
    decreases Remaining(data, p)
  {
    match ReadBit(data, p)
    case Fault => Undefined
    case Ok(final, p1) =>
      match ReadBit(data, p1)
      case Fault => Undefined
      case Ok(t0, p2) =>
        match ReadBit(data, p2)
        case Fault => Undefined
        case Ok(t1, p3) =>
          var btype := t0 + 2 * t1;
          if btype == 3 then Output(out)
          else
            match Block(data, p3, btype, out)
            case Fault => Undefined
            case Ok(out', p4) =>
              if final == 1 then Output(out') else Blocks(data, p4, out')
  }

  /** The body of one block of type 0, 1 or 2. */
  function Block(data: seq<byte>, p: nat, btype: nat, out: seq<byte>): (r: Step<seq<byte>>)
    requires btype < 3
    ensures r.Ok? ==> r.p >= p
  {
    if btype == 0 then Stored(data, p, out)
    else if btype == 1 then FixedBlock(data, p, out)
    else DynamicBlock(data, p, out)
  }

  /** The byte the cursor is on after `if (bitOffset > 0) ++i;
      bitOffset = 0`. */
  function AlignedByte(p: nat): (i: nat)
    ensures p <= 8 * i < p + 8
  {
    if p % 8 > 0 then p / 8 + 1 else p / 8
  }

  /** The 16-bit little-endian number at byte `i` (the `memcpy` of LEN into
      an integer on a little-endian host). */
  function Le16(data: seq<byte>, i: nat): nat
    requires i + 1 < |data|
  {
    data[i] as int + 256 * (data[i + 1] as int)
  }

  /** A stored block (RFC 1951 section 3.2.4): LEN is read little-endian from
      the two aligned bytes, NLEN is skipped unread, and LEN bytes are
      copied. */
  function Stored(data: seq<byte>, p: nat, out: seq<byte>): (r: Step<seq<byte>>)
    ensures r.Ok? ==> r.p > p
  {
    var a := AlignedByte(p);
    if a + 1 >= |data| then Fault
    else
      var len := Le16(data, a);
      var start := a + 4;
      if len == 0 then Ok(out, 8 * start)
      else if start + len > |data| then Fault
      else Ok(out + data[start..start + len], 8 * (start + len))
  }

  // ---------------------------------------------------------------------
  // Copying a back reference
  // ---------------------------------------------------------------------

  /** `len` bytes appended one at a time, each a copy of the byte `dist`
      places before it: `out.emplace_back(out[end - dist + rb])`. */
  function BackCopy(out: seq<byte>, dist: nat, len: nat): (r: seq<byte>)
    requires 1 <= dist <= |out|
    ensures |r| == |out| + len
    decreases len, |out|
  {
    if len == 0 then out else BackCopy(out + [out[|out| - dist]], dist, len - 1)
  }

  /** The copy of a length/distance pair. A distance beyond the output makes
      the unsigned index wrap past the end of the vector. */
  function CopyPair(out: seq<byte>, len: int, dist: int): (r: Option<seq<byte>>)
    ensures r.Some? <==> len <= 0 || 1 <= dist <= |out|
  {
    if len <= 0 then Some(out)
    else if dist < 1 || dist > |out| then None
    else Some(BackCopy(out, dist, len))
  }

  // ---------------------------------------------------------------------
  // Fixed-Huffman blocks (RFC 1951 section 3.2.6), as the source decodes them
  // ---------------------------------------------------------------------

  /** How many bits the source reads after the first seven, from the value
      `checkBits = v7 << 1` compares against. */
  function FixedExtraBits(v7: nat): nat {
    var check := 2 * v7;
    if check > 200 then 2 else if check > 191 then 1 else if check > 46 then 1 else 0
  }

  /** The symbol the source makes of the first seven bits `v7` and the
      `FixedExtraBits(v7)` bits `rest` that follow them (both read most
      significant first). Literals go through a `uint8_t`. */
  function FixedSymbolValue(v7: nat, rest: nat): nat {
    var check := 2 * v7;
    if check > 200 then (4 * v7 + rest - 256) % 256
    else if check > 191 then check + rest + 88
    else if check > 46 then (check + rest - 48) % 256
    else if v7 == 0 then 256
    else 256 + v7
  }

  /** One symbol of a fixed-Huffman block: a literal byte (below 256), the
      end of the block (256) or a length symbol. */
  function FixedSymbol(data: seq<byte>, p: nat): (r: Step<nat>)
    ensures r.Ok? ==> r.p >= p + 7
  {
    match ReadMsb(data, p, 7)
    case Fault => Fault
    case Ok(v7, p1) =>
      match ReadMsb(data, p1, FixedExtraBits(v7))
      case Fault => Fault
      case Ok(rest, p2) => Ok(FixedSymbolValue(v7, rest), p2)
  }

  /** A length symbol of a fixed block, its extra bits, the 5-bit distance
      code, its extra bits, and the copy. */
  function FixedPair(data: seq<byte>, p: nat, sym: nat, out: seq<byte>): (r: Step<seq<byte>>)
    ensures r.Ok? ==> r.p >= p
  {
    var (base, extra) := Counted(FixedLengthCode(sym));
    match ReadLsb(data, p, extra)
    case Fault => Fault
    case Ok(e1, p1) =>
      match ReadMsb(data, p1, 5)
      case Fault => Fault
      case Ok(d5, p2) =>
        var (dbase, dextra) := FixedDistanceCode(d5);
        match ReadLsb(data, p2, dextra)
        case Fault => Fault
        case Ok(e2, p3) =>
          match CopyPair(out, base + e1, dbase + e2)
          case None => Fault
          case Some(out') => Ok(out', p3)
  }

  /** The symbol loop of a fixed-Huffman block. */
  function FixedBlock(data: seq<byte>, p: nat, out: seq<byte>): (r: Step<seq<byte>>)
    ensures r.Ok? ==> r.p >= p
    decreases Remaining(data, p)
  {
    match FixedSymbol(data, p)
    case Fault => Fault
    case Ok(sym, p1) =>
      if sym < 256 then FixedBlock(data, p1, out + [sym])
      else if sym == 256 then Ok(out, p1)
      else
        match FixedPair(data, p1, sym, out)
        case Fault => Fault
        case Ok(out', p2) => FixedBlock(data, p2, out')
  }

  // ---------------------------------------------------------------------
  // Dynamic-Huffman blocks (RFC 1951 section 3.2.7)
  // ---------------------------------------------------------------------

  /** The order in which RFC 1951 section 3.2.7 sends the code lengths of
      the code-length alphabet. */
  const ClenOrder: seq<nat> := [16, 17, 18, 0, 8, 7, 9, 6, 10, 5, 11, 4, 12, 3, 13, 2, 14, 1, 15]

  /** The symbol whose length is sent `k`-th. */
  function SentSymbol(k: nat): (s: nat)
    requires k < 19
    ensures s < 19
  {
    ClenOrder[k]
  }

  /** The reordering the source writes out at line 224: entry `s` of the
      result is the length sent for symbol `s`. */
  function Permute(bin: seq<nat>): (r: seq<nat>)
    requires |bin| == 19
    ensures |r| == 19
  {
    [bin[3], bin[17], bin[15], bin[13], bin[11], bin[9], bin[7], bin[5], bin[4], bin[6],
     bin[8], bin[10], bin[12], bin[14], bin[16], bin[18], bin[0], bin[1], bin[2]]
  }

  /** The 19 code-length code lengths in the order they are sent: the
      `hclen` 3-bit groups that follow HCLEN, then zeros. Each group is
      read with `ReadForwardStep`, which needs the byte after the current
      one; the reads only move forward, so that holds for all of them
      exactly when it holds for the last. */
  function ReadClens(data: seq<byte>, p: nat, hclen: nat): (r: Step<seq<nat>>)
    requires hclen <= 19
    ensures r.Ok? <==> hclen == 0 || (p + 3 * (hclen - 1)) / 8 + 1 < |data|
    ensures r.Ok? ==> |r.v| == 19 && r.p == p + 3 * hclen
    ensures r.Ok? ==> forall m :: 0 <= m < 19 ==> r.v[m] < 8
    ensures r.Ok? ==> forall m :: hclen <= m < 19 ==> r.v[m] == 0
  {
    if hclen == 0 || (p + 3 * (hclen - 1)) / 8 + 1 < |data| then
      Ok(seq(19, m requires 0 <= m < 19 => if m < hclen then ClenGroup(data, p, hclen, m) else 0),
         p + 3 * hclen)
    else Fault
  }

  /** Group `m` of the code-length code lengths starting at bit `p`. */
  function ClenGroup(data: seq<byte>, p: nat, hclen: nat, m: nat): (v: nat)
    requires m < hclen && (p + 3 * (hclen - 1)) / 8 + 1 < |data|
    ensures v < 8
  {
    LsbFirst(data, p + 3 * m, 3)
  }

  /** The index of the first code equal to `v`, or `|codes|`. */
  function FirstIndex(codes: seq<nat>, v: nat): (k: nat)
    ensures k <= |codes|
    ensures k < |codes| ==> codes[k] == v
    ensures forall j :: 0 <= j < k ==> codes[j] != v
  {
    if codes == [] then 0
    else if codes[0] == v then 0
    else 1 + FirstIndex(codes[1..], v)
  }

  /** `n` copies of `x`. */
  function Repeat(x: nat, n: nat): (r: seq<nat>)
    ensures |r| == n
  {
    if n == 0 then [] else [x] + Repeat(x, n - 1)
  }

  /** The length that code-length symbol `sym` repeats: the symbol itself
      for 0..15, the previous length (kept in a `uint_fast8_t`) for 16, and
      zero for 17 and 18. */
  function RunValue(sym: nat, vec: seq<nat>): nat
    requires sym != 16 || vec != []
  {
    if sym < 16 then sym else if sym == 16 then vec[|vec| - 1] % 256 else 0
  }

  /** The number of extra bits after code-length symbols 16, 17 and 18 and
      the count they are added to. */
  function RunBits(sym: nat): (nat, nat)
    requires 16 <= sym < 19
  {
    if sym == 16 then (2, 3) else if sym == 17 then (3, 3) else (7, 11)
  }

  /** One code-length symbol `sym` (RFC 1951 section 3.2.7): 0..15 is a
      length, 16 repeats the previous length 3..6 times, 17 and 18 give runs
      of 3..10 and 11..138 zeros. The result is the new vector and how many
      lengths were added. A 16 with no previous length indexes an empty
      vector. */
  function CodeLengthRun(data: seq<byte>, p: nat, sym: nat, vec: seq<nat>): (r: Step<(seq<nat>, nat)>)
    requires sym < 19
    ensures r.Ok? ==> r.p >= p && (sym != 16 || vec != [])
    ensures r.Ok? ==> r.v.0 == vec + Repeat(RunValue(sym, vec), r.v.1)
  {
    if sym < 16 then Ok((vec + Repeat(sym, 1), 1), p)
    else if sym == 16 && vec == [] then Fault
    else
      var (bits, base) := RunBits(sym);
      match ReadForwardStep(data, p, bits)
      case Fault => Fault
      case Ok(x, p1) => Ok((vec + Repeat(RunValue(sym, vec), x + base), x + base), p1)
  }

  /** The values of the first 1, 2, ... bits at `p`, most significant
      first, up to the end of the input. */
  function Prefixes(data: seq<byte>, p: nat): (bits: seq<nat>)
    ensures |bits| == Remaining(data, p)
  {
    seq(Remaining(data, p), n requires 0 <= n < Remaining(data, p) => MsbFirst(data, p, n + 1))
  }

  /** The code-length symbol read by the loops at lines 234-285 and
      295-346, stated by the number `n` of bits read, where `bits[n - 1]`
      is the value of the first `n` bits (see `Prefixes`): the loop's
      `uint_fast16_t` accumulator (64 bits wide) holds that value
      truncated, its bit count (a `uint_fast8_t`) is `n % 256`, and it
      stops at the first `n` for which the first of the 19 codes equal to
      the accumulator has that length. The result is the symbol and `n`;
      running out of bits gives `None`. */
  function ClenSearch(bits: seq<nat>, clens: seq<nat>, ccodes: seq<nat>, n: nat): (r: Option<(nat, nat)>)
    requires |clens| == 19 && |ccodes| == 19 && 1 <= n
    ensures r.Some? ==> r.value.0 < 19 && n <= r.value.1 <= |bits|
    decreases |bits| + 1 - n
  {
    if n > |bits| then None
    else
      var idx := FirstIndex(ccodes, bits[n - 1] % U64);
      if idx < 19 && clens[idx] == n % 256 then Some((idx, n))
      else ClenSearch(bits, clens, ccodes, n + 1)
  }

  /** One pass of the loops at lines 234-285 and 295-346: a code-length
      symbol and the lengths it appends to `vec`, with how many were
      appended. */
  function ClenRound(data: seq<byte>, p: nat, clens: seq<nat>, ccodes: seq<nat>, vec: seq<nat>): (r: Step<(seq<nat>, nat)>)
    requires |clens| == 19 && |ccodes| == 19
    ensures r.Ok? ==> p < r.p && p < 8 * |data|
  {
    match ClenSearch(Prefixes(data, p), clens, ccodes, 1)
    case None => Fault
    case Some((sym, n)) => CodeLengthRun(data, p + n, sym, vec)
  }

  /** The loops at lines 234-285 and 295-346: code-length symbols, each
      adding one or more lengths to `vec`, until the `unsigned` count
      `total` of lengths still wanted reaches zero. */
  function CodeLengths(data: seq<byte>, p: nat, clens: seq<nat>, ccodes: seq<nat>,
                       total: nat, vec: seq<nat>): (r: Step<seq<nat>>)
    requires |clens| == 19 && |ccodes| == 19
    ensures r.Ok? ==> r.p >= p
    decreases Remaining(data, p), 1
  {
    if total == 0 then Ok(vec, p)
    else CodeLengthsAfter(data, p, clens, ccodes, total, ClenRound(data, p, clens, ccodes, vec))
  }

  /** The rest of the loops once a pass at `p` has given `step`: the count
      drops by the number of lengths added (modulo 2^32) and the loops go on
      where the pass ended. */
  function CodeLengthsAfter(data: seq<byte>, p: nat, clens: seq<nat>, ccodes: seq<nat>,
                            total: nat, step: Step<(seq<nat>, nat)>): (r: Step<seq<nat>>)
    requires |clens| == 19 && |ccodes| == 19
    requires step.Ok? ==> p < step.p && p < 8 * |data|
    ensures r.Ok? ==> r.p >= p
    decreases Remaining(data, p), 0
  {
    if step.Fault? then Fault
    else CodeLengths(data, step.p, clens, ccodes, (total - step.v.1) % U32, step.v.0)
  }

  /** The first symbol from `s` on whose length is `len` and whose code is
      `v`, looking at no more than `limit` symbols of that length; or
      `|t.lens|` when there is none. */
  function Search(t: Code, len: nat, v: nat, s: nat, limit: nat): (k: nat)
    requires |t.codes| == |t.lens|
    ensures k <= |t.lens|
    ensures k < |t.lens| ==> s <= k && t.lens[k] == len && t.codes[k] == v
    decreases |t.lens| - s
  {
    if s >= |t.lens| || limit == 0 then |t.lens|
    else if t.lens[s] != len then Search(t, len, v, s + 1, limit)
    else if t.codes[s] == v then s
    else Search(t, len, v, s + 1, limit - 1)
  }

  /** The lookup at lines 360-392 and 405-428 (or 486-509): the symbols of
      each length are collected in increasing order, and the symbol of
      length `len` whose code is `v` is looked for among them; `|t.lens|`
      when there is none. With `sizeWraps` only the first `count % 256` of
      the `count` symbols of that length are searched, the size being kept
      in a `uint_fast8_t`. */
  function LookUp(t: Code, len: nat, v: nat, sizeWraps: bool): (k: nat)
    requires |t.codes| == |t.lens|
    ensures k <= |t.lens|
    ensures k < |t.lens| ==> t.lens[k] == len && t.codes[k] == v
  {
    var count := CountOf(t.lens, len);
    Search(t, len, v, 0, if sizeWraps then count % 256 else count)
  }

  /** The Huffman decoding loops at lines 405-428 (literal/length codes,
      `wraps`) and 486-509 (distance codes), stated by the number of bits
      read: `bits[n - 1]` is the value of the first `n` bits, read most
      significant first, and the result is the first symbol `LookUp` finds
      for a length `len`, `len + 1`, ..., with that length. The literal loop
      keeps the bits in a 64-bit variable and searches buckets whose size
      wraps at 256; the distance loop does neither. Running out of bits, or
      needing a length beyond the longest code (which indexes past the
      lookup vectors), gives `None`. */
  function SymbolSearch(t: Code, bits: seq<nat>, len: nat, wraps: bool): (r: Option<(nat, nat)>)
    requires |t.codes| == |t.lens| && 1 <= len
    ensures r.Some? ==> r.value.0 < |t.lens| && len <= r.value.1 <= |bits|
    decreases t.highest + 1 - len
  {
    if len > t.highest || len > |bits| then None
    else
      var v := if wraps then bits[len - 1] % U64 else bits[len - 1];
      var k := LookUp(t, len, v, wraps);
      if k < |t.lens| then Some((k, len))
      else SymbolSearch(t, bits, len + 1, wraps)
  }

  /** A Huffman symbol at `p`, and the position after its code. */
  function Symbol(data: seq<byte>, p: nat, t: Code, wraps: bool): (r: Step<nat>)
    requires |t.codes| == |t.lens|
    ensures r.Ok? ==> p < r.p <= 8 * |data| && r.v < |t.lens|
  {
    match SymbolSearch(t, Prefixes(data, p), 1, wraps)
    case None => Fault
    case Some((k, n)) => Ok(k, p + n)
  }

  /** A literal/length symbol. */
  function LitSymbol(data: seq<byte>, p: nat, t: Code): (r: Step<nat>)
    requires |t.codes| == |t.lens|
    ensures r.Ok? ==> p < r.p <= 8 * |data| && r.v < |t.lens|
  {
    Symbol(data, p, t, true)
  }

  /** A distance symbol. */
  function DistSymbol(data: seq<byte>, p: nat, t: Code): (r: Step<nat>)
    requires |t.codes| == |t.lens|
    ensures r.Ok? ==> p < r.p <= 8 * |data| && r.v < |t.lens|
  {
    Symbol(data, p, t, false)
  }

  /** A length symbol of a dynamic block, its extra bits, a distance symbol,
      its extra bits, and the copy. */
  function DynPair(data: seq<byte>, p: nat, sym: nat, dist: Code, out: seq<byte>): (r: Step<seq<byte>>)
    requires |dist.codes| == |dist.lens|
    ensures r.Ok? ==> r.p >= p
  {
    var (base, extra) := Counted(DynLengthCode(sym));
    match ReadLsb(data, p, extra)
    case Fault => Fault
    case Ok(e1, p1) =>
      match DistSymbol(data, p1, dist)
      case Fault => Fault
      case Ok(dsym, p2) =>
        var (dbase, dextra) := Counted(DynDistanceCode(dsym));
        match ReadLsb(data, p2, dextra)
        case Fault => Fault
        case Ok(e2, p3) =>
          match CopyPair(out, base + e1, dbase + e2)
          case None => Fault
          case Some(out') => Ok(out', p3)
  }

  /** The symbol loop of a dynamic-Huffman block. */
  function DynSymbols(data: seq<byte>, p: nat, lit: Code, dist: Code, out: seq<byte>): (r: Step<seq<byte>>)
    requires |lit.codes| == |lit.lens| && |dist.codes| == |dist.lens|
    ensures r.Ok? ==> r.p >= p
    decreases Remaining(data, p)
  {
    match LitSymbol(data, p, lit)
    case Fault => Fault
    case Ok(sym, p1) =>
      if sym < 256 then DynSymbols(data, p1, lit, dist, out + [sym])
      else if sym == 256 then Ok(out, p1)
      else
        match DynPair(data, p1, sym, dist, out)
        case Fault => Fault
        case Ok(out', p2) => DynSymbols(data, p2, lit, dist, out')
  }

  /** The prefix code `lengthsToPrefix` builds from `lens`, or `None` where
      it indexes past its count vector. */
  function BuildCode(lens: seq<nat>): (r: Option<Code>)
    ensures r.Some? <==> ValidLengths(lens)
    ensures r.Some? ==> r.value.lens == lens && |r.value.codes| == |lens|
  {
    if ValidLengths(lens) then Some(Code(lens, PrefixCodes(lens, UintMax), MaxLength(lens))) else None
  }

  /** What a dynamic block begins with: the number of literal/length code
      lengths (HLIT + 257), of distance code lengths (HDIST + 1), and the
      code-length code lengths indexed by symbol. */
  datatype DynHeader = DynHeader(litTotal: nat, distTotal: nat, clens: seq<nat>)

  /** HLIT, HDIST and HCLEN, then the HCLEN + 4 code-length code lengths,
      put back in symbol order. */
  function DynamicHeader(data: seq<byte>, p: nat): (r: Step<DynHeader>)
    ensures r.Ok? ==> r.p >= p && |r.v.clens| == 19
  {
    match ReadForwardStep(data, p, 5)
    case Fault => Fault
    case Ok(hlit, p1) =>
      match ReadForwardStep(data, p1, 5)
      case Fault => Fault
      case Ok(hdist, p2) =>
        match ReadForwardStep(data, p2, 4)
        case Fault => Fault
        case Ok(hclen, p3) =>
          assert Pow2(4) == 16;
          match ReadClens(data, p3, hclen + 4)
          case Fault => Fault
          case Ok(bin, p4) => Ok(DynHeader(hlit + 257, hdist + 1, Permute(bin)), p4)
  }

  /** A dynamic-Huffman block: its header, then `DynamicCodes`. */
  function DynamicBlock(data: seq<byte>, p: nat, out: seq<byte>): (r: Step<seq<byte>>)
    ensures r.Ok? ==> r.p >= p
  {
    match DynamicHeader(data, p)
    case Fault => Fault
    case Ok(h, p1) => DynamicCodes(data, p1, h.clens, h.litTotal, h.distTotal, out)
  }

  /** The rest of a dynamic block: the code-length code built from the
      permuted lengths `clens`, the `litTotal` literal/length code lengths
      and the `distTotal` distance code lengths it decodes, then the
      symbols. */
  function DynamicCodes(data: seq<byte>, p: nat, clens: seq<nat>, litTotal: nat, distTotal: nat,
                        out: seq<byte>): (r: Step<seq<byte>>)
    requires |clens| == 19
    ensures r.Ok? ==> r.p >= p
  {
    var ccodes := PrefixCodes(clens, UintMax);
    match CodeLengths(data, p, clens, ccodes, litTotal, [])
    case Fault => Fault
    case Ok(litLens, p1) =>
      match BuildCode(litLens)
      case None => Fault
      case Some(lit) =>
        match CodeLengths(data, p1, clens, ccodes, distTotal, [])
        case Fault => Fault
        case Ok(distLens, p2) =>
          match BuildCode(distLens)
          case None => Fault
          case Some(dist) => DynSymbols(data, p2, lit, dist, out)
  }
}
