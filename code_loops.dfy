/** The bit-by-bit loops of `yan_deflate` (yanconv.cpp) that recognise a
    prefix code: the code-length loops at lines 234-285 and 295-346, and
    the Huffman loops of a dynamic block at lines 405-428 (literal/length)
    and 486-509 (distance). Each method is proved to compute the function
    of `InflateSpec` that states the loop by the number of bits read. */
module CodeLoops {
  import opened Bytes
  import opened BitCursor
  import opened Prefix
  import opened InflateSpec
  import opened InflateProps

  /** `(inputData[i] >> bitOffset) & 0x1` followed by `shiftOffset()`:
      `++bitOffset; i += (bitOffset & 0x8) >> 3; bitOffset &= 0x7`. */
  method TakeBit(data: seq<byte>, i: nat, bitOffset: Offset) returns (b: nat, i': nat, bitOffset': Offset)
    requires i < |data|
    ensures ReadBit(data, 8 * i + bitOffset) == Ok(b, 8 * i' + bitOffset')
  {
    var p := 8 * i + bitOffset;
    assert p / 8 == i && p % 8 == bitOffset;
    b := ShiftRight(data[i], bitOffset) % 2;
    var o := bitOffset + 1;
    i' := i + o / 8;
    bitOffset' := o % 8;
  }

  /** Keeping the accumulator to 64 bits before shifting a bit in gives
      the same 64 bits as keeping it afterwards. */
  lemma {:induction false} ShiftInWraps(x: nat, b: nat)
    ensures ((x % U64) * 2 + b) % U64 == (x * 2 + b) % U64
  {
    var q := x / U64;
    assert x == U64 * q + x % U64;
    assert x * 2 + b == ((x % U64) * 2 + b) + U64 * (2 * q);
  }

  /** The value of one more bit, most significant first. */
  lemma {:induction false} MsbFirstNext(data: seq<byte>, p: nat, n: nat)
    requires p + n < 8 * |data|
    ensures MsbFirst(data, p, n + 1) == MsbFirst(data, p, n) * 2 + BitAt(data, p + n)
  {
  }

  /** Shifting the next bit into the value of the bits before it gives
      the value of one bit more, exactly or kept to 64 bits. */
  lemma {:induction false} ShiftInNext(data: seq<byte>, p: nat, n: nat, acc: nat, b: nat, wraps: bool)
    requires 1 <= n && p + n <= 8 * |data| && b == BitAt(data, p + n - 1)
    requires n == 1 ==> acc == 0
    requires n > 1 ==> acc == if wraps then MsbFirst(data, p, n - 1) % U64 else MsbFirst(data, p, n - 1)
    ensures (if wraps then (acc * 2 + b) % U64 else acc * 2 + b)
         == (if wraps then MsbFirst(data, p, n) % U64 else MsbFirst(data, p, n))
  {
    MsbFirstNext(data, p, n - 1);
    if wraps && n > 1 {
      ShiftInWraps(MsbFirst(data, p, n - 1), b);
    }
  }

  /** A byte-sized counter one step on. */
  lemma {:induction false} ByteCountNext(n: nat)
    requires 1 <= n
    ensures ((n - 1) % 256 + 1) % 256 == n % 256
  {
    var q := (n - 1) / 256;
    assert n - 1 == 256 * q + (n - 1) % 256;
    if (n - 1) % 256 == 255 {
      assert n == 256 * (q + 1);
    } else {
      assert n == 256 * q + ((n - 1) % 256 + 1);
    }
  }

  /** The accumulator after `n` bits at `p`: their value, most
      significant first, kept to 64 bits where `wraps`. */
  function Accumulated(data: seq<byte>, p: nat, n: nat, wraps: bool): nat
    requires n == 0 || p + n <= 8 * |data|
  {
    if n == 0 then 0
    else if wraps then MsbFirst(data, p, n) % U64
    else MsbFirst(data, p, n)
  }

  /** The head of both bit loops: `readingBits |= (inputData[i] >> bitOffset)
      & 0x1`, the cursor moved on, and the shift `readingBits <<= 1` of the
      turn before (in 64 bits where `wraps`). */
  method ShiftBitIn(data: seq<byte>, p: nat, n: nat, i: nat, bitOffset: Offset, acc: nat, wraps: bool)
    returns (i': nat, bitOffset': Offset, acc': nat)
    requires i < |data| && 8 * i + bitOffset == p + n
    requires acc == Accumulated(data, p, n, wraps)
    ensures 8 * i' + bitOffset' == p + n + 1 <= 8 * |data|
    ensures acc' == Accumulated(data, p, n + 1, wraps)
  {
    var b;
    b, i', bitOffset' := TakeBit(data, i, bitOffset);
    ShiftInNext(data, p, n + 1, acc, b, wraps);
    acc' := if wraps then (acc * 2 + b) % U64 else acc * 2 + b;
  }

  /** The inner loop `for (lci = 0; lci < lciSize; ++lci)`: the index of
      the first code equal to `v`, or the number of codes. */
  method FindCode(codes: seq<nat>, v: nat) returns (k: nat)
    ensures k == FirstIndex(codes, v)
  {
    var lci := 0;
    while lci < |codes|
      invariant lci <= |codes|
      invariant FirstIndex(codes, v) == lci + FirstIndex(codes[lci..], v)
    {
      if codes[lci] == v {
        return lci;
      }
      assert codes[lci..][1..] == codes[lci + 1..];
      lci := lci + 1;
    }
    return |codes|;
  }

  /** One length tried by `ClenSearch`: the symbol found there, or the
      search goes on with one bit more. */
  lemma {:induction false} ClenSearchStep(bits: seq<nat>, clens: seq<nat>, ccodes: seq<nat>, n: nat)
    requires |clens| == 19 && |ccodes| == 19 && 1 <= n <= |bits|
    ensures var idx := FirstIndex(ccodes, bits[n - 1] % U64);
      ClenSearch(bits, clens, ccodes, n)
      == if idx < 19 && clens[idx] == n % 256 then Some((idx, n)) else ClenSearch(bits, clens, ccodes, n + 1)
  {
  }

  /** One length tried by `SymbolSearch`: the symbol found there, or the
      search goes on with one bit more. */
  lemma {:induction false} SymbolSearchStep(t: Code, bits: seq<nat>, len: nat, wraps: bool)
    requires |t.codes| == |t.lens| && 1 <= len <= t.highest && len <= |bits|
    ensures var k := LookUp(t, len, if wraps then bits[len - 1] % U64 else bits[len - 1], wraps);
      SymbolSearch(t, bits, len, wraps)
      == if k < |t.lens| then Some((k, len)) else SymbolSearch(t, bits, len + 1, wraps)
  {
  }

  /** The bits of one code-length symbol: a bit is shifted into the 64-bit
      `readingBits` (`uint_fast16_t`) and counted in the byte-sized
      `currCodeLength` (`uint_fast8_t`), until the first of the 19 codes
      equal to `readingBits` has `currCodeLength` bits. Reading past the
      input gives `None`. */
  method ClenSymbol(data: seq<byte>, p: nat, clens: seq<nat>, ccodes: seq<nat>) returns (r: Option<(nat, nat)>)
    requires |clens| == 19 && |ccodes| == 19
    ensures r == ClenSearch(Prefixes(data, p), clens, ccodes, 1)
  {
    ghost var bits := Prefixes(data, p);
    var i: nat, bitOffset: Offset := p / 8, p % 8;
    var readingBits: nat := 0;
    var currCodeLength: nat := 0;
    var n: nat := 1;
    while true
      invariant 1 <= n && n - 1 <= Remaining(data, p)
      invariant 8 * i + bitOffset == p + n - 1
      invariant n == 1 || p + n - 1 <= 8 * |data|
      invariant currCodeLength == (n - 1) % 256
      invariant readingBits == Accumulated(data, p, n - 1, true)
      invariant ClenSearch(bits, clens, ccodes, n) == ClenSearch(bits, clens, ccodes, 1)
      decreases Remaining(data, p) - (n - 1)
    {
      if i >= |data| {
        assert n > |bits|;
        return None;
      }
      i, bitOffset, readingBits := ShiftBitIn(data, p, n - 1, i, bitOffset, readingBits, true);
      ByteCountNext(n);
      currCodeLength := (currCodeLength + 1) % 256;
      PrefixesValue(data, p, n);
      assert readingBits == bits[n - 1] % U64;
      var codeIndex := FindCode(ccodes, readingBits);
      ClenSearchStep(bits, clens, ccodes, n);
      if codeIndex < 19 && clens[codeIndex] == currCodeLength {
        return Some((codeIndex, n));
      }
      n := n + 1;
    }
  }

  /** One symbol of the code-length loops, found after `n` bits, and the
      run of lengths it stands for: the loops go on after them with the
      count lowered, and fewer bits remain. */
  lemma {:induction false} CodeLengthsRound(data: seq<byte>, p: nat, clens: seq<nat>, ccodes: seq<nat>,
                                            total: nat, vec: seq<nat>, sym: nat, n: nat, run: Step<(seq<nat>, nat)>)
    requires |clens| == 19 && |ccodes| == 19 && total != 0
    requires ClenSearch(Prefixes(data, p), clens, ccodes, 1) == Some((sym, n))
    requires run == CodeLengthRun(data, p + n, sym, vec) && run.Ok?
    ensures Remaining(data, run.p) < Remaining(data, p)
    ensures CodeLengths(data, p, clens, ccodes, total, vec)
         == CodeLengths(data, run.p, clens, ccodes, (total - run.v.1) % U32, run.v.0)
  {
    assert ClenRound(data, p, clens, ccodes, vec) == run;
    CodeLengthsUnfold(data, p, clens, ccodes, total, vec);
  }

  /** The loops at lines 234-285 and 295-346: a code-length symbol, then
      the lengths it stands for appended to `codewordsVec`, until the
      `unsigned` count `codesLengthTotal` reaches zero. */
  method CodeLengthsLoop(data: seq<byte>, p0: nat, clens: seq<nat>, ccodes: seq<nat>, total: nat)
    returns (r: Step<seq<nat>>)
    requires |clens| == 19 && |ccodes| == 19
    ensures r == CodeLengths(data, p0, clens, ccodes, total, [])
  {
    ghost var result := CodeLengths(data, p0, clens, ccodes, total, []);
    var codewordsVec: seq<nat> := [];
    var codesLengthTotal: nat := total;
    var p: nat := p0;
    while codesLengthTotal != 0
      invariant CodeLengths(data, p, clens, ccodes, codesLengthTotal, codewordsVec) == result
      decreases Remaining(data, p)
    {
      var found := ClenSymbol(data, p, clens, ccodes);
      if found.None? {
        return Fault;
      }
      var (codeIndex, n) := found.value;
      var run := CodeLengthRun(data, p + n, codeIndex, codewordsVec);
      if run.Fault? {
        return Fault;
      }
      CodeLengthsRound(data, p, clens, ccodes, codesLengthTotal, codewordsVec, codeIndex, n, run);
      codewordsVec := run.v.0;
      codesLengthTotal := (codesLengthTotal - run.v.1) % U32;
      p := run.p;
    }
    return Ok(codewordsVec, p);
  }

  /** The lookup loop `for (cci = 0; cci < currLenLookupLength; ++cci)`
      over the symbols of length `len` in increasing order, of which there
      are `CountOf(t.lens, len)` (kept in a `uint_fast8_t` for
      literal/length codes): the first whose code is `v`, or the number of
      symbols. */
  method LookUpLoop(t: Code, len: nat, v: nat, sizeWraps: bool) returns (k: nat)
    requires |t.codes| == |t.lens|
    ensures k == LookUp(t, len, v, sizeWraps)
  {
    var count := CountOf(t.lens, len);
    var currLenLookupLength := if sizeWraps then count % 256 else count;
    var s := 0;
    var left := currLenLookupLength;
    while s < |t.lens| && left > 0
      invariant s <= |t.lens|
      invariant Search(t, len, v, s, left) == LookUp(t, len, v, sizeWraps)
      decreases |t.lens| - s
    {
      if t.lens[s] == len {
        if t.codes[s] == v {
          return s;
        }
        left := left - 1;
      }
      s := s + 1;
    }
    return |t.lens|;
  }

  /** The Huffman loop of a dynamic block: a bit shifted into
      `readingBitsL` (kept to 64 bits for literal/length codes), the
      length `currCodeLengthL` counted, the symbols of that length looked
      up, until one has the code read. Reading past the input, or needing
      a length beyond the longest code, gives `Fault`. */
  method SymbolLoop(data: seq<byte>, p: nat, t: Code, wraps: bool) returns (r: Step<nat>)
    requires |t.codes| == |t.lens|
    ensures r == Symbol(data, p, t, wraps)
  {
    ghost var bits := Prefixes(data, p);
    var i: nat, bitOffset: Offset := p / 8, p % 8;
    var readingBitsL: nat := 0;
    var currCodeLengthL: nat := 1;
    while true
      invariant 1 <= currCodeLengthL && currCodeLengthL - 1 <= Remaining(data, p)
      invariant 8 * i + bitOffset == p + currCodeLengthL - 1
      invariant currCodeLengthL == 1 || p + currCodeLengthL - 1 <= 8 * |data|
      invariant readingBitsL == Accumulated(data, p, currCodeLengthL - 1, wraps)
      invariant SymbolSearch(t, bits, currCodeLengthL, wraps) == SymbolSearch(t, bits, 1, wraps)
      decreases Remaining(data, p) - (currCodeLengthL - 1)
    {
      if currCodeLengthL > t.highest || i >= |data| {
        return Fault;
      }
      var n := currCodeLengthL;
      i, bitOffset, readingBitsL := ShiftBitIn(data, p, n - 1, i, bitOffset, readingBitsL, wraps);
      PrefixesValue(data, p, n);
      assert readingBitsL == if wraps then bits[n - 1] % U64 else bits[n - 1];
      var codeIndex := LookUpLoop(t, n, readingBitsL, wraps);
      SymbolSearchStep(t, bits, n, wraps);
      if codeIndex < |t.lens| {
        return Ok(codeIndex, 8 * i + bitOffset);
      }
      currCodeLengthL := n + 1;
    }
  }
}
