/** Properties of the decoder of `InflateSpec`: the header check against
    RFC 1950, what a stored block and a back reference append, the
    reordering of the code-length code lengths, the bound on the code lengths
    a dynamic block can describe, and how a Huffman symbol is recognised. */
module InflateProps {
  import opened Bytes
  import opened BitCursor
  import opened Prefix
  import opened InflateSpec

  // ---------------------------------------------------------------------
  // The zlib header
  // ---------------------------------------------------------------------

  lemma {:induction false} ShiftedByThirtyOne(q: int, s: int)
    requires 0 <= s < 62
    ensures (31 * q + s) % 31 == s % 31
  {
  }

  /** The header word is `cAToNumber` of CMF, FLG, 0, 0. */
  lemma {:induction false} HeaderWordIsBigEndian(b0: byte, b1: byte)
    ensures HeaderWord(b0, b1) == BigEndian([b0, b1, 0, 0])
  {
    BigEndian4Bytes(b0, b1, 0, 0);
  }

  /** `cAToNumber` puts CMF and FLG in the top half of the word, so the
      source tests `(CMF * 256 + FLG) * 65536` for divisibility by 31; since
      65536 and 31 are coprime this is the test RFC 1950 section 2.2 asks
      for. */
  lemma {:induction false} HeaderCheckIsRfc(b0: byte, b1: byte)
    ensures HeaderWord(b0, b1) % 31 == 0 <==> (b0 as int * 256 + b1 as int) % 31 == 0
  {
    var x := b0 as int * 256 + b1 as int;
    var r := x % 31;
    var q := x / 31;
    assert x == 31 * q + r;
    assert HeaderWord(b0, b1) == 31 * (2114 * x + 2 * q) + 2 * r;
    ShiftedByThirtyOne(2114 * x + 2 * q, 2 * r);
  }

  /** The lenient header handling: a bad method or window byte, or a bad
      check value, gives an empty output. */
  lemma {:induction false} HeaderRejected(data: seq<byte>)
    requires |data| >= 2
    requires !MethodAccepted(data[0]) || (data[0] as int * 256 + data[1] as int) % 31 != 0
    ensures Inflate(data) == Output([])
  {
    if MethodAccepted(data[0]) {
      HeaderCheckIsRfc(data[0], data[1]);
      assert HeaderWord(data[0], data[1]) % 31 != 0;
    }
  }

  /** A good header starts the block loop on the third byte. */
  lemma {:induction false} HeaderAccepted(data: seq<byte>)
    requires |data| >= 2
    requires MethodAccepted(data[0]) && (data[0] as int * 256 + data[1] as int) % 31 == 0
    ensures Inflate(data) == Blocks(data, 16, [])
  {
    HeaderCheckIsRfc(data[0], data[1]);
    assert HeaderWord(data[0], data[1]) % 31 == 0;
  }

  /** A block of the reserved type 3 ends decoding with what has been
      decoded so far, whatever follows it. */
  lemma {:induction false} ReservedTypeStops(data: seq<byte>, p: nat, out: seq<byte>)
    requires p + 3 <= 8 * |data|
    requires BitAt(data, p + 1) == 1 && BitAt(data, p + 2) == 1
    ensures Blocks(data, p, out) == Output(out)
  {
    var r1 := ReadBit(data, p);
    var r2 := ReadBit(data, r1.p);
    var r3 := ReadBit(data, r2.p);
    assert r2.v == 1 && r3.v == 1;
  }

  // ---------------------------------------------------------------------
  // Stored blocks
  // ---------------------------------------------------------------------

  /** A stored block is defined exactly when LEN can be read and its LEN
      bytes are present (or LEN is 0), and then it appends those bytes
      unchanged and leaves the cursor on the byte boundary after them. */
  lemma {:induction false} StoredBlockAppends(data: seq<byte>, p: nat, out: seq<byte>)
    ensures var a := AlignedByte(p);
      Stored(data, p, out).Ok? <==> a + 1 < |data| && (Le16(data, a) == 0 || a + 4 + Le16(data, a) <= |data|)
    ensures var a := AlignedByte(p);
      a + 1 < |data| && a + 4 + Le16(data, a) <= |data| ==>
        var start := a + 4;
        var len := Le16(data, a);
        Stored(data, p, out) == Ok(out + data[start..start + len], 8 * (start + len))
  {
    var a := AlignedByte(p);
    if a + 1 < |data| && a + 4 + Le16(data, a) <= |data| && Le16(data, a) == 0 {
      assert data[a + 4..a + 4] == [];
      assert out + [] == out;
    }
  }

  /** A header byte of 0 or 1 reads as BFINAL = the byte and BTYPE = 0. */
  lemma {:induction false} StoredHeaderBits(data: seq<byte>, q: nat)
    requires q < |data| && data[q] < 2
    ensures ReadBit(data, 8 * q) == Ok(data[q] as nat, 8 * q + 1)
    ensures ReadBit(data, 8 * q + 1) == Ok(0, 8 * q + 2)
    ensures ReadBit(data, 8 * q + 2) == Ok(0, 8 * q + 3)
  {
    var d := data[q];
    assert (8 * q) / 8 == q && (8 * q) % 8 == 0;
    assert (8 * q + 1) / 8 == q && (8 * q + 1) % 8 == 1;
    assert (8 * q + 2) / 8 == q && (8 * q + 2) % 8 == 2;
    assert BitAt(data, 8 * q) == d;
    assert BitAt(data, 8 * q + 1) == 0 by {
      assert ShiftRight(d, 1) == d / 2;
    }
    assert BitAt(data, 8 * q + 2) == 0 by {
      assert ShiftRight(d, 2) == ShiftRight(d / 2, 1) == 0;
    }
  }

  /** A stored block starting on a byte boundary whose header byte is 0 or 1
      (BFINAL, with BTYPE 0) is read as a whole: its LEN bytes are appended,
      and decoding either ends there or goes on at the byte after them. This
      is the step of the round trip of the encoder. */
  lemma {:induction false} StoredBlockStep(data: seq<byte>, q: nat, out: seq<byte>)
    requires q + 2 < |data| && data[q] < 2
    requires q + 5 + Le16(data, q + 1) <= |data|
    ensures data[q] == 1 ==> Blocks(data, 8 * q, out) == Output(out + data[q + 5..q + 5 + Le16(data, q + 1)])
    ensures data[q] != 1 ==>
      Blocks(data, 8 * q, out) == Blocks(data, 8 * (q + 5 + Le16(data, q + 1)), out + data[q + 5..q + 5 + Le16(data, q + 1)])
  {
    StoredHeaderBits(data, q);
    StoredBlockBody(data, q, out);
  }

  /** The body of such a block: LEN sits right after the header byte. */
  lemma {:induction false} StoredBlockBody(data: seq<byte>, q: nat, out: seq<byte>)
    requires q + 2 < |data|
    requires q + 5 + Le16(data, q + 1) <= |data|
    ensures var len := Le16(data, q + 1);
      Block(data, 8 * q + 3, 0, out) == Ok(out + data[q + 5..q + 5 + len], 8 * (q + 5 + len))
  {
    assert AlignedByte(8 * q + 3) == q + 1;
    StoredBlockAppends(data, 8 * q + 3, out);
  }

  // ---------------------------------------------------------------------
  // Back references (RFC 1951 section 3.2.3 and 3.2.5)
  // ---------------------------------------------------------------------

  /** A copy keeps the earlier output and makes every new byte equal to the
      byte `dist` places before it, including bytes the copy itself has just
      written. */
  lemma {:induction false} BackCopyContents(out: seq<byte>, dist: nat, len: nat)
    requires 1 <= dist <= |out|
    ensures var r := BackCopy(out, dist, len);
      r[..|out|] == out && forall k :: |out| <= k < |r| ==> r[k] == r[k - dist]
    decreases len
  {
    if len > 0 {
      var out' := out + [out[|out| - dist]];
      BackCopyContents(out', dist, len - 1);
      var r := BackCopy(out, dist, len);
      assert r == BackCopy(out', dist, len - 1);
      assert r[..|out|] == r[..|out'|][..|out|];
      forall k | |out| <= k < |r|
        ensures r[k] == r[k - dist]
      {
        if k == |out| {
          assert r[k] == out'[k];
        }
      }
    }
  }

  lemma {:induction false} ProductAtLeast(d: int, t: int)
    requires d >= 1 && t >= 1
    ensures d * t >= d
  {
  }

  lemma {:induction false} ModOfSmall(k: nat, d: nat)
    requires k < d
    ensures k % d == k
  {
    var q, m := k / d, k % d;
    assert d * q + m == k;
    if q >= 1 {
      ProductAtLeast(d, q);
    }
  }

  lemma {:induction false} ModAfterPeriod(k: nat, d: nat)
    requires 1 <= d <= k
    ensures (k - d) % d == k % d
  {
    var q, m := k / d, k % d;
    var q', m' := (k - d) / d, (k - d) % d;
    assert d * q + m == d * q' + m' + d;
    var t := q - q' - 1;
    assert d * t == m' - m;
    if t >= 1 {
      ProductAtLeast(d, t);
    } else if t <= -1 {
      ProductAtLeast(d, -t);
    }
  }

  lemma {:induction false} PeriodicAt(r: seq<byte>, out: seq<byte>, dist: nat, k: nat)
    requires 1 <= dist <= |out| && |out| + k < |r|
    requires r[..|out|] == out
    requires forall j :: |out| <= j < |r| ==> r[j] == r[j - dist]
    ensures r[|out| + k] == out[|out| - dist + k % dist]
    decreases k
  {
    var n := |out|;
    if k < dist {
      ModOfSmall(k, dist);
      assert r[n + k] == r[n + k - dist] == r[..n][n + k - dist];
    } else {
      PeriodicAt(r, out, dist, k - dist);
      ModAfterPeriod(k, dist);
      assert r[n + k] == r[n + (k - dist)];
    }
  }

  /** With a distance shorter than the length, the copy repeats the last
      `dist` bytes: byte `k` of the copy is byte `k % dist` of that tail. */
  lemma {:induction false} BackCopyRepeatsTail(out: seq<byte>, dist: nat, len: nat)
    requires 1 <= dist <= |out|
    ensures var r := BackCopy(out, dist, len);
      forall k :: 0 <= k < len ==> r[|out| + k] == out[|out| - dist + k % dist]
  {
    var r := BackCopy(out, dist, len);
    BackCopyContents(out, dist, len);
    forall k | 0 <= k < len
      ensures r[|out| + k] == out[|out| - dist + k % dist]
    {
      PeriodicAt(r, out, dist, k);
    }
  }

  // ---------------------------------------------------------------------
  // The code-length code (RFC 1951 section 3.2.7)
  // ---------------------------------------------------------------------

  /** The source's reordering puts the `k`-th length sent at the symbol that
      RFC 1951 names `k`-th. */
  lemma {:induction false} PermuteInvertsOrder(bin: seq<nat>)
    requires |bin| == 19
    ensures forall k :: 0 <= k < 19 ==> Permute(bin)[ClenOrder[k]] == bin[k]
  {
  }

  /** The RFC's order names every one of the 19 symbols exactly once. */
  lemma {:induction false} ClenOrderIsPermutation()
    ensures |ClenOrder| == 19
    ensures forall s :: 0 <= s < 19 ==> s in ClenOrder
    ensures forall j, k :: 0 <= j < k < 19 ==> ClenOrder[j] != ClenOrder[k]
  {
  }

  /** The code-length code lengths a dynamic block ends up with: symbol
      `ClenOrder[k]` gets the `k`-th 3-bit group after HCLEN when
      `k < HCLEN + 4`, and length 0 otherwise. */
  lemma {:induction false} CodeLengthCodeLengths(data: seq<byte>, p: nat, hclen: nat, bin: seq<nat>, p4: nat)
    requires hclen <= 19 && ReadClens(data, p, hclen) == Ok(bin, p4)
    ensures forall k :: 0 <= k < 19 && hclen <= k ==> Permute(bin)[SentSymbol(k)] == 0
    ensures forall k :: 0 <= k < 19 && k < hclen ==>
      p + 3 * k + 3 <= 8 * |data| && Permute(bin)[SentSymbol(k)] == LsbFirst(data, p + 3 * k, 3)
  {
    PermuteInvertsOrder(bin);
  }

  /** Every entry of `Repeat(x, n)` is `x`. */
  lemma {:induction false} RepeatIsConstant(x: nat, n: nat)
    ensures forall k :: 0 <= k < n ==> Repeat(x, n)[k] == x
  {
    if n > 0 {
      RepeatIsConstant(x, n - 1);
      assert forall k :: 1 <= k < n ==> Repeat(x, n)[k] == Repeat(x, n - 1)[k - 1];
    }
  }

  /** `n` copies of `x` after `vec`. */
  lemma {:induction false} RepeatAppends(vec: seq<nat>, x: nat, n: nat)
    ensures var r := vec + Repeat(x, n);
      |r| == |vec| + n && r[..|vec|] == vec && forall k :: |vec| <= k < |r| ==> r[k] == x
  {
    var r := vec + Repeat(x, n);
    assert r[..|vec|] == vec;
    RepeatIsConstant(x, n);
    assert forall k :: |vec| <= k < |r| ==> r[k] == Repeat(x, n)[k - |vec|];
  }

  /** The lengths that code-length symbols 16, 17 and 18 add: 3..6,
      3..10 and 11..138, as RFC 1951 section 3.2.7 gives them; a symbol
      below 16 adds one length. */
  lemma {:induction false} CodeLengthRunCounts(data: seq<byte>, p: nat, sym: nat, vec: seq<nat>)
    requires sym < 19
    ensures var r := CodeLengthRun(data, p, sym, vec);
      r.Ok? ==> (sym < 16 ==> r.v.1 == 1) && (sym == 16 ==> 3 <= r.v.1 <= 6) &&
                (sym == 17 ==> 3 <= r.v.1 <= 10) && (sym == 18 ==> 11 <= r.v.1 <= 138)
  {
    if sym >= 16 && CodeLengthRun(data, p, sym, vec).Ok? {
      var (bits, base) := RunBits(sym);
      var x := LsbFirst(data, p, bits);
      assert Pow2(2) == 4 && Pow2(3) == 8 && Pow2(7) == 128;
    }
  }

  /** One pass of the code-length loops keeps the lengths collected so far
      and appends as many as it counts. */
  lemma {:induction false} ClenRoundAppends(data: seq<byte>, p: nat, clens: seq<nat>, ccodes: seq<nat>, vec: seq<nat>)
    requires |clens| == 19 && |ccodes| == 19
    ensures var r := ClenRound(data, p, clens, ccodes, vec);
      r.Ok? ==> |r.v.0| == |vec| + r.v.1 && r.v.0[..|vec|] == vec
  {
    var s := ClenSearch(Prefixes(data, p), clens, ccodes, 1);
    if s.Some? {
      var (sym, n) := s.value;
      var run := CodeLengthRun(data, p + n, sym, vec);
      if run.Ok? {
        RepeatAppends(vec, RunValue(sym, vec), run.v.1);
      }
    }
  }

  /** One pass of the code-length loops appends only lengths below 16 when
      the earlier ones are: symbols 0..15 are lengths, and the runs repeat
      the previous length or zero. */
  lemma {:induction false} ClenRoundBelow16(data: seq<byte>, p: nat, clens: seq<nat>, ccodes: seq<nat>, vec: seq<nat>)
    requires |clens| == 19 && |ccodes| == 19
    requires forall k :: 0 <= k < |vec| ==> vec[k] < 16
    ensures var r := ClenRound(data, p, clens, ccodes, vec);
      r.Ok? ==> forall k :: 0 <= k < |r.v.0| ==> r.v.0[k] < 16
  {
    var s := ClenSearch(Prefixes(data, p), clens, ccodes, 1);
    if s.Some? {
      var (sym, n) := s.value;
      RunKeepsBelow16(data, p + n, sym, vec);
    }
  }

  /** One code-length symbol appends lengths below 16 only. */
  lemma {:induction false} RunKeepsBelow16(data: seq<byte>, q: nat, sym: nat, vec: seq<nat>)
    requires sym < 19
    requires forall k :: 0 <= k < |vec| ==> vec[k] < 16
    ensures var run := CodeLengthRun(data, q, sym, vec);
      run.Ok? ==> forall k :: 0 <= k < |run.v.0| ==> run.v.0[k] < 16
  {
    var run := CodeLengthRun(data, q, sym, vec);
    if run.Ok? {
      if sym == 16 {
        ModOfSmall(vec[|vec| - 1], 256);
      }
      RunBelow16(vec, RunValue(sym, vec), run.v.1);
    }
  }

  /** Appending a run of a length below 16 keeps every length below 16. */
  lemma {:induction false} RunBelow16(vec: seq<nat>, x: nat, n: nat)
    requires x < 16
    requires forall k :: 0 <= k < |vec| ==> vec[k] < 16
    ensures forall k :: 0 <= k < |vec + Repeat(x, n)| ==> (vec + Repeat(x, n))[k] < 16
  {
    RepeatAppends(vec, x, n);
    var r := vec + Repeat(x, n);
    forall k | 0 <= k < |r|
      ensures r[k] < 16
    {
      if k < |vec| {
        assert r[k] == r[..|vec|][k];
      }
    }
  }

  /** Every code length that the code-length loops produce is below 16. */
  lemma {:induction false} CodeLengthsBelow16(data: seq<byte>, p: nat, clens: seq<nat>, ccodes: seq<nat>,
                                              total: nat, vec: seq<nat>)
    requires |clens| == 19 && |ccodes| == 19
    requires forall k :: 0 <= k < |vec| ==> vec[k] < 16
    ensures var r := CodeLengths(data, p, clens, ccodes, total, vec);
      r.Ok? ==> forall k :: 0 <= k < |r.v| ==> r.v[k] < 16
    decreases Remaining(data, p)
  {
    if total != 0 {
      var step := ClenRound(data, p, clens, ccodes, vec);
      if step.Ok? {
        var total' := (total - step.v.1) % U32;
        assert CodeLengths(data, p, clens, ccodes, total, vec)
          == CodeLengths(data, step.p, clens, ccodes, total', step.v.0);
        ClenRoundBelow16(data, p, clens, ccodes, vec);
        CodeLengthsBelow16(data, step.p, clens, ccodes, total', step.v.0);
      }
    }
  }

  lemma {:induction false} CountStep(lr: int, lv2: int, lv: int, added: int, total: nat)
    requires lv2 == lv + added && total < U32
    requires (lr - lv2) % U32 == (total - added) % U32
    ensures (lr - lv) % U32 == total
  {
    var q1 := (lr - lv2) / U32;
    var q2 := (total - added) / U32;
    assert lr - lv == total + U32 * (q1 - q2);
  }

  lemma {:induction false} PrefixOfPrefix(a: seq<nat>, b: seq<nat>, c: seq<nat>)
    requires |c| <= |b| <= |a| && a[..|b|] == b && b[..|c|] == c
    ensures a[..|c|] == c
  {
    assert forall k :: 0 <= k < |c| ==> a[k] == a[..|b|][k];
  }

  /** One pass of the code-length loops, then the rest of them. */
  lemma {:induction false} CodeLengthsUnfold(data: seq<byte>, p: nat, clens: seq<nat>, ccodes: seq<nat>,
                                             total: nat, vec: seq<nat>)
    requires |clens| == 19 && |ccodes| == 19 && total != 0
    requires ClenRound(data, p, clens, ccodes, vec).Ok?
    ensures var step := ClenRound(data, p, clens, ccodes, vec);
      CodeLengths(data, p, clens, ccodes, total, vec)
      == CodeLengths(data, step.p, clens, ccodes, (total - step.v.1) % U32, step.v.0)
  {
    var step := ClenRound(data, p, clens, ccodes, vec);
    assert CodeLengths(data, p, clens, ccodes, total, vec)
        == CodeLengthsAfter(data, p, clens, ccodes, total, step);
  }

  /** The code-length loops keep the lengths already collected. */
  lemma {:induction false} CodeLengthsKeepPrefix(data: seq<byte>, p: nat, clens: seq<nat>, ccodes: seq<nat>,
                                                 total: nat, vec: seq<nat>)
    requires |clens| == 19 && |ccodes| == 19
    ensures var r := CodeLengths(data, p, clens, ccodes, total, vec);
      r.Ok? ==> |r.v| >= |vec| && r.v[..|vec|] == vec
    decreases Remaining(data, p)
  {
    if total != 0 {
      var step := ClenRound(data, p, clens, ccodes, vec);
      if step.Ok? {
        ClenRoundAppends(data, p, clens, ccodes, vec);
        CodeLengthsUnfold(data, p, clens, ccodes, total, vec);
        var total' := (total - step.v.1) % U32;
        CodeLengthsKeepPrefix(data, step.p, clens, ccodes, total', step.v.0);
        var r' := CodeLengths(data, step.p, clens, ccodes, total', step.v.0);
        if r'.Ok? {
          PrefixOfPrefix(r'.v, step.v.0, vec);
        }
      }
    }
  }

  /** The loops add `total` lengths modulo 2^32: `codesLengthTotal` is
      `unsigned`, so a run that overshoots the total makes it wrap instead of
      stopping the loop. */
  lemma {:induction false} CodeLengthsCount(data: seq<byte>, p: nat, clens: seq<nat>, ccodes: seq<nat>,
                                            total: nat, vec: seq<nat>)
    requires |clens| == 19 && |ccodes| == 19
    requires total < U32
    ensures var r := CodeLengths(data, p, clens, ccodes, total, vec);
      r.Ok? ==> |r.v| >= |vec| && (|r.v| - |vec|) % U32 == total
    decreases Remaining(data, p)
  {
    var r := CodeLengths(data, p, clens, ccodes, total, vec);
    if total == 0 {
      assert r == Ok(vec, p);
    } else {
      var step := ClenRound(data, p, clens, ccodes, vec);
      if step.Ok? {
        ClenRoundAppends(data, p, clens, ccodes, vec);
        var vec', added := step.v.0, step.v.1;
        var total' := (total - added) % U32;
        var r' := CodeLengths(data, step.p, clens, ccodes, total', vec');
        CodeLengthsUnfold(data, p, clens, ccodes, total, vec);
        CodeLengthsCount(data, step.p, clens, ccodes, total', vec');
        if r'.Ok? {
          CountStep(|r'.v|, |vec'|, |vec|, added, total);
        }
      }
    }
  }

  /** When fewer than 2^32 lengths come out, exactly the `total` asked for
      (HLIT + 257 or HDIST + 1) do. */
  lemma {:induction false} CodeLengthsExact(data: seq<byte>, p: nat, clens: seq<nat>, ccodes: seq<nat>, total: nat)
    requires |clens| == 19 && |ccodes| == 19
    requires total < U32
    ensures var r := CodeLengths(data, p, clens, ccodes, total, []);
      r.Ok? && |r.v| < U32 ==> |r.v| == total
  {
    CodeLengthsCount(data, p, clens, ccodes, total, []);
    var r := CodeLengths(data, p, clens, ccodes, total, []);
    if r.Ok? && |r.v| < U32 {
      ModOfSmall(|r.v|, U32);
    }
  }

  // ---------------------------------------------------------------------
  // Recognising a Huffman symbol
  // ---------------------------------------------------------------------

  /** `Prefixes` holds the value of the first `n` bits at index `n - 1`. */
  lemma {:induction false} PrefixesValue(data: seq<byte>, p: nat, n: nat)
    requires 1 <= n <= Remaining(data, p)
    ensures p + n <= 8 * |data|
    ensures Prefixes(data, p)[n - 1] == MsbFirst(data, p, n)
  {
    assert p < 8 * |data|;
  }

  /** A symbol found trying lengths from `len` on has a code length of at
      least `len` and at most the longest code's, and its code is the value
      of that many bits (kept to 64 bits for literal/length codes). */
  lemma {:induction false} SymbolSearchFinds(t: Code, bits: seq<nat>, len: nat, wraps: bool)
    requires |t.codes| == |t.lens| && 1 <= len
    ensures var r := SymbolSearch(t, bits, len, wraps);
      r.Some? ==> var (k, n) := r.value;
        n <= t.highest && t.lens[k] == n && t.codes[k] == if wraps then bits[n - 1] % U64 else bits[n - 1]
    decreases t.highest + 1 - len
  {
    var r := SymbolSearch(t, bits, len, wraps);
    if r.Some? && len <= t.highest && len <= |bits| {
      var v := if wraps then bits[len - 1] % U64 else bits[len - 1];
      if LookUp(t, len, v, wraps) >= |t.lens| {
        SymbolSearchFinds(t, bits, len + 1, wraps);
      }
    }
  }

  /** A symbol's code length is the number of bits consumed, and its code
      is those bits read most significant first (kept to 64 bits for
      literal/length codes). */
  lemma {:induction false} SymbolDecodes(data: seq<byte>, p: nat, t: Code, wraps: bool)
    requires |t.codes| == |t.lens|
    ensures var r := Symbol(data, p, t, wraps);
      r.Ok? ==> var n := r.p - p;
        1 <= n <= t.highest && t.lens[r.v] == n &&
        t.codes[r.v] == if wraps then MsbFirst(data, p, n) % U64 else MsbFirst(data, p, n)
  {
    SymbolSearchFinds(t, Prefixes(data, p), 1, wraps);
    var r := Symbol(data, p, t, wraps);
    if r.Ok? {
      PrefixesValue(data, p, r.p - p);
    }
  }

  lemma {:induction false} FifteenBitsFit(x: nat, n: nat)
    requires n <= 15 && x < Pow2(n)
    ensures x % U64 == x
  {
    Pow2Monotone(n, 15);
    assert Pow2(15) == 32768;
  }

  /** With codes of at most 15 bits, as DEFLATE's are, a literal/length
      code is exactly the bits read: the 64-bit accumulator does not wrap. */
  lemma {:induction false} LitSymbolDecodes(data: seq<byte>, p: nat, t: Code)
    requires |t.codes| == |t.lens| && t.highest < 16
    ensures var r := LitSymbol(data, p, t);
      r.Ok? ==> var n := r.p - p;
        1 <= n <= t.highest && t.lens[r.v] == n && t.codes[r.v] == MsbFirst(data, p, n)
  {
    var r := LitSymbol(data, p, t);
    var s := Symbol(data, p, t, true);
    assert r == s;
    SymbolDecodes(data, p, t, true);
    if s.Ok? {
      var n := s.p - p;
      var bits := MsbFirst(data, p, n);
      assert t.codes[s.v] == bits % U64;
      MsbFirstBound(data, p, n);
      FifteenBitsFit(bits, n);
      assert t.codes[r.v] == bits;
    }
  }

  /** A distance code is the bits read. */
  lemma {:induction false} DistSymbolDecodes(data: seq<byte>, p: nat, t: Code)
    requires |t.codes| == |t.lens|
    ensures var r := DistSymbol(data, p, t);
      r.Ok? ==> var n := r.p - p;
        1 <= n <= t.highest && t.lens[r.v] == n && t.codes[r.v] == MsbFirst(data, p, n)
  {
    assert DistSymbol(data, p, t) == Symbol(data, p, t, false);
    SymbolDecodes(data, p, t, false);
  }

  // ---------------------------------------------------------------------
  // Every code is recognised (the converse of the lemmas above)
  // ---------------------------------------------------------------------

  /** The first `m` bits are the first `n` bits shifted right by `n - m`. */
  lemma {:induction false} MsbFirstPrefix(data: seq<byte>, p: nat, m: nat, n: nat)
    requires m <= n && p + n <= 8 * |data|
    ensures MsbFirst(data, p, m) == ShiftRight(MsbFirst(data, p, n), n - m)
    decreases n - m
  {
    if m < n {
      MsbFirstPrefix(data, p, m, n - 1);
      assert MsbFirst(data, p, n) / 2 == MsbFirst(data, p, n - 1);
    }
  }

  /** Searching from symbol `from` on reaches a symbol `s` of the length
      and code looked for when fewer than `limit` symbols of that length
      lie between. */
  lemma {:induction false} SearchReaches(t: Code, len: nat, v: nat, from: nat, limit: nat, s: nat)
    requires |t.codes| == |t.lens| && from <= s < |t.lens|
    requires t.lens[s] == len && t.codes[s] == v
    requires CountOf(t.lens[from..s], len) < limit
    ensures Search(t, len, v, from, limit) < |t.lens|
    decreases s - from
  {
    if from < s {
      assert t.lens[from..s][1..] == t.lens[from + 1..s];
      SearchReaches(t, len, v, from + 1, if t.lens[from] == len then limit - 1 else limit, s);
    }
  }

  /** In a code `lengthsToPrefix` built, the lookup of a symbol's own
      length and code gives that symbol, provided the bucket of its length
      did not wrap. */
  lemma {:induction false} LookUpFinds(t: Code, s: nat, wraps: bool)
    requires BuildCode(t.lens) == Some(t) && s < |t.lens| && 1 <= t.lens[s]
    requires wraps ==> CountOf(t.lens, t.lens[s]) < 256
    ensures LookUp(t, t.lens[s], t.codes[s], wraps) == s
  {
    var lens, n := t.lens, t.lens[s];
    RankBelowCount(lens, s);
    assert lens[0..s] == lens[..s];
    var count := CountOf(lens, n);
    SearchReaches(t, n, t.codes[s], 0, if wraps then count % 256 else count, s);
    var k := LookUp(t, n, t.codes[s], wraps);
    if k < s {
      CodesAscend(lens, UintMax, k, s);
    } else if s < k {
      CodesAscend(lens, UintMax, s, k);
    }
  }

  /** The leading `m` bits of the code of a longer symbol are the code of
      no symbol of length `m`. */
  lemma {:induction false} LookUpMisses(t: Code, m: nat, s: nat, wraps: bool)
    requires BuildCode(t.lens) == Some(t) && s < |t.lens| && 1 <= m < t.lens[s]
    requires forall l :: m <= l < t.lens[s] ==> CountOf(t.lens, l) < 256
    ensures LookUp(t, m, ShiftRight(t.codes[s], t.lens[s] - m), wraps) == |t.lens|
  {
    var k := LookUp(t, m, ShiftRight(t.codes[s], t.lens[s] - m), wraps);
    if k < |t.lens| {
      PrefixFree(t.lens, UintMax, k, s);
    }
  }

  /** Trying lengths from `len` on, with `bits` holding the leading bits of
      the code of `s`, ends at `s` and its length. */
  lemma {:induction false} SymbolSearchComplete(t: Code, bits: seq<nat>, len: nat, wraps: bool, s: nat)
    requires BuildCode(t.lens) == Some(t) && s < |t.lens|
    requires 1 <= len <= t.lens[s] <= |bits|
    requires forall i :: len - 1 <= i < t.lens[s] ==> bits[i] == ShiftRight(t.codes[s], t.lens[s] - 1 - i)
    requires forall l :: len <= l < t.lens[s] ==> CountOf(t.lens, l) < 256
    requires wraps ==> t.codes[s] < U64 && CountOf(t.lens, t.lens[s]) < 256
    ensures SymbolSearch(t, bits, len, wraps) == Some((s, t.lens[s]))
    decreases t.lens[s] - len
  {
    var n := t.lens[s];
    MaxLengthIsMax(t.lens);
    assert t.highest == MaxLength(t.lens);
    assert len <= t.highest;
    var x := ShiftRight(t.codes[s], n - len);
    assert bits[len - 1] == x;
    var v := if wraps then bits[len - 1] % U64 else bits[len - 1];
    assert v == x by {
      if wraps {
        assert x < U64;
      }
    }
    if len == n {
      LookUpFinds(t, s, wraps);
      assert LookUp(t, len, v, wraps) == s;
    } else {
      LookUpMisses(t, len, s, wraps);
      assert LookUp(t, len, v, wraps) == |t.lens|;
      SymbolSearchComplete(t, bits, len + 1, wraps, s);
    }
  }

  /** The converse of `SymbolDecodes`: where the bits at `p` are the code
      of symbol `s`, the symbol read is `s` and its code is consumed,
      provided the per-length counts of `lengthsToPrefix` did not wrap
      (and, for literal/length codes, the code fits the 64-bit
      accumulator and the bucket of its length did not wrap). */
  lemma {:induction false} SymbolComplete(data: seq<byte>, p: nat, t: Code, wraps: bool, s: nat)
    requires BuildCode(t.lens) == Some(t) && s < |t.lens| && 1 <= t.lens[s]
    requires p + t.lens[s] <= 8 * |data| && MsbFirst(data, p, t.lens[s]) == t.codes[s]
    requires forall l :: 1 <= l < t.lens[s] ==> CountOf(t.lens, l) < 256
    requires wraps ==> t.lens[s] < 16 && CountOf(t.lens, t.lens[s]) < 256
    ensures Symbol(data, p, t, wraps) == Ok(s, p + t.lens[s])
  {
    var n := t.lens[s];
    var bits := Prefixes(data, p);
    forall i | 0 <= i < n
      ensures bits[i] == ShiftRight(t.codes[s], n - 1 - i)
    {
      PrefixesValue(data, p, i + 1);
      MsbFirstPrefix(data, p, i + 1, n);
    }
    if wraps {
      MsbFirstBound(data, p, n);
      Pow2Monotone(n, 15);
      assert Pow2(15) == 32768;
    }
    SymbolSearchComplete(t, bits, 1, wraps, s);
  }

  /** A literal/length code of at most 15 bits at `p` is read as its
      symbol. */
  lemma {:induction false} LitSymbolComplete(data: seq<byte>, p: nat, t: Code, s: nat)
    requires BuildCode(t.lens) == Some(t) && s < |t.lens| && 1 <= t.lens[s] < 16
    requires p + t.lens[s] <= 8 * |data| && MsbFirst(data, p, t.lens[s]) == t.codes[s]
    requires forall l :: 1 <= l <= t.lens[s] ==> CountOf(t.lens, l) < 256
    ensures LitSymbol(data, p, t) == Ok(s, p + t.lens[s])
  {
    SymbolComplete(data, p, t, true, s);
  }

  /** A distance code at `p` is read as its symbol. */
  lemma {:induction false} DistSymbolComplete(data: seq<byte>, p: nat, t: Code, s: nat)
    requires BuildCode(t.lens) == Some(t) && s < |t.lens| && 1 <= t.lens[s]
    requires p + t.lens[s] <= 8 * |data| && MsbFirst(data, p, t.lens[s]) == t.codes[s]
    requires forall l :: 1 <= l < t.lens[s] ==> CountOf(t.lens, l) < 256
    ensures DistSymbol(data, p, t) == Ok(s, p + t.lens[s])
  {
    SymbolComplete(data, p, t, false, s);
  }
}
