/** The fixed Huffman code of RFC 1951 section 3.2.6 and the way the
    fixed-block decoder of `yan_deflate` recognises it: it reads seven bits,
    shifts them left into `checkBits` and picks one of four ranges by
    comparing `checkBits` with 0xc8, 0xbf and 0x2e. The comparison with
    0xc8 is strict, so the seven bits 1100100 that begin the codes of
    literals 144..147 land in the range of length symbols 280..287. This
    module relates the decoder as written and the corrected comparison to
    the code table. */
module FixedCodes {
  import opened Bytes
  import opened BitCursor
  import opened InflateSpec

  /** The fixed code of literal/length symbol `s`: its length in bits and
      its value, sent most significant bit first. */
  function RfcFixedCode(s: nat): (r: (nat, nat))
    requires s < 288
    ensures 7 <= r.0 <= 9
    ensures r.1 < Pow2(r.0)
  {
    assert Pow2(7) == 128 && Pow2(8) == 256 && Pow2(9) == 512;
    if s < 144 then (8, 0x30 + s)
    else if s < 256 then (9, 0x190 + (s - 144))
    else if s < 280 then (7, s - 256)
    else (8, 0xC0 + (s - 280))
  }

  /** The first seven bits of a code of `len` bits. */
  function Head7(len: nat, code: nat): nat
    requires 7 <= len <= 9
  {
    if len == 7 then code else if len == 8 then code / 2 else code / 4
  }

  /** The bits of a code of `len` bits after its first seven. */
  function Tail(len: nat, code: nat): nat
    requires 7 <= len <= 9
  {
    if len == 7 then 0 else if len == 8 then code % 2 else code % 4
  }

  // ---------------------------------------------------------------------
  // The classification as written
  // ---------------------------------------------------------------------

  /** The decoder as written reads every fixed code correctly except those
      of literals 144..147, whose first seven bits it takes for the prefix
      of an 8-bit length code. */
  lemma {:induction false} FixedCodeDecodesAsWritten(s: nat)
    requires s < 288
    ensures var (len, code) := RfcFixedCode(s);
      var v7 := Head7(len, code);
      (FixedExtraBits(v7) == len - 7 && FixedSymbolValue(v7, Tail(len, code)) == s)
        <==> !(144 <= s <= 147)
  {
    var (len, code) := RfcFixedCode(s);
    var v7 := Head7(len, code);
    if 144 <= s <= 147 {
      assert v7 == 100;
      assert FixedExtraBits(v7) == 1;
    } else {
      ClassifiedByRange(s);
    }
  }

  /** Outside 144..147 both comparisons agree, so the source's symbol is the
      corrected one. */
  lemma {:induction false} ClassifiedByRange(s: nat)
    requires s < 288 && !(144 <= s <= 147)
    ensures var (len, code) := RfcFixedCode(s);
      var v7 := Head7(len, code);
      FixedExtraBits(v7) == FixedExtraBitsRfc(v7) &&
      FixedSymbolValue(v7, Tail(len, code)) == FixedSymbolValueRfc(v7, Tail(len, code))
  {
    var (len, code) := RfcFixedCode(s);
    assert Head7(len, code) != 100;
  }

  /** Wherever the stream holds the code of literal 144 (110010000), the
      decoder as written reads eight bits and returns length symbol 288,
      where the corrected decoder reads nine and returns the literal. */
  lemma {:induction false} Literal144Misread(data: seq<byte>, p: nat)
    requires p + 9 <= 8 * |data| && MsbFirst(data, p, 9) == RfcFixedCode(144).1
    ensures FixedSymbol(data, p) == Ok(288, p + 8)
    ensures FixedSymbolRfc(data, p) == Ok(144, p + 9)
  {
    MsbFirstHead(data, p, 9);
    assert MsbFirst(data, p, 7) == 100;
    assert MsbFirst(data, p + 7, 2) == 0;
    assert MsbFirst(data, p + 7, 2) == 2 * BitAt(data, p + 7) + BitAt(data, p + 8);
    assert MsbFirst(data, p + 7, 1) == 0;
    FixedSymbolReadsCode(data, p, 144);
  }

  /** Such a stream exists: byte 0x13 followed by any even byte. */
  lemma {:induction false} Literal144Stream()
    ensures MsbFirst([0x13, 0], 0, 9) == RfcFixedCode(144).1
  {
    var data: seq<byte> := [0x13, 0];
    assert BitAt(data, 0) == 1 && BitAt(data, 1) == 1 && BitAt(data, 2) == 0;
    assert BitAt(data, 3) == 0 && BitAt(data, 4) == 1 && BitAt(data, 5) == 0;
    assert BitAt(data, 6) == 0 && BitAt(data, 7) == 0 && BitAt(data, 8) == 0;
  }

  // ---------------------------------------------------------------------
  // The corrected classification
  // ---------------------------------------------------------------------

  /** The intended number of bits after the first seven: the codes of
      literals 144..255 begin with 1100100 and above, so the first test is
      `checkBits >= 0xc8`. */
  function FixedExtraBitsRfc(v7: nat): nat {
    var check := 2 * v7;
    if check >= 200 then 2 else if check > 191 then 1 else if check > 46 then 1 else 0
  }

  /** The intended symbol of the seven bits `v7` and the bits `rest` after
      them; the arithmetic of every branch is the source's. */
  function FixedSymbolValueRfc(v7: nat, rest: nat): nat {
    var check := 2 * v7;
    if check >= 200 then (4 * v7 + rest - 256) % 256
    else if check > 191 then check + rest + 88
    else if check > 46 then (check + rest - 48) % 256
    else if v7 == 0 then 256
    else 256 + v7
  }

  /** The corrected classification inverts the code table: every symbol's
      code is read with exactly its length and gives the symbol back. */
  lemma {:induction false} FixedCodeRoundTrip(s: nat)
    requires s < 288
    ensures var (len, code) := RfcFixedCode(s);
      var v7 := Head7(len, code);
      FixedExtraBitsRfc(v7) == len - 7 && FixedSymbolValueRfc(v7, Tail(len, code)) == s
  {
    var (len, code) := RfcFixedCode(s);
    if s < 144 {
      assert code == 2 * (code / 2) + code % 2;
    } else if s < 256 {
      assert code == 4 * (code / 4) + code % 4;
    } else if s >= 280 {
      assert code == 2 * (code / 2) + code % 2;
    }
  }

  /** One symbol of a fixed block, read with the corrected classification. */
  function FixedSymbolRfc(data: seq<byte>, p: nat): (r: Step<nat>)
    ensures r.Ok? ==> p + 7 <= r.p <= p + 9
  {
    match ReadMsb(data, p, 7)
    case Fault => Fault
    case Ok(v7, p1) =>
      match ReadMsb(data, p1, FixedExtraBitsRfc(v7))
      case Fault => Fault
      case Ok(rest, p2) => Ok(FixedSymbolValueRfc(v7, rest), p2)
  }

  /** A code of 8 or 9 bits is its first seven bits followed by the rest. */
  lemma {:induction false} MsbFirstHead(data: seq<byte>, p: nat, len: nat)
    requires 7 <= len <= 9 && p + len <= 8 * |data|
    ensures MsbFirst(data, p + 7, len - 7) < Pow2(len - 7)
    ensures Head7(len, MsbFirst(data, p, len)) == MsbFirst(data, p, 7)
    ensures Tail(len, MsbFirst(data, p, len)) == MsbFirst(data, p + 7, len - 7)
  {
    MsbFirstBound(data, p + 7, len - 7);
    var v7 := MsbFirst(data, p, 7);
    if len >= 8 {
      var b7 := BitAt(data, p + 7);
      assert MsbFirst(data, p, 8) == 2 * v7 + b7;
      assert MsbFirst(data, p + 7, 1) == b7;
      if len == 9 {
        var b8 := BitAt(data, p + 8);
        assert MsbFirst(data, p, 9) == 4 * v7 + 2 * b7 + b8;
        assert MsbFirst(data, p + 7, 2) == 2 * b7 + b8;
      }
    }
  }

  /** Where the stream holds the fixed code of `s`, the corrected reader
      returns `s` and moves past exactly that code. */
  lemma {:induction false} FixedSymbolReadsCode(data: seq<byte>, p: nat, s: nat)
    requires s < 288
    requires p + RfcFixedCode(s).0 <= 8 * |data|
    requires MsbFirst(data, p, RfcFixedCode(s).0) == RfcFixedCode(s).1
    ensures FixedSymbolRfc(data, p) == Ok(s, p + RfcFixedCode(s).0)
  {
    var (len, code) := RfcFixedCode(s);
    MsbFirstHead(data, p, len);
    FixedCodeRoundTrip(s);
    var v7 := MsbFirst(data, p, 7);
    assert ReadMsb(data, p, 7) == Ok(v7, p + 7);
    assert ReadMsb(data, p + 7, len - 7) == Ok(Tail(len, code), p + len);
  }

  /** The two readers differ only where the first seven bits are 1100100. */
  lemma {:induction false} FixedSymbolAgrees(data: seq<byte>, p: nat)
    requires p + 7 <= 8 * |data| ==> MsbFirst(data, p, 7) != 100
    ensures FixedSymbol(data, p) == FixedSymbolRfc(data, p)
  {
  }

  /** So the decoder as written reads the code of every symbol outside
      144..147 correctly. */
  lemma {:induction false} FixedSymbolAsWrittenReadsCode(data: seq<byte>, p: nat, s: nat)
    requires s < 288 && !(144 <= s <= 147)
    requires p + RfcFixedCode(s).0 <= 8 * |data|
    requires MsbFirst(data, p, RfcFixedCode(s).0) == RfcFixedCode(s).1
    ensures FixedSymbol(data, p) == Ok(s, p + RfcFixedCode(s).0)
  {
    var (len, code) := RfcFixedCode(s);
    MsbFirstHead(data, p, len);
    ClassifiedByRange(s);
    FixedSymbolReadsCode(data, p, s);
    FixedSymbolAgrees(data, p);
  }
}
