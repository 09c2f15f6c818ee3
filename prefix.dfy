/** `lengthsToPrefix`: canonical prefix codes from code lengths, the
    construction of RFC 1951 section 3.2.2. The per-length counters are
    `uint8_t`, so a count is kept modulo 256. */
module Prefix {
  import opened Bytes

  /** The number of entries of `s` equal to `len`. */
  function CountOf(s: seq<nat>, len: nat): (n: nat)
    ensures n <= |s|
  {
    if s == [] then 0
    else (if s[0] == len then 1 else 0) + CountOf(s[1..], len)
  }

  /** `countsArr[len]` after counting and clearing entry 0: the number of
      codes of that length, wrapped to a byte. */
  function CountByte(lengths: seq<nat>, len: nat): (n: nat)
    ensures n < 256
  {
    if len == 0 then 0 else CountOf(lengths, len) % 256
  }

  /** The smallest code of length `len`: `code = (code + count[len-1]) << 1`,
      starting from 0 (step 2 of RFC 1951 section 3.2.2). */
  function FirstCode(lengths: seq<nat>, len: nat): nat
  {
    if len == 0 then 0 else 2 * (FirstCode(lengths, len - 1) + CountByte(lengths, len - 1))
  }

  /** The largest entry of `s` (0 for an empty sequence). */
  function MaxLength(s: seq<nat>): nat
  {
    if s == [] then 0
    else
      var m := MaxLength(s[..|s| - 1]);
      if m < s[|s| - 1] then s[|s| - 1] else m
  }

  /** `MaxLength` is the maximum: no entry exceeds it, and a nonempty
      sequence contains it. */
  lemma {:induction false} MaxLengthIsMax(s: seq<nat>)
    ensures forall k :: 0 <= k < |s| ==> s[k] <= MaxLength(s)
    ensures s != [] ==> exists k :: 0 <= k < |s| && s[k] == MaxLength(s)
  {
    if s != [] {
      var init := s[..|s| - 1];
      MaxLengthIsMax(init);
      assert forall k :: 0 <= k < |s| - 1 ==> init[k] == s[k];
      if MaxLength(init) < s[|s| - 1] {
        assert s[|s| - 1] == MaxLength(s);
      } else if init != [] {
        var j :| 0 <= j < |init| && init[j] == MaxLength(init);
        assert s[j] == MaxLength(s);
      }
    }
  }

  /** The reference definition of the code of symbol `k` (step 3 of RFC 1951
      section 3.2.2): a symbol of length zero gets `maxVal`; any other gets
      the first code of its length plus the number of earlier symbols of the
      same length. */
  function CanonicalCode(lengths: seq<nat>, maxVal: nat, k: nat): nat
    requires k < |lengths|
  {
    if lengths[k] == 0 then maxVal
    else FirstCode(lengths, lengths[k]) + CountOf(lengths[..k], lengths[k])
  }

  /** The whole vector that `lengthsToPrefix` returns, by the reference
      definition of each entry. */
  function PrefixCodes(lengths: seq<nat>, maxVal: nat): (codes: seq<nat>)
    ensures |codes| == |lengths|
    ensures forall k :: 0 <= k < |lengths| ==> codes[k] == CanonicalCode(lengths, maxVal, k)
  {
    seq(|lengths|, k requires 0 <= k < |lengths| => CanonicalCode(lengths, maxVal, k))
  }

  /** What `lengthsToPrefix` demands: a nonempty vector (it writes
      `countsArr[0]`) whose lengths index `countsArr` and fit in the byte
      `maxBitLength`. */
  predicate ValidLengths(lengths: seq<nat>) {
    0 < |lengths| && forall k :: 0 <= k < |lengths| ==> lengths[k] < |lengths| && lengths[k] < 256
  }

  lemma {:induction false} CountOfSnoc(s: seq<nat>, x: nat, len: nat)
    ensures CountOf(s + [x], len) == CountOf(s, len) + (if x == len then 1 else 0)
    decreases |s|
  {
    if s != [] {
      assert (s + [x])[1..] == s[1..] + [x];
      CountOfSnoc(s[1..], x, len);
    }
  }

  /** A byte counter that wrapped stays in step with the true count. */
  lemma {:induction false} ByteCounterStep(a: nat)
    ensures (a % 256 + 1) % 256 == (a + 1) % 256
  {
    var q := a / 256;
    assert a == 256 * q + a % 256;
  }

  /** One turn of the maximum: `if (maxBitLength < lengths[k])`. */
  lemma {:induction false} MaxLengthStep(s: seq<nat>, k: nat)
    requires k < |s|
    ensures MaxLength(s[..k + 1]) == if MaxLength(s[..k]) < s[k] then s[k] else MaxLength(s[..k])
  {
    assert s[..k + 1][..k] == s[..k];
  }

  /** One turn of the counting loop: `++countsArr[lengths[k]]`. */
  lemma {:induction false} CountsStep(lengths: seq<nat>, k: nat, counts: seq<nat>)
    requires k < |lengths| == |counts| && lengths[k] < |lengths|
    requires forall len :: 0 <= len < |lengths| ==> counts[len] == CountOf(lengths[..k], len) % 256
    ensures var c := counts[lengths[k] := (counts[lengths[k]] + 1) % 256];
      forall len :: 0 <= len < |lengths| ==> c[len] == CountOf(lengths[..k + 1], len) % 256
  {
    var x := lengths[k];
    var c := counts[x := (counts[x] + 1) % 256];
    assert lengths[..k + 1] == lengths[..k] + [x];
    forall l | 0 <= l < |lengths|
      ensures c[l] == CountOf(lengths[..k + 1], l) % 256
    {
      CountOfSnoc(lengths[..k], x, l);
      if l == x {
        ByteCounterStep(CountOf(lengths[..k], l));
      }
    }
  }

  /** `lengthsToPrefix`: counts the lengths, computes the first code of
      every length, then hands out codes in symbol order. */
  method LengthsToPrefix(lengths: seq<nat>, maxVal: nat) returns (codes: seq<nat>, highest: nat)
    requires ValidLengths(lengths)
    ensures |codes| == |lengths|
    ensures forall k :: 0 <= k < |lengths| ==> codes[k] == CanonicalCode(lengths, maxVal, k)
    ensures highest == MaxLength(lengths)
  {
    var counts;
    counts, highest := CountLengths(lengths);
    MaxLengthIsMax(lengths);
    var nextCode := FirstCodes(lengths, counts, highest);
    codes := AssignCodes(lengths, maxVal, highest, nextCode);
  }

  /** The first loop: `countsArr` (with entry 0 cleared afterwards) and
      `maxBitLength`. */
  method CountLengths(lengths: seq<nat>) returns (counts: seq<nat>, highest: nat)
    requires ValidLengths(lengths)
    ensures |counts| == |lengths|
    ensures forall len :: 0 <= len < |lengths| ==> counts[len] == CountByte(lengths, len)
    ensures highest == MaxLength(lengths)
  {
    var n := |lengths|;
    counts := seq(n, _ => 0);
    highest := 0;
    var k := 0;
    assert lengths[..0] == [];
    while k < n
      invariant 0 <= k <= n
      invariant |counts| == n
      invariant forall len :: 0 <= len < n ==> counts[len] == CountOf(lengths[..k], len) % 256
      invariant highest == MaxLength(lengths[..k])
    {
      var len := lengths[k];
      CountsStep(lengths, k, counts);
      MaxLengthStep(lengths, k);
      counts := counts[len := (counts[len] + 1) % 256];
      if highest < len {
        highest := len;
      }
      k := k + 1;
    }
    assert lengths[..n] == lengths;
    counts := counts[0 := 0];
  }

  /** The second loop: `codeLengths[len]`, the first code of every length up
      to the highest. */
  method FirstCodes(lengths: seq<nat>, counts: seq<nat>, highest: nat) returns (nextCode: seq<nat>)
    requires highest <= |counts| == |lengths|
    requires forall len :: 0 <= len < |lengths| ==> counts[len] == CountByte(lengths, len)
    ensures |nextCode| == highest + 1
    ensures forall l :: 1 <= l <= highest ==> nextCode[l] == FirstCode(lengths, l)
  {
    var code := 0;
    nextCode := seq(highest + 1, _ => 0);
    var len := 1;
    while len <= highest
      invariant 1 <= len <= highest + 1
      invariant |nextCode| == highest + 1
      invariant code == FirstCode(lengths, len - 1)
      invariant forall l :: 1 <= l < len ==> nextCode[l] == FirstCode(lengths, l)
    {
      code := (code + counts[len - 1]) * 2;
      assert code == FirstCode(lengths, len);
      nextCode := nextCode[len := code];
      len := len + 1;
    }
  }

  /** The third loop: `finalArr`, each symbol taking the next code of its
      length. */
  method AssignCodes(lengths: seq<nat>, maxVal: nat, highest: nat, nextCode0: seq<nat>) returns (codes: seq<nat>)
    requires highest == MaxLength(lengths)
    requires |nextCode0| == highest + 1
    requires forall l :: 1 <= l <= highest ==> nextCode0[l] == FirstCode(lengths, l)
    ensures |codes| == |lengths|
    ensures forall k :: 0 <= k < |lengths| ==> codes[k] == CanonicalCode(lengths, maxVal, k)
  {
    var n := |lengths|;
    var nextCode := nextCode0;
    MaxLengthIsMax(lengths);
    codes := seq(n, _ => maxVal);
    var k := 0;
    while k < n
      invariant 0 <= k <= n
      invariant |codes| == n
      invariant forall j :: 0 <= j < k ==> codes[j] == CanonicalCode(lengths, maxVal, j)
      invariant forall j :: k <= j < n ==> codes[j] == maxVal
      invariant |nextCode| == highest + 1
      invariant forall l :: 1 <= l <= highest ==> nextCode[l] == FirstCode(lengths, l) + CountOf(lengths[..k], l)
    {
      var l := lengths[k];
      assert lengths[..k + 1] == lengths[..k] + [l];
      forall m | 1 <= m <= highest {
        CountOfSnoc(lengths[..k], l, m);
      }
      if l != 0 {
        codes := codes[k := nextCode[l]];
        nextCode := nextCode[l := nextCode[l] + 1];
      }
      k := k + 1;
    }
  }

  // ---------------------------------------------------------------------
  // Properties of the canonical code
  // ---------------------------------------------------------------------

  lemma {:induction false} CountOfSplit(s: seq<nat>, i: nat, len: nat)
    requires i <= |s|
    ensures CountOf(s, len) == CountOf(s[..i], len) + CountOf(s[i..], len)
    decreases i
  {
    if i > 0 {
      CountOfSplit(s[1..], i - 1, len);
      assert s[1..][..i - 1] == s[..i][1..];
      assert s[1..][i - 1..] == s[i..];
    } else {
      assert s[i..] == s;
    }
  }

  /** Symbols of equal nonzero length get ascending codes in symbol order:
      two of them differ by the number of symbols of that length from the
      first (inclusive) to the second (exclusive). */
  lemma {:induction false} CodesAscend(lengths: seq<nat>, maxVal: nat, i: nat, j: nat)
    requires i < j < |lengths| && lengths[i] == lengths[j] != 0
    ensures CanonicalCode(lengths, maxVal, j)
         == CanonicalCode(lengths, maxVal, i) + CountOf(lengths[i..j], lengths[i])
    ensures CanonicalCode(lengths, maxVal, i) < CanonicalCode(lengths, maxVal, j)
  {
    var len := lengths[i];
    CountOfSplit(lengths[..j], i, len);
    assert lengths[..j][..i] == lengths[..i];
    assert lengths[..j][i..] == lengths[i..j];
    assert lengths[i..j] == [len] + lengths[i + 1..j];
    CountOfSplit(lengths[i..j], 1, len);
    assert lengths[i..j][..1] == [len];
    assert [len][..0] == [];
  }

  /** With no symbol of that length between them, two symbols of the same
      nonzero length get consecutive codes. */
  lemma {:induction false} CodesConsecutive(lengths: seq<nat>, maxVal: nat, i: nat, j: nat)
    requires i < j < |lengths| && lengths[i] == lengths[j] != 0
    requires forall m :: i < m < j ==> lengths[m] != lengths[i]
    ensures CanonicalCode(lengths, maxVal, j) == CanonicalCode(lengths, maxVal, i) + 1
  {
    CodesAscend(lengths, maxVal, i, j);
    var len := lengths[i];
    assert lengths[i..j] == [len] + lengths[i + 1..j];
    CountOfSplit(lengths[i..j], 1, len);
    assert lengths[i..j][..1] == [len];
    assert [len][..0] == [];
    assert lengths[i..j][1..] == lengths[i + 1..j];
    NoneCounted(lengths[i + 1..j], len);
  }

  lemma {:induction false} NoneCounted(s: seq<nat>, len: nat)
    requires forall m :: 0 <= m < |s| ==> s[m] != len
    ensures CountOf(s, len) == 0
    decreases |s|
  {
    if s != [] {
      NoneCounted(s[1..], len);
    }
  }

  /** The first symbol of a length gets that length's first code. */
  lemma {:induction false} FirstSymbolGetsFirstCode(lengths: seq<nat>, maxVal: nat, k: nat)
    requires k < |lengths| && lengths[k] != 0
    requires forall m :: 0 <= m < k ==> lengths[m] != lengths[k]
    ensures CanonicalCode(lengths, maxVal, k) == FirstCode(lengths, lengths[k])
  {
    NoneCounted(lengths[..k], lengths[k]);
  }

  /** The codes of a length stay below the first code of the next length
      halved: every code of length `len` is below `FirstCode(len) + count`,
      provided that count did not wrap. */
  lemma {:induction false} RankBelowCount(lengths: seq<nat>, k: nat)
    requires k < |lengths|
    ensures CountOf(lengths[..k], lengths[k]) < CountOf(lengths, lengths[k])
  {
    CountOfSplit(lengths, k, lengths[k]);
    assert lengths[k..] == [lengths[k]] + lengths[k + 1..];
    CountOfSplit(lengths[k..], 1, lengths[k]);
    assert lengths[k..][..1] == [lengths[k]];
    assert [lengths[k]][..0] == [];
  }

  /** The first code of a longer length, shifted back, is past every code of
      a shorter nonzero length (no count at the lengths in between wraps). */
  lemma {:induction false} FirstCodeDominates(lengths: seq<nat>, short: nat, long: nat)
    requires 1 <= short <= long
    requires forall l :: short <= l < long ==> CountOf(lengths, l) < 256
    ensures ShiftLeft(FirstCode(lengths, short) + (if short < long then CountOf(lengths, short) else 0), long - short)
         <= FirstCode(lengths, long)
    decreases long - short
  {
    if short < long {
      var next := FirstCode(lengths, short) + CountOf(lengths, short);
      assert FirstCode(lengths, short + 1) == 2 * next;
      if short + 1 < long {
        FirstCodeDominates(lengths, short + 1, long);
        ShiftLeftMonotone(2 * next, FirstCode(lengths, short + 1) + CountOf(lengths, short + 1), long - short - 1);
      }
      ShiftLeftTwice(next, long - short);
    }
  }

  lemma {:induction false} ShiftLeftMonotone(x: nat, y: nat, k: nat)
    requires x <= y
    ensures ShiftLeft(x, k) <= ShiftLeft(y, k)
  {
    if k > 0 {
      ShiftLeftMonotone(x, y, k - 1);
    }
  }

  /** `(2x) << (k-1) == x << k`. */
  lemma {:induction false} ShiftLeftTwice(x: nat, k: nat)
    requires k >= 1
    ensures ShiftLeft(2 * x, k - 1) == ShiftLeft(x, k)
  {
    if k > 1 {
      ShiftLeftTwice(x, k - 1);
    }
  }

  /** Shifting right undoes shifting left, and keeps the order. */
  lemma {:induction false} ShiftRightOfShiftLeft(x: nat, y: nat, k: nat)
    requires ShiftLeft(x, k) <= y
    ensures x <= ShiftRight(y, k)
  {
    if k > 0 {
      assert ShiftLeft(x, k) == 2 * ShiftLeft(x, k - 1);
      ShiftLeftTwice(x, k);
      ShiftRightOfShiftLeftHalf(x, y, k);
    }
  }

  lemma {:induction false} ShiftRightOfShiftLeftHalf(x: nat, y: nat, k: nat)
    requires k >= 1 && ShiftLeft(x, k) <= y
    ensures x <= ShiftRight(y, k)
    decreases k
  {
    // ShiftLeft(x, k) == 2 * ShiftLeft(x, k - 1) <= y gives ShiftLeft(x, k - 1) <= y / 2.
    assert ShiftLeft(x, k - 1) <= y / 2;
    if k - 1 > 0 {
      ShiftRightOfShiftLeftHalf(x, y / 2, k - 1);
    }
  }

  /** The canonical code is a prefix code: the code of a shorter symbol is
      never the leading bits of the code of a longer one, as long as no
      length count between the two wrapped past 255. */
  lemma {:induction false} PrefixFree(lengths: seq<nat>, maxVal: nat, i: nat, j: nat)
    requires i < |lengths| && j < |lengths|
    requires 1 <= lengths[i] < lengths[j]
    requires forall l :: lengths[i] <= l < lengths[j] ==> CountOf(lengths, l) < 256
    ensures ShiftRight(CanonicalCode(lengths, maxVal, j), lengths[j] - lengths[i]) != CanonicalCode(lengths, maxVal, i)
  {
    var short, long := lengths[i], lengths[j];
    var bound := FirstCode(lengths, short) + CountOf(lengths, short);
    RankBelowCount(lengths, i);
    FirstCodeDominates(lengths, short, long);
    ShiftRightOfShiftLeft(bound, CanonicalCode(lengths, maxVal, j), long - short);
  }

  /** The first codes of the example of RFC 1951 section 3.2.2: lengths
      (3, 3, 3, 3, 3, 2, 4, 4) start the codes of length 2, 3 and 4 at 00,
      010 and 1110. */
  lemma {:induction false} RfcExampleFirstCodes()
    ensures var lengths := [3, 3, 3, 3, 3, 2, 4, 4];
      FirstCode(lengths, 2) == 0 && FirstCode(lengths, 3) == 2 && FirstCode(lengths, 4) == 14
  {
    var lengths: seq<nat> := [3, 3, 3, 3, 3, 2, 4, 4];
    assert CountByte(lengths, 1) == 0;
    assert CountByte(lengths, 2) == 1;
    assert CountByte(lengths, 3) == 5;
  }

  /** The example itself: the codes are 010, 011, 100, 101, 110, 00, 1110,
      1111. */
  lemma {:induction false} RfcExample()
    ensures var lengths := [3, 3, 3, 3, 3, 2, 4, 4];
      forall k :: 0 <= k < 8 ==> CanonicalCode(lengths, 0, k) == [2, 3, 4, 5, 6, 0, 14, 15][k]
  {
    var lengths: seq<nat> := [3, 3, 3, 3, 3, 2, 4, 4];
    RfcExampleFirstCodes();
    assert lengths[..1] == [3];
    assert lengths[..2] == [3, 3];
    assert lengths[..3] == [3, 3, 3];
    assert lengths[..4] == [3, 3, 3, 3];
    assert lengths[..6] == [3, 3, 3, 3, 3, 2];
    assert lengths[..7] == [3, 3, 3, 3, 3, 2, 4];
    assert CanonicalCode(lengths, 0, 0) == 2 && CanonicalCode(lengths, 0, 1) == 3;
    assert CanonicalCode(lengths, 0, 2) == 4 && CanonicalCode(lengths, 0, 3) == 5;
    assert CanonicalCode(lengths, 0, 4) == 6 && CanonicalCode(lengths, 0, 5) == 0;
    assert CanonicalCode(lengths, 0, 6) == 14 && CanonicalCode(lengths, 0, 7) == 15;
  }
}
