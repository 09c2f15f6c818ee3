/** The CRC-32 that `png_save` appends to every chunk (section 5.5 of the
    PNG specification, W3C second edition): the reflected polynomial
    0xEDB88320, a 256-entry table built by `crc_table_gen`, a register
    seeded with all ones and a final inversion. The `uint32_t` register is
    a natural number below 2^32, `^` is `Xor`, `>> k` is `ShiftRight` and
    `& 0xFF` is `LowBits(_, 8)`. The bitwise definition is the
    reference; the table-driven loop is proved equal to it. */
module Crc {
  import opened Bytes

  /** Bitwise exclusive or, from the low bit up. */
  function Xor(a: nat, b: nat): (r: nat)
    decreases a + b
  {
    if a == 0 then b
    else if b == 0 then a
    else (if a % 2 == b % 2 then 0 else 1) + 2 * Xor(a / 2, b / 2)
  }

  /** The low bit of `Xor(a, b)` is the exclusive or of the low bits, and
      the rest is the exclusive or of the rest. */
  lemma XorBits(a: nat, b: nat)
    ensures Xor(a, b) % 2 == (if a % 2 == b % 2 then 0 else 1)
    ensures Xor(a, b) / 2 == Xor(a / 2, b / 2)
  {
    if a == 0 {
      XorZero(b / 2);
    } else if b == 0 {
      XorZero(a / 2);
    } else {
      var c := if a % 2 == b % 2 then 0 else 1;
      assert Xor(a, b) == c + 2 * Xor(a / 2, b / 2);
      LowAndRest(c, Xor(a / 2, b / 2));
    }
  }

  /** The low bit and the rest of `c + 2 * m` for a single bit `c`. */
  lemma LowAndRest(c: nat, m: nat)
    requires c < 2
    ensures (c + 2 * m) % 2 == c && (c + 2 * m) / 2 == m
  {
  }

  /** Two numbers with the same low bit and the same remaining bits are
      equal. */
  lemma SameBits(x: nat, y: nat)
    requires x % 2 == y % 2 && x / 2 == y / 2
    ensures x == y
  {
  }

  lemma XorZero(a: nat)
    ensures Xor(a, 0) == a && Xor(0, a) == a
  {
  }

  lemma {:induction false} XorSelf(a: nat)
    ensures Xor(a, a) == 0
    decreases a
  {
    if a != 0 {
      XorSelf(a / 2);
      XorBits(a, a);
      SameBits(Xor(a, a), 0);
    }
  }

  lemma {:induction false} XorCommutes(a: nat, b: nat)
    ensures Xor(a, b) == Xor(b, a)
    decreases a + b
  {
    if a != 0 && b != 0 {
      XorCommutes(a / 2, b / 2);
      XorBits(a, b);
      XorBits(b, a);
      SameBits(Xor(a, b), Xor(b, a));
    }
  }

  lemma {:induction false} XorAssociates(a: nat, b: nat, c: nat)
    ensures Xor(Xor(a, b), c) == Xor(a, Xor(b, c))
    decreases a + b + c
  {
    if a != 0 || b != 0 || c != 0 {
      XorAssociates(a / 2, b / 2, c / 2);
      XorBits(a, b);
      XorBits(Xor(a, b), c);
      XorBits(b, c);
      XorBits(a, Xor(b, c));
      SameBits(Xor(Xor(a, b), c), Xor(a, Xor(b, c)));
    } else {
      XorZero(0);
    }
  }

  /** Exclusive or of two `k`-bit values is a `k`-bit value. */
  lemma {:induction false} XorBound(a: nat, b: nat, k: nat)
    requires a < Pow2(k) && b < Pow2(k)
    ensures Xor(a, b) < Pow2(k)
    decreases k
  {
    if k == 0 {
      assert a == 0 && b == 0;
    } else {
      XorBound(a / 2, b / 2, k - 1);
      XorBits(a, b);
    }
  }

  /** Shifting right distributes over exclusive or. */
  lemma {:induction false} ShiftXor(a: nat, b: nat, k: nat)
    ensures ShiftRight(Xor(a, b), k) == Xor(ShiftRight(a, k), ShiftRight(b, k))
  {
    if k > 0 {
      XorBits(a, b);
      ShiftXor(a / 2, b / 2, k - 1);
    }
  }

  /** A value is the exclusive or of its low `k` bits and the rest shifted
      back into place. */
  lemma {:induction false} Recompose(x: nat, k: nat)
    ensures Xor(LowBits(x, k), ShiftLeft(ShiftRight(x, k), k)) == x
  {
    if k == 0 {
      XorZero(x);
    } else {
      var l, h := LowBits(x / 2, k - 1), ShiftLeft(ShiftRight(x / 2, k - 1), k - 1);
      Recompose(x / 2, k - 1);
      assert LowBits(x, k) == x % 2 + 2 * l;
      assert ShiftRight(x, k) == ShiftRight(x / 2, k - 1);
      assert ShiftLeft(ShiftRight(x, k), k) == 2 * ShiftLeft(ShiftRight(x, k), k - 1);
      RecomposeStep(x, l, h);
    }
  }

  lemma RecomposeStep(x: nat, l: nat, h: nat)
    requires Xor(l, h) == x / 2
    ensures Xor(x % 2 + 2 * l, 2 * h) == x
  {
    var y := Xor(x % 2 + 2 * l, 2 * h);
    XorBits(x % 2 + 2 * l, 2 * h);
    LowAndRest(x % 2, l);
    LowAndRest(0, h);
    SameBits(y, x);
  }

  /** Cancelling a common term: `(p ^ x) ^ (p ^ y) == x ^ y`. */
  lemma XorCancel(p: nat, x: nat, y: nat)
    ensures Xor(Xor(p, x), Xor(p, y)) == Xor(x, y)
  {
    XorAssociates(p, x, Xor(p, y));
    XorAssociates(x, p, y);
    XorCommutes(x, p);
    XorAssociates(p, x, y);
    XorAssociates(p, p, Xor(x, y));
    XorSelf(p);
    XorZero(Xor(x, y));
  }

  /** Moving a term out of the right operand: `x ^ (p ^ y) == p ^ (x ^ y)`. */
  lemma XorSwap(p: nat, x: nat, y: nat)
    ensures Xor(x, Xor(p, y)) == Xor(p, Xor(x, y))
  {
    XorAssociates(x, p, y);
    XorCommutes(x, p);
    XorAssociates(p, x, y);
  }

  /** The reflected CRC-32 polynomial. */
  const Poly: nat := 0xEDB8_8320

  lemma Pow2Value32()
    ensures Pow2(32) == U32
  {
    Pow2PlusEight(0);
    Pow2PlusEight(8);
    Pow2PlusEight(16);
    Pow2PlusEight(24);
  }

  /** One bit of polynomial division, as the inner loop of `crc_table_gen`
      performs it: shift right, and fold in the polynomial when the bit
      shifted out was set. */
  function CrcBit(t: nat): nat {
    if t % 2 == 1 then Xor(Poly, t / 2) else t / 2
  }

  /** `n` bit steps. */
  function Iterate(t: nat, n: nat): nat {
    if n == 0 then t else CrcBit(Iterate(t, n - 1))
  }

  /** A 32-bit register stays a 32-bit register under bit steps. */
  lemma {:induction false} IterateBound(t: nat, n: nat)
    requires t < U32
    ensures Iterate(t, n) < U32
  {
    if n > 0 {
      IterateBound(t, n - 1);
      Pow2Value32();
      XorBound(Poly, Iterate(t, n - 1) / 2, 32);
    }
  }

  /** Entry `i` of the table: the remainder of the byte `i` after eight bit
      steps. */
  function TableEntry(i: nat): nat
    requires i < 256
  {
    Iterate(i, 8)
  }

  /** `crc_table_gen`: 256 entries, each `i` put through eight bit steps. */
  method CrcTableGen() returns (table: seq<nat>)
    ensures |table| == 256
    ensures forall i :: 0 <= i < 256 ==> table[i] == TableEntry(i)
  {
    table := [];
    var i := 0;
    while i < 256
      invariant 0 <= i <= 256
      invariant |table| == i
      invariant forall k :: 0 <= k < i ==> table[k] == TableEntry(k)
    {
      var tableNum := i;
      var l := 0;
      while l < 8
        invariant 0 <= l <= 8
        invariant tableNum == Iterate(i, l)
      {
        if tableNum % 2 == 1 {
          tableNum := Xor(Poly, tableNum / 2);
        } else {
          tableNum := tableNum / 2;
        }
        l := l + 1;
      }
      table := table + [tableNum];
      i := i + 1;
    }
  }

  /** A bit step is linear over exclusive or. */
  lemma BitStepLinear(a: nat, b: nat)
    ensures CrcBit(Xor(a, b)) == Xor(CrcBit(a), CrcBit(b))
  {
    XorBits(a, b);
    var x, y := a / 2, b / 2;
    if a % 2 == 1 && b % 2 == 1 {
      XorCancel(Poly, x, y);
    } else if a % 2 == 1 {
      XorAssociates(Poly, x, y);
    } else if b % 2 == 1 {
      XorSwap(Poly, x, y);
    }
  }

  /** Any number of bit steps is linear over exclusive or. */
  lemma {:induction false} IterateLinear(a: nat, b: nat, n: nat)
    ensures Iterate(Xor(a, b), n) == Xor(Iterate(a, n), Iterate(b, n))
  {
    if n > 0 {
      IterateLinear(a, b, n - 1);
      BitStepLinear(Iterate(a, n - 1), Iterate(b, n - 1));
    }
  }

  /** A register whose low `k` bits are clear is only shifted by `k` bit
      steps: the polynomial is never folded in. */
  lemma {:induction false} HighBitsOnlyShift(q: nat, k: nat, j: nat)
    requires j <= k
    ensures Iterate(ShiftLeft(q, k), j) == ShiftLeft(q, k - j)
  {
    if j > 0 {
      HighBitsOnlyShift(q, k, j - 1);
      DoubleHalves(ShiftLeft(q, k - j));
    }
  }

  /** The table-driven step `table[(crc ^ b) & 0xFF] ^ (crc >> 8)` equals
      eight bit steps on the register with the byte folded in. */
  lemma TableStep(crc: nat, b: byte)
    ensures Xor(TableEntry(LowBits(Xor(crc, b), 8)), ShiftRight(crc, 8)) == Iterate(Xor(crc, b), 8)
  {
    var x := Xor(crc, b);
    var low, high := LowBits(x, 8), ShiftRight(x, 8);
    Recompose(x, 8);
    IterateLinear(low, ShiftLeft(high, 8), 8);
    HighBitsOnlyShift(high, 8, 8);
    ShiftXor(crc, b, 8);
    assert Pow2(8) == 256;
    ShiftRightBound(b, 8, 0);
    XorZero(ShiftRight(crc, 8));
  }

  /** The register after the bytes of `s`, bit by bit: each byte is folded
      into the low end of the register and eight bit steps follow. */
  function Register(seed: nat, s: seq<byte>): nat {
    if s == [] then seed
    else Iterate(Xor(Register(seed, s[..|s| - 1]), s[|s| - 1]), 8)
  }

  /** The CRC-32 of `s`: seeded with all ones, inverted at the end. */
  function Crc32(s: seq<byte>): nat {
    Xor(Register(0xFFFF_FFFF, s), 0xFFFF_FFFF)
  }

  /** The chunk CRC loop of `png_save`: the table-driven fold over the
      chunk type and data, seeded with 0xFFFFFFFF and inverted at the end,
      is the bitwise CRC-32. */
  method ChunkCrc(s: seq<byte>) returns (crc: nat)
    ensures crc == Crc32(s)
  {
    var table := CrcTableGen();
    crc := 0xFFFF_FFFF;
    var b := 0;
    while b < |s|
      invariant 0 <= b <= |s|
      invariant crc == Register(0xFFFF_FFFF, s[..b])
    {
      TableStep(crc, s[b]);
      assert s[..b + 1][..b] == s[..b];
      crc := Xor(table[LowBits(Xor(crc, s[b]), 8)], ShiftRight(crc, 8));
      b := b + 1;
    }
    assert s[..b] == s;
    crc := Xor(crc, 0xFFFF_FFFF);
  }

  /** The register is a fold: the bytes of `a + b` are those of `a`, then
      those of `b`. */
  lemma {:induction false} RegisterAppend(seed: nat, a: seq<byte>, b: seq<byte>)
    ensures Register(seed, a + b) == Register(Register(seed, a), b)
    decreases |b|
  {
    if b == [] {
      assert a + b == a;
    } else {
      var b' := b[..|b| - 1];
      assert (a + b)[..|a + b| - 1] == a + b';
      RegisterAppend(seed, a, b');
    }
  }

  /** A 32-bit register stays a 32-bit register, so the CRC fits the four
      bytes `png_save` writes for it. */
  lemma {:induction false} Crc32Bound(s: seq<byte>)
    ensures Register(0xFFFF_FFFF, s) < U32
    ensures Crc32(s) < U32
    decreases |s|
  {
    Pow2Value32();
    if s != [] {
      var r := Register(0xFFFF_FFFF, s[..|s| - 1]);
      Crc32Bound(s[..|s| - 1]);
      XorBound(r, s[|s| - 1], 32);
      IterateBound(Xor(r, s[|s| - 1]), 8);
    }
    XorBound(Register(0xFFFF_FFFF, s), 0xFFFF_FFFF, 32);
  }

  /** The first table entries worth knowing: zero stays zero and the top
      bit of a byte becomes the polynomial itself. */
  lemma KnownEntries()
    ensures TableEntry(0) == 0
    ensures TableEntry(128) == Poly
  {
    assert Iterate(0, 8) == 0;
    assert Iterate(128, 3) == 16;
    assert Iterate(128, 6) == 2;
    assert Iterate(128, 7) == 1;
    XorZero(Poly);
  }
}
