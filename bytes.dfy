/** Byte-level helpers shared by the codec: the byte type, powers of two,
    C's truncating division and the big-endian number decoding that the
    codec uses for every multi-byte field of a PNG file. */
module Bytes {

  /** An unsigned 8-bit value (`uint8_t`). */
  type byte = x: int | 0 <= x < 256

  const U32: int := 0x1_0000_0000

  /** A value, or none where the source's behaviour is undefined or nothing
      is produced. */
  datatype Option<T> = Some(value: T) | None

  function Pow2(n: nat): (r: nat)
    ensures r >= 1
  {
    if n == 0 then 1 else 2 * Pow2(n - 1)
  }

  /** Eight more bits multiply the range by 256. */
  lemma {:induction false} Pow2PlusEight(m: nat)
    ensures Pow2(m + 8) == 256 * Pow2(m)
  {
    if m == 0 {
      assert Pow2(8) == 256;
    } else {
      Pow2PlusEight(m - 1);
      assert m - 1 + 8 == m + 7;
    }
  }

  lemma {:induction false} Pow2Monotone(a: nat, b: nat)
    requires a <= b
    ensures Pow2(a) <= Pow2(b)
  {
    if a < b {
      Pow2Monotone(a, b - 1);
    }
  }

  /** `x >> k`: defined by halving, so that proofs about it need only
      division by the constant 2. */
  function ShiftRight(x: nat, k: nat): (r: nat)
    ensures r <= x
  {
    if k == 0 then x else ShiftRight(x / 2, k - 1)
  }

  /** `x << k` on unbounded integers. */
  function ShiftLeft(x: nat, k: nat): (r: nat)
    ensures r >= x
  {
    if k == 0 then x else 2 * ShiftLeft(x, k - 1)
  }

  /** `x & ((1 << k) - 1)`: the `k` least significant bits of `x`. */
  function LowBits(x: nat, k: nat): (r: nat)
    ensures r < Pow2(k)
    ensures r <= x
  {
    if k == 0 then 0 else x % 2 + 2 * LowBits(x / 2, k - 1)
  }

  lemma {:induction false} ShiftRightSucc(x: nat, k: nat)
    ensures ShiftRight(x, k + 1) == ShiftRight(x, k) / 2
  {
    if k > 0 {
      ShiftRightSucc(x / 2, k - 1);
    }
  }

  /** Shifting `x < 2^(k+m)` right by `k` leaves fewer than `m` bits. */
  lemma {:induction false} ShiftRightBound(x: nat, k: nat, m: nat)
    requires x < Pow2(k + m)
    ensures ShiftRight(x, k) < Pow2(m)
  {
    if k > 0 {
      assert Pow2(k + m) == 2 * Pow2(k - 1 + m);
      ShiftRightBound(x / 2, k - 1, m);
    }
  }

  /** Masking does nothing to a value that already fits. */
  lemma {:induction false} LowBitsOfSmall(x: nat, k: nat)
    requires x < Pow2(k)
    ensures LowBits(x, k) == x
  {
    if k > 0 {
      LowBitsOfSmall(x / 2, k - 1);
    }
  }

  lemma {:induction false} DoubleHalves(y: nat)
    ensures (2 * y) % 2 == 0 && (2 * y) / 2 == y
  {
  }

  /** The low `n` bits of `x << a` are clear when `n <= a`. */
  lemma {:induction false} LowBitsOfShifted(x: nat, a: nat, n: nat)
    requires n <= a
    ensures LowBits(ShiftLeft(x, a), n) == 0
  {
    if n > 0 {
      var y := ShiftLeft(x, a - 1);
      LowBitsOfShifted(x, a - 1, n - 1);
      assert LowBits(y, n - 1) == 0;
      DoubleHalves(y);
      assert LowBits(2 * y, n) == 2 * LowBits(y, n - 1);
    }
  }

  /** Masking `x << a` to `a + b` bits keeps the low `b` bits of `x`. */
  lemma {:induction false} LowBitsOfShiftedWide(x: nat, a: nat, b: nat)
    ensures LowBits(ShiftLeft(x, a), a + b) == ShiftLeft(LowBits(x, b), a)
  {
    if a > 0 {
      LowBitsOfShiftedWide(x, a - 1, b);
      assert a - 1 + b == a + b - 1;
    }
  }

  /** Integer division as C and C++ define it for `int`: the quotient is
      truncated toward zero, so the remainder `a - d*q` takes the sign of
      `a` and is smaller than `d` in absolute value. */
  function TruncDiv(a: int, d: int): (q: int)
    requires d > 0
    ensures a >= 0 ==> d * q <= a < d * q + d
    ensures a < 0 ==> d * q - d < a <= d * q
  {
    if a >= 0 then a / d else -((-a) / d)
  }

  /** The big-endian value of a byte string: the first byte is the most
      significant. This is what `cAToNumber` computes from the bytes it is
      given (the bytes are copied into a host-order integer and its loop
      reverses them again). */
  function BigEndian(s: seq<byte>): (r: nat)
    ensures r < Pow2(8 * |s|)
  {
    if s == [] then 0
    else
      var rest := BigEndian(s[..|s| - 1]);
      assert Pow2(8 * |s|) == 256 * Pow2(8 * (|s| - 1)) by {
        Pow2PlusEight(8 * (|s| - 1));
      }
      rest * 256 + s[|s| - 1]
  }

  /** The four bytes of a 32-bit unsigned value, most significant first, as
      `png_save` writes lengths, dimensions and CRCs. */
  function Be32(x: nat): (r: seq<byte>)
    requires x < U32
    ensures |r| == 4
  {
    [x / 0x100_0000, (x / 0x1_0000) % 256, (x / 0x100) % 256, x % 256]
  }

  lemma {:induction false} Be32RoundTrip(x: nat)
    requires x < U32
    ensures BigEndian(Be32(x)) == x
  {
    var s := Be32(x);
    var q1 := x / 256;
    var q2 := q1 / 256;
    var q3 := q2 / 256;
    assert x == q1 * 256 + x % 256;
    assert q1 == q2 * 256 + q1 % 256;
    assert q2 == q3 * 256 + q2 % 256;
    assert x / 0x100 == q1;
    assert x / 0x1_0000 == q2;
    assert x / 0x100_0000 == q3;
    BigEndian4Bytes(s[0], s[1], s[2], s[3]);
    assert s == [s[0], s[1], s[2], s[3]];
  }

  lemma {:induction false} BigEndian2Bytes(b0: byte, b1: byte)
    ensures BigEndian([b0, b1]) == b0 * 256 + b1
  {
    assert [b0, b1][..1] == [b0];
    assert [b0][..0] == [];
  }

  lemma {:induction false} BigEndian4Bytes(b0: byte, b1: byte, b2: byte, b3: byte)
    ensures BigEndian([b0, b1, b2, b3]) == b0 * 0x100_0000 + b1 * 0x1_0000 + b2 * 0x100 + b3
  {
    var s := [b0, b1, b2, b3];
    assert s[..3] == [b0, b1, b2];
    assert s[..3][..2] == [b0, b1];
    BigEndian2Bytes(b0, b1);
  }
}
