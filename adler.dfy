/** The checksum that ends a zlib stream: Adler-32 as RFC 1950 section 8.2
    defines it, and the sums that `yan_inflate` writes in its place. */
module Adler {
  import opened Bytes

  /** The modulus of Adler-32, the largest prime below 2^16. */
  const Base: nat := 65521

  /** The sum of the bytes of `s`. */
  function Sum(s: seq<byte>): nat {
    if s == [] then 0 else Sum(s[..|s| - 1]) + s[|s| - 1]
  }

  /** The sum, over every prefix of `s` (including `s` itself), of one plus
      the sum of that prefix: s2 before reduction. */
  function S2(s: seq<byte>): nat {
    if s == [] then 0 else S2(s[..|s| - 1]) + 1 + Sum(s)
  }

  /** Adler-32 of RFC 1950 section 8.2, as the pair (s1, s2): s1 is one plus
      the sum of the bytes and s2 the sum of the values of s1 after each
      byte, both modulo 65521. */
  function Adler32(s: seq<byte>): (r: (nat, nat))
    ensures r.0 < Base && r.1 < Base
  {
    ((1 + Sum(s)) % Base, S2(s) % Base)
  }

  /** The value of a C++ `int` whose 32 bits are the pattern `x`
      (two's complement). */
  function Signed(x: nat): (v: int)
    requires x < U32
    ensures -0x8000_0000 <= v < 0x8000_0000
    ensures (v - x) % U32 == 0
  {
    if x < 0x8000_0000 then x else x - U32
  }

  /** C++ `%` on `int`: the quotient is truncated toward zero, so the
      remainder takes the sign of the dividend. */
  function TruncRem(a: int, d: nat): (r: int)
    requires d > 0
    ensures a == d * TruncDiv(a, d) + r
    ensures 0 <= a ==> 0 <= r < d
    ensures a < 0 ==> -(d as int) < r <= 0
  {
    if a >= 0 then a % d else -((-a) % d)
  }

  /** `adlerSum1` and `adlerSum2` after the loop of `yan_inflate`, as the
      32-bit patterns of the two `int`s: every byte is added to `adlerSum1`
      (reduced modulo 65521 first, which leaves a byte unchanged), and
      `adlerSum2` adds `adlerSum1 % 65521`, the C++ remainder of the signed
      value. Neither sum is ever reduced itself; an addition that leaves
      the range of `int` wraps around. */
  function SourceSums(s: seq<byte>): (r: (nat, nat))
    ensures r.0 < U32 && r.1 < U32
  {
    if s == [] then (1, 0)
    else
      var (a, b) := SourceSums(s[..|s| - 1]);
      var a' := (a + s[|s| - 1] % Base) % U32;
      (a', (b + TruncRem(Signed(a'), Base)) % U32)
  }

  /** The four bytes written after the last block: the low 16 bits of s2,
      then of s1, each most significant byte first. */
  function Trailer(sums: (nat, nat)): (r: seq<byte>)
    ensures |r| == 4
  {
    var (s1, s2) := sums;
    [(s2 / 256) % 256, s2 % 256, (s1 / 256) % 256, s1 % 256]
  }

  // ---------------------------------------------------------------------
  // How far the source's sums agree with Adler-32
  // ---------------------------------------------------------------------

  /** `adlerSum1` is one plus the byte sum, unreduced but for the
      wrap-around at 32 bits. */
  lemma {:induction false} SourceFirstSum(s: seq<byte>)
    ensures SourceSums(s).0 == (1 + Sum(s)) % U32
  {
    if s != [] {
      var init, last := s[..|s| - 1], s[|s| - 1];
      SourceFirstSum(init);
      Unwrapped(last, Base);
      assert Sum(s) == Sum(init) + last;
      assert SourceSums(s).0 == (SourceSums(init).0 + last) % U32;
      WrapAdd(1 + Sum(init), last);
    }
  }

  /** Reducing a summand modulo 2^32 first does not change the wrapped
      sum. */
  lemma {:induction false} WrapAdd(x: int, y: int)
    ensures (x % U32 + y) % U32 == (x + y) % U32
  {
    var q := x / U32;
    assert x == U32 * q + x % U32;
    assert x + y == (x % U32 + y) + U32 * q;
  }

  /** s2 is at least s1 once a byte has been read. */
  lemma {:induction false} S2AtLeastS1(s: seq<byte>)
    requires s != []
    ensures S2(s) >= 1 + Sum(s)
  {
  }

  /** While `adlerSum1` stays below 65521 its reduction does nothing, so
      `adlerSum2` is the unreduced s2. */
  lemma {:induction false} SourceSecondSum(s: seq<byte>)
    requires 1 + Sum(s) < Base
    ensures SourceSums(s).1 == S2(s) % U32
  {
    if s != [] {
      var init := s[..|s| - 1];
      assert Sum(init) <= Sum(s);
      SourceSecondSum(init);
      SourceFirstSum(s);
      Unwrapped(1 + Sum(s), U32);
      SecondStep(SourceSums(init).1, SourceSums(s).0, S2(init));
    }
  }

  /** A turn of the loop while `adlerSum1` is below 65521: its remainder
      is itself, and `adlerSum2` grows by it. */
  lemma {:induction false} SecondStep(b: nat, a: nat, s2: nat)
    requires b == s2 % U32 && a < Base
    ensures (b + TruncRem(Signed(a), Base)) % U32 == (s2 + a) % U32
  {
    WrapAdd(s2, a);
  }

  /** While s2 stays below 65521 the source writes Adler-32. */
  lemma {:induction false} SourceSumsAreAdler(s: seq<byte>)
    requires S2(s) < Base
    ensures SourceSums(s) == Adler32(s)
  {
    if s != [] {
      S2AtLeastS1(s);
    }
    SourceFirstSum(s);
    SourceSecondSum(s);
    Unwrapped(1 + Sum(s), U32);
    Unwrapped(1 + Sum(s), Base);
    Unwrapped(S2(s), U32);
    Unwrapped(S2(s), Base);
  }

  /** A value below the modulus is its own remainder. */
  lemma {:induction false} Unwrapped(x: nat, m: nat)
    requires x < m
    ensures x % m == x
  {
  }

  /** `n` bytes 0xFF. */
  function Ones(n: nat): (r: seq<byte>)
    ensures |r| == n
  {
    seq(n, _ => 0xFF)
  }

  /** The sums of `n` bytes 0xFF in closed form. */
  lemma {:induction false} OnesSums(n: nat)
    ensures Sum(Ones(n)) == 255 * n
    ensures 2 * S2(Ones(n)) == 2 * n + 255 * n * (n + 1)
  {
    if n > 0 {
      assert Ones(n)[..n - 1] == Ones(n - 1);
      OnesSums(n - 1);
    }
  }

  /** Twenty-three bytes 0xFF: s1 is 5866 and s2 is 70403, past 65521, so
      the trailer the source writes (low 16 bits 4867) is not Adler-32
      (s2 = 4882). */
  lemma {:induction false} TrailerDiffers()
    ensures Trailer(SourceSums(Ones(23))) != Trailer(Adler32(Ones(23)))
  {
    var s := Ones(23);
    OnesSums(23);
    assert S2(s) == 70403;
    SourceFirstSum(s);
    SourceSecondSum(s);
    assert Trailer(SourceSums(s))[1] == 3;
    assert Trailer(Adler32(s))[1] == 18;
  }
}
