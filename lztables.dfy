/** How the decoder turns a length symbol (257..) or a distance symbol into
    a base value and a number of extra bits. The source does not look these
    up in a table: it computes them with a loop over powers of two
    (`moverVal`, `loopRange`), with slightly different code in the fixed and
    the dynamic block decoders. This module writes both computations out as
    they stand and proves that they give the table of RFC 1951 section
    3.2.5. */
module LzTables {
  import opened Bytes

  /** The correction that the decoder adds to a base length or distance:
      its loop `for (mli = 0; mli < loopRange; ++mli) x += (moverVal + 1 -
      step*mli) * (1 << mli)` sums these terms. Written here in Horner form,
      term 0 first and the rest doubled. */
  function MoverSum(mover: int, step: int, range: int): int
    decreases if range < 0 then 0 else range
  {
    if range <= 0 then 0 else (mover + 1) + 2 * MoverSum(mover - step, step, range - 1)
  }

  /** The first `k` terms of the loop, in the order the loop adds them. */
  function MoverTerms(mover: int, step: int, k: nat): int {
    if k == 0 then 0 else MoverTerms(mover, step, k - 1) + (mover + 1 - step * (k - 1)) * Pow2(k - 1)
  }

  /** Adding the terms in loop order gives the Horner form. */
  lemma {:induction false} MoverTermsIsSum(mover: int, step: int, k: nat)
    ensures MoverTerms(mover, step, k) == MoverSum(mover, step, k)
    decreases k
  {
    if k > 0 {
      MoverTermsShift(mover, step, k);
      MoverTermsIsSum(mover - step, step, k - 1);
    }
  }

  /** Term 0 split off: the remaining terms are those of `mover - step`,
      each with twice the weight. */
  lemma {:induction false} MoverTermsShift(mover: int, step: int, k: nat)
    requires k > 0
    ensures MoverTerms(mover, step, k) == (mover + 1) + 2 * MoverTerms(mover - step, step, k - 1)
    decreases k
  {
    if k > 1 {
      MoverTermsShift(mover, step, k - 1);
      var p := Pow2(k - 2);
      var t := mover + 1 - step * (k - 1);
      assert mover - step + 1 - step * (k - 2) == t;
      assert Pow2(k - 1) == 2 * p;
      assert t * (2 * p) == 2 * (t * p);
    }
  }

  /** The decoder's correction loop, as the source runs it. */
  method MoverLoop(mover: int, step: int, range: int) returns (sum: int)
    ensures sum == MoverSum(mover, step, range)
  {
    sum := 0;
    var mli := 0;
    var weight := 1;
    while mli < range
      invariant 0 <= mli <= (if range < 0 then 0 else range)
      invariant weight == Pow2(mli)
      invariant sum == MoverTerms(mover, step, mli)
      decreases range - mli
    {
      sum := sum + (mover + 1 - step * mli) * weight;
      mli := mli + 1;
      weight := 2 * weight;
    }
    MoverTermsIsSum(mover, step, mli);
  }

  /** A count of extra bits as the source keeps it (an `int` that can be
      -1), turned into the number of bits its loop `ext < extra` reads. */
  function ExtraCount(extra: int): nat {
    if extra < 0 then 0 else extra
  }

  /** A (base, extra) pair with its extra-bit count made a bit count. */
  function Counted(code: (int, int)): (int, nat) {
    (code.0, ExtraCount(code.1))
  }

  /** The fixed-block length computation for symbol `s`: the extra-bit
      count is `max(s - 261, 0) / 4` cast to `uint8_t`; 6 means symbol 285
      (length 258, no extra bits). */
  function FixedLengthCode(s: int): (int, int) {
    var clamped := if s - 261 < 0 then 0 else s - 261;
    var extra := (clamped / 4) % 256;
    if extra == 6 then (258, 0)
    else if extra != 0 then
      ((if s - 254 < 0 then 0 else s - 254) + MoverSum(s - 266, 4, TruncDiv(s - 266, 4) + 1), extra)
    else (s - 254, 0)
  }

  /** The dynamic-block length computation: the extra-bit count is the
      truncating quotient `(s - 261) / 4`, which is -1 for symbol 257. */
  function DynLengthCode(s: int): (int, int) {
    var extra := TruncDiv(s - 261, 4);
    if extra == 6 then (258, 0)
    else if extra != 0 then
      ((if s - 254 < 0 then 0 else s - 254) + MoverSum(s - 266, 4, TruncDiv(s - 266, 4) + 1), extra)
    else (s - 254, extra)
  }

  /** The fixed-block distance computation for the 5-bit code `d`. */
  function FixedDistanceCode(d: int): (int, nat) {
    var clamped := if d - 2 < 0 then 0 else d - 2;
    var extra := (clamped / 2) % 256;
    (d + MoverSum(d - 5, 2, TruncDiv(d - 5, 2) + 1) + 1, extra)
  }

  /** The dynamic-block distance computation for distance symbol `d`: the
      source first sets `readDistance = d + 1`. */
  function DynDistanceCode(d: int): (int, int) {
    var rd := d + 1;
    (rd + MoverSum(rd - 6, 2, TruncDiv(rd - 6, 2) + 1), TruncDiv(rd - 3, 2))
  }

  // ---------------------------------------------------------------------
  // The table of RFC 1951 section 3.2.5
  // ---------------------------------------------------------------------

  /** Base lengths of symbols 257..285. */
  const LengthBase: seq<int> := [3, 4, 5, 6, 7, 8, 9, 10, 11, 13, 15, 17, 19, 23, 27, 31, 35, 43, 51, 59, 67, 83, 99, 115, 131, 163, 195, 227, 258]
  /** Extra bits of symbols 257..285. */
  const LengthExtra: seq<nat> := [0, 0, 0, 0, 0, 0, 0, 0, 1, 1, 1, 1, 2, 2, 2, 2, 3, 3, 3, 3, 4, 4, 4, 4, 5, 5, 5, 5, 0]
  /** Base distances of distance symbols 0..29. */
  const DistanceBase: seq<int> := [1, 2, 3, 4, 5, 7, 9, 13, 17, 25, 33, 49, 65, 97, 129, 193, 257, 385, 513, 769, 1025, 1537, 2049, 3073, 4097, 6145, 8193, 12289, 16385, 24577]
  /** Extra bits of distance symbols 0..29. */
  const DistanceExtra: seq<nat> := [0, 0, 0, 0, 1, 1, 2, 2, 3, 3, 4, 4, 5, 5, 6, 6, 7, 7, 8, 8, 9, 9, 10, 10, 11, 11, 12, 12, 13, 13]


  /** The regularity of the length table: symbols 257..264 stand for
      lengths 3..10 without extra bits, 285 for 258, and from 265 on every
      group of four symbols has one more extra bit than the previous group,
      its bases spaced `2^extra` apart starting at `4 * 2^extra + 3`. */
  function LengthRule(s: int): (int, nat)
    requires 257 <= s <= 285
  {
    if s < 265 then (s - 254, 0)
    else if s == 285 then (258, 0)
    else ((4 + (s - 261) % 4) * Pow2((s - 261) / 4) + 3, (s - 261) / 4)
  }

  /** The regularity of the distance table: symbols 0..3 stand for
      distances 1..4, and from 4 on every pair of symbols has one more
      extra bit, bases `2 * 2^extra + 1` and `3 * 2^extra + 1`. */
  function DistanceRule(d: int): (int, nat)
    requires 0 <= d <= 29
  {
    if d < 4 then (d + 1, 0)
    else ((2 + d % 2) * Pow2((d - 2) / 2) + 1, (d - 2) / 2)
  }

  /** The RFC 1951 length table, row by row, is `LengthRule`. */
  lemma {:induction false} LengthTableFollowsRule(s: int)
    requires 257 <= s <= 285
    ensures (LengthBase[s - 257], LengthExtra[s - 257]) == LengthRule(s)
  {
    if s <= 260 {
      LengthTableFollowsRuleFrom257(s);
    } else if s <= 264 {
      LengthTableFollowsRuleFrom261(s);
    } else if s <= 268 {
      LengthTableFollowsRuleFrom265(s);
    } else if s <= 272 {
      LengthTableFollowsRuleFrom269(s);
    } else if s <= 276 {
      LengthTableFollowsRuleFrom273(s);
    } else if s <= 280 {
      LengthTableFollowsRuleFrom277(s);
    } else if s <= 284 {
      LengthTableFollowsRuleFrom281(s);
    } else {
      LengthTableFollowsRuleFrom285(s);
    }
  }

  lemma {:induction false} LengthTableFollowsRuleFrom257(s: int)
    requires 257 <= s <= 260
    ensures (LengthBase[s - 257], LengthExtra[s - 257]) == LengthRule(s)
  {
    if s == 257 {
      assert LengthBase[0] == 3 && LengthExtra[0] == 0;
    } else if s == 258 {
      assert LengthBase[1] == 4 && LengthExtra[1] == 0;
    } else if s == 259 {
      assert LengthBase[2] == 5 && LengthExtra[2] == 0;
    } else {
      assert LengthBase[3] == 6 && LengthExtra[3] == 0;
    }
  }

  lemma {:induction false} LengthTableFollowsRuleFrom261(s: int)
    requires 261 <= s <= 264
    ensures (LengthBase[s - 257], LengthExtra[s - 257]) == LengthRule(s)
  {
    if s == 261 {
      assert LengthBase[4] == 7 && LengthExtra[4] == 0;
    } else if s == 262 {
      assert LengthBase[5] == 8 && LengthExtra[5] == 0;
    } else if s == 263 {
      assert LengthBase[6] == 9 && LengthExtra[6] == 0;
    } else {
      assert LengthBase[7] == 10 && LengthExtra[7] == 0;
    }
  }

  lemma {:induction false} LengthTableFollowsRuleFrom265(s: int)
    requires 265 <= s <= 268
    ensures (LengthBase[s - 257], LengthExtra[s - 257]) == LengthRule(s)
  {
    if s == 265 {
      assert LengthBase[8] == 11 && LengthExtra[8] == 1;
    } else if s == 266 {
      assert LengthBase[9] == 13 && LengthExtra[9] == 1;
    } else if s == 267 {
      assert LengthBase[10] == 15 && LengthExtra[10] == 1;
    } else {
      assert LengthBase[11] == 17 && LengthExtra[11] == 1;
    }
  }

  lemma {:induction false} LengthTableFollowsRuleFrom269(s: int)
    requires 269 <= s <= 272
    ensures (LengthBase[s - 257], LengthExtra[s - 257]) == LengthRule(s)
  {
    if s == 269 {
      assert LengthBase[12] == 19 && LengthExtra[12] == 2;
    } else if s == 270 {
      assert LengthBase[13] == 23 && LengthExtra[13] == 2;
    } else if s == 271 {
      assert LengthBase[14] == 27 && LengthExtra[14] == 2;
    } else {
      assert LengthBase[15] == 31 && LengthExtra[15] == 2;
    }
  }

  lemma {:induction false} LengthTableFollowsRuleFrom273(s: int)
    requires 273 <= s <= 276
    ensures (LengthBase[s - 257], LengthExtra[s - 257]) == LengthRule(s)
  {
    if s == 273 {
      assert LengthBase[16] == 35 && LengthExtra[16] == 3;
    } else if s == 274 {
      assert LengthBase[17] == 43 && LengthExtra[17] == 3;
    } else if s == 275 {
      assert LengthBase[18] == 51 && LengthExtra[18] == 3;
    } else {
      assert LengthBase[19] == 59 && LengthExtra[19] == 3;
    }
  }

  lemma {:induction false} LengthTableFollowsRuleFrom277(s: int)
    requires 277 <= s <= 280
    ensures (LengthBase[s - 257], LengthExtra[s - 257]) == LengthRule(s)
  {
    if s == 277 {
      assert LengthBase[20] == 67 && LengthExtra[20] == 4;
    } else if s == 278 {
      assert LengthBase[21] == 83 && LengthExtra[21] == 4;
    } else if s == 279 {
      assert LengthBase[22] == 99 && LengthExtra[22] == 4;
    } else {
      assert LengthBase[23] == 115 && LengthExtra[23] == 4;
    }
  }

  lemma {:induction false} LengthTableFollowsRuleFrom281(s: int)
    requires 281 <= s <= 284
    ensures (LengthBase[s - 257], LengthExtra[s - 257]) == LengthRule(s)
  {
    if s == 281 {
      assert LengthBase[24] == 131 && LengthExtra[24] == 5;
    } else if s == 282 {
      assert LengthBase[25] == 163 && LengthExtra[25] == 5;
    } else if s == 283 {
      assert LengthBase[26] == 195 && LengthExtra[26] == 5;
    } else {
      assert LengthBase[27] == 227 && LengthExtra[27] == 5;
    }
  }

  lemma {:induction false} LengthTableFollowsRuleFrom285(s: int)
    requires 285 <= s <= 285
    ensures (LengthBase[s - 257], LengthExtra[s - 257]) == LengthRule(s)
  {
    if s == 285 {
      assert LengthBase[28] == 258 && LengthExtra[28] == 0;
    }
  }

  /** The RFC 1951 distance table, row by row, is `DistanceRule`. */
  lemma {:induction false} DistanceTableFollowsRule(d: int)
    requires 0 <= d <= 29
    ensures (DistanceBase[d], DistanceExtra[d]) == DistanceRule(d)
  {
    if d <= 2 {
      DistanceTableFollowsRuleFrom0(d);
    } else if d <= 5 {
      DistanceTableFollowsRuleFrom3(d);
    } else if d <= 8 {
      DistanceTableFollowsRuleFrom6(d);
    } else if d <= 11 {
      DistanceTableFollowsRuleFrom9(d);
    } else if d <= 14 {
      DistanceTableFollowsRuleFrom12(d);
    } else if d <= 17 {
      DistanceTableFollowsRuleFrom15(d);
    } else if d <= 20 {
      DistanceTableFollowsRuleFrom18(d);
    } else if d <= 23 {
      DistanceTableFollowsRuleFrom21(d);
    } else if d <= 26 {
      DistanceTableFollowsRuleFrom24(d);
    } else {
      DistanceTableFollowsRuleFrom27(d);
    }
  }

  lemma {:induction false} DistanceTableFollowsRuleFrom0(d: int)
    requires 0 <= d <= 2
    ensures (DistanceBase[d], DistanceExtra[d]) == DistanceRule(d)
  {
    if d == 0 {
      assert DistanceBase[0] == 1 && DistanceExtra[0] == 0;
    } else if d == 1 {
      assert DistanceBase[1] == 2 && DistanceExtra[1] == 0;
    } else {
      assert DistanceBase[2] == 3 && DistanceExtra[2] == 0;
    }
  }

  lemma {:induction false} DistanceTableFollowsRuleFrom3(d: int)
    requires 3 <= d <= 5
    ensures (DistanceBase[d], DistanceExtra[d]) == DistanceRule(d)
  {
    if d == 3 {
      assert DistanceBase[3] == 4 && DistanceExtra[3] == 0;
    } else if d == 4 {
      assert DistanceBase[4] == 5 && DistanceExtra[4] == 1;
    } else {
      assert DistanceBase[5] == 7 && DistanceExtra[5] == 1;
    }
  }

  lemma {:induction false} DistanceTableFollowsRuleFrom6(d: int)
    requires 6 <= d <= 8
    ensures (DistanceBase[d], DistanceExtra[d]) == DistanceRule(d)
  {
    if d == 6 {
      assert DistanceBase[6] == 9 && DistanceExtra[6] == 2;
    } else if d == 7 {
      assert DistanceBase[7] == 13 && DistanceExtra[7] == 2;
    } else {
      assert DistanceBase[8] == 17 && DistanceExtra[8] == 3;
    }
  }

  lemma {:induction false} DistanceTableFollowsRuleFrom9(d: int)
    requires 9 <= d <= 11
    ensures (DistanceBase[d], DistanceExtra[d]) == DistanceRule(d)
  {
    if d == 9 {
      assert DistanceBase[9] == 25 && DistanceExtra[9] == 3;
    } else if d == 10 {
      assert DistanceBase[10] == 33 && DistanceExtra[10] == 4;
    } else {
      assert DistanceBase[11] == 49 && DistanceExtra[11] == 4;
    }
  }

  lemma {:induction false} DistanceTableFollowsRuleFrom12(d: int)
    requires 12 <= d <= 14
    ensures (DistanceBase[d], DistanceExtra[d]) == DistanceRule(d)
  {
    if d == 12 {
      assert DistanceBase[12] == 65 && DistanceExtra[12] == 5;
    } else if d == 13 {
      assert DistanceBase[13] == 97 && DistanceExtra[13] == 5;
    } else {
      assert DistanceBase[14] == 129 && DistanceExtra[14] == 6;
    }
  }

  lemma {:induction false} DistanceTableFollowsRuleFrom15(d: int)
    requires 15 <= d <= 17
    ensures (DistanceBase[d], DistanceExtra[d]) == DistanceRule(d)
  {
    if d == 15 {
      assert DistanceBase[15] == 193 && DistanceExtra[15] == 6;
    } else if d == 16 {
      assert DistanceBase[16] == 257 && DistanceExtra[16] == 7;
    } else {
      assert DistanceBase[17] == 385 && DistanceExtra[17] == 7;
    }
  }

  lemma {:induction false} DistanceTableFollowsRuleFrom18(d: int)
    requires 18 <= d <= 20
    ensures (DistanceBase[d], DistanceExtra[d]) == DistanceRule(d)
  {
    if d == 18 {
      assert DistanceBase[18] == 513 && DistanceExtra[18] == 8;
    } else if d == 19 {
      assert DistanceBase[19] == 769 && DistanceExtra[19] == 8;
    } else {
      assert DistanceBase[20] == 1025 && DistanceExtra[20] == 9;
    }
  }

  lemma {:induction false} DistanceTableFollowsRuleFrom21(d: int)
    requires 21 <= d <= 23
    ensures (DistanceBase[d], DistanceExtra[d]) == DistanceRule(d)
  {
    if d == 21 {
      assert DistanceBase[21] == 1537 && DistanceExtra[21] == 9;
    } else if d == 22 {
      assert DistanceBase[22] == 2049 && DistanceExtra[22] == 10;
    } else {
      assert DistanceBase[23] == 3073 && DistanceExtra[23] == 10;
    }
  }

  lemma {:induction false} DistanceTableFollowsRuleFrom24(d: int)
    requires 24 <= d <= 26
    ensures (DistanceBase[d], DistanceExtra[d]) == DistanceRule(d)
  {
    if d == 24 {
      assert DistanceBase[24] == 4097 && DistanceExtra[24] == 11;
    } else if d == 25 {
      assert DistanceBase[25] == 6145 && DistanceExtra[25] == 11;
    } else {
      assert DistanceBase[26] == 8193 && DistanceExtra[26] == 12;
    }
  }

  lemma {:induction false} DistanceTableFollowsRuleFrom27(d: int)
    requires 27 <= d <= 29
    ensures (DistanceBase[d], DistanceExtra[d]) == DistanceRule(d)
  {
    if d == 27 {
      assert DistanceBase[27] == 12289 && DistanceExtra[27] == 12;
    } else if d == 28 {
      assert DistanceBase[28] == 16385 && DistanceExtra[28] == 13;
    } else {
      assert DistanceBase[29] == 24577 && DistanceExtra[29] == 13;
    }
  }

  // ---------------------------------------------------------------------
  // The source's computations follow the rules
  // ---------------------------------------------------------------------

  /** The correction sum in closed form. */
  lemma {:induction false} MoverSumClosed(m: int, s: int, r: nat)
    ensures MoverSum(m, s, r) == (m + 1) * (Pow2(r) - 1) - s * ((r - 2) * Pow2(r) + 2)
    decreases r
  {
    if r > 0 {
      MoverSumClosed(m - s, s, r - 1);
      HornerStep(m + 1, s, r, Pow2(r - 1));
    }
  }

  lemma {:induction false} HornerStep(a: int, s: int, r: int, p: int)
    ensures a + 2 * ((a - s) * (p - 1) - s * ((r - 3) * p + 2)) == a * (2 * p - 1) - s * ((r - 2) * (2 * p) + 2)
  {
  }

  /** The arithmetic behind `LengthGroupTail`, in the shape that
      `MoverSumClosed` leaves it (`m` is `s - 266`). */
  lemma {:induction false} LengthTailArith(m: int, e: int, j: int, p: int)
    requires m == 4 * e + j - 5
    ensures (m + 1) * (p - 1) - 4 * ((e - 2) * p + 2) == (4 + j) * p + 3 - (m + 12)
  {
  }

  /** The arithmetic behind `LengthGroupHead`; `p` is `2^(e-1)`. */
  lemma {:induction false} LengthHeadArith(m: int, e: int, p: int)
    requires m == 4 * e - 5
    ensures (m + 1) * (p - 1) - 4 * ((e - 3) * p + 2) == 8 * p + 3 - (m + 12)
  {
  }

  /** The arithmetic behind `DistanceGroupOdd` (`m` is `d - 5`). */
  lemma {:induction false} DistanceOddArith(m: int, e: int, p: int)
    requires m == 2 * e - 2
    ensures (m + 1) * (p - 1) - 2 * ((e - 2) * p + 2) == 3 * p + 1 - (m + 6)
  {
  }

  /** The arithmetic behind `DistanceGroupEven`; `p` is `2^(e-1)`. */
  lemma {:induction false} DistanceEvenArith(m: int, e: int, p: int)
    requires m == 2 * e - 3
    ensures (m + 1) * (p - 1) - 2 * ((e - 3) * p + 2) == 4 * p + 1 - (m + 6)
  {
  }

  /** The dynamic-block length computation follows `LengthRule`. */
  lemma {:induction false} DynLengthFollowsRule(s: int)
    requires 257 <= s <= 285
    ensures Counted(DynLengthCode(s)) == LengthRule(s)
  {
    if 265 <= s < 285 {
      var e := (s - 261) / 4;
      var j := (s - 261) % 4;
      if j >= 1 {
        LengthGroupTail(s, e, j);
      } else {
        LengthGroupHead(s, e);
      }
    } else if s == 257 {
      assert TruncDiv(s - 261, 4) == -1;
    }
  }

  /** Symbols 266..268, 270..272, ...: the correction loop runs `e` times. */
  lemma {:induction false} LengthGroupTail(s: int, e: int, j: int)
    requires 1 <= e <= 5 && 1 <= j <= 3 && s == 261 + 4 * e + j
    ensures DynLengthCode(s) == ((4 + j) * Pow2(e) + 3, e)
  {
    var m := s - 266;
    assert TruncDiv(s - 261, 4) == e;
    assert TruncDiv(m, 4) + 1 == e;
    MoverSumClosed(m, 4, e);
    LengthTailArith(m, e, j, Pow2(e));
  }

  /** Symbols 265, 269, ...: the loop runs `e - 1` times. */
  lemma {:induction false} LengthGroupHead(s: int, e: int)
    requires 1 <= e <= 5 && s == 261 + 4 * e
    ensures DynLengthCode(s) == (4 * Pow2(e) + 3, e)
  {
    assert TruncDiv(s - 261, 4) == e;
    if e >= 2 {
      var m := s - 266;
      assert TruncDiv(m, 4) + 1 == e - 1;
      MoverSumClosed(m, 4, e - 1);
      assert Pow2(e) == 2 * Pow2(e - 1);
      LengthHeadArith(m, e, Pow2(e - 1));
    }
  }

  /** The dynamic-block distance computation follows `DistanceRule`. */
  lemma {:induction false} DynDistanceFollowsRule(d: int)
    requires 0 <= d <= 29
    ensures Counted(DynDistanceCode(d)) == DistanceRule(d)
  {
    if d >= 4 {
      var e := (d - 2) / 2;
      if d % 2 == 1 {
        DistanceGroupOdd(d, e);
      } else {
        DistanceGroupEven(d, e);
      }
    } else {
      assert TruncDiv(d - 5, 2) + 1 <= 0;
    }
  }

  /** Symbols 5, 7, ...: the correction loop runs `e` times. */
  lemma {:induction false} DistanceGroupOdd(d: int, e: int)
    requires 1 <= e && d == 2 * e + 3
    ensures DynDistanceCode(d) == (3 * Pow2(e) + 1, e)
  {
    var m := d + 1 - 6;
    assert TruncDiv(d + 1 - 3, 2) == e;
    assert TruncDiv(m, 2) + 1 == e;
    MoverSumClosed(m, 2, e);
    DistanceOddArith(m, e, Pow2(e));
  }

  /** Symbols 4, 6, ...: the loop runs `e - 1` times. */
  lemma {:induction false} DistanceGroupEven(d: int, e: int)
    requires 1 <= e && d == 2 * e + 2
    ensures DynDistanceCode(d) == (2 * Pow2(e) + 1, e)
  {
    assert TruncDiv(d + 1 - 3, 2) == e;
    if e >= 2 {
      var m := d + 1 - 6;
      assert TruncDiv(m, 2) + 1 == e - 1;
      MoverSumClosed(m, 2, e - 1);
      assert Pow2(e) == 2 * Pow2(e - 1);
      DistanceEvenArith(m, e, Pow2(e - 1));
    }
  }

  // ---------------------------------------------------------------------
  // Fixed and dynamic blocks agree, and both give the RFC 1951 table
  // ---------------------------------------------------------------------

  /** The two length computations agree on every symbol the fixed decoder
      can produce, including the symbols 286..289 that RFC 1951 reserves:
      they differ only in how a negative numerator is divided. */
  lemma {:induction false} LengthCodesAgree(s: int)
    requires 257 <= s <= 289
    ensures Counted(FixedLengthCode(s)) == Counted(DynLengthCode(s))
  {
    if s < 261 {
      assert TruncDiv(s - 261, 4) <= 0;
    } else {
      assert (s - 261) / 4 < 256;
      assert TruncDiv(s - 261, 4) == (s - 261) / 4;
    }
  }

  /** The two distance computations agree on every 5-bit code. */
  lemma {:induction false} DistanceCodesAgree(d: int)
    requires 0 <= d <= 31
    ensures FixedDistanceCode(d) == Counted(DynDistanceCode(d))
  {
    if d < 2 {
      assert TruncDiv(d - 2, 2) <= 0;
    } else {
      assert TruncDiv(d - 2, 2) == (d - 2) / 2;
    }
  }

  /** Dynamic blocks decode lengths by the RFC 1951 table. */
  lemma {:induction false} DynLengthMatchesRfc(s: int)
    requires 257 <= s <= 285
    ensures Counted(DynLengthCode(s)) == (LengthBase[s - 257], LengthExtra[s - 257])
  {
    DynLengthFollowsRule(s);
    LengthTableFollowsRule(s);
  }

  /** Fixed blocks decode lengths by the RFC 1951 table. */
  lemma {:induction false} FixedLengthMatchesRfc(s: int)
    requires 257 <= s <= 285
    ensures Counted(FixedLengthCode(s)) == (LengthBase[s - 257], LengthExtra[s - 257])
  {
    LengthCodesAgree(s);
    DynLengthMatchesRfc(s);
  }

  /** Dynamic blocks decode distances by the RFC 1951 table. */
  lemma {:induction false} DynDistanceMatchesRfc(d: int)
    requires 0 <= d <= 29
    ensures Counted(DynDistanceCode(d)) == (DistanceBase[d], DistanceExtra[d])
  {
    DynDistanceFollowsRule(d);
    DistanceTableFollowsRule(d);
  }

  /** Fixed blocks decode distances by the RFC 1951 table. */
  lemma {:induction false} FixedDistanceMatchesRfc(d: int)
    requires 0 <= d <= 29
    ensures FixedDistanceCode(d) == (DistanceBase[d], DistanceExtra[d])
  {
    DistanceCodesAgree(d);
    DynDistanceMatchesRfc(d);
  }
}
