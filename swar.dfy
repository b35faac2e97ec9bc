/**
 * The "SIMD within a register" sums used by PopCountInt64 and
 * SelectInt64. The word of level k holds, in each lane of 2^k bits, the
 * number of one bits of the original word inside that lane; `Fold1` to
 * `Fold5` build each level from the previous one.
 */
module Swar {
  import opened BitSeq
  import opened Word

  function Fold1(x: bv64): bv64 { ((x & 0xaaaa_aaaa_aaaa_aaaa) >> 1) + (x & 0x5555_5555_5555_5555) }
  function Fold2(x: bv64): bv64 { ((x & 0xcccc_cccc_cccc_cccc) >> 2) + (x & 0x3333_3333_3333_3333) }
  function Fold3(x: bv64): bv64 { ((x & 0xf0f0_f0f0_f0f0_f0f0) >> 4) + (x & 0x0f0f_0f0f_0f0f_0f0f) }
  function Fold4(x: bv64): bv64 { ((x & 0xff00_ff00_ff00_ff00) >> 8) + (x & 0x00ff_00ff_00ff_00ff) }
  function Fold5(x: bv64): bv64 { ((x & 0xffff_0000_ffff_0000) >> 16) + (x & 0x0000_ffff_0000_ffff) }

  /** The lane of 2^k bits that starts at bit `p`, for k = 0 to 5. */
  function Lane0(x: bv64, p: bv6): bv64 { (x >> p) & 1 }
  function Lane1(x: bv64, p: bv6): bv64 { (x >> p) & 3 }
  function Lane2(x: bv64, p: bv6): bv64 { (x >> p) & 0xf }
  function Lane3(x: bv64, p: bv6): bv64 { (x >> p) & 0xff }
  function Lane4(x: bv64, p: bv6): bv64 { (x >> p) & 0xffff }
  function Lane5(x: bv64, p: bv6): bv64 { (x >> p) & 0xffff_ffff }

  /** The one bits of `b` in the `n` positions from `p` on. */
  function Ones(b: bv64, p: int, n: nat): nat
    requires 0 <= p && p + n <= 64
  {
    Count(Lsb(b)[p .. p + n], true)
  }

  // Each lane of a level is the sum of its two halves in the level below.

  lemma Step1(x: bv64, p: bv6)
    requires p & 1 == 0
    ensures Lane1(Fold1(x), p) == Lane0(x, p) + Lane0(x, p + 1)
  {}

  lemma Step2(x: bv64, p: bv6)
    requires p & 3 == 0
    ensures Lane2(Fold2(x), p) == Lane1(x, p) + Lane1(x, p + 2)
  {}

  lemma Step3(x: bv64, p: bv6)
    requires p & 7 == 0
    ensures Lane3(Fold3(x), p) == Lane2(x, p) + Lane2(x, p + 4)
  {}

  lemma Step4(x: bv64, p: bv6)
    requires p & 15 == 0
    ensures Lane4(Fold4(x), p) == Lane3(x, p) + Lane3(x, p + 8)
  {}

  lemma Step5Low(x: bv64)
    ensures Lane5(Fold5(x), 0) == Lane4(x, 0) + Lane4(x, 16)
  {}

  lemma Step5High(x: bv64)
    ensures Lane5(Fold5(x), 32) == Lane4(x, 32) + Lane4(x, 48)
  {}

  // Integer facts about aligned positions.

  lemma Half1(p: bv6)
    requires p & 1 == 0
    ensures p as int + 2 <= 64 && (p + 1) as int == p as int + 1
  {}

  lemma Half2(p: bv6)
    requires p & 3 == 0
    ensures p as int + 4 <= 64 && (p + 2) as int == p as int + 2 && (p + 2) & 1 == 0
  {}

  lemma Half3(p: bv6)
    requires p & 7 == 0
    ensures p as int + 8 <= 64 && (p + 4) as int == p as int + 4 && (p + 4) & 3 == 0
  {}

  lemma Half4(p: bv6)
    requires p & 15 == 0
    ensures p as int + 16 <= 64 && (p + 8) as int == p as int + 8 && (p + 8) & 7 == 0
  {}

  lemma Half5(p: bv6)
    requires p & 31 == 0
    ensures p as int + 32 <= 64 && (p + 16) as int == p as int + 16 && (p + 16) & 15 == 0 && p & 15 == 0
  {}

  lemma SmallBound(a: bv64)
    requires a as int <= 32
    ensures a <= 32
  {}

  lemma Add7(a: bv7, b: bv7, c: bv7)
    requires a <= 32 && b <= 32 && c == a + b
    ensures c as int == a as int + b as int
  {}

  lemma Narrow7(x: bv64)
    requires x <= 64
    ensures x as int < 128 && (x as bv7) as int == x as int
  {}

  lemma NarrowAdd(a: bv64, b: bv64)
    requires a <= 32 && b <= 32
    ensures a + b <= 64 && (a + b) as bv7 == (a as bv7) + (b as bv7)
  {}

  /** Adding two lane values of at most 32 does not wrap. */
  lemma SmallSum(a: bv64, b: bv64, c: bv64)
    requires a as int <= 32 && b as int <= 32 && c == a + b
    ensures c as int == a as int + b as int
  {
    SmallBound(a);
    SmallBound(b);
    NarrowAdd(a, b);
    Narrow7(a);
    Narrow7(b);
    Narrow7(c);
    Add7(a as bv7, b as bv7, c as bv7);
  }

  /** Two adjacent runs of bits count as one run. */
  lemma OnesSplit(b: bv64, p: int, h: nat)
    requires 0 <= p && p + 2 * h <= 64
    ensures Ones(b, p, 2 * h) == Ones(b, p, h) + Ones(b, p + h, h)
  {
    var s := Lsb(b);
    assert s[p .. p + 2 * h] == s[p .. p + h] + s[p + h .. p + 2 * h];
    CountAppend(s[p .. p + h], s[p + h .. p + 2 * h], true);
  }

  lemma LowBit(b: bv64, p: bv6)
    ensures Lane0(b, p) as int == if BitS(b, p) then 1 else 0
  {}

  lemma Count0(b: bv64, p: bv6)
    ensures Lane0(b, p) as int == Ones(b, p as int, 1)
  {
    LowBit(b, p);
    LsbAt(b, p);
    CountSingle(Lsb(b), p as int, true);
  }

  /** A lane is the sum of its halves, as integers, when the halves hold at most 32. */
  lemma Combine(b: bv64, c: bv64, lo: bv64, hi: bv64, p: int, h: nat)
    requires c == lo + hi && h <= 32
    requires 0 <= p && p + 2 * h <= 64
    requires lo as int == Ones(b, p, h) && hi as int == Ones(b, p + h, h)
    ensures c as int == Ones(b, p, 2 * h)
  {
    SmallSum(lo, hi, c);
    OnesSplit(b, p, h);
  }

  lemma Count1(b: bv64, p: bv6)
    requires p & 1 == 0
    ensures p as int + 2 <= 64 && Lane1(Fold1(b), p) as int == Ones(b, p as int, 2)
  {
    Half1(p);
    Step1(b, p);
    Count0(b, p);
    Count0(b, p + 1);
    Combine(b, Lane1(Fold1(b), p), Lane0(b, p), Lane0(b, p + 1), p as int, 1);
  }

  lemma Count2(b: bv64, x: bv64, p: bv6)
    requires p & 3 == 0 && p as int + 4 <= 64
    requires Lane1(x, p) as int == Ones(b, p as int, 2)
    requires (p + 2) as int == p as int + 2 && Lane1(x, p + 2) as int == Ones(b, p as int + 2, 2)
    ensures Lane2(Fold2(x), p) as int == Ones(b, p as int, 4)
  {
    Step2(x, p);
    Combine(b, Lane2(Fold2(x), p), Lane1(x, p), Lane1(x, p + 2), p as int, 2);
  }

  lemma Count3(b: bv64, x: bv64, p: bv6)
    requires p & 7 == 0 && p as int + 8 <= 64
    requires Lane2(x, p) as int == Ones(b, p as int, 4)
    requires (p + 4) as int == p as int + 4 && Lane2(x, p + 4) as int == Ones(b, p as int + 4, 4)
    ensures Lane3(Fold3(x), p) as int == Ones(b, p as int, 8)
  {
    Step3(x, p);
    Combine(b, Lane3(Fold3(x), p), Lane2(x, p), Lane2(x, p + 4), p as int, 4);
  }

  lemma Count4(b: bv64, x: bv64, p: bv6)
    requires p & 15 == 0 && p as int + 16 <= 64
    requires Lane3(x, p) as int == Ones(b, p as int, 8)
    requires (p + 8) as int == p as int + 8 && Lane3(x, p + 8) as int == Ones(b, p as int + 8, 8)
    ensures Lane4(Fold4(x), p) as int == Ones(b, p as int, 16)
  {
    Step4(x, p);
    Combine(b, Lane4(Fold4(x), p), Lane3(x, p), Lane3(x, p + 8), p as int, 8);
  }

  lemma Count5Low(b: bv64, x: bv64)
    requires Lane4(x, 0) as int == Ones(b, 0, 16) && Lane4(x, 16) as int == Ones(b, 16, 16)
    ensures Lane5(Fold5(x), 0) as int == Ones(b, 0, 32)
  {
    Step5Low(x);
    Combine(b, Lane5(Fold5(x), 0), Lane4(x, 0), Lane4(x, 16), 0, 16);
  }

  lemma Count5High(b: bv64, x: bv64)
    requires Lane4(x, 32) as int == Ones(b, 32, 16) && Lane4(x, 48) as int == Ones(b, 48, 16)
    ensures Lane5(Fold5(x), 32) as int == Ones(b, 32, 32)
  {
    Step5High(x);
    Combine(b, Lane5(Fold5(x), 32), Lane4(x, 32), Lane4(x, 48), 32, 16);
  }

  /** `x` holds the level-1 sums of `b`. */
  ghost predicate Level1(b: bv64, x: bv64) {
    forall p: bv6 | p & 1 == 0 && p as int + 2 <= 64 :: Lane1(x, p) as int == Ones(b, p as int, 2)
  }

  ghost predicate Level2(b: bv64, x: bv64) {
    forall p: bv6 | p & 3 == 0 && p as int + 4 <= 64 :: Lane2(x, p) as int == Ones(b, p as int, 4)
  }

  ghost predicate Level3(b: bv64, x: bv64) {
    forall p: bv6 | p & 7 == 0 && p as int + 8 <= 64 :: Lane3(x, p) as int == Ones(b, p as int, 8)
  }

  ghost predicate Level4(b: bv64, x: bv64) {
    forall p: bv6 | p & 15 == 0 && p as int + 16 <= 64 :: Lane4(x, p) as int == Ones(b, p as int, 16)
  }

  ghost predicate Level5(b: bv64, x: bv64) {
    && Lane5(x, 0) as int == Ones(b, 0, 32)
    && Lane5(x, 32) as int == Ones(b, 32, 32)
  }

  lemma Fold1Counts(b: bv64)
    ensures Level1(b, Fold1(b))
  {
    forall p: bv6 | p & 1 == 0 && p as int + 2 <= 64
      ensures Lane1(Fold1(b), p) as int == Ones(b, p as int, 2)
    {
      Count1(b, p);
    }
  }

  lemma Fold2Counts(b: bv64, x: bv64)
    requires Level1(b, x)
    ensures Level2(b, Fold2(x))
  {
    forall p: bv6 | p & 3 == 0 && p as int + 4 <= 64
      ensures Lane2(Fold2(x), p) as int == Ones(b, p as int, 4)
    {
      Half2(p);
      Count2(b, x, p);
    }
  }

  lemma Fold3Counts(b: bv64, x: bv64)
    requires Level2(b, x)
    ensures Level3(b, Fold3(x))
  {
    forall p: bv6 | p & 7 == 0 && p as int + 8 <= 64
      ensures Lane3(Fold3(x), p) as int == Ones(b, p as int, 8)
    {
      Half3(p);
      Count3(b, x, p);
    }
  }

  lemma Fold4Counts(b: bv64, x: bv64)
    requires Level3(b, x)
    ensures Level4(b, Fold4(x))
  {
    forall p: bv6 | p & 15 == 0 && p as int + 16 <= 64
      ensures Lane4(Fold4(x), p) as int == Ones(b, p as int, 16)
    {
      Half4(p);
      Count4(b, x, p);
    }
  }

  lemma Fold5Counts(b: bv64, x: bv64)
    requires Level4(b, x)
    ensures Level5(b, Fold5(x))
  {
    assert Lane4(x, 0) as int == Ones(b, 0, 16);
    assert Lane4(x, 16) as int == Ones(b, 16, 16);
    assert Lane4(x, 32) as int == Ones(b, 32, 16);
    assert Lane4(x, 48) as int == Ones(b, 48, 16);
    Count5Low(b, x);
    Count5High(b, x);
  }

  // The byte sums of the final multiplication. Multiplying by 0x0101_0101_0101_0101
  // is multiplying by 0x101, then by 0x1_0001, then by 0x1_0000_0001: each factor adds
  // a copy of the word shifted by 8, 16 and 32 bits, which pairs up bytes, then pairs
  // of bytes, then halves.

  function Spread16(y: bv64): bv64 { y * 0x1_0001 }
  function Spread32(z: bv64): bv64 { z * 0x1_0000_0001 }

  /** Addition kept as one term, so that sums of lanes are compared argument by argument. */
  function Plus(a: bv64, b: bv64): bv64 { a + b }

  lemma SpreadBy16(x: bv64)
    ensures Spread16(x * 0x101) == x * 0x0101_0101
  {}

  lemma SpreadBy32(x: bv64)
    ensures Spread32(x * 0x0101_0101) == x * 0x0101_0101_0101_0101
  {}

  /** Bytes of at most 15 added to their neighbours do not carry. */
  lemma PairBytes(x: bv64)
    requires x & 0xf0f0_f0f0_f0f0_f0f0 == 0
    ensures (x * 0x101) & 0xe0e0_e0e0_e0e0_e0e0 == 0
    ensures Lane3(x * 0x101, 56) == Lane3(x, 48) + Lane3(x, 56)
    ensures Lane3(x * 0x101, 40) == Lane3(x, 32) + Lane3(x, 40)
    ensures Lane3(x * 0x101, 24) == Lane3(x, 16) + Lane3(x, 24)
    ensures Lane3(x * 0x101, 8) == Lane3(x, 0) + Lane3(x, 8)
  {}

  lemma QuadClear(y: bv64)
    requires y & 0xe0e0_e0e0_e0e0_e0e0 == 0
    ensures Spread16(y) & 0xc0c0_c0c0_c0c0_c0c0 == 0
  {}

  lemma QuadHigh(y: bv64)
    requires y & 0xe0e0_e0e0_e0e0_e0e0 == 0
    ensures Lane3(Spread16(y), 56) == Lane3(y, 40) + Lane3(y, 56)
  {}

  lemma QuadLow(y: bv64)
    requires y & 0xe0e0_e0e0_e0e0_e0e0 == 0
    ensures Lane3(Spread16(y), 24) == Lane3(y, 8) + Lane3(y, 24)
  {}

  lemma HalvesTop(z: bv64)
    requires z & 0xc0c0_c0c0_c0c0_c0c0 == 0
    ensures Spread32(z) >> 56 == Plus(Lane3(z, 24), Lane3(z, 56))
  {}

  lemma PairsAreFold4(x: bv64)
    requires x & 0xf0f0_f0f0_f0f0_f0f0 == 0
    ensures (x * 0x101) & 0xe0e0_e0e0_e0e0_e0e0 == 0
    ensures Lane3(x * 0x101, 56) == Lane4(Fold4(x), 48) && Lane3(x * 0x101, 40) == Lane4(Fold4(x), 32)
    ensures Lane3(x * 0x101, 24) == Lane4(Fold4(x), 16) && Lane3(x * 0x101, 8) == Lane4(Fold4(x), 0)
  {
    PairBytes(x);
    Step4(x, 0);
    Step4(x, 16);
    Step4(x, 32);
    Step4(x, 48);
  }

  lemma QuadsAreFold5(y: bv64, x4: bv64)
    requires y & 0xe0e0_e0e0_e0e0_e0e0 == 0
    requires Lane3(y, 56) == Lane4(x4, 48) && Lane3(y, 40) == Lane4(x4, 32)
    requires Lane3(y, 24) == Lane4(x4, 16) && Lane3(y, 8) == Lane4(x4, 0)
    ensures Spread16(y) & 0xc0c0_c0c0_c0c0_c0c0 == 0
    ensures Lane3(Spread16(y), 56) == Lane5(Fold5(x4), 32) && Lane3(Spread16(y), 24) == Lane5(Fold5(x4), 0)
  {
    QuadClear(y);
    QuadHigh(y);
    QuadLow(y);
    Step5Low(x4);
    Step5High(x4);
  }

  lemma QuadLanes(x: bv64)
    requires x & 0xf0f0_f0f0_f0f0_f0f0 == 0
    ensures (x * 0x0101_0101) & 0xc0c0_c0c0_c0c0_c0c0 == 0
    ensures Lane3(x * 0x0101_0101, 56) == Lane5(Fold5(Fold4(x)), 32)
    ensures Lane3(x * 0x0101_0101, 24) == Lane5(Fold5(Fold4(x)), 0)
  {
    PairsAreFold4(x);
    QuadsAreFold5(x * 0x101, Fold4(x));
    SpreadBy16(x);
  }

  lemma MulTop(x: bv64)
    requires (x * 0x0101_0101) & 0xc0c0_c0c0_c0c0_c0c0 == 0
    ensures (x * 0x0101_0101_0101_0101) >> 56 == Plus(Lane3(x * 0x0101_0101, 24), Lane3(x * 0x0101_0101, 56))
  {
    HalvesTop(x * 0x0101_0101);
    SpreadBy32(x);
  }

  /** The top byte of the product is the sum of the two 32-bit lanes of level 5. */
  lemma MulSumsLanes(x: bv64)
    requires x & 0xf0f0_f0f0_f0f0_f0f0 == 0
    ensures (x * 0x0101_0101_0101_0101) >> 56 == Plus(Lane5(Fold5(Fold4(x)), 0), Lane5(Fold5(Fold4(x)), 32))
  {
    QuadLanes(x);
    MulTop(x);
  }
}
