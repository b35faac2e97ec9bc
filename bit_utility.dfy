/**
 * BitUtility: operations on single 64-bit words (population count, rank,
 * select, bit reversal) and the packing of booleans and 32-bit integers into
 * words, which the mappers use.
 */
module BitUtility {
  import opened Outcome
  import opened BitSeq
  import opened Word
  import opened Swar

  // ---------------------------------------------------------------- PopCount

  /** The three steps of the population count before its final multiplication. */
  function PairStep(b: bv64): bv64 { b - ((b >> 1) & 0x5555_5555_5555_5555) }
  function NibbleStep(b: bv64): bv64 { (b & 0x3333_3333_3333_3333) + ((b >> 2) & 0x3333_3333_3333_3333) }
  function ByteStep(b: bv64): bv64 { (b + (b >> 4)) & 0x0f0f_0f0f_0f0f_0f0f }

  /** The final step: multiplying by 0x0101_0101_0101_0101 sums all bytes into the top byte. */
  function TopByteSum(b: bv64): bv64 { (b * 0x0101_0101_0101_0101) >> 56 }

  lemma PairStepIsFold(b: bv64)
    ensures PairStep(b) == Fold1(b)
  {}

  lemma NibbleStepIsFold(b: bv64)
    ensures NibbleStep(b) == Fold2(b)
  {}

  lemma ByteStepIsFold(b: bv64)
    ensures ByteStep(Fold2(Fold1(b))) == Fold3(Fold2(Fold1(b)))
  {}

  /** After three levels every byte holds at most 8, so its high nibble is clear. */
  lemma ByteSumsSmall(b: bv64)
    ensures Fold3(Fold2(Fold1(b))) & 0xf0f0_f0f0_f0f0_f0f0 == 0
  {}

  /** The word of level 3: the number of one bits of each byte of `b`, in that byte. */
  function ByteCounts(b: bv64): bv64 { Fold3(Fold2(Fold1(b))) }

  /** The word of level 5: the number of one bits of each half of `b`, in that half. */
  function HalfCounts(b: bv64): bv64 { Fold5(Fold4(ByteCounts(b))) }

  /** The source's first three steps compute the byte counts, each below 16. */
  lemma StepsAreByteCounts(bits: bv64)
    ensures ByteStep(NibbleStep(PairStep(bits))) == ByteCounts(bits)
    ensures ByteCounts(bits) & 0xf0f0_f0f0_f0f0_f0f0 == 0
  {
    PairStepIsFold(bits);
    NibbleStepIsFold(Fold1(bits));
    ByteStepIsFold(bits);
    ByteSumsSmall(bits);
  }

  lemma TopOfByteCounts(x: bv64)
    requires x & 0xf0f0_f0f0_f0f0_f0f0 == 0
    ensures TopByteSum(x) == Plus(Lane5(Fold5(Fold4(x)), 0), Lane5(Fold5(Fold4(x)), 32))
  {
    MulSumsLanes(x);
  }

  /** The source's steps compute the sum of the two halves of level 5. */
  lemma PopCountAsHalves(bits: bv64)
    ensures TopByteSum(ByteStep(NibbleStep(PairStep(bits)))) == Plus(Lane5(HalfCounts(bits), 0), Lane5(HalfCounts(bits), 32))
  {
    StepsAreByteCounts(bits);
    TopOfByteCounts(ByteCounts(bits));
  }

  lemma HalvesLevel(bits: bv64)
    ensures Level5(bits, HalfCounts(bits))
  {
    Fold1Counts(bits);
    Fold2Counts(bits, Fold1(bits));
    Fold3Counts(bits, Fold2(Fold1(bits)));
    Fold4Counts(bits, ByteCounts(bits));
    Fold5Counts(bits, Fold4(ByteCounts(bits)));
  }

  /** The two halves of level 5 add up to the number of one bits. */
  lemma HalvesCount(bits: bv64)
    ensures Plus(Lane5(HalfCounts(bits), 0), Lane5(HalfCounts(bits), 32)) as int == Count(Lsb(bits), true)
  {
    HalvesLevel(bits);
    var lo := Lane5(HalfCounts(bits), 0);
    var hi := Lane5(HalfCounts(bits), 32);
    SmallSum(lo, hi, Plus(lo, hi));
    OnesSplit(bits, 0, 32);
    assert Lsb(bits)[0 .. 64] == Lsb(bits);
  }

  lemma PopCountCorrect(bits: bv64)
    ensures TopByteSum(ByteStep(NibbleStep(PairStep(bits)))) as int == Count(Lsb(bits), true)
  {
    PopCountAsHalves(bits);
    HalvesCount(bits);
  }

  /** Number of one bits of `bits`. */
  function PopCountInt64(bits: bv64): (r: nat)
    ensures r == Count(Lsb(bits), true)
  {
    PopCountCorrect(bits);
    TopByteSum(ByteStep(NibbleStep(PairStep(bits)))) as int
  }

  // -------------------------------------------------------------------- Rank

  /** The mask `(1 << t) - 1`: ones below bit `t`. */
  function LowMask(t: bv6): bv64 { (1 << t) - 1 }

  lemma LowMaskBitOf(t: bv6, p: bv6)
    ensures BitS(LowMask(t), p) == (p < t)
  {}

  lemma AndBit(x: bv64, m: bv64, p: bv6)
    ensures BitS(x & m, p) == (BitS(x, p) && BitS(m, p))
  {}

  lemma LowMaskedBit(y: bv64, t: bv6, p: bv6)
    ensures BitS(y & LowMask(t), p) == (BitS(y, p) && p < t)
  {
    AndBit(y, LowMask(t), p);
    LowMaskBitOf(t, p);
  }

  lemma HighMaskBitOf(t: bv6, p: bv6)
    ensures BitS(!LowMask(t), p) == !(p < t)
  {
    NotBit(LowMask(t), p);
    LowMaskBitOf(t, p);
  }

  lemma HighMaskedBit(y: bv64, t: bv6, p: bv6)
    ensures BitS(y & !LowMask(t), p) == (BitS(y, p) && !(p < t))
  {
    AndBit(y, !LowMask(t), p);
    HighMaskBitOf(t, p);
  }

  lemma LowMaskedLsb(y: bv64, t: bv6, p: bv6)
    ensures Lsb(y & LowMask(t))[p as int] == (Lsb(y)[p as int] && p < t)
  {
    LsbAt(y & LowMask(t), p);
    LsbAt(y, p);
    LowMaskedBit(y, t, p);
  }

  lemma HighMaskedLsb(y: bv64, t: bv6, p: bv6)
    ensures Lsb(y & !LowMask(t))[p as int] == (Lsb(y)[p as int] && !(p < t))
  {
    LsbAt(y & !LowMask(t), p);
    LsbAt(y, p);
    HighMaskedBit(y, t, p);
  }

  lemma LowMaskAt(y: bv64, t: bv6, i: int)
    requires 0 <= i < 64
    ensures Lsb(y & LowMask(t))[i] == (Lsb(y)[i] && i < t as int)
  {
    var p := Pos(i);
    LowMaskedLsb(y, t, p);
    Less6(p, t);
  }

  lemma HighMaskAt(y: bv64, t: bv6, i: int)
    requires 0 <= i < 64
    ensures Lsb(y & !LowMask(t))[i] == (Lsb(y)[i] && t as int <= i)
  {
    var p := Pos(i);
    HighMaskedLsb(y, t, p);
    Less6(p, t);
  }

  lemma LowMaskCount(y: bv64, t: bv6)
    ensures Count(Lsb(y & LowMask(t)), true) == Count(Lsb(y)[..t as int], true)
  {
    forall i | 0 <= i < 64
      ensures Lsb(y & LowMask(t))[i] == (Lsb(y)[i] && i < t as int)
    {
      LowMaskAt(y, t, i);
    }
    CountMasked(Lsb(y), Lsb(y & LowMask(t)), t as int, true);
  }

  lemma HighMaskCount(y: bv64, t: bv6)
    ensures Count(Lsb(y & !LowMask(t)), true) == Count(Lsb(y)[t as int..], true)
  {
    forall i | 0 <= i < 64
      ensures Lsb(y & !LowMask(t))[i] == (Lsb(y)[i] && t as int <= i)
    {
      HighMaskAt(y, t, i);
    }
    CountMaskedHigh(Lsb(y), Lsb(y & !LowMask(t)), t as int, true);
  }

  /** Counting `value` bits of `bits` is counting one bits of `bits` or of its complement. */
  lemma ValueWindow(bits: bv64, lo: nat, hi: nat, value: bool)
    requires lo <= hi <= 64
    ensures Count(Lsb(if value then bits else !bits)[lo..hi], true) == Count(Lsb(bits)[lo..hi], value)
  {
    if !value {
      CountNotSlice(bits, lo, hi, true);
    }
  }

  /** Number of bits of `bits` equal to `value`. */
  function RankInt64(bits: bv64, value: bool): (r: nat)
    ensures r == Count(Lsb(bits), value)
  {
    ValueWindow(bits, 0, 64, value);
    assert Lsb(bits)[0..64] == Lsb(bits);
    assert Lsb(if value then bits else !bits)[0..64] == Lsb(if value then bits else !bits);
    PopCountInt64(if value then bits else !bits)
  }

  /** Every bit is a one or a zero. */
  lemma RankInt64Complement(bits: bv64)
    ensures RankInt64(bits, true) + RankInt64(bits, false) == 64
  {
    CountComplement(Lsb(bits));
  }

  lemma UpperLsbCount(bits: bv64, y: bv64, t: bv6, value: bool)
    requires y == if value then bits else !bits
    ensures Count(Lsb(y & !LowMask(t)), true) == Count(Lsb(bits)[t as int..64], value)
  {
    HighMaskCount(y, t);
    assert Lsb(y)[t as int..] == Lsb(y)[t as int..64];
    if !value {
      CountNotSlice(bits, t as int, 64, true);
    }
  }

  lemma UpperCount(bits: bv64, y: bv64, t: bv6, value: bool)
    requires y == if value then bits else !bits
    ensures Count(Lsb(y & !LowMask(t)), true) == Count(Msb(bits)[..64 - t as int], value)
  {
    UpperLsbCount(bits, y, t, value);
    CountMsbPrefix(bits, 64 - t as int, value);
  }

  /**
   * Number of bits equal to `value` among the `offset` most significant bits.
   * C# masks the shift count `64 - offset` to its low six bits, so an offset
   * outside 1 to 64 counts the `64 - (64 - offset) % 64` most significant bits.
   */
  function RankInt64Upper(bits: bv64, offset: Int32, value: bool): (r: nat)
    ensures offset == 0 ==> r == 0
    ensures offset != 0 ==> r == Count(Msb(bits)[..64 - (64 - offset) % 64], value)
  {
    if offset == 0 then 0
    else
      var t := Pos((64 - offset) % 64);
      var y := if value then bits else !bits;
      UpperCount(bits, y, t, value);
      PopCountInt64(y & !LowMask(t))
  }

  /** For an offset from 1 to 64 the upper rank counts exactly the first `offset` bits in most-significant-first order. */
  lemma RankInt64UpperPrefix(bits: bv64, offset: Int32, value: bool)
    requires 1 <= offset <= 64
    ensures RankInt64Upper(bits, offset, value) == Count(Msb(bits)[..offset], value)
  {
    assert 64 - (64 - offset) % 64 == offset;
  }

  lemma LowerCount(bits: bv64, y: bv64, t: bv6, value: bool)
    requires y == if value then bits else !bits
    ensures Count(Lsb(y & LowMask(t)), true) == Count(Lsb(bits)[..t as int], value)
  {
    LowMaskCount(y, t);
    if !value {
      CountNotSlice(bits, 0, t as int, true);
      assert Lsb(y)[..t as int] == Lsb(y)[0..t as int];
      assert Lsb(bits)[..t as int] == Lsb(bits)[0..t as int];
    }
  }

  /**
   * Number of bits equal to `value` among the `upLimitOffset` least significant
   * bits; the shift count is masked to its low six bits, so 64 counts nothing.
   */
  function RankInt64OfLowerMask(bits: bv64, upLimitOffset: Int32, value: bool): (r: nat)
    ensures r == Count(Lsb(bits)[..upLimitOffset % 64], value)
  {
    var t := Pos(upLimitOffset % 64);
    var y := if value then bits else !bits;
    LowerCount(bits, y, t, value);
    PopCountInt64(y & LowMask(t))
  }

  // ------------------------------------------------------------------ Select

  /**
   * One step of the broadword select: when more ones are wanted than the lower
   * half of the current window holds (`v`), skip that half.
   */
  function Descend(i: int, pos: bv6, v: bv64, half: bv6): (int, bv6) {
    if i > v as int then (i - v as int, pos + half) else (i, pos)
  }

  /** The `i`-th one of the window of `n` bits at `pos` is the `rank`-th one of `b`. */
  ghost predicate Window(b: bv64, rank: int, i: int, pos: int, n: nat) {
    && 0 <= pos && pos + n <= 64
    && Count(Lsb(b)[..pos], true) + i == rank
    && 1 <= i <= Ones(b, pos, n)
  }

  /** Halving a window keeps the wanted one inside the half chosen. */
  lemma Halve(b: bv64, rank: int, i: int, pos: int, h: nat, v: int)
    requires Window(b, rank, i, pos, 2 * h) && v == Ones(b, pos, h)
    ensures i > v ==> Window(b, rank, i - v, pos + h, h)
    ensures i <= v ==> Window(b, rank, i, pos, h)
  {
    OnesSplit(b, pos, h);
    CountPrefixMonotone(Lsb(b), pos, pos + h, true);
  }

  /** A step of the descent on a window of `2 * h` bits whose halves do not wrap. */
  lemma DescendStep(b: bv64, rank: int, i: int, pos: bv6, v: bv64, half: bv6, h: nat)
    requires half as int == h && pos as int + 2 * h <= 64 && (pos + half) as int == pos as int + h
    requires v as int == Ones(b, pos as int, h)
    ensures Window(b, rank, i, pos as int, 2 * h) ==> Window(b, rank, Descend(i, pos, v, half).0, Descend(i, pos, v, half).1 as int, h)
  {
    if Window(b, rank, i, pos as int, 2 * h) {
      Halve(b, rank, i, pos as int, h, v as int);
    }
  }

  lemma Descend5(b: bv64, x5: bv64, rank: int)
    requires Level5(b, x5)
    ensures Descend(rank, 0, Lane5(x5, 0), 32).1 & 31 == 0
    ensures Window(b, rank, rank, 0, 64) ==> Window(b, rank, Descend(rank, 0, Lane5(x5, 0), 32).0, Descend(rank, 0, Lane5(x5, 0), 32).1 as int, 32)
  {
    DescendStep(b, rank, rank, 0, Lane5(x5, 0), 32, 32);
  }

  lemma Descend4(b: bv64, x4: bv64, rank: int, i: int, pos: bv6)
    requires Level4(b, x4) && pos & 31 == 0
    ensures Descend(i, pos, Lane4(x4, pos), 16).1 & 15 == 0
    ensures Window(b, rank, i, pos as int, 32) ==> Window(b, rank, Descend(i, pos, Lane4(x4, pos), 16).0, Descend(i, pos, Lane4(x4, pos), 16).1 as int, 16)
  {
    Half5(pos);
    assert Lane4(x4, pos) as int == Ones(b, pos as int, 16);
    DescendStep(b, rank, i, pos, Lane4(x4, pos), 16, 16);
  }

  lemma Descend3(b: bv64, x3: bv64, rank: int, i: int, pos: bv6)
    requires Level3(b, x3) && pos & 15 == 0
    ensures Descend(i, pos, Lane3(x3, pos), 8).1 & 7 == 0
    ensures Window(b, rank, i, pos as int, 16) ==> Window(b, rank, Descend(i, pos, Lane3(x3, pos), 8).0, Descend(i, pos, Lane3(x3, pos), 8).1 as int, 8)
  {
    Half4(pos);
    assert Lane3(x3, pos) as int == Ones(b, pos as int, 8);
    DescendStep(b, rank, i, pos, Lane3(x3, pos), 8, 8);
  }

  lemma Descend2(b: bv64, x2: bv64, rank: int, i: int, pos: bv6)
    requires Level2(b, x2) && pos & 7 == 0
    ensures Descend(i, pos, Lane2(x2, pos), 4).1 & 3 == 0
    ensures Window(b, rank, i, pos as int, 8) ==> Window(b, rank, Descend(i, pos, Lane2(x2, pos), 4).0, Descend(i, pos, Lane2(x2, pos), 4).1 as int, 4)
  {
    Half3(pos);
    assert Lane2(x2, pos) as int == Ones(b, pos as int, 4);
    DescendStep(b, rank, i, pos, Lane2(x2, pos), 4, 4);
  }

  lemma Descend1(b: bv64, x1: bv64, rank: int, i: int, pos: bv6)
    requires Level1(b, x1) && pos & 3 == 0
    ensures Descend(i, pos, Lane1(x1, pos), 2).1 & 1 == 0
    ensures Window(b, rank, i, pos as int, 4) ==> Window(b, rank, Descend(i, pos, Lane1(x1, pos), 2).0, Descend(i, pos, Lane1(x1, pos), 2).1 as int, 2)
  {
    Half2(pos);
    assert Lane1(x1, pos) as int == Ones(b, pos as int, 2);
    DescendStep(b, rank, i, pos, Lane1(x1, pos), 2, 2);
  }

  lemma Descend0(b: bv64, rank: int, i: int, pos: bv6)
    requires pos & 1 == 0
    ensures Window(b, rank, i, pos as int, 2) ==> IsSelect(Lsb(b), true, rank, Descend(i, pos, Lane0(b, pos), 1).1 as int)
  {
    Half1(pos);
    Count0(b, pos);
    DescendStep(b, rank, i, pos, Lane0(b, pos), 1, 1);
    var pos' := Descend(i, pos, Lane0(b, pos), 1).1;
    CountSingle(Lsb(b), pos' as int, true);
  }

  lemma AllLevels(b: bv64)
    ensures Level1(b, Fold1(b)) && Level2(b, Fold2(Fold1(b))) && Level3(b, Fold3(Fold2(Fold1(b))))
    ensures Level4(b, Fold4(Fold3(Fold2(Fold1(b))))) && Level5(b, Fold5(Fold4(Fold3(Fold2(Fold1(b))))))
  {
    Fold1Counts(b);
    Fold2Counts(b, Fold1(b));
    Fold3Counts(b, Fold2(Fold1(b)));
    Fold4Counts(b, Fold3(Fold2(Fold1(b))));
    Fold5Counts(b, Fold4(Fold3(Fold2(Fold1(b)))));
  }

  lemma WholeWindow(b: bv64, rank: int)
    ensures 1 <= rank <= Count(Lsb(b), true) ==> Window(b, rank, rank, 0, 64)
  {
    assert Lsb(b)[0..64] == Lsb(b);
  }

  /**
   * Position (counting from the least significant bit) of the `rank`-th one
   * bit of `bits`. The window halves from 64 bits down to one, guided by the
   * counts of the population count's levels.
   */
  function SelectInt64(bits: bv64, rank: UInt): (r: nat)
    ensures r < 64
    ensures rank == 0 ==> r == 0
    ensures 1 <= rank <= Count(Lsb(bits), true) ==> IsSelect(Lsb(bits), true, rank, r)
  {
    var x1 := Fold1(bits);
    var x2 := Fold2(x1);
    var x3 := Fold3(x2);
    var x4 := Fold4(x3);
    var x5 := Fold5(x4);
    AllLevels(bits);
    WholeWindow(bits, rank);
    var (i5, p5) := Descend(rank, 0, Lane5(x5, 0), 32);
    Descend5(bits, x5, rank);
    var (i4, p4) := Descend(i5, p5, Lane4(x4, p5), 16);
    Descend4(bits, x4, rank, i5, p5);
    var (i3, p3) := Descend(i4, p4, Lane3(x3, p4), 8);
    Descend3(bits, x3, rank, i4, p4);
    var (i2, p2) := Descend(i3, p3, Lane2(x2, p3), 4);
    Descend2(bits, x2, rank, i3, p3);
    var (i1, p1) := Descend(i2, p2, Lane1(x1, p2), 2);
    Descend1(bits, x1, rank, i2, p2);
    var (i0, p0) := Descend(i1, p1, Lane0(bits, p1), 1);
    Descend0(bits, rank, i1, p1);
    p0 as int
  }

  /** `SelectInt64` on `bits` or on its complement: the position of the `rank`-th bit equal to `value`. */
  function SelectInt64Of(bits: bv64, value: bool, rank: UInt): (r: nat)
    ensures r < 64
    ensures 1 <= rank <= Count(Lsb(bits), value) ==> IsSelect(Lsb(bits), value, rank, r)
  {
    var y := if value then bits else !bits;
    var r := SelectInt64(y, rank);
    SelectOfComplement(bits, y, value, rank, r);
    r
  }

  lemma SelectOfComplement(bits: bv64, y: bv64, value: bool, rank: int, r: nat)
    requires y == if value then bits else !bits
    requires r < 64
    requires 1 <= rank <= Count(Lsb(y), true) ==> IsSelect(Lsb(y), true, rank, r)
    ensures 1 <= rank <= Count(Lsb(bits), value) ==> IsSelect(Lsb(bits), value, rank, r)
  {
    if !value {
      ValueWindow(bits, 0, 64, false);
      ValueWindow(bits, 0, r, false);
      assert Lsb(bits)[0..64] == Lsb(bits) && Lsb(y)[0..64] == Lsb(y);
      assert Lsb(bits)[0..r] == Lsb(bits)[..r] && Lsb(y)[0..r] == Lsb(y)[..r];
      LsbNot(bits);
    }
  }

  /** Select inverts rank: the selected position closes a prefix holding `rank - 1` matching bits. */
  lemma SelectInvertsRank(bits: bv64, value: bool, rank: UInt)
    requires 1 <= rank <= RankInt64(bits, value)
    ensures Lsb(bits)[SelectInt64Of(bits, value, rank)] == value
    ensures RankInt64OfLowerMask(bits, SelectInt64Of(bits, value, rank), value) == rank - 1
  {
    var p := SelectInt64Of(bits, value, rank);
    assert IsSelect(Lsb(bits), value, rank, p);
    LowerRankIsPrefix(bits, p, value);
  }

  lemma LowerRankIsPrefix(bits: bv64, n: Int32, value: bool)
    requires 0 <= n < 64
    ensures RankInt64OfLowerMask(bits, n, value) == Count(Lsb(bits)[..n], value)
  {
    assert n % 64 == n;
  }

  /** Rank inverts select: counting below the position after the selected one gives `rank`. */
  lemma RankOfSelected(bits: bv64, value: bool, rank: UInt)
    requires 1 <= rank <= RankInt64(bits, value)
    requires SelectInt64Of(bits, value, rank) < 63
    ensures RankInt64OfLowerMask(bits, SelectInt64Of(bits, value, rank) + 1, value) == rank
  {
    var p := SelectInt64Of(bits, value, rank);
    assert IsSelect(Lsb(bits), value, rank, p);
    RankOfSelect(Lsb(bits), value, rank, p);
    LowerRankIsPrefix(bits, p + 1, value);
  }

  // ----------------------------------------------------------------- Reverse

  /** The bits of `value` in the opposite order. */
  function ReverseInt64(value: bv64): bv64 {
    var v1 := ((value & 0x5555_5555_5555_5555) << 1) | ((value >> 1) & 0x5555_5555_5555_5555);
    var v2 := ((v1 & 0x3333_3333_3333_3333) << 2) | ((v1 >> 2) & 0x3333_3333_3333_3333);
    var v3 := ((v2 & 0x0f0f_0f0f_0f0f_0f0f) << 4) | ((v2 >> 4) & 0x0f0f_0f0f_0f0f_0f0f);
    var v4 := ((v3 & 0x00ff_00ff_00ff_00ff) << 8) | ((v3 >> 8) & 0x00ff_00ff_00ff_00ff);
    (v4 << 48) | ((v4 & 0xffff_0000) << 16) | ((v4 >> 16) & 0xffff_0000) | (v4 >> 48)
  }

  lemma ReverseInt64Bit(value: bv64, p: bv6)
    ensures BitS(ReverseInt64(value), p) == BitS(value, 63 - p)
  {}

  lemma Flip6(p: bv6)
    ensures (63 - p) as int == 63 - p as int
  {}

  /** Bit `i` of the reversed word is bit `63 - i` of the word: its least-significant-first view is the other's most-significant-first view. */
  lemma ReverseInt64Bits(value: bv64)
    ensures Lsb(ReverseInt64(value)) == Msb(value)
  {
    forall i | 0 <= i < 64
      ensures Lsb(ReverseInt64(value))[i] == Msb(value)[i]
    {
      var p := Pos(i);
      LsbAt(ReverseInt64(value), p);
      ReverseInt64Bit(value, p);
      Flip6(p);
      MsbAt(value, 63 - p);
    }
  }

  /** Reversing twice gives the word back. */
  lemma ReverseInt64Involution(value: bv64)
    ensures ReverseInt64(ReverseInt64(value)) == value
  {}

  /** The bits of a 32-bit `value` in the opposite order, widened to 64 bits. */
  function ReverseInt32(value: bv32): (r: bv64)
    ensures r >> 32 == 0
  {
    var v1 := ((value & 0x5555_5555) << 1) | ((value >> 1) & 0x5555_5555);
    var v2 := ((v1 & 0x3333_3333) << 2) | ((v1 >> 2) & 0x3333_3333);
    var v3 := ((v2 & 0x0f0f_0f0f) << 4) | ((v2 >> 4) & 0x0f0f_0f0f);
    ((v3 << 24) | ((v3 & 0xff00) << 8) | ((v3 >> 8) & 0xff00) | (v3 >> 24)) as bv64
  }

  lemma ReverseInt32Bit(value: bv32, p: bv6)
    ensures BitS(ReverseInt32(value), p) == (p < 32 && BitS(value as bv64, 31 - p))
  {}

  lemma Flip5(p: bv6)
    requires p < 32
    ensures (31 - p) as int == 31 - p as int
  {}

  /** Bit `i < 32` of the result is bit `31 - i` of `value`; the upper 32 bits are zero. */
  lemma ReverseInt32Bits(value: bv32)
    ensures forall i :: 0 <= i < 32 ==> Lsb(ReverseInt32(value))[i] == Lsb(value as bv64)[31 - i]
    ensures forall i :: 32 <= i < 64 ==> !Lsb(ReverseInt32(value))[i]
  {
    forall i | 0 <= i < 64
      ensures Lsb(ReverseInt32(value))[i] == (i < 32 && Lsb(value as bv64)[31 - i])
    {
      var p := Pos(i);
      LsbAt(ReverseInt32(value), p);
      ReverseInt32Bit(value, p);
      Less6(p, 32);
      if p < 32 {
        Flip5(p);
        LsbAt(value as bv64, 31 - p);
      }
    }
  }

  /** Reversing the 32 bits twice gives the value back. */
  lemma ReverseInt32Involution(value: bv32)
    ensures ReverseInt32(ReverseInt32(value) as bv32) == value as bv64
  {}

  // ----------------------------------------------------------------- Packing

  lemma ShiftInOne(x: bv64)
    ensures (x << 1) | 1 == ShiftIn(x, true)
  {}

  lemma ShiftInZero(x: bv64)
    ensures (x << 1) & !1 == ShiftIn(x, false)
  {}

  /** Shifting one more position of `c` in extends the word built from its prefix. */
  lemma FromMsbStep(c: seq<bool>, k: nat)
    requires k < |c|
    ensures FromMsb(c[..k + 1]) == ShiftIn(FromMsb(c[..k]), c[k])
  {
    assert c[..k + 1][..k] == c[..k];
  }

  /**
   * BoolToUlong over an array: the 64 booleans from `index` on, most
   * significant bit first, positions past the end reading as zero. The loop
   * bound `index + 64` is a `ulong` sum: when it wraps the loop does not run.
   */
  method BoolToUlong(value: array<bool>, index: ULong) returns (result: bv64)
    ensures index + 64 < ULongLimit ==> Msb(result) == Chunk(value[..], index)
    ensures index + 64 >= ULongLimit ==> result == 0
  {
    var maxIndex := value.Length;
    result := 0;
    var bound := (index + 64) % ULongLimit;
    ghost var c := Chunk(value[..], index);
    var i := index;
    assert bound == index + 64 || bound <= index;
    while i < bound
      invariant index <= i <= index + 64
      invariant bound <= index ==> i == index
      invariant result == FromMsb(c[..i - index])
    {
      FromMsbStep(c, i - index);
      if i < maxIndex && value[i] {
        ShiftInOne(result);
        result := (result << 1) | 1;
      } else {
        ShiftInZero(result);
        result := (result << 1) & !1;
      }
      i := i + 1;
    }
    if index + 64 < ULongLimit {
      assert c[..64] == c;
      MsbFromMsb(c);
    }
  }

  /**
   * BoolToUlong over a list, as written: a negative index makes the list
   * indexer throw; the `int` bound `index + 64` wraps past `int.MaxValue`,
   * and then the loop does not run.
   */
  method BoolToUlongList(value: seq<bool>, index: Int32) returns (r: Result<bv64>)
    ensures index < 0 ==> r == Err(ArgumentOutOfRange)
    ensures 0 <= index && index + 64 <= IntMax ==> r.Ok? && Msb(r.value) == Chunk(value, index)
    ensures index + 64 > IntMax ==> r == Ok(0)
  {
    if index < 0 {
      return Err(ArgumentOutOfRange);
    }
    var maxIndex := |value|;
    var result: bv64 := 0;
    var bound := TruncateToInt32(index + 64);
    ghost var c := Chunk(value, index);
    var i := index;
    assert bound == index + 64 || bound <= index;
    while i < bound
      invariant index <= i <= index + 64
      invariant bound <= index ==> i == index
      invariant result == FromMsb(c[..i - index])
    {
      FromMsbStep(c, i - index);
      if i < maxIndex && value[i] {
        ShiftInOne(result);
        result := (result << 1) | 1;
      } else {
        ShiftInZero(result);
        result := (result << 1) & !1;
      }
      i := i + 1;
    }
    if index + 64 <= IntMax {
      assert c[..64] == c;
      MsbFromMsb(c);
    }
    return Ok(result);
  }

  /**
   * BoolToUlong over a list with the loop bound computed without wrapping:
   * the chunk is read for every non-negative index.
   */
  method BoolToUlongListWide(value: seq<bool>, index: Int32) returns (r: Result<bv64>)
    ensures index < 0 ==> r == Err(ArgumentOutOfRange)
    ensures 0 <= index ==> r.Ok? && Msb(r.value) == Chunk(value, index)
  {
    if index < 0 {
      return Err(ArgumentOutOfRange);
    }
    var maxIndex := |value|;
    var result: bv64 := 0;
    ghost var c := Chunk(value, index);
    var i: int := index;
    while i < index + 64
      invariant index <= i <= index + 64
      invariant result == FromMsb(c[..i - index])
    {
      FromMsbStep(c, i - index);
      if i < maxIndex && value[i] {
        ShiftInOne(result);
        result := (result << 1) | 1;
      } else {
        ShiftInZero(result);
        result := (result << 1) & !1;
      }
      i := i + 1;
    }
    assert c[..64] == c;
    MsbFromMsb(c);
    return Ok(result);
  }

  /** A list of `int.MaxValue` true values, read at the last chunk boundary below the end. */
  lemma BoolToUlongListDropsTail()
    ensures var value := seq(IntMax, i => true);
      var index := IntMax - 63;
      index + 64 > IntMax && Chunk(value, index)[0] && !Msb(0)[0]
  {
    LsbAt(0, 63);
  }

  /** `Join(a, b)`: `a` in the upper 32 bits, `b` in the lower. */
  function Join(a: bv32, b: bv32): bv64 {
    ((a as bv64) << 32) | (b as bv64)
  }

  lemma JoinHighBit(a: bv32, b: bv32, p: bv6)
    requires p >= 32
    ensures BitS(Join(a, b), p) == BitS(a as bv64, p - 32)
  {}

  lemma JoinLowBit(a: bv32, b: bv32, p: bv6)
    requires p < 32
    ensures BitS(Join(a, b), p) == BitS(b as bv64, p)
  {}

  lemma Sub32(p: bv6)
    requires p >= 32
    ensures (p - 32) as int == p as int - 32
  {}

  /** The joined word reads the upper uint's bits and then the lower one's, most significant first. */
  lemma JoinMsb(a: bv32, b: bv32)
    ensures Msb(Join(a, b)) == Msb32(a) + Msb32(b)
  {
    forall k | 0 <= k < 64
      ensures Msb(Join(a, b))[k] == (Msb32(a) + Msb32(b))[k]
    {
      var p := Pos(63 - k);
      LsbAt(Join(a, b), p);
      Less6(p, 32);
      if k < 32 {
        JoinHighBit(a, b, p);
        Sub32(p);
        LsbAt(a as bv64, p - 32);
      } else {
        JoinLowBit(a, b, p);
        LsbAt(b as bv64, p);
      }
    }
  }

  /** The uint at `k`, or zero past the end (UIntToUlong reads a missing word as zero). */
  function UIntOrZero(value: seq<bv32>, k: int): bv32 {
    if 0 <= k < |value| then value[k] else 0
  }

  /**
   * UIntToUlong: the uint at `index` in the upper half and the next one in
   * the lower half; missing words read as zero.
   */
  function UIntToUlong(value: seq<bv32>, index: ULong): (r: bv64)
    ensures Msb(r) == Msb32(UIntOrZero(value, index)) + Msb32(UIntOrZero(value, index + 1))
  {
    var maxIndex := |value|;
    if index >= maxIndex then
      JoinMsb(0, 0);
      assert Join(0, 0) == 0;
      0
    else if index + 1 >= maxIndex then
      JoinMsb(value[index], 0);
      assert Join(value[index], 0) == (value[index] as bv64) << 32;
      (value[index] as bv64) << 32
    else
      JoinMsb(value[index], value[index + 1]);
      ((value[index] as bv64) << 32) | (value[index + 1] as bv64)
  }

  /** UIntToUlong over a list: a negative index makes the list indexer throw. */
  function UIntToUlongList(value: seq<bv32>, index: Int32): (r: Result<bv64>)
    ensures index < 0 ==> r == Err(ArgumentOutOfRange)
    ensures 0 <= index ==>
      r.Ok? &&
      Msb(r.value) == Msb32(UIntOrZero(value, index)) + Msb32(UIntOrZero(value, index + 1))
  {
    if index >= |value| then Ok(UIntToUlong(value, index))
    else if index < 0 then Err(ArgumentOutOfRange)
    else Ok(UIntToUlong(value, index))
  }

  /** ULongToBool: a fresh array of the 64 bits of `n`, most significant first. */
  method ULongToBool(n: bv64) returns (value: array<bool>)
    ensures fresh(value)
    ensures value[..] == Msb(n)
  {
    value := new bool[64];
    var i := 0;
    while i < 64
      invariant 0 <= i <= 64
      invariant forall k :: 64 - i <= k < 64 ==> value[k] == Msb(n)[k]
    {
      var p := Pos(i);
      MaskedBit(n, p);
      LsbAt(n, p);
      value[63 - i] := (n & (1 << p)) != 0;
      i := i + 1;
    }
    assert value[..] == Msb(n);
  }

  lemma MaskedBit(n: bv64, p: bv6)
    ensures ((n & (1 << p)) != 0) == BitS(n, p)
  {}

  /** Unpacking a word and packing it back gives the word. */
  method ULongRoundTrip(n: bv64) returns (r: bv64)
    ensures r == n
  {
    var a := ULongToBool(n);
    r := BoolToUlong(a, 0);
    assert Chunk(Msb(n), 0) == Msb(n);
    MsbInjective(r, n);
  }
}
