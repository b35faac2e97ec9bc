/**
 * The uncompressed bit vector: bits stored in 64-bit blocks, bit `i` of the
 * vector at bit `i % 64` (least significant first) of block `i / 64`, with a
 * rank table holding the number of one bits before every group of four
 * blocks (256 bits). Mutators change the blocks only; the table and the total
 * are brought up to date by `BuildIndex`, and rank and select read them.
 */
module BitVectors {
  import opened Outcome
  import opened BitSeq
  import opened Word
  import opened BitUtility

  /** Bits per block (`BLOCK_SIZE`). */
  const BlockSize: nat := 64
  /** Blocks per rank-table entry (`RANK_TABLE_RATIO`). */
  const RankTableRatio: nat := 4
  /** Bits per rank-table entry (`RANK_TABLE_SIZE`). */
  const RankTableSize: nat := 256

  // ------------------------------------------------------- Blocks as bits

  /** The bits of `blocks` laid end to end, each block least significant bit first. */
  function AllBits(blocks: seq<bv64>): (s: seq<bool>)
    ensures |s| == 64 * |blocks|
  {
    if blocks == [] then [] else AllBits(blocks[..|blocks| - 1]) + Lsb(blocks[|blocks| - 1])
  }

  lemma {:induction false} AllBitsAppend(a: seq<bv64>, b: seq<bv64>)
    ensures AllBits(a + b) == AllBits(a) + AllBits(b)
    decreases |b|
  {
    if b == [] {
      assert a + b == a;
    } else {
      assert (a + b)[..|a + b| - 1] == a + b[..|b| - 1];
      AllBitsAppend(a, b[..|b| - 1]);
    }
  }

  /** The bits before block `k`, block `k` itself, and the bits after it. */
  lemma BlockSplit(blocks: seq<bv64>, k: nat)
    requires k < |blocks|
    ensures AllBits(blocks) == AllBits(blocks[..k]) + Lsb(blocks[k]) + AllBits(blocks[k + 1..])
  {
    var upTo, after := blocks[..k + 1], blocks[k + 1..];
    assert AllBits(upTo) == AllBits(blocks[..k]) + Lsb(blocks[k]) by {
      assert upTo[..k] == blocks[..k];
    }
    assert AllBits(blocks) == AllBits(upTo) + AllBits(after) by {
      assert blocks == upTo + after;
      AllBitsAppend(upTo, after);
    }
  }

  /** Block `k` occupies positions `64 * k` to `64 * k + 63`. */
  lemma BlockSlice(blocks: seq<bv64>, k: nat)
    requires k < |blocks|
    ensures AllBits(blocks)[64 * k .. 64 * k + 64] == Lsb(blocks[k])
  {
    BlockSplit(blocks, k);
  }

  /** The first `n` blocks give the first `64 * n` bits. */
  lemma PrefixBlocks(blocks: seq<bv64>, n: nat)
    requires n <= |blocks|
    ensures AllBits(blocks)[..64 * n] == AllBits(blocks[..n])
  {
    assert blocks == blocks[..n] + blocks[n..];
    AllBitsAppend(blocks[..n], blocks[n..]);
  }

  /** Replacing block `k` by a word that differs in bit `j` only changes position `64 * k + j`. */
  lemma WriteBit(blocks: seq<bv64>, k: nat, j: nat, w: bv64, v: bool)
    requires k < |blocks| && j < 64
    requires Lsb(w) == Lsb(blocks[k])[j := v]
    ensures AllBits(blocks[k := w]) == AllBits(blocks)[64 * k + j := v]
  {
    var b := blocks[k := w];
    BlockSplit(blocks, k);
    BlockSplit(b, k);
    assert b[..k] == blocks[..k] && b[k + 1..] == blocks[k + 1..];
    var p := AllBits(blocks[..k]);
    var q := AllBits(blocks[k + 1..]);
    assert (p + Lsb(blocks[k]) + q)[64 * k + j := v] == p + Lsb(blocks[k])[j := v] + q;
  }

  /** Number of bits equal to `value` in the first `n` blocks, summed block by block. */
  function BlocksRank(blocks: seq<bv64>, value: bool, n: nat): nat
    requires n <= |blocks|
  {
    if n == 0 then 0 else BlocksRank(blocks, value, n - 1) + Count(Lsb(blocks[n - 1]), value)
  }

  /** The block-by-block sum counts the bits equal to `value` among the first `64 * n` bits. */
  lemma {:induction false} BlocksRankCount(blocks: seq<bv64>, value: bool, n: nat)
    requires n <= |blocks|
    ensures BlocksRank(blocks, value, n) == Count(AllBits(blocks)[..64 * n], value)
  {
    PrefixBlocks(blocks, n);
    if n > 0 {
      BlocksRankCount(blocks, value, n - 1);
      PrefixBlocks(blocks, n - 1);
      assert blocks[..n][..n - 1] == blocks[..n - 1];
      CountAppend(AllBits(blocks[..n - 1]), Lsb(blocks[n - 1]), value);
    }
  }

  /** The count of `v` up to position `64 * k + j` splits at the start of block `k`. */
  lemma PrefixInBlock(blocks: seq<bv64>, k: nat, j: nat, v: bool)
    requires k < |blocks| && j <= 64
    ensures Count(AllBits(blocks)[..64 * k + j], v) ==
      Count(AllBits(blocks)[..64 * k], v) + Count(Lsb(blocks[k])[..j], v)
  {
    var a := AllBits(blocks);
    BlockSplit(blocks, k);
    assert a[..64 * k + j] == a[..64 * k] + Lsb(blocks[k])[..j];
    CountAppend(a[..64 * k], Lsb(blocks[k])[..j], v);
  }

  lemma ZeroLsb(j: nat)
    requires j < 64
    ensures !Lsb(0)[j]
  {
    LsbAt(0, Pos(j));
  }

  /** Zero blocks hold zero bits only. */
  lemma {:induction false} ZeroBlocks(b: nat)
    ensures AllBits(seq(b, _ => 0)) == seq(64 * b, _ => false)
  {
    if b > 0 {
      var z: seq<bv64> := seq(b, _ => 0);
      assert z[..b - 1] == seq(b - 1, _ => 0);
      ZeroBlocks(b - 1);
      forall j | 0 <= j < 64
        ensures !Lsb(0)[j]
      {
        ZeroLsb(j);
      }
      assert AllBits(z) == seq(64 * b, _ => false);
    }
  }

  /** Number of blocks needed for `n` bits (rounded up). */
  function BlockCount(n: nat): (b: nat)
    ensures n <= 64 * b < n + 64
  {
    (n + BlockSize - 1) / BlockSize
  }

  /** Number of rank-table entries for `b` blocks: one per group of four, and one more. */
  function TableCount(b: nat): (t: nat)
    ensures b <= 4 * (t - 1) < b + 4
  {
    (b + RankTableRatio - 1) / RankTableRatio + 1
  }

  /** The rank table of `blocks`: entry `g` is the number of ones in the blocks before group `g`. */
  function RankTableOf(blocks: seq<bv64>): (table: seq<nat>)
    ensures |table| == TableCount(|blocks|)
  {
    seq(TableCount(|blocks|), g requires 0 <= g < TableCount(|blocks|) =>
      BlocksRank(blocks, true, Min(RankTableRatio * g, |blocks|)))
  }

  lemma {:induction false} BlocksRankMonotone(blocks: seq<bv64>, value: bool, m: nat, n: nat)
    requires m <= n <= |blocks|
    ensures BlocksRank(blocks, value, m) <= BlocksRank(blocks, value, n)
    decreases n - m
  {
    if m < n {
      BlocksRankMonotone(blocks, value, m, n - 1);
    }
  }

  /** The rank table starts at zero and never decreases. */
  lemma RankTableShape(blocks: seq<bv64>, g: nat, h: nat)
    requires g <= h < TableCount(|blocks|)
    ensures RankTableOf(blocks)[0] == 0
    ensures RankTableOf(blocks)[g] <= RankTableOf(blocks)[h]
  {
    BlocksRankMonotone(blocks, true, Min(4 * g, |blocks|), Min(4 * h, |blocks|));
  }

  /** Entry `g` counts the ones among the first `256 * g` bits, capped at the last block. */
  lemma RankTableCounts(blocks: seq<bv64>, g: nat)
    requires g < TableCount(|blocks|)
    ensures RankTableOf(blocks)[g] == Count(AllBits(blocks)[..64 * Min(4 * g, |blocks|)], true)
  {
    BlocksRankCount(blocks, true, Min(4 * g, |blocks|));
  }

  /** The rank table of zero blocks holds zeros only. */
  lemma ZeroRankTable(b: nat)
    ensures RankTableOf(seq(b, _ => 0)) == seq(TableCount(b), _ => 0)
    ensures BlocksRank(seq(b, _ => 0), true, b) == 0
  {
    var z: seq<bv64> := seq(b, _ => 0);
    ZeroBlocks(b);
    forall n | 0 <= n <= b
      ensures BlocksRank(z, true, n) == 0
    {
      BlocksRankCount(z, true, n);
      CountNone(AllBits(z)[..64 * n], true);
    }
  }

  /** No bit of `s` from position `n` on is set. */
  ghost predicate ZeroFrom(s: seq<bool>, n: nat) {
    forall i :: n <= i < |s| ==> !s[i]
  }

  /** Clear bits past position `n` add no ones. */
  lemma CountZeroTail(s: seq<bool>, n: nat)
    requires n <= |s| && ZeroFrom(s, n)
    ensures Count(s, true) == Count(s[..n], true)
  {
    assert s == s[..n] + s[n..];
    CountAppend(s[..n], s[n..], true);
    CountNone(s[n..], true);
  }

  // ------------------------------------------------- Range specifications

  /** `s` with positions `start` to `start + |w| - 1` replaced by `w`. */
  function Overwrite(s: seq<bool>, start: nat, w: seq<bool>): (t: seq<bool>)
    ensures |t| == |s|
  {
    seq(|s|, q requires 0 <= q < |s| => if start <= q < start + |w| then w[q - start] else s[q])
  }

  /** Overwriting with one more value updates one more position. */
  lemma OverwriteStep(s: seq<bool>, start: nat, w: seq<bool>, i: nat)
    requires i < |w| && start + i < |s|
    ensures Overwrite(s, start, w[..i + 1]) == Overwrite(s, start, w[..i])[start + i := w[i]]
  {}

  /** Overwriting reads back what was written and leaves every other position. */
  lemma OverwriteReads(s: seq<bool>, start: nat, w: seq<bool>)
    requires start + |w| <= |s|
    ensures Overwrite(s, start, w)[start .. start + |w|] == w
    ensures Overwrite(s, start, w)[..start] == s[..start]
    ensures Overwrite(s, start, w)[start + |w|..] == s[start + |w|..]
  {}

  /** `s` with positions `lo` to `hi - 1` flipped. */
  function FlipRange(s: seq<bool>, lo: nat, hi: nat): (t: seq<bool>)
    ensures |t| == |s|
  {
    seq(|s|, q requires 0 <= q < |s| => if lo <= q < hi then !s[q] else s[q])
  }

  /** Flipping one more position. */
  lemma FlipRangeStep(s: seq<bool>, lo: nat, hi: nat)
    requires lo <= hi < |s|
    ensures FlipRange(s, lo, hi + 1) == FlipRange(s, lo, hi)[hi := !s[hi]]
  {}

  /** Flipping the same range twice restores the bits. */
  lemma FlipRangeTwice(s: seq<bool>, lo: nat, hi: nat)
    ensures FlipRange(FlipRange(s, lo, hi), lo, hi) == s
  {}

  /** Flipping a range keeps the bits around it and negates the bits inside it. */
  lemma FlipRangeParts(s: seq<bool>, lo: nat, hi: nat)
    requires lo <= hi <= |s|
    ensures FlipRange(s, lo, hi)[..lo] == s[..lo]
    ensures FlipRange(s, lo, hi)[hi..] == s[hi..]
    ensures Negated(s[lo..hi], FlipRange(s, lo, hi)[lo..hi])
  {}

  /** Flipping a range turns its ones into zeros and its zeros into ones. */
  lemma CountFlipRange(s: seq<bool>, lo: nat, hi: nat)
    requires lo <= hi <= |s|
    ensures Count(FlipRange(s, lo, hi), true) + Count(s[lo..hi], true) ==
      Count(s, true) + Count(s[lo..hi], false)
  {
    var t := FlipRange(s, lo, hi);
    FlipRangeParts(s, lo, hi);
    CountNegated(s[lo..hi], t[lo..hi], true);
    SplitCount(s, lo, hi);
    SplitCount(t, lo, hi);
  }

  lemma SplitCount(s: seq<bool>, lo: nat, hi: nat)
    requires lo <= hi <= |s|
    ensures Count(s, true) == Count(s[..lo], true) + Count(s[lo..hi], true) + Count(s[hi..], true)
  {
    assert s == s[..lo] + s[lo..hi] + s[hi..];
    CountAppend(s[..lo] + s[lo..hi], s[hi..], true);
    CountAppend(s[..lo], s[lo..hi], true);
  }

  /** Overwriting one position changes the number of ones by what it gained minus what it lost. */
  lemma CountUpdate(s: seq<bool>, i: nat, v: bool)
    requires i < |s|
    ensures Count(s[i := v], true) + (if s[i] then 1 else 0) == Count(s, true) + (if v then 1 else 0)
  {
    var t := s[i := v];
    SplitCount(s, i, i + 1);
    SplitCount(t, i, i + 1);
    assert t[..i] == s[..i] && t[i + 1..] == s[i + 1..];
    CountSingle(s, i, true);
    CountSingle(t, i, true);
  }

  // ---------------------------------------------------- The range guards

  /** `offset + count` as a `ulong`: the sum wraps past 2^64 - 1. */
  function WrappedSum(offset: ULong, count: ULong): (r: ULong)
    ensures offset + count < ULongLimit ==> r == offset + count
    ensures offset + count >= ULongLimit ==> r == offset + count - ULongLimit
  {
    (offset + count) % ULongLimit
  }

  /**
   * Rank(value, count, offset) and AccessRange guard their range with the
   * wrapped sum: an offset near 2^64 with a count that carries the sum past
   * 2^64 - 1 is admitted although the range lies past the end of a 64-bit
   * vector. Select(value, rank, offset) guards the same way, but there the
   * wrap changes only the error raised (see WrappedSelectOffsetPastEnd).
   */
  lemma WrappedRangeAdmitted()
    ensures var length, offset, count := 64, ULongLimit - 1, 2;
      WrappedSum(offset, count) <= length && offset + count > length
  {}

  /**
   * ToggleRange(offset, count) guards with `offset + count - 1` in `ulong`:
   * with `offset` = 2^38 and a count that wraps the sum to 1 the last index is
   * 0, so the guard passes, and the unchecked `(int)` cast of the first block
   * index 2^32 is 0, so block 0 would be toggled.
   */
  lemma WrappedToggleAdmitted()
    ensures var length, offset, count := 64, 0x40_0000_0000, ULongLimit - 0x40_0000_0000 + 1;
      WrappedSum(offset, count) - 1 == 0 && offset + count - 1 >= length &&
      TruncateToInt32(offset / BlockSize) == 0
  {}

  /**
   * AccessRange(offset, count) reads through position `offset + count`: what
   * it yields for a range inside the bits is the `count` bits from `offset`
   * with one more bit after them.
   */
  lemma AccessRangeOverreads(bits: seq<bool>, offset: nat, count: nat)
    ensures offset + count < |bits| ==>
      bits[offset .. offset + count + 1] == bits[offset .. offset + count] + [bits[offset + count]]
  {}

  /**
   * The bits of a range, counted from the ones before its two ends: ones
   * as the difference, zeros as the rest of its length.
   */
  lemma RangeCount(bits: seq<bool>, offset: nat, index: nat, upTo: nat, before: nat)
    requires offset <= index <= |bits|
    requires upTo == Count(bits[..index], true) && before == Count(bits[..offset], true)
    ensures before <= upTo
    ensures upTo - before == Count(bits[offset .. index], true)
    ensures (index - offset) - (upTo - before) == Count(bits[offset .. index], false)
  {
    CountPrefixMonotone(bits, offset, index, true);
    CountComplement(bits[offset .. index]);
  }

  /**
   * The guard `WrappedSum(offset, count) <= n` lets through a range ending
   * past `n` exactly when the sum passes 2^64 - 1 and wraps to at most `n`.
   */
  lemma WrappedGuardAdmits(offset: ULong, count: ULong, n: ULong)
    ensures WrappedSum(offset, count) <= n < offset + count <==>
      offset + count >= ULongLimit && offset + count - ULongLimit <= n
  {}

  /**
   * A rank the guard of Select(value, rank, offset) lets through past the
   * end, when it is no more than the bits of a vector whose block count fits
   * an `int`, starts past the end: Rank(value, offset), which that Select
   * calls next, refuses it as out of range.
   */
  lemma WrappedSelectOffsetPastEnd(offset: ULong, rank: ULong, n: ULong)
    ensures rank <= n <= 64 * IntMax && WrappedSum(offset, rank) <= n < offset + rank ==> n < offset
  {}

  /**
   * The guard `offset + count - 1 < n` of ToggleRange, taken in `ulong`,
   * lets through a range ending past `n` exactly when the last index passes
   * 2^64 - 1 and wraps below `n`.
   */
  lemma WrappedLastIndexAdmits(offset: ULong, count: ULong, n: ULong)
    requires count > 0
    ensures (offset + count - 1) % ULongLimit < n <= offset + count - 1 <==>
      offset + count - 1 >= ULongLimit && offset + count - 1 - ULongLimit < n
  {}

  /** `length + count` as Extend computes it, outside its checked block. */
  function ExtendedLength(length: ULong, count: ULong): (r: ULong)
    ensures r == WrappedSum(length, count)
  {
    (length + count) % ULongLimit
  }

  /** Extend shrinks the vector exactly when the new length passes 2^64 - 1. */
  lemma ExtendShrinks(length: ULong, count: ULong)
    ensures ExtendedLength(length, count) < length <==> length + count >= ULongLimit
  {}

  /**
   * Extending a 64-bit vector by 2^64 - 1 bits leaves it with 63 bits in the
   * same single block: the length shrinks, and bit 63, which may be set,
   * becomes a padding bit.
   */
  lemma ExtendWrapShrinks()
    ensures ExtendedLength(64, ULongLimit - 1) == 63 < 64
    ensures BlockCount(ExtendedLength(64, ULongLimit - 1)) == BlockCount(64) == 1
  {}

  /**
   * Extending a 128-bit vector by 2^64 - 64 bits gives the length 64, one
   * block where the vector holds two: setting the list's capacity below its
   * count raises an argument error, which the overflow handler does not
   * catch, and the vector is left as it was.
   */
  lemma ExtendWrapDropsBlocks()
    ensures ExtendedLength(128, ULongLimit - 64) == 64
    ensures BlockCount(ExtendedLength(128, ULongLimit - 64)) == 1 < BlockCount(128) == 2
  {}

  // ------------------------------------------------------- Bit access steps

  /** Bit `index` is bit `index % 64` of block `index / 64`. */
  lemma ReadBit(blocks: seq<bv64>, index: nat)
    requires index < 64 * |blocks|
    ensures index / 64 < |blocks| && AllBits(blocks)[index] == Lsb(blocks[index / 64])[index % 64]
  {
    var k, j := index / 64, index % 64;
    assert index == 64 * k + j && j < 64;
    BitOfBlock(blocks, k, j);
  }

  /** Replacing the block of bit `index` by one with that bit flipped flips position `index`. */
  lemma FlipBit(blocks: seq<bv64>, index: nat, w: bv64)
    requires index < 64 * |blocks|
    requires Lsb(w) == Lsb(blocks[index / 64])[index % 64 := !Lsb(blocks[index / 64])[index % 64]]
    ensures AllBits(blocks[index / 64 := w]) == AllBits(blocks)[index := !AllBits(blocks)[index]]
  {
    ReadBit(blocks, index);
    WriteBit(blocks, index / 64, index % 64, w, !Lsb(blocks[index / 64])[index % 64]);
  }

  /** Writing one position below `n` of bits clear from `n` on. */
  lemma UpdateInside(a: seq<bool>, n: nat, i: nat, v: bool)
    requires i < n <= |a| && ZeroFrom(a, n)
    ensures ZeroFrom(a[i := v], n)
    ensures a[i := v][..n] == a[..n][i := v]
  {}

  /** Writing inside the first `n` positions of bits clear from `n` on. */
  lemma WriteInside(a: seq<bool>, b: seq<bool>, n: nat)
    requires |a| == |b| && n <= |a| && ZeroFrom(a, n)
    requires forall i :: n <= i < |a| ==> b[i] == a[i]
    ensures ZeroFrom(b, n)
  {}

  /** Position `64 * k + j` is bit `j` of block `k`. */
  lemma BitOfBlock(blocks: seq<bv64>, k: nat, j: nat)
    requires k < |blocks| && j < 64
    ensures AllBits(blocks)[64 * k + j] == Lsb(blocks[k])[j]
  {
    BlockSlice(blocks, k);
    assert AllBits(blocks)[64 * k .. 64 * k + 64][j] == AllBits(blocks)[64 * k + j];
  }

  /** One SetRange step: writing `w[i]` through the mask of its bit extends the overwrite by one. */
  lemma OverwriteBlock(blocks: seq<bv64>, a0: seq<bool>, start: nat, w: seq<bool>, i: nat,
                       k: nat, p: bv6, m: bv64)
    requires k < |blocks| && i < |w| && m == MaskAt(p) && start + i == 64 * k + p as int
    requires |a0| == 64 * |blocks| && AllBits(blocks) == Overwrite(a0, start, w[..i])
    ensures AllBits(blocks[k := MaskWrite(blocks[k], m, w[i])]) == Overwrite(a0, start, w[..i + 1])
  {
    MaskWriteLsb(blocks[k], p, m, w[i]);
    WriteBit(blocks, k, p as int, MaskWrite(blocks[k], m, w[i]), w[i]);
    OverwriteStep(a0, start, w, i);
  }

  /** One ToggleRange step: flipping through the mask of bit `hi` extends the flipped range by one. */
  lemma FlipBlock(blocks: seq<bv64>, a0: seq<bool>, lo: nat, hi: nat, k: nat, p: bv6, m: bv64)
    requires k < |blocks| && m == MaskAt(p) && hi == 64 * k + p as int && lo <= hi
    requires |a0| == 64 * |blocks| && AllBits(blocks) == FlipRange(a0, lo, hi)
    ensures AllBits(blocks[k := MaskFlip(blocks[k], m)]) == FlipRange(a0, lo, hi + 1)
  {
    MaskFlipLsb(blocks[k], p, m);
    BitOfBlock(blocks, k, p as int);
    WriteBit(blocks, k, p as int, MaskFlip(blocks[k], m), !Lsb(blocks[k])[p as int]);
    FlipRangeStep(a0, lo, hi);
  }

  /** Overwriting inside the first `n` positions commutes with taking them. */
  lemma OverwritePrefix(s: seq<bool>, start: nat, w: seq<bool>, n: nat)
    requires start + |w| <= n <= |s|
    ensures Overwrite(s, start, w)[..n] == Overwrite(s[..n], start, w)
    ensures forall q :: n <= q < |s| ==> Overwrite(s, start, w)[q] == s[q]
  {}

  /** Flipping inside the first `n` positions commutes with taking them. */
  lemma FlipRangePrefix(s: seq<bool>, lo: nat, hi: nat, n: nat)
    requires lo <= hi <= n <= |s|
    ensures FlipRange(s, lo, hi)[..n] == FlipRange(s[..n], lo, hi)
    ensures forall q :: n <= q < |s| ==> FlipRange(s, lo, hi)[q] == s[q]
  {}

  /** Reading one more position of a slice. */
  lemma SliceStep(s: seq<bool>, lo: nat, hi: nat)
    requires lo <= hi < |s|
    ensures s[lo .. hi + 1] == s[lo .. hi] + [s[hi]]
  {}

  // ------------------------------------------------- One block of a range

  /**
   * The inner loop of SetRange over block `j`: positions `startMask` to
   * `endMask` of the block take the next values of `value`, through a mask
   * shifted up one position per bit.
   */
  method WriteInBlock(blocks: seq<bv64>, ghost a0: seq<bool>, index: nat, value: seq<bool>, i: nat,
                      j: nat, startMask: nat, endMask: nat) returns (b: seq<bv64>, i': nat)
    requires j < |blocks| && startMask <= endMask < 64
    requires index + i == 64 * j + startMask && 64 * j + endMask < index + |value|
    requires |a0| == 64 * |blocks| && AllBits(blocks) == Overwrite(a0, index, value[..i])
    ensures |b| == |blocks| && i' == i + endMask - startMask + 1
    ensures AllBits(b) == Overwrite(a0, index, value[..i'])
  {
    b, i' := blocks, i;
    var tempMask := MaskAt(Pos(startMask));
    ghost var p := Pos(startMask);
    var k := startMask;
    while k <= endMask
      invariant startMask <= k <= endMask + 1
      invariant index + i' == 64 * j + k
      invariant k < 64 ==> p as int == k && tempMask == MaskAt(p)
      invariant |b| == |blocks|
      invariant AllBits(b) == Overwrite(a0, index, value[..i'])
    {
      OverwriteBlock(b, a0, index, value, i', j, p, tempMask);
      b := b[j := MaskWrite(b[j], tempMask, value[i'])];
      i' := i' + 1;
      if k < 63 {
        MaskAtNext(p);
        Succ6(p);
        p := p + 1;
      }
      tempMask := ShiftUp(tempMask);
      k := k + 1;
    }
  }

  /**
   * The inner loop of ToggleRange over block `j`: positions `startMask` to
   * `endMask` of the block are flipped through a mask shifted up one position
   * per bit.
   */
  method FlipInBlock(blocks: seq<bv64>, ghost a0: seq<bool>, offset: nat, ghost next: nat,
                     j: nat, startMask: nat, endMask: nat) returns (b: seq<bv64>)
    requires j < |blocks| && startMask <= endMask < 64
    requires offset <= next == 64 * j + startMask
    requires |a0| == 64 * |blocks| && AllBits(blocks) == FlipRange(a0, offset, next)
    ensures |b| == |blocks|
    ensures AllBits(b) == FlipRange(a0, offset, 64 * j + endMask + 1)
  {
    b := blocks;
    var tempMask := MaskAt(Pos(startMask));
    ghost var p := Pos(startMask);
    var k := startMask;
    while k <= endMask
      invariant startMask <= k <= endMask + 1
      invariant k < 64 ==> p as int == k && tempMask == MaskAt(p)
      invariant |b| == |blocks|
      invariant AllBits(b) == FlipRange(a0, offset, 64 * j + k)
    {
      FlipBlock(b, a0, offset, 64 * j + k, j, p, tempMask);
      b := b[j := MaskFlip(b[j], tempMask)];
      if k < 63 {
        MaskAtNext(p);
        Succ6(p);
        p := p + 1;
      }
      tempMask := ShiftUp(tempMask);
      k := k + 1;
    }
  }

  /** The lowest `n` bits of `value`, read by testing the lowest bit and shifting down once per bit. */
  function ShiftedBits(value: bv64, n: nat): (s: seq<bool>)
    ensures |s| == n
  {
    if n == 0 then [] else [LowBit(value)] + ShiftedBits(ShiftDown(value, 1), n - 1)
  }

  /** Reading one more bit moves the lowest bit of `value` from the bits still to read to the bits read. */
  lemma ShiftedStep(bits: seq<bool>, value: bv64, m: nat)
    requires m > 0
    ensures bits + ShiftedBits(value, m) == (bits + [LowBit(value)]) + ShiftedBits(ShiftDown(value, 1), m - 1)
  {}

  /** Reading `n` bits from `x` shifted down by `p` reads positions `p` to `p + n - 1` of `x`. */
  lemma ShiftedBitsLsb(x: bv64, p: bv6, n: nat)
    requires p as int + n <= 64
    ensures ShiftedBits(ShiftDown(x, p), n) == Lsb(x)[p as int .. p as int + n]
  {
    LowBitsOfShifts(x);
    ShiftsOfShifts(x);
    ShiftedBitsRead(q => ShiftDown(x, q), Lsb(x), p, n);
  }

  /**
   * `ShiftedBits` reads the bits `l` along a chain of words `f(0)`, `f(1)`,
   * ... in which each word is the previous one shifted down once and exposes
   * the matching bit of `l` as its lowest bit.
   */
  lemma {:induction false} ShiftedBitsRead(f: bv6 -> bv64, l: seq<bool>, p: bv6, n: nat)
    requires |l| == 64 && forall q: bv6 :: LowBit(f(q)) == l[q as int]
    requires forall q: bv6 :: q != 63 ==> ShiftDown(f(q), 1) == f(q + 1)
    requires p as int + n <= 64
    ensures ShiftedBits(f(p), n) == l[p as int .. p as int + n]
    decreases n
  {
    if n > 0 {
      var rest := ShiftedBits(ShiftDown(f(p), 1), n - 1);
      assert ShiftedBits(f(p), n) == [LowBit(f(p))] + rest;
      if n > 1 {
        Succ6(p);
        ShiftedBitsRead(f, l, p + 1, n - 1);
      }
      ConsSlice(l, p as int, p as int + n, LowBit(f(p)), rest);
    }
  }

  /** A position followed by the slice after it is the slice starting at that position. */
  lemma ConsSlice(l: seq<bool>, i: nat, j: nat, b: bool, rest: seq<bool>)
    requires i < j <= |l| && b == l[i] && rest == l[i + 1 .. j]
    ensures [b] + rest == l[i .. j]
  {}

  /**
   * The inner loop of AccessRange over one block: positions `startMask` to
   * `endMask`, read by shifting the block down once per bit and testing its
   * lowest bit.
   */
  method ReadInBlock(block: bv64, startMask: nat, endMask: nat) returns (bits: seq<bool>)
    requires startMask <= endMask < 64
    ensures bits == Lsb(block)[startMask .. endMask + 1]
  {
    bits := [];
    var value := ShiftDown(block, Pos(startMask));
    ghost var all := ShiftedBits(value, endMask + 1 - startMask);
    var j := startMask;
    ghost var left := endMask + 1 - startMask;
    while j <= endMask
      invariant startMask <= j <= endMask + 1 && left == endMask + 1 - j
      invariant bits + ShiftedBits(value, left) == all
    {
      ShiftedStep(bits, value, left);
      bits := bits + [LowBit(value)];
      value := ShiftDown(value, 1);
      j := j + 1;
      left := left - 1;
    }
    ShiftedBitsLsb(block, Pos(startMask), endMask + 1 - startMask);
  }

  /** Bits read from positions `s` to `e` of a window of `a` extend a slice of `a` that ends where they start. */
  lemma SliceJoin(a: seq<bool>, w: seq<bool>, base: nat, s: nat, e: nat, lo: nat, out: seq<bool>, bits: seq<bool>)
    requires base + 64 <= |a| && a[base .. base + 64] == w
    requires s <= e < 64 && lo + |out| == base + s
    requires out == a[lo .. lo + |out|] && bits == w[s .. e + 1]
    ensures lo + |out + bits| == base + e + 1
    ensures out + bits == a[lo .. base + e + 1]
  {
    forall i | s <= i <= e
      ensures a[base + i] == w[i]
    {
      assert a[base .. base + 64][i] == a[base + i];
    }
    assert a[base + s .. base + e + 1] == bits;
    assert a[lo .. base + e + 1] == a[lo .. lo + |out|] + a[base + s .. base + e + 1];
  }

  // ------------------------------------------------ Loops over the blocks

  /**
   * The loops of SetRange: for each block from the one holding `index` to
   * the one holding the last position, the positions of the range inside it
   * take the next values of `value`.
   */
  method WriteBlocks(blocks: seq<bv64>, index: nat, value: seq<bool>) returns (b: seq<bv64>)
    requires 0 < |value| && index + |value| <= 64 * |blocks|
    ensures |b| == |blocks| && AllBits(b) == Overwrite(AllBits(blocks), index, value)
  {
    ghost var a0 := AllBits(blocks);
    var maxIndex := index + |value| - 1;
    var i := 0;
    var startBlock := index / BlockSize;
    var endBlock := maxIndex / BlockSize;
    b := blocks;
    var j := startBlock;
    while j <= endBlock
      invariant startBlock <= j <= endBlock + 1 && i <= |value|
      invariant j <= endBlock ==> index + i == if j == startBlock then index else 64 * j
      invariant j == endBlock + 1 ==> i == |value|
      invariant |b| == |blocks| && AllBits(b) == Overwrite(a0, index, value[..i])
    {
      var startMask := 0;
      var endMask := BlockSize - 1;
      if j == startBlock {
        startMask := index % BlockSize;
      }
      if j == endBlock {
        endMask := maxIndex % BlockSize;
      }
      b, i := WriteInBlock(b, a0, index, value, i, j, startMask, endMask);
      j := j + 1;
    }
    assert value[..i] == value;
  }

  /**
   * The loops of ToggleRange: for each block from the one holding `offset` to
   * the one holding `maxIndex`, the positions of the range inside it are
   * flipped.
   */
  method FlipBlocks(blocks: seq<bv64>, offset: nat, maxIndex: nat) returns (b: seq<bv64>)
    requires offset <= maxIndex < 64 * |blocks|
    ensures |b| == |blocks| && AllBits(b) == FlipRange(AllBits(blocks), offset, maxIndex + 1)
  {
    ghost var a0 := AllBits(blocks);
    ghost var next := offset;
    var startBlock := offset / BlockSize;
    var endBlock := maxIndex / BlockSize;
    b := blocks;
    var j := startBlock;
    while j <= endBlock
      invariant startBlock <= j <= endBlock + 1 && offset <= next <= maxIndex + 1
      invariant j <= endBlock ==> next == if j == startBlock then offset else 64 * j
      invariant j == endBlock + 1 ==> next == maxIndex + 1
      invariant |b| == |blocks| && AllBits(b) == FlipRange(a0, offset, next)
    {
      var startMask := 0;
      var endMask := BlockSize - 1;
      if j == startBlock {
        startMask := offset % BlockSize;
      }
      if j == endBlock {
        endMask := maxIndex % BlockSize;
      }
      b := FlipInBlock(b, a0, offset, next, j, startMask, endMask);
      next := 64 * j + endMask + 1;
      j := j + 1;
    }
  }

  /**
   * The loops of AccessRange: for each block from the one holding `offset`
   * to the one holding `lastIndex`, the positions of the range inside it are
   * read in order.
   */
  method ReadBlocks(blocks: seq<bv64>, offset: nat, lastIndex: nat) returns (out: seq<bool>)
    requires offset <= lastIndex < 64 * |blocks|
    ensures out == AllBits(blocks)[offset .. lastIndex + 1]
  {
    ghost var a := AllBits(blocks);
    out := [];
    var startBlock := offset / BlockSize;
    var endBlock := lastIndex / BlockSize;
    assert 64 * startBlock + offset % 64 == offset && 64 * endBlock + lastIndex % 64 == lastIndex;
    var i := startBlock;
    while i <= endBlock
      invariant startBlock <= i <= endBlock + 1
      invariant i <= endBlock ==> offset + |out| == if i == startBlock then offset else 64 * i
      invariant i == endBlock + 1 ==> offset + |out| == lastIndex + 1
      invariant out == a[offset .. offset + |out|]
    {
      var startMask := 0;
      var endMask := BlockSize - 1;
      if i == startBlock {
        startMask := offset % BlockSize;
      }
      if i == endBlock {
        endMask := lastIndex % BlockSize;
      }
      var bits := ReadInBlock(blocks[i], startMask, endMask);
      BlockSlice(blocks, i);
      SliceJoin(a, Lsb(blocks[i]), 64 * i, startMask, endMask, offset, out, bits);
      out := out + bits;
      i := i + 1;
    }
  }

  // ------------------------------------------------------ Select's search

  /**
   * The key Select compares with the wanted rank at rank-table entry `g`: the
   * ones before group `g`, or for zeros `256 * g` minus them.
   */
  function TableKey(table: seq<nat>, value: bool, g: nat): int
    requires g < |table|
  {
    RunKey(table, value, g, 0, RankTableSize)
  }

  /**
   * The key a binary search compares with the wanted rank, for a table of
   * running counts of ones that restart at entry `base`, each entry
   * covering `span` more bits than the one before: the ones counted, or for
   * zeros the bits covered minus them.
   */
  function RunKey(table: seq<nat>, value: bool, m: nat, base: nat, span: nat): int
    requires base <= m < |table|
  {
    if value then table[m] else (m - base) * span - table[m]
  }

  /** Every bit of the first `n` blocks is a one or a zero. */
  lemma {:induction false} BlocksRankComplement(blocks: seq<bv64>, n: nat)
    requires n <= |blocks|
    ensures BlocksRank(blocks, true, n) + BlocksRank(blocks, false, n) == 64 * n
  {
    if n > 0 {
      BlocksRankComplement(blocks, n - 1);
      CountComplement(Lsb(blocks[n - 1]));
    }
  }

  /** Below the last group, the key of entry `g` counts the bits equal to `value` in the blocks before group `g`. */
  lemma KeyCounts(blocks: seq<bv64>, value: bool, g: nat)
    requires g < TableCount(|blocks|) && 4 * g <= |blocks|
    ensures TableKey(RankTableOf(blocks), value, g) == BlocksRank(blocks, value, 4 * g)
  {
    BlocksRankComplement(blocks, 4 * g);
  }

  /** The key of the last entry is at least the number of bits equal to `value` in all blocks. */
  lemma LastKey(blocks: seq<bv64>, value: bool)
    ensures TableKey(RankTableOf(blocks), value, TableCount(|blocks|) - 1) >= BlocksRank(blocks, value, |blocks|)
  {
    BlocksRankComplement(blocks, |blocks|);
  }

  /**
   * Where Select's block scan starts: the entry before the first key that
   * reaches `rank` (or entry 0) lies below the last group, and its key
   * counts fewer than `rank` bits equal to `value`.
   */
  lemma ScanStart(blocks: seq<bv64>, value: bool, rank: nat, left: nat)
    requires 1 <= rank <= BlocksRank(blocks, value, |blocks|) && left <= TableCount(|blocks|)
    requires left > 0 ==> TableKey(RankTableOf(blocks), value, left - 1) < rank
    ensures var g := if left != 0 then left - 1 else 0;
      4 * g <= |blocks| && TableKey(RankTableOf(blocks), value, g) == BlocksRank(blocks, value, 4 * g) < rank
  {
    LastKey(blocks, value);
    var g := if left != 0 then left - 1 else 0;
    KeyCounts(blocks, value, g);
  }

  /** A position selected inside a 64-bit window of `a`, shifted to a position of `a[..n]`. */
  lemma SelectInWindow(a: seq<bool>, w: seq<bool>, n: nat, value: bool, rank: nat, base: nat, rest: nat, pos: nat)
    requires n <= |a| && base + 64 <= |a| && a[base .. base + 64] == w
    requires Count(a[..base], value) + rest == rank <= Count(a[..n], value) && IsSelect(w, value, rest, pos)
    ensures IsSelect(a[..n], value, rank, base + pos)
  {
    SelectShift(a, value, base + pos, base, base + 64, rest);
    SelectInsidePrefix(a, value, rank, base + pos, n);
  }

  /** The position found inside block `k` is the `rank`-th bit equal to `value` of the first `n` bits. */
  lemma SelectInBlock(blocks: seq<bv64>, n: nat, value: bool, rank: nat, k: nat, rest: nat, pos: nat, at: nat)
    requires n <= 64 * |blocks| && k < |blocks| && rank <= Count(AllBits(blocks)[..n], value)
    requires BlocksRank(blocks, value, k) + rest == rank && IsSelect(Lsb(blocks[k]), value, rest, pos)
    requires at == 64 * k + pos
    ensures IsSelect(AllBits(blocks)[..n], value, rank, at)
  {
    BlockSlice(blocks, k);
    BlocksRankCount(blocks, value, k);
    SelectInWindow(AllBits(blocks), Lsb(blocks[k]), n, value, rank, 64 * k, rest, pos);
  }

  /** The bits equal to `value` among the first `n` bits are at most those of all blocks. */
  lemma PrefixRank(blocks: seq<bv64>, n: nat, value: bool)
    requires n <= 64 * |blocks|
    ensures Count(AllBits(blocks)[..n], value) <= BlocksRank(blocks, value, |blocks|)
  {
    var a := AllBits(blocks);
    BlocksRankCount(blocks, value, |blocks|);
    assert a[..64 * |blocks|] == a;
    CountPrefixMonotone(a, n, |a|, value);
  }

  /**
   * Select's binary search over entries `lo` to `hi - 1` of a table of
   * running counts that restart at `lo`: the first entry whose key reaches
   * `rank`, so the entry before it (if any) has a key below `rank`.
   */
  method SearchRange(table: seq<nat>, value: bool, rank: nat, lo: nat, hi: nat, span: nat) returns (left: nat)
    requires lo <= hi <= |table|
    ensures lo <= left <= hi
    ensures left > lo ==> RunKey(table, value, left - 1, lo, span) < rank
    ensures left < hi ==> RunKey(table, value, left, lo, span) >= rank
  {
    left := lo;
    var right := hi;
    while left < right
      invariant lo <= left <= right <= hi
      invariant left > lo ==> RunKey(table, value, left - 1, lo, span) < rank
      invariant right < hi ==> RunKey(table, value, right, lo, span) >= rank
    {
      var mid := (left + right) / 2;
      var midRank := table[mid];
      if !value {
        midRank := (mid - lo) * span - midRank;
      }
      if midRank < rank {
        left := mid + 1;
      } else {
        right := mid;
      }
    }
  }

  /**
   * Select's scan over the blocks from block `start`: it subtracts the count
   * of each block that holds fewer bits equal to `value` than still wanted and
   * stops at the block that holds the rest.
   */
  method ScanBlocks(blocks: seq<bv64>, value: bool, start: nat, wanted: nat) returns (blockIndex: nat, rest: nat)
    requires start <= |blocks| && 1 <= wanted
    requires BlocksRank(blocks, value, start) + wanted <= BlocksRank(blocks, value, |blocks|)
    ensures start <= blockIndex < |blocks|
    ensures 1 <= rest <= Count(Lsb(blocks[blockIndex]), value)
    ensures BlocksRank(blocks, value, blockIndex) + rest == BlocksRank(blocks, value, start) + wanted
  {
    blockIndex, rest := start, wanted;
    while blockIndex < |blocks|
      invariant start <= blockIndex <= |blocks| && 1 <= rest
      invariant BlocksRank(blocks, value, blockIndex) + rest == BlocksRank(blocks, value, start) + wanted
    {
      var blockRank := RankInt64(blocks[blockIndex], value);
      if rest <= blockRank {
        return;
      }
      rest := rest - blockRank;
      blockIndex := blockIndex + 1;
    }
    assert false;
  }

  /** A position selected past the bits before `offset` lies at or after `offset`. */
  lemma SelectPastPrefix(s: seq<bool>, value: bool, offset: nat, rank: nat, i: int)
    requires offset <= |s| && 1 <= rank && IsSelect(s, value, Count(s[..offset], value) + rank, i)
    ensures offset <= i
  {
    if i < offset {
      CountPrefixStep(s, i, value);
      CountPrefixMonotone(s, i + 1, offset, value);
    }
  }

  lemma TimesBlock(k: nat)
    ensures k * BlockSize == 64 * k
  {}

  lemma SmallMod(j: nat)
    requires j < 64
    ensures j % 64 == j
  {}

  /** The first `n = 64 * k + j` bits are the first `k` blocks and the first `j` bits of block `k`. */
  lemma PrefixOnesSplit(blocks: seq<bv64>, n: nat, k: nat, j: nat)
    requires n == 64 * k + j && j < 64 && (k < |blocks| || (k == |blocks| && j == 0))
    ensures Count(AllBits(blocks)[..n], true) ==
      BlocksRank(blocks, true, k) + (if k < |blocks| then Count(Lsb(blocks[k])[..j], true) else 0)
  {
    var a := AllBits(blocks);
    assert Count(a[..64 * k], true) == BlocksRank(blocks, true, k) by {
      BlocksRankCount(blocks, true, k);
    }
    if k < |blocks| {
      assert Count(a[..64 * k + j], true) == Count(a[..64 * k], true) + Count(Lsb(blocks[k])[..j], true) by {
        PrefixInBlock(blocks, k, j, true);
      }
    } else {
      assert a[..n] == a[..64 * k];
    }
  }

  /**
   * The rank table of `blocks`, one entry per group of four blocks and one
   * more, each the running total of ones before its group, and the total.
   */
  method RankTableFor(blocks: seq<bv64>) returns (table: seq<nat>, total: nat)
    requires |blocks| <= IntMax - 3
    ensures table == RankTableOf(blocks) && total == BlocksRank(blocks, true, |blocks|)
  {
    var blockCount := |blocks|;
    var tableCount := (blockCount + RankTableRatio - 1) / RankTableRatio + 1;
    table := seq(tableCount, _ => 0);
    total := 0;
    var i := 0;
    while i < |table|
      invariant 0 <= i <= tableCount == |table|
      invariant total == BlocksRank(blocks, true, Min(4 * i, blockCount))
      invariant forall g :: 0 <= g < i ==> table[g] == RankTableOf(blocks)[g]
    {
      table := table[i := total];
      total := AddGroupOnes(blocks, i, total);
      i := i + 1;
    }
  }

  /** RankTableFor's inner loop: adds the ones of group `i` to the ones before it. */
  method AddGroupOnes(blocks: seq<bv64>, i: nat, before: nat) returns (total: nat)
    requires before == BlocksRank(blocks, true, Min(4 * i, |blocks|))
    ensures total == BlocksRank(blocks, true, Min(4 * (i + 1), |blocks|))
  {
    var blockCount := |blocks|;
    total := before;
    TimesRatio(i);
    TimesRatio(i + 1);
    var j := i * RankTableRatio;
    while j < blockCount && j < (i + 1) * RankTableRatio
      invariant 4 * i <= j <= 4 * (i + 1)
      invariant j == 4 * i || j <= blockCount
      invariant total == BlocksRank(blocks, true, Min(j, blockCount))
    {
      total := total + PopCountInt64(blocks[j]);
      j := j + 1;
    }
  }

  /** Entry `t` of `table` counts the ones in the blocks before group `t`. */
  ghost predicate TableEntry(blocks: seq<bv64>, table: seq<nat>, t: nat) {
    t < |table| && 4 * t <= |blocks| && table[t] == BlocksRank(blocks, true, 4 * t)
  }

  /** Every group that starts inside the blocks has its entry in the rank table. */
  lemma RankTableEntry(blocks: seq<bv64>, t: nat)
    requires 4 * t <= |blocks|
    ensures TableEntry(blocks, RankTableOf(blocks), t)
  {
    assert Min(RankTableRatio * t, |blocks|) == 4 * t;
  }

  lemma TimesRatio(t: nat)
    ensures t * RankTableRatio == 4 * t
  {}

  /**
   * The ones among the first `count` bits: the table entry of the group
   * holding bit `count`, the whole blocks of that group before it, and the
   * bits of its own block below `count % 64` (none when `count` ends the
   * last block).
   */
  method PrefixOnes(blocks: seq<bv64>, table: seq<nat>, count: nat) returns (rankOne: nat)
    requires count <= 64 * |blocks| && |blocks| <= IntMax && TableEntry(blocks, table, count / 256)
    ensures rankOne == Count(AllBits(blocks)[..count], true)
  {
    var blockIndex := count / BlockSize;
    var tableIndex := blockIndex / RankTableRatio;
    assert tableIndex == count / 256 && 4 * tableIndex <= blockIndex <= |blocks|;
    TimesRatio(tableIndex);
    rankOne := AddBlockOnes(blocks, tableIndex * RankTableRatio, blockIndex, table[tableIndex]);
    PrefixOnesAt(blocks, count);
    if blockIndex >= |blocks| {
      return rankOne;
    }
    var inBlock := RankInt64OfLowerMask(blocks[blockIndex], count % BlockSize, true);
    rankOne := rankOne + inBlock;
  }

  /** RankOne's scan: adds the ones of blocks `from` to `to - 1` to the ones before block `from`. */
  method AddBlockOnes(blocks: seq<bv64>, from: nat, to: nat, before: nat) returns (rankOne: nat)
    requires from <= to <= |blocks| && before == BlocksRank(blocks, true, from)
    ensures rankOne == BlocksRank(blocks, true, to)
  {
    rankOne := before;
    var i := from;
    while i < to
      invariant from <= i <= to
      invariant rankOne == BlocksRank(blocks, true, i)
    {
      rankOne := rankOne + PopCountInt64(blocks[i]);
      i := i + 1;
    }
  }

  /** PrefixOnesSplit at bit `count`: its whole blocks, then the low `count % 64` bits of the next block. */
  lemma PrefixOnesAt(blocks: seq<bv64>, count: nat)
    requires count <= 64 * |blocks|
    ensures Count(AllBits(blocks)[..count], true) ==
      BlocksRank(blocks, true, count / 64) +
      (if count / 64 < |blocks| then Count(Lsb(blocks[count / 64])[..count % 64 % 64], true) else 0)
  {
    var k, j := count / 64, count % 64;
    assert count == 64 * k + j && j < 64;
    SmallMod(j);
    PrefixOnesSplit(blocks, count, k, j);
  }

  /**
   * The position of the `rank`-th bit equal to `value` among the first `n`
   * bits: a binary search of the table for the group, a scan of its blocks
   * and a select inside one block.
   */
  method SelectInBlocks(blocks: seq<bv64>, table: seq<nat>, n: nat, value: bool, rank: nat) returns (pos: nat)
    requires table == RankTableOf(blocks) && n <= 64 * |blocks|
    requires 1 <= rank <= Count(AllBits(blocks)[..n], value)
    ensures IsSelect(AllBits(blocks)[..n], value, rank, pos)
  {
    PrefixRank(blocks, n, value);
    var left := SearchRange(table, value, rank, 0, |table|, RankTableSize);
    ScanStart(blocks, value, rank, left);
    var tableIndex := if left != 0 then left - 1 else 0;
    var wanted: nat;
    if value {
      wanted := rank - table[tableIndex];
    } else {
      wanted := rank - (tableIndex * RankTableSize - table[tableIndex]);
    }
    assert wanted == rank - BlocksRank(blocks, value, RankTableRatio * tableIndex);
    var blockIndex, rest := ScanBlocks(blocks, value, RankTableRatio * tableIndex, wanted);
    assert BlocksRank(blocks, value, blockIndex) + rest == rank;
    var inBlock := SelectInt64Of(blocks[blockIndex], value, rest);
    TimesBlock(blockIndex);
    pos := blockIndex * BlockSize + inBlock;
    SelectInBlock(blocks, n, value, rank, blockIndex, rest, inBlock, pos);
  }

  // ---------------------------------------------------------------- Extend

  /** A longer vector never needs fewer blocks. */
  lemma BlockCountGrows(m: nat, n: nat)
    requires m <= n
    ensures BlockCount(m) <= BlockCount(n)
  {}

  /** Appending zero blocks to blocks clear from `n` on appends zero bits. */
  lemma ExtendBits(blocks: seq<bv64>, n: nat, k: nat, c: nat)
    requires n <= 64 * |blocks| && ZeroFrom(AllBits(blocks), n) && n + c <= 64 * (|blocks| + k)
    ensures AllBits(blocks + seq(k, _ => 0))[..n + c] == AllBits(blocks)[..n] + seq(c, _ => false)
    ensures ZeroFrom(AllBits(blocks + seq(k, _ => 0)), n + c)
  {
    var z: seq<bv64> := seq(k, _ => 0);
    AllBitsAppend(blocks, z);
    ZeroBlocks(k);
    var zeros := AllBits(z);
    assert ZeroFrom(zeros, 0);
    ZeroTailAppend(AllBits(blocks), zeros, n, c);
  }

  /** Appending the zero blocks a longer length `n` needs keeps the bits and appends zero bits. */
  lemma GrownBlocks(blocks: seq<bv64>, length: nat, n: nat, k: nat)
    requires |blocks| == BlockCount(length) && ZeroFrom(AllBits(blocks), length)
    requires length <= n && k == BlockCount(n) - |blocks|
    ensures |blocks + seq(k, _ => 0)| == BlockCount(n)
    ensures ZeroFrom(AllBits(blocks + seq(k, _ => 0)), n)
    ensures AllBits(blocks + seq(k, _ => 0))[..n] == AllBits(blocks)[..length] + seq(n - length, _ => false)
  {
    BlockCountGrows(length, n);
    var c := n - length;
    assert length + c == n;
    assert |blocks| + k == BlockCount(n);
    assert n <= 64 * BlockCount(n);
    ExtendBits(blocks, length, k, c);
  }

  /** Bits clear from `n` on, followed by clear bits, are the first `n` bits and then clear bits. */
  lemma ZeroTailAppend(a: seq<bool>, z: seq<bool>, n: nat, c: nat)
    requires n <= |a| && ZeroFrom(a, n) && ZeroFrom(z, 0) && n + c <= |a| + |z|
    ensures (a + z)[..n + c] == a[..n] + seq(c, _ => false)
    ensures ZeroFrom(a + z, n + c)
  {
    forall i | 0 <= i < |a + z|
      ensures (a + z)[i] == (i < n && a[i])
    {
      if i >= |a| {
        assert (a + z)[i] == z[i - |a|];
      }
    }
    assert (a + z)[..n + c] == a[..n] + seq(c, _ => false);
  }

  // ------------------------------------------------------------ BitVector

  class BitVector {
    /** `_bitTable`: the blocks. */
    var blocks: seq<bv64>
    /** `_rankTable`: ones before each group of four blocks. */
    var rankTable: seq<nat>
    /** `_length`: the number of bits. */
    var length: nat
    /** `_totalPopCount`: the number of ones, as of the last `BuildIndex`. */
    var totalPopCount: nat
    /** The rank table and the total describe the current blocks. */
    ghost var indexed: bool

    /**
     * The block list holds exactly the blocks the length needs and every bit
     * past the length is clear; when indexed, the rank table and the total
     * are those of the blocks.
     */
    ghost predicate Valid()
      reads this
    {
      && length < ULongLimit
      && |blocks| == BlockCount(length) && |blocks| <= IntMax
      && ZeroFrom(AllBits(blocks), length)
      && (indexed ==>
            && |blocks| <= IntMax - 3
            && rankTable == RankTableOf(blocks)
            && totalPopCount == BlocksRank(blocks, true, |blocks|))
    }

    /** The bits of the vector. */
    function Bits(): (s: seq<bool>)
      reads this
      requires Valid()
      ensures |s| == length
    {
      AllBits(blocks)[..length]
    }

    /** The number of ones, when indexed, is the number of ones among the bits. */
    lemma TotalIsOnes()
      requires Valid() && indexed
      ensures totalPopCount == Count(Bits(), true)
      ensures length - totalPopCount == Count(Bits(), false)
    {
      BlocksRankCount(blocks, true, |blocks|);
      assert AllBits(blocks)[..64 * |blocks|] == AllBits(blocks);
      CountZeroTail(AllBits(blocks), length);
      CountComplement(Bits());
    }

    /** A vector as the field initialisers leave it, before `Initialize`. */
    constructor Empty()
      ensures blocks == [] && rankTable == [] && length == 0 && totalPopCount == 0 && !indexed
    {
      blocks := [];
      rankTable := [];
      length := 0;
      totalPopCount := 0;
      indexed := false;
    }

    /** BitVector(length): a vector of `n` zero bits; an overflow when its tables cannot be sized. */
    static method Create(n: ULong) returns (r: Result<BitVector>)
      ensures r.Err? <==> BlockCount(n) > IntMax - 3
      ensures r.Err? ==> r.error == Overflow
      ensures r.Ok? ==>
        fresh(r.value) && r.value.Valid() && r.value.indexed && r.value.length == n &&
        r.value.Bits() == seq(n, _ => false) && r.value.totalPopCount == 0
    {
      var v := new BitVector.Empty();
      var status := v.Initialize(n);
      if status.Err? {
        return Err(status.error);
      }
      return Ok(v);
    }

    /**
     * Initialize(length): `n` zero bits in `ceil(n / 64)` blocks and a rank
     * table of `ceil(blocks / 4) + 1` zeros, sized in a checked context. The
     * block count is converted to `int` first (an overflow leaves the vector
     * unchanged); the table size is computed after the blocks have been
     * replaced (an overflow there leaves the new zero blocks with the old
     * length).
     */
    method Initialize(n: ULong) returns (r: Result<()>)
      modifies this
      ensures BlockCount(n) > IntMax ==> r == Err(Overflow) && unchanged(this)
      ensures IntMax - 3 < BlockCount(n) <= IntMax ==>
        r == Err(Overflow) && blocks == seq(BlockCount(n), _ => 0) &&
        length == old(length) && rankTable == old(rankTable) && totalPopCount == old(totalPopCount)
      ensures BlockCount(n) <= IntMax - 3 ==>
        r == Ok(()) && Valid() && indexed && length == n && Bits() == seq(n, _ => false) &&
        totalPopCount == 0 && |blocks| == BlockCount(n) && rankTable == seq(TableCount(|blocks|), _ => 0)
    {
      if n + BlockSize - 1 >= ULongLimit || (n + BlockSize - 1) / BlockSize > IntMax {
        return Err(Overflow);
      }
      var blockCount := (n + BlockSize - 1) / BlockSize;
      blocks := seq(blockCount, _ => 0);
      if blockCount + RankTableRatio - 1 > IntMax {
        return Err(Overflow);
      }
      var tableCount := (blockCount + RankTableRatio - 1) / RankTableRatio + 1;
      rankTable := seq(tableCount, _ => 0);
      length := n;
      totalPopCount := 0;
      ZeroBlocks(blockCount);
      ZeroRankTable(blockCount);
      indexed := true;
      return Ok(());
    }

    /** Clear(): every bit becomes zero, the length stays. */
    method Clear() returns (r: Result<()>)
      requires Valid()
      modifies this
      ensures |old(blocks)| <= IntMax - 3 ==>
        r == Ok(()) && Valid() && indexed && length == old(length) &&
        Bits() == seq(length, _ => false) && totalPopCount == 0
      ensures |old(blocks)| > IntMax - 3 ==>
        r == Err(Overflow) && blocks == seq(|old(blocks)|, _ => 0) && length == old(length) &&
        rankTable == old(rankTable) && totalPopCount == old(totalPopCount)
    {
      r := Initialize(length);
    }

    /** Resize(length): `n` zero bits, as `Initialize`. */
    method Resize(n: ULong) returns (r: Result<()>)
      modifies this
      ensures BlockCount(n) > IntMax ==> r == Err(Overflow) && unchanged(this)
      ensures IntMax - 3 < BlockCount(n) <= IntMax ==>
        r == Err(Overflow) && blocks == seq(BlockCount(n), _ => 0) && length == old(length) &&
        rankTable == old(rankTable) && totalPopCount == old(totalPopCount)
      ensures BlockCount(n) <= IntMax - 3 ==>
        r == Ok(()) && Valid() && indexed && length == n && Bits() == seq(n, _ => false) && totalPopCount == 0
    {
      r := Initialize(n);
    }

    /** Bit `index` (`Access` and the indexer): bit `index % 64` of block `index / 64`. */
    function Access(index: ULong): (r: Result<bool>)
      reads this
      requires Valid()
      ensures index < length ==> r == Ok(Bits()[index])
      ensures index >= length ==> r == Err(IndexOutOfRange)
    {
      if index >= length then Err(IndexOutOfRange)
      else
        ReadBit(blocks, index);
        Ok(LsbBit(blocks[index / BlockSize], index % BlockSize))
    }

    /** Set(index, value): bit `index` becomes `value`; no other bit, table entry or total changes. */
    method Set(index: ULong, value: bool) returns (r: Result<()>)
      requires Valid()
      modifies this
      ensures Valid()
      ensures length == old(length) && rankTable == old(rankTable) && totalPopCount == old(totalPopCount)
      ensures index >= length ==> r == Err(IndexOutOfRange) && unchanged(this)
      ensures index < length ==> r == Ok(()) && !indexed && Bits() == old(Bits())[index := value]
    {
      if index >= length {
        return Err(IndexOutOfRange);
      }
      var k := index / BlockSize;
      ReadBit(blocks, index);
      assert 64 * k + index % BlockSize == index;
      var mask: bv64 := 1 << Pos(index % BlockSize);
      var w := MaskWrite(blocks[k], mask, value);
      MaskWriteLsb(blocks[k], Pos(index % BlockSize), mask, value);
      WriteBit(blocks, k, index % BlockSize, w, value);
      UpdateInside(AllBits(blocks), length, index, value);
      blocks := blocks[k := w];
      indexed := false;
      return Ok(());
    }

    /** Toggle(index): bit `index` is flipped; no other bit, table entry or total changes. */
    method Toggle(index: ULong) returns (r: Result<()>)
      requires Valid()
      modifies this
      ensures Valid()
      ensures length == old(length) && rankTable == old(rankTable) && totalPopCount == old(totalPopCount)
      ensures index >= length ==> r == Err(IndexOutOfRange) && unchanged(this)
      ensures index < length ==> r == Ok(()) && !indexed && Bits() == old(Bits())[index := !old(Bits())[index]]
    {
      if index >= length {
        return Err(IndexOutOfRange);
      }
      var k := index / BlockSize;
      var mask: bv64 := 1 << Pos(index % BlockSize);
      ReadBit(blocks, index);
      var w := MaskFlip(blocks[k], mask);
      MaskFlipLsb(blocks[k], Pos(index % BlockSize), mask);
      FlipBit(blocks, index, w);
      UpdateInside(AllBits(blocks), length, index, !AllBits(blocks)[index]);
      blocks := blocks[k := w];
      indexed := false;
      return Ok(());
    }

    /**
     * SetRange(index, value): bits `index` to `index + |value| - 1` become
     * `value`; an empty `value` is an invalid operation and a range past the
     * end is out of range.
     */
    method SetRange(index: ULong, value: seq<bool>) returns (r: Result<()>)
      requires Valid() && |value| <= IntMax
      modifies this
      ensures Valid()
      ensures length == old(length) && rankTable == old(rankTable) && totalPopCount == old(totalPopCount)
      ensures |value| == 0 ==> r == Err(InvalidOperation) && unchanged(this)
      ensures |value| > 0 && index + |value| - 1 >= length ==> r == Err(IndexOutOfRange) && unchanged(this)
      ensures |value| > 0 && index + |value| - 1 < length ==>
        r == Ok(()) && !indexed && Bits() == Overwrite(old(Bits()), index, value)
    {
      if |value| == 0 {
        return Err(InvalidOperation);
      }
      var maxIndex := index + |value| - 1;
      if index >= length || maxIndex >= length {
        return Err(IndexOutOfRange);
      }
      ghost var a0 := AllBits(blocks);
      blocks := WriteBlocks(blocks, index, value);
      indexed := false;
      OverwritePrefix(a0, index, value, length);
      WriteInside(a0, AllBits(blocks), length);
      return Ok(());
    }

    /**
     * ToggleRange(offset, count): bits `offset` to `offset + count - 1` are
     * flipped; a zero count is an invalid operation and a range past the end
     * is out of range.
     */
    method ToggleRange(offset: ULong, count: ULong) returns (r: Result<()>)
      requires Valid()
      modifies this
      ensures Valid()
      ensures length == old(length) && rankTable == old(rankTable) && totalPopCount == old(totalPopCount)
      ensures count == 0 ==> r == Err(InvalidOperation) && unchanged(this)
      ensures count > 0 && offset + count - 1 >= length ==> r == Err(IndexOutOfRange) && unchanged(this)
      ensures count > 0 && offset + count - 1 < length ==>
        r == Ok(()) && !indexed && Bits() == FlipRange(old(Bits()), offset, offset + count)
    {
      if count == 0 {
        return Err(InvalidOperation);
      }
      var maxIndex := offset + count - 1;
      if maxIndex >= length {
        return Err(IndexOutOfRange);
      }
      ghost var a0 := AllBits(blocks);
      blocks := FlipBlocks(blocks, offset, maxIndex);
      indexed := false;
      FlipRangePrefix(a0, offset, offset + count, length);
      WriteInside(a0, AllBits(blocks), length);
      return Ok(());
    }

    /**
     * AccessRange(offset, count): the bits from `offset` to `offset + count`
     * inclusive, `count + 1` of them; a zero count is an invalid operation
     * and a last position at or past the end is out of range.
     */
    method AccessRange(offset: ULong, count: ULong) returns (r: Result<seq<bool>>)
      requires Valid()
      ensures count == 0 ==> r == Err(InvalidOperation)
      ensures count > 0 && offset + count >= length ==> r == Err(IndexOutOfRange)
      ensures count > 0 && offset + count < length ==> r == Ok(Bits()[offset .. offset + count + 1])
    {
      if count == 0 {
        return Err(InvalidOperation);
      }
      var lastIndex := offset + count;
      if lastIndex >= length {
        return Err(IndexOutOfRange);
      }
      var out := ReadBlocks(blocks, offset, lastIndex);
      assert Bits()[offset .. lastIndex + 1] == AllBits(blocks)[offset .. lastIndex + 1];
      return Ok(out);
    }

    /**
     * AccessRange as the adapters read a range: exactly the `count` bits from
     * `offset` on, out of range only when they run past the end.
     */
    method AccessRangeExact(offset: ULong, count: ULong) returns (r: Result<seq<bool>>)
      requires Valid()
      ensures count == 0 ==> r == Err(InvalidOperation)
      ensures count > 0 && offset + count > length ==> r == Err(IndexOutOfRange)
      ensures count > 0 && offset + count <= length ==> r == Ok(Bits()[offset .. offset + count])
    {
      if count == 0 {
        return Err(InvalidOperation);
      }
      if offset + count > length {
        return Err(IndexOutOfRange);
      }
      var lastIndex := offset + count - 1;
      var out := ReadBlocks(blocks, offset, lastIndex);
      assert Bits()[offset .. lastIndex + 1] == AllBits(blocks)[offset .. lastIndex + 1];
      return Ok(out);
    }

    /**
     * BuildIndex(): entry `g` of the rank table becomes the number of ones in
     * the blocks before group `g`, and the total the number of ones in all
     * blocks; a table size past `int` is an overflow that leaves the vector
     * unchanged.
     */
    method BuildIndex() returns (r: Result<()>)
      requires Valid()
      modifies this
      ensures |old(blocks)| > IntMax - 3 ==> r == Err(Overflow) && unchanged(this)
      ensures |old(blocks)| <= IntMax - 3 ==>
        r == Ok(()) && Valid() && indexed && blocks == old(blocks) && length == old(length) &&
        rankTable == RankTableOf(blocks) && totalPopCount == Count(Bits(), true)
    {
      if |blocks| + RankTableRatio - 1 > IntMax {
        return Err(Overflow);
      }
      var table, total := RankTableFor(blocks);
      rankTable := table;
      totalPopCount := total;
      indexed := true;
      TotalIsOnes();
      return Ok(());
    }

    /** RankOne(count): the number of ones among the first `count` bits. */
    method RankOne(count: ULong) returns (rankOne: nat)
      requires Valid() && indexed && count <= length
      ensures rankOne == Count(Bits()[..count], true)
    {
      RankTableEntry(blocks, count / 256);
      rankOne := PrefixOnes(blocks, rankTable, count);
      assert Bits()[..count] == AllBits(blocks)[..count];
    }

    /** Rank(value, count): the number of bits equal to `value` among the first `count` bits. */
    method Rank(value: bool, count: ULong) returns (r: Result<nat>)
      requires Valid() && indexed
      ensures count == 0 ==> r == Err(InvalidOperation)
      ensures count > length ==> r == Err(IndexOutOfRange)
      ensures 0 < count <= length ==> r == Ok(Count(Bits()[..count], value))
    {
      if count == 0 {
        return Err(InvalidOperation);
      }
      if count > length {
        return Err(IndexOutOfRange);
      }
      var ones := RankOne(count);
      CountComplement(Bits()[..count]);
      return Ok(if value then ones else count - ones);
    }

    /**
     * Rank(value, count, offset): the number of bits equal to `value` among
     * the `count` bits from `offset`; a range past the end is out of range.
     */
    method RankWithOffset(value: bool, count: ULong, offset: ULong) returns (r: Result<nat>)
      requires Valid() && indexed
      ensures count == 0 ==> r == Err(InvalidOperation)
      ensures count > 0 && offset + count > length ==> r == Err(IndexOutOfRange)
      ensures count > 0 && offset + count <= length ==> r == Ok(Count(Bits()[offset .. offset + count], value))
    {
      if count == 0 {
        return Err(InvalidOperation);
      }
      var index := offset + count;
      if index > length {
        return Err(IndexOutOfRange);
      }
      ghost var bits := Bits();
      var upTo := RankOne(index);
      var before := 0;
      if offset > 0 {
        before := RankOne(offset);
      }
      assert before == Count(bits[..offset], true) by {
        if offset == 0 {
          assert bits[..0] == [];
        }
      }
      RangeCount(bits, offset, index, upTo, before);
      var ones := upTo - before;
      return Ok(if value then ones else count - ones);
    }

    /**
     * Select(value, rank): the position of the `rank`-th bit equal to
     * `value`, found by a binary search of the rank table, a scan of the
     * blocks of one group and a select inside one block; a zero rank or one
     * past the number of such bits is an invalid operation.
     */
    method Select(value: bool, rank: ULong) returns (r: Result<nat>)
      requires Valid() && indexed
      ensures rank == 0 || rank > Count(Bits(), value) ==> r == Err(InvalidOperation)
      ensures 0 < rank <= Count(Bits(), value) ==> r.Ok? && IsSelect(Bits(), value, rank, r.value)
    {
      if rank == 0 {
        return Err(InvalidOperation);
      }
      TotalIsOnes();
      if (value && rank > totalPopCount) || (!value && rank > length - totalPopCount) {
        return Err(InvalidOperation);
      }
      var pos := SelectInBlocks(blocks, rankTable, length, value, rank);
      return Ok(pos);
    }

    /**
     * Select(value, rank, offset): the position of the `rank`-th bit equal
     * to `value` from `offset` on, as Select of the rank before `offset`
     * plus `rank`; a zero rank is an invalid operation, `offset + rank` past
     * the end is out of range, and a rank past the bits equal to `value` is
     * an invalid operation.
     */
    method SelectWithOffset(value: bool, rank: ULong, offset: ULong) returns (r: Result<nat>)
      requires Valid() && indexed
      ensures rank == 0 ==> r == Err(InvalidOperation)
      ensures rank > 0 && offset + rank > length ==> r == Err(IndexOutOfRange)
      ensures rank > 0 && offset + rank <= length && Count(Bits()[..offset], value) + rank > Count(Bits(), value) ==>
        r == Err(InvalidOperation)
      ensures rank > 0 && offset + rank <= length && Count(Bits()[..offset], value) + rank <= Count(Bits(), value) ==>
        r.Ok? && offset <= r.value && IsSelect(Bits(), value, Count(Bits()[..offset], value) + rank, r.value)
    {
      if rank == 0 {
        return Err(InvalidOperation);
      }
      if offset + rank > length {
        return Err(IndexOutOfRange);
      }
      TotalIsOnes();
      if (value && rank > totalPopCount) || (!value && rank > length - totalPopCount) {
        return Err(InvalidOperation);
      }
      if offset == 0 {
        assert Bits()[..offset] == [];
        r := Select(value, rank);
      } else {
        var before := Rank(value, offset);
        var totalRank := before.value + rank;
        if (value && totalRank > totalPopCount) || (!value && totalRank > length - totalPopCount) {
          return Err(InvalidOperation);
        }
        r := Select(value, totalRank);
      }
      if r.Ok? {
        SelectPastPrefix(Bits(), value, offset, rank, r.value);
      }
    }

    /**
     * Extend(count): `count` zero bits are appended, in new zero blocks where
     * the length needs them, and the index is rebuilt; a length or block
     * count past the integer types is an overflow.
     */
    method Extend(count: ULong) returns (r: Result<()>)
      requires Valid()
      modifies this
      ensures old(length) + count + BlockSize - 1 >= ULongLimit || BlockCount(old(length) + count) > IntMax ==>
        r == Err(Overflow) && unchanged(this)
      ensures old(length) + count + BlockSize - 1 < ULongLimit && BlockCount(old(length) + count) <= IntMax ==>
        Valid() && length == old(length) + count && Bits() == old(Bits()) + seq(count, _ => false)
      ensures old(length) + count + BlockSize - 1 < ULongLimit && BlockCount(old(length) + count) <= IntMax - 3 ==>
        r == Ok(()) && indexed && totalPopCount == Count(old(Bits()), true)
      ensures IntMax - 3 < BlockCount(old(length) + count) <= IntMax ==>
        r == Err(Overflow) && !indexed && rankTable == old(rankTable) && totalPopCount == 0
    {
      var n := length + count;
      if n + BlockSize - 1 >= ULongLimit || (n + BlockSize - 1) / BlockSize > IntMax {
        return Err(Overflow);
      }
      ghost var before := Bits();
      GrowTo(n);
      CountAppend(before, seq(count, _ => false), true);
      CountNone(seq(count, _ => false), true);
      r := BuildIndex();
    }

    /**
     * The part of Extend before the index is rebuilt: zero blocks are
     * appended up to the block count of the new length `n`, the length
     * becomes `n` and the total is reset.
     */
    method GrowTo(n: ULong)
      requires Valid() && length <= n && BlockCount(n) <= IntMax && n + BlockSize - 1 < ULongLimit
      modifies this
      ensures Valid() && !indexed && length == n && totalPopCount == 0 && rankTable == old(rankTable)
      ensures Bits() == old(Bits()) + seq(n - old(length), _ => false)
    {
      var blockCount := (n + BlockSize - 1) / BlockSize;
      BlockCountGrows(length, n);
      var needToAdd := blockCount - |blocks|;
      GrownBlocks(blocks, length, n, needToAdd);
      if needToAdd > 0 {
        blocks := blocks + seq(needToAdd, _ => 0);
      } else {
        assert blocks + seq(needToAdd, _ => 0) == blocks;
      }
      length := n;
      totalPopCount := 0;
      indexed := false;
    }
  }
}
