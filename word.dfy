/**
 * Views of a 64-bit word (`ulong`) as a sequence of bits, and the bridges
 * between bit positions typed `bv6` and integer positions.
 *
 * BitVector stores bit `i` of a block at the `i`-th least significant bit
 * (the `Lsb` view); the mappers read a 64-bit chunk most significant bit
 * first (the `Msb` view).
 */
module Word {
  import opened BitSeq

  /** Bit `t` of `x`, counting from the least significant bit. */
  predicate BitS(x: bv64, t: bv6) {
    (x >> t) & 1 == 1
  }

  /** Bit `i` of `x` for an integer position, read by shifting `x` right one bit at a time. */
  predicate BitAt(x: bv64, i: int)
    requires 0 <= i < 64
    decreases i
  {
    if i == 0 then x & 1 == 1 else BitAt(x >> 1, i - 1)
  }

  /** The bits of `x`, least significant first. */
  function Lsb(x: bv64): (s: seq<bool>)
    ensures |s| == 64
  {
    seq(64, i requires 0 <= i < 64 => BitAt(x, i))
  }

  /** The bits of `x`, most significant first. */
  function Msb(x: bv64): seq<bool> {
    seq(64, i requires 0 <= i < 64 => Lsb(x)[63 - i])
  }

  lemma Succ6(t: bv6)
    requires t != 63
    ensures (t + 1) as int == t as int + 1
  {}

  lemma Pred6(t: bv6)
    requires t != 0
    ensures (t - 1) as int == t as int - 1
  {}

  /** The 6-bit position of an integer position. */
  function Pos(i: int): (t: bv6)
    requires 0 <= i < 64
    ensures t as int == i
  {
    if i == 0 then 0
    else
      var t := Pos(i - 1);
      Succ6(t);
      t + 1
  }

  lemma ShiftBit(x: bv64, t: bv6)
    requires t != 0
    ensures BitS(x >> 1, t - 1) == BitS(x, t)
  {}

  /** Position `t` of the least-significant-first view is bit `t`. */
  lemma {:induction false} LsbAt(x: bv64, t: bv6)
    ensures Lsb(x)[t as int] == BitS(x, t)
    decreases t as int
  {
    if t != 0 {
      Pred6(t);
      LsbAt(x >> 1, t - 1);
      ShiftBit(x, t);
    }
  }

  /** Position `63 - t` of the most-significant-first view is bit `t`. */
  lemma MsbAt(x: bv64, t: bv6)
    ensures Msb(x)[63 - t as int] == BitS(x, t)
  {
    LsbAt(x, t);
  }

  /** The two views read the same bits in opposite orders. */
  lemma MsbIsReversedLsb(x: bv64, i: int)
    requires 0 <= i < 64
    ensures Msb(x)[i] == Lsb(x)[63 - i]
  {}

  /** Complementing a word flips each bit. */
  lemma NotBit(x: bv64, t: bv6)
    ensures BitS(!x, t) == !BitS(x, t)
  {}

  lemma LsbNot(x: bv64)
    ensures Negated(Lsb(x), Lsb(!x))
  {
    forall i | 0 <= i < 64
      ensures Lsb(!x)[i] == !Lsb(x)[i]
    {
      NotAt(x, Pos(i));
    }
  }

  lemma NotAt(x: bv64, t: bv6)
    ensures Lsb(!x)[t as int] == !Lsb(x)[t as int]
  {
    LsbAt(x, t);
    LsbAt(!x, t);
    NotBit(x, t);
  }

  lemma MsbNot(x: bv64)
    ensures Negated(Msb(x), Msb(!x))
  {
    LsbNot(x);
  }

  function Byte(x: bv64, k: bv6): bv64 {
    (x >> k) & 0xff
  }

  lemma ByteFromBits(x: bv64, y: bv64, k: bv6)
    requires k & 7 == 0
    requires BitS(x, k) == BitS(y, k) && BitS(x, k + 1) == BitS(y, k + 1)
    requires BitS(x, k + 2) == BitS(y, k + 2) && BitS(x, k + 3) == BitS(y, k + 3)
    requires BitS(x, k + 4) == BitS(y, k + 4) && BitS(x, k + 5) == BitS(y, k + 5)
    requires BitS(x, k + 6) == BitS(y, k + 6) && BitS(x, k + 7) == BitS(y, k + 7)
    ensures Byte(x, k) == Byte(y, k)
  {}

  lemma WordFromBytes(x: bv64, y: bv64)
    requires Byte(x, 0) == Byte(y, 0) && Byte(x, 8) == Byte(y, 8)
    requires Byte(x, 16) == Byte(y, 16) && Byte(x, 24) == Byte(y, 24)
    requires Byte(x, 32) == Byte(y, 32) && Byte(x, 40) == Byte(y, 40)
    requires Byte(x, 48) == Byte(y, 48) && Byte(x, 56) == Byte(y, 56)
    ensures x == y
  {}

  /** Equal views give equal bytes. */
  lemma ByteOfLsb(x: bv64, y: bv64, k: bv6)
    requires Lsb(x) == Lsb(y) && k & 7 == 0
    ensures Byte(x, k) == Byte(y, k)
  {
    LsbAt(x, k);
    LsbAt(y, k);
    LsbAt(x, k + 1);
    LsbAt(y, k + 1);
    LsbAt(x, k + 2);
    LsbAt(y, k + 2);
    LsbAt(x, k + 3);
    LsbAt(y, k + 3);
    LsbAt(x, k + 4);
    LsbAt(y, k + 4);
    LsbAt(x, k + 5);
    LsbAt(y, k + 5);
    LsbAt(x, k + 6);
    LsbAt(y, k + 6);
    LsbAt(x, k + 7);
    LsbAt(y, k + 7);
    ByteFromBits(x, y, k);
  }

  /** A word is determined by its bits. */
  lemma LsbInjective(x: bv64, y: bv64)
    requires Lsb(x) == Lsb(y)
    ensures x == y
  {
    ByteOfLsb(x, y, 0);
    ByteOfLsb(x, y, 8);
    ByteOfLsb(x, y, 16);
    ByteOfLsb(x, y, 24);
    ByteOfLsb(x, y, 32);
    ByteOfLsb(x, y, 40);
    ByteOfLsb(x, y, 48);
    ByteOfLsb(x, y, 56);
    WordFromBytes(x, y);
  }

  lemma MsbInjective(x: bv64, y: bv64)
    requires Msb(x) == Msb(y)
    ensures x == y
  {
    forall i | 0 <= i < 64
      ensures Lsb(x)[i] == Lsb(y)[i]
    {
      assert Lsb(x)[i] == Msb(x)[63 - i];
    }
    LsbInjective(x, y);
  }

  /** Bit positions compare as their integer values. */
  lemma Less6(p: bv6, t: bv6)
    ensures (p < t) == (p as int < t as int)
  {}

  /** Complementing a word exchanges the counts of ones and zeros in every window. */
  lemma CountNotSlice(x: bv64, lo: nat, hi: nat, v: bool)
    requires lo <= hi <= 64
    ensures Count(Lsb(!x)[lo..hi], v) == Count(Lsb(x)[lo..hi], !v)
  {
    LsbNot(x);
    assert Negated(Lsb(x)[lo..hi], Lsb(!x)[lo..hi]) by {
      forall i | 0 <= i < hi - lo
        ensures Lsb(!x)[lo..hi][i] == !Lsb(x)[lo..hi][i]
      {
        assert Lsb(!x)[lo..hi][i] == Lsb(!x)[lo + i];
      }
    }
    CountNegated(Lsb(x)[lo..hi], Lsb(!x)[lo..hi], v);
  }

  /** The first `n` bits of the most-significant-first view are the last `n` bits of the other, backwards. */
  lemma MsbPrefixReversal(x: bv64, n: nat)
    requires n <= 64
    ensures Reversal(Lsb(x)[64 - n..], Msb(x)[..n])
  {}

  /** The first `n` bits in most-significant-first order count as the top `n` bits. */
  lemma CountMsbPrefix(x: bv64, n: nat, v: bool)
    requires n <= 64
    ensures Count(Msb(x)[..n], v) == Count(Lsb(x)[64 - n..64], v)
  {
    assert Lsb(x)[64 - n..] == Lsb(x)[64 - n..64];
    MsbPrefixReversal(x, n);
    CountReversal(Lsb(x)[64 - n..], Msb(x)[..n], v);
  }

  /**
   * The 64 bits of `s` from position `start` on, as read into a word most
   * significant bit first; positions outside `s` read as zero.
   */
  function Chunk(s: seq<bool>, start: int): (c: seq<bool>)
    ensures |c| == 64
  {
    seq(64, k requires 0 <= k < 64 => 0 <= start + k < |s| && s[start + k])
  }

  /** `x` shifted up one place with `b` as its new lowest bit. */
  function ShiftIn(x: bv64, b: bool): bv64 {
    (x << 1) | (if b then 1 else 0)
  }

  /** The word whose bits, most significant first, end with `s` (shifted in one at a time). */
  function FromMsb(s: seq<bool>): bv64
    decreases |s|
  {
    if s == [] then 0
    else ShiftIn(FromMsb(s[..|s| - 1]), s[|s| - 1])
  }

  lemma ShiftInLow(x: bv64, b: bool)
    ensures BitS(ShiftIn(x, b), 0) == b
  {}

  lemma ShiftedBit(x: bv64, p: bv6)
    requires p != 0
    ensures BitS(x << 1, p) == BitS(x, p - 1)
  {}

  lemma ShiftInAbove(x: bv64, b: bool, p: bv6)
    requires p != 0
    ensures BitS(ShiftIn(x, b), p) == BitS(x << 1, p)
  {}

  lemma ShiftInHigh(x: bv64, b: bool, p: bv6)
    requires p != 0
    ensures BitS(ShiftIn(x, b), p) == BitS(x, p - 1)
  {
    ShiftedBit(x, p);
    ShiftInAbove(x, b, p);
  }

  /** Shifting a bit in moves every bit up one place and puts the new bit at the bottom. */
  lemma ShiftInLsb(x: bv64, b: bool, j: int)
    requires 0 <= j < 64
    ensures Lsb(ShiftIn(x, b))[j] == if j == 0 then b else Lsb(x)[j - 1]
  {
    var p := Pos(j);
    LsbAt(ShiftIn(x, b), p);
    if j == 0 {
      ShiftInLow(x, b);
    } else {
      ShiftInHigh(x, b, p);
      Pred6(p);
      LsbAt(x, p - 1);
    }
  }

  /** The last bit shifted in is bit 0, the one before it bit 1, and so on; older bits are gone. */
  lemma {:induction false} FromMsbLsb(s: seq<bool>, j: int)
    requires |s| <= 64 && 0 <= j < 64
    ensures Lsb(FromMsb(s))[j] == (j < |s| && s[|s| - 1 - j])
    decreases |s|
  {
    if s == [] {
      assert FromMsb(s) == 0;
      LsbAt(0, Pos(j));
    } else {
      var s' := s[..|s| - 1];
      ShiftInLsb(FromMsb(s'), s[|s| - 1], j);
      if j != 0 {
        FromMsbLsb(s', j - 1);
      }
    }
  }

  /** Shifting in 64 bits builds the word whose most-significant-first view they are. */
  lemma MsbFromMsb(s: seq<bool>)
    requires |s| == 64
    ensures Msb(FromMsb(s)) == s
  {
    forall k | 0 <= k < 64
      ensures Msb(FromMsb(s))[k] == s[k]
    {
      FromMsbLsb(s, 63 - k);
    }
  }

  /** Every word is built from its own most-significant-first view. */
  lemma FromMsbOfMsb(x: bv64)
    ensures FromMsb(Msb(x)) == x
  {
    MsbFromMsb(Msb(x));
    MsbInjective(FromMsb(Msb(x)), x);
  }

  /** The bits of a 32-bit word, most significant first. */
  function Msb32(x: bv32): (s: seq<bool>)
    ensures |s| == 32
  {
    Msb(x as bv64)[32..]
  }

  /** Testing bit `t` with a shift and a mask. */
  lemma AndOne(x: bv64, t: bv6)
    ensures ((x >> t) & 1 != 0) == BitS(x, t)
  {}

  lemma OrBit(x: bv64, p: bv6, q: bv6)
    ensures BitS(x | (1 << p), q) == (q == p || BitS(x, q))
  {}

  lemma AndNotBit(x: bv64, p: bv6, q: bv6)
    ensures BitS(x & !(1 << p), q) == (q != p && BitS(x, q))
  {}

  lemma XorBit(x: bv64, p: bv6, q: bv6)
    ensures BitS(x ^ (1 << p), q) == (BitS(x, q) != (q == p))
  {}

  /** A word that agrees with `x` on every bit but `p`, where it holds `v`. */
  lemma LsbUpdate(x: bv64, y: bv64, p: bv6, v: bool)
    requires forall q: bv6 :: BitS(y, q) == if q == p then v else BitS(x, q)
    ensures Lsb(y) == Lsb(x)[p as int := v]
  {
    forall i | 0 <= i < 64
      ensures Lsb(y)[i] == if i == p as int then v else Lsb(x)[i]
    {
      var q := Pos(i);
      LsbAt(y, q);
      LsbAt(x, q);
      SamePosition(p, q);
      assert BitS(y, q) == if q == p then v else BitS(x, q);
    }
    PointwiseUpdate(Lsb(x), Lsb(y), p as int, v);
  }

  lemma SamePosition(p: bv6, q: bv6)
    ensures (p == q) == (p as int == q as int)
  {}

  /** Or-ing in the mask of bit `p` sets position `p` and leaves the others. */
  lemma SetLsb(x: bv64, p: bv6)
    ensures Lsb(x | (1 << p)) == Lsb(x)[p as int := true]
  {
    forall q: bv6
      ensures BitS(x | (1 << p), q) == if q == p then true else BitS(x, q)
    {
      OrBit(x, p, q);
    }
    LsbUpdate(x, x | (1 << p), p, true);
  }

  /** And-ing with the complemented mask of bit `p` clears position `p` and leaves the others. */
  lemma ClearLsb(x: bv64, p: bv6)
    ensures Lsb(x & !(1 << p)) == Lsb(x)[p as int := false]
  {
    forall q: bv6
      ensures BitS(x & !(1 << p), q) == if q == p then false else BitS(x, q)
    {
      AndNotBit(x, p, q);
    }
    LsbUpdate(x, x & !(1 << p), p, false);
  }

  /** Xor-ing with the mask of bit `p` flips position `p` and leaves the others. */
  lemma FlipLsb(x: bv64, p: bv6)
    ensures Lsb(x ^ (1 << p)) == Lsb(x)[p as int := !Lsb(x)[p as int]]
  {
    FlipBits(x, x ^ (1 << p), p);
    LsbAt(x, p);
    LsbUpdate(x, x ^ (1 << p), p, !BitS(x, p));
  }

  lemma FlipBits(x: bv64, y: bv64, p: bv6)
    requires y == x ^ (1 << p)
    ensures forall q: bv6 :: BitS(y, q) == if q == p then !BitS(x, p) else BitS(x, q)
  {
    forall q: bv6
      ensures BitS(y, q) == if q == p then !BitS(x, p) else BitS(x, q)
    {
      XorBit(x, p, q);
    }
  }

  /** Shifting the mask of bit `p` up once gives the mask of bit `p + 1`. */
  lemma NextMask(p: bv6)
    requires p != 63
    ensures ((1 as bv64) << p) << 1 == (1 as bv64) << (p + 1)
  {}

  /** Bit `j` of word `k` is position `64 * k + j` of the words laid end to end. */
  lemma Split64(k: nat, j: nat)
    requires j < 64
    ensures (64 * k + j) / 64 == k && (64 * k + j) % 64 == j
    ensures (64 * k + j) / 32 == 2 * k + j / 32 && (64 * k + j) % 32 == j % 32
  {}

  /** Bit `j` of `x`, tested by shifting it down and masking the lowest bit. */
  function LsbBit(x: bv64, j: nat): (b: bool)
    requires j < 64
    ensures b == Lsb(x)[j]
  {
    AndOne(x, Pos(j));
    LsbAt(x, Pos(j));
    (x >> Pos(j)) & 1 != 0
  }

  /** `x` with the bits of mask `m` set when `v` holds, cleared otherwise. */
  function MaskWrite(x: bv64, m: bv64, v: bool): bv64 {
    if v then x | m else x & !m
  }

  /** Writing `v` through the mask of bit `p` writes position `p` and no other. */
  lemma MaskWriteLsb(x: bv64, p: bv6, m: bv64, v: bool)
    requires m == 1 << p
    ensures Lsb(MaskWrite(x, m, v)) == Lsb(x)[p as int := v]
  {
    if v {
      MaskedSet(x, p, m, MaskWrite(x, m, v));
    } else {
      MaskedClear(x, p, m, MaskWrite(x, m, v));
    }
  }

  lemma MaskedSet(x: bv64, p: bv6, m: bv64, y: bv64)
    requires m == 1 << p && y == x | m
    ensures Lsb(y) == Lsb(x)[p as int := true]
  {
    SetLsb(x, p);
  }

  lemma MaskedClear(x: bv64, p: bv6, m: bv64, y: bv64)
    requires m == 1 << p && y == x & !m
    ensures Lsb(y) == Lsb(x)[p as int := false]
  {
    ClearLsb(x, p);
  }

  /** `x` with the bits of mask `m` flipped. */
  function MaskFlip(x: bv64, m: bv64): bv64 {
    x ^ m
  }

  /** Flipping through the mask of bit `p` flips position `p` and no other. */
  lemma MaskFlipLsb(x: bv64, p: bv6, m: bv64)
    requires m == 1 << p
    ensures Lsb(MaskFlip(x, m)) == Lsb(x)[p as int := !Lsb(x)[p as int]]
  {
    MaskedFlip(x, p, m, MaskFlip(x, m));
  }

  lemma MaskedFlip(x: bv64, p: bv6, m: bv64, y: bv64)
    requires m == 1 << p && y == x ^ m
    ensures Lsb(y) == Lsb(x)[p as int := !Lsb(x)[p as int]]
  {
    FlipLsb(x, p);
  }

  /** The mask of bit `p`. */
  function MaskAt(p: bv6): bv64 {
    1 << p
  }

  /** `m` shifted up by one position. */
  function ShiftUp(m: bv64): bv64 {
    m << 1
  }

  /** Shifting the mask of bit `p` up once gives the mask of bit `p + 1`. */
  lemma MaskAtNext(p: bv6)
    requires p != 63
    ensures ShiftUp(MaskAt(p)) == MaskAt(p + 1)
  {
    NextMask(p);
  }

  /** `x` shifted down by `p` positions. */
  function ShiftDown(x: bv64, p: bv6): bv64 {
    x >> p
  }

  /** The lowest bit of `x`. */
  function LowBit(x: bv64): bool {
    x & 1 != 0
  }

  /** The lowest bit of `x` shifted down by `p` is position `p`. */
  lemma LowBitOfShift(x: bv64, p: bv6)
    ensures LowBit(ShiftDown(x, p)) == Lsb(x)[p as int]
  {
    AndOne(x, p);
    LsbAt(x, p);
  }

  /** Every shift of `x` exposes the matching bit of `Lsb(x)`. */
  lemma LowBitsOfShifts(x: bv64)
    ensures forall q: bv6 :: LowBit(ShiftDown(x, q)) == Lsb(x)[q as int]
  {
    forall q: bv6
      ensures LowBit(ShiftDown(x, q)) == Lsb(x)[q as int]
    {
      LowBitOfShift(x, q);
    }
  }

  /** Every shift of `x` shifted down once more is the next shift of `x`. */
  lemma ShiftsOfShifts(x: bv64)
    ensures forall q: bv6 :: q != 63 ==> ShiftDown(ShiftDown(x, q), 1) == ShiftDown(x, q + 1)
  {
    forall q: bv6 | q != 63
      ensures ShiftDown(ShiftDown(x, q), 1) == ShiftDown(x, q + 1)
    {
      ShiftDownNext(x, q);
    }
  }

  /** Shifting down by `p` and then by one is shifting down by `p + 1`. */
  lemma ShiftDownNext(x: bv64, p: bv6)
    requires p != 63
    ensures ShiftDown(ShiftDown(x, p), 1) == ShiftDown(x, p + 1)
  {
    ShiftTwice(x, p);
  }

  lemma ShiftTwice(x: bv64, p: bv6)
    requires p != 63
    ensures (x >> p) >> 1 == x >> (p + 1)
  {}
}
