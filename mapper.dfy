/**
 * The collections an index can sit on (IIndexAccessibleCollection) and its
 * three adapters: a list of booleans, a list of `uint` and a list of `ulong`.
 * Each exposes a sequence of bits (`Bits`), reads one of them (`Access`) and
 * reads 64 of them at once, most significant bit first (`GetRangeInt64`).
 * In the word adapters bit `i` is bit `31 - i % 32` (or `63 - i % 64`) of
 * word `i / 32` (or `i / 64`): words are read most significant bit first.
 */
module Mapper {
  import opened Outcome
  import opened BitSeq
  import opened Word
  import opened BitUtility

  /** `IList<T>.Count` is an `int`: a list holds at most `int.MaxValue` items. */
  type BoolList = s: seq<bool> | |s| <= IntMax
  type UIntList = s: seq<bv32> | |s| <= IntMax
  type ULongList = s: seq<bv64> | |s| <= IntMax

  /** Bits of a list of `uint`, each word most significant bit first. */
  function UIntBits(d: seq<bv32>): (s: seq<bool>)
    ensures |s| == 32 * |d|
  {
    seq(32 * |d|, i requires 0 <= i < 32 * |d| => Msb32(d[i / 32])[i % 32])
  }

  /** Bits of a list of `ulong`, each word most significant bit first. */
  function ULongBits(d: seq<bv64>): (s: seq<bool>)
    ensures |s| == 64 * |d|
  {
    seq(64 * |d|, i requires 0 <= i < 64 * |d| => Msb(d[i / 64])[i % 64])
  }

  datatype Collection =
    | BoolListMapper(bools: BoolList)
    | UIntListMapper(uints: UIntList)
    | ULongListMapper(ulongs: ULongList)
  {
    /** The bits the collection exposes, in index order. */
    function Bits(): seq<bool> {
      match this
      case BoolListMapper(d) => d
      case UIntListMapper(d) => UIntBits(d)
      case ULongListMapper(d) => ULongBits(d)
    }

    /** Number of bits the collection exposes. */
    function AvailableLength(): (n: nat)
      ensures n == |Bits()|
      ensures n < ULongLimit
    {
      match this
      case BoolListMapper(d) => |d|
      case UIntListMapper(d) => |d| * 32
      case ULongListMapper(d) => |d| * 64
    }

    /** Bit `index`, read by the adapter; an error past the end. */
    function Access(index: ULong): (r: Result<bool>)
      ensures index < AvailableLength() ==> r == Ok(Bits()[index])
      ensures index >= AvailableLength() ==> r.Err?
    {
      match this
      case BoolListMapper(d) => BoolAccess(d, index)
      case UIntListMapper(d) => UIntAccess(d, index)
      case ULongListMapper(d) => ULongAccess(d, index)
    }

    /** The 64 bits from `index` on, most significant first, read by the adapter. */
    method GetRangeInt64(index: ULong) returns (r: Result<bv64>)
      ensures index % 64 == 0 && index < AvailableLength() ==>
        r.Ok? && Msb(r.value) == Chunk(Bits(), index)
    {
      match this
      case BoolListMapper(d) =>
        r := BoolGetRangeInt64(d, index);
      case UIntListMapper(d) =>
        r := UIntGetRangeInt64(d, index);
      case ULongListMapper(d) =>
        r := ULongGetRangeInt64(d, index);
    }
  }

  // --------------------------------------------------------- BoolListMapper

  /** BoolListMapper.Access: the index is cast to `int` in a checked context. */
  function BoolAccess(d: BoolList, index: ULong): (r: Result<bool>)
    ensures index < |d| ==> r == Ok(d[index])
    ensures index > IntMax ==> r == Err(Overflow)
    ensures |d| <= index <= IntMax ==> r == Err(IndexOutOfRange)
  {
    if index > IntMax then Err(Overflow)
    else if index >= |d| then Err(IndexOutOfRange)
    else Ok(d[index])
  }

  /**
   * BoolListMapper.GetRangeInt64: BoolToUlong from the index cast to `int`
   * without a check; no alignment is demanded.
   */
  method BoolGetRangeInt64(d: BoolList, index: ULong) returns (r: Result<bv64>)
    ensures index <= IntMax ==> r.Ok? && Msb(r.value) == Chunk(d, index)
  {
    r := BoolToUlongListWide(d, TruncateToInt32(index));
  }

  // --------------------------------------------------------- UIntListMapper

  /**
   * UIntListMapper.Access: bit `31 - index % 32` of word `index / 32`; the
   * word index is cast to `int` in a checked context.
   */
  function UIntAccess(d: UIntList, index: ULong): (r: Result<bool>)
    ensures index < 32 * |d| ==> r == Ok(UIntBits(d)[index])
    ensures index / 32 > IntMax ==> r == Err(Overflow)
    ensures index / 32 <= IntMax && index >= 32 * |d| ==> r == Err(IndexOutOfRange)
  {
    var intIndex := index / 32;
    WordIndex(index, 32, |d|);
    if intIndex > IntMax then Err(Overflow)
    else if intIndex >= |d| then Err(IndexOutOfRange)
    else
      var rest := index % 32;
      Ok(UIntBitAt(d[intIndex], rest))
  }

  /**
   * UIntListMapper.GetRangeInt64: the index must be a multiple of 32; the
   * two words from `index / 32` on (cast to `int` without a check) are joined.
   * The cast keeps the low 32 bits of the word index: past `int` it either
   * lands on a real word again or turns negative, which the list indexer
   * rejects; a word index past the data reads as zero.
   */
  function UIntGetRangeInt64(d: UIntList, index: ULong): (r: Result<bv64>)
    ensures index % 32 != 0 ==> r == Err(InvalidOperation)
    ensures index % 64 == 0 && index < 32 * |d| ==> r.Ok? && Msb(r.value) == Chunk(UIntBits(d), index)
    ensures index % 32 == 0 && index / 32 <= IntMax && index >= 32 * |d| ==> r == Ok(0)
    ensures index % 32 == 0 && (index / 32) % 0x1_0000_0000 <= IntMax ==>
      var w := (index / 32) % 0x1_0000_0000;
      r.Ok? && Msb(r.value) == Msb32(UIntOrZero(d, w)) + Msb32(UIntOrZero(d, w + 1))
    ensures index % 32 == 0 && (index / 32) % 0x1_0000_0000 > IntMax ==> r == Err(ArgumentOutOfRange)
  {
    if index % 32 != 0 then Err(InvalidOperation)
    else
      var startIndex := TruncateToInt32(index / 32);
      UIntRangeChunk(d, index);
      UIntToUlongList(d, startIndex)
  }

  /** An aligned index inside the list joins the two words of its chunk. */
  lemma UIntRangeChunk(d: UIntList, index: ULong)
    ensures index % 64 == 0 && index < 32 * |d| ==>
      var r := UIntToUlongList(d, TruncateToInt32(index / 32));
      r.Ok? && Msb(r.value) == Chunk(UIntBits(d), index)
  {
    if index % 64 == 0 && index < 32 * |d| {
      var start := TruncateToInt32(index / 32);
      UIntChunkAt(d, index);
      assert start == index / 32;
      var r := UIntToUlongList(d, start);
      assert Msb(r.value) == Msb32(UIntOrZero(d, start)) + Msb32(UIntOrZero(d, start + 1));
    }
  }

  // -------------------------------------------------------- ULongListMapper

  /**
   * ULongListMapper.Access: bit `63 - index % 64` of word `index / 64`; the
   * word index is cast to `int` in a checked context.
   */
  function ULongAccess(d: ULongList, index: ULong): (r: Result<bool>)
    ensures index < 64 * |d| ==> r == Ok(ULongBits(d)[index])
    ensures index / 64 > IntMax ==> r == Err(Overflow)
    ensures index / 64 <= IntMax && index >= 64 * |d| ==> r == Err(IndexOutOfRange)
  {
    var intIndex := index / 64;
    WordIndex(index, 64, |d|);
    if intIndex > IntMax then Err(Overflow)
    else if intIndex >= |d| then Err(IndexOutOfRange)
    else
      var rest := index % 64;
      Ok(ULongBitAt(d[intIndex], rest))
  }

  /**
   * ULongListMapper.GetRangeInt64: the index must be a multiple of 64; the
   * word at `index / 64` (cast to `int` without a check) as it is. The cast
   * keeps the low 32 bits of the word index, and the list indexer rejects a
   * word index outside the list.
   */
  function ULongGetRangeInt64(d: ULongList, index: ULong): (r: Result<bv64>)
    ensures index % 64 != 0 ==> r == Err(InvalidOperation)
    ensures index % 64 == 0 && index < 64 * |d| ==> r == Ok(d[index / 64])
    ensures index % 64 == 0 && index < 64 * |d| ==> Msb(r.value) == Chunk(ULongBits(d), index)
    ensures index % 64 == 0 && index / 64 <= IntMax && index >= 64 * |d| ==> r == Err(ArgumentOutOfRange)
    ensures index % 64 == 0 ==>
      var w := (index / 64) % 0x1_0000_0000;
      r == if w <= IntMax && w < |d| then Ok(d[w]) else Err(ArgumentOutOfRange)
  {
    if index % 64 != 0 then Err(InvalidOperation)
    else
      var k := TruncateToInt32(index / 64);
      ULongChunkAt(d, index);
      if k < 0 || k >= |d| then Err(ArgumentOutOfRange) else Ok(d[k])
  }

  // ------------------------------------------------------------- Bit reads

  /** Bit `31 - rest` of a `uint`: position `rest` of its most-significant-first view. */
  function UIntBitAt(x: bv32, rest: nat): (b: bool)
    requires rest < 32
    ensures b == Msb32(x)[rest]
  {
    var p := Pos(31 - rest);
    WideBit(x as bv64, rest);
    ((x as bv64) >> p) & 1 != 0
  }

  lemma WideBit(y: bv64, rest: nat)
    requires rest < 32
    ensures ((y >> Pos(31 - rest)) & 1 != 0) == Msb(y)[32 + rest]
  {
    AndOne(y, Pos(31 - rest));
    LsbAt(y, Pos(31 - rest));
  }

  /** Bit `63 - rest` of a `ulong`: position `rest` of its most-significant-first view. */
  function ULongBitAt(x: bv64, rest: nat): (b: bool)
    requires rest < 64
    ensures b == Msb(x)[rest]
  {
    var p := Pos(63 - rest);
    AndOne(x, p);
    LsbAt(x, p);
    (x >> p) & 1 != 0
  }

  /** A word index is inside the list exactly when the bit index is inside its bits. */
  lemma WordIndex(index: nat, w: nat, n: nat)
    requires w == 32 || w == 64
    ensures index / w < n <==> index < w * n
    ensures index == w * (index / w) + index % w
  {}

  /** An aligned chunk start inside `32 * n` bits: the uint it starts at, and the ulong. */
  lemma AlignedIndex(index: nat, n: nat)
    requires index % 64 == 0 && index < 32 * n
    ensures index / 32 == 2 * (index / 64) && 2 * (index / 64) < n
    ensures 64 * (index / 64) == index && index / 64 < n
  {}

  /** Word `k` of a `ulong` list is the `k`-th chunk of its bits. */
  lemma ULongChunk(d: seq<bv64>, k: nat)
    requires k < |d|
    ensures Msb(d[k]) == Chunk(ULongBits(d), 64 * k)
  {
    forall j | 0 <= j < 64
      ensures Msb(d[k])[j] == Chunk(ULongBits(d), 64 * k)[j]
    {
      Split64(k, j);
    }
  }

  lemma ULongChunkAt(d: seq<bv64>, index: nat)
    requires |d| <= IntMax
    ensures index % 64 == 0 && index < 64 * |d| ==>
      index / 64 < |d| && TruncateToInt32(index / 64) == index / 64 &&
      Msb(d[index / 64]) == Chunk(ULongBits(d), index)
  {
    if index % 64 == 0 && index < 64 * |d| {
      AlignedIndex(index, 2 * |d|);
      ULongChunk(d, index / 64);
    }
  }

  lemma UIntChunkAt(d: seq<bv32>, index: nat)
    requires |d| <= IntMax
    ensures index % 64 == 0 && index < 32 * |d| ==>
      index / 32 < |d| && TruncateToInt32(index / 32) == index / 32 &&
      Msb32(UIntOrZero(d, index / 32)) + Msb32(UIntOrZero(d, index / 32 + 1)) == Chunk(UIntBits(d), index)
  {
    if index % 64 == 0 && index < 32 * |d| {
      AlignedIndex(index, |d|);
      UIntChunk(d, index / 64);
    }
  }

  /** Two consecutive `uint` words, the second possibly missing, are the `k`-th chunk of the bits. */
  lemma UIntChunk(d: seq<bv32>, k: nat)
    requires 2 * k < |d|
    ensures Msb32(UIntOrZero(d, 2 * k)) + Msb32(UIntOrZero(d, 2 * k + 1)) == Chunk(UIntBits(d), 64 * k)
  {
    var c := Chunk(UIntBits(d), 64 * k);
    forall j | 0 <= j < 64
      ensures (Msb32(UIntOrZero(d, 2 * k)) + Msb32(UIntOrZero(d, 2 * k + 1)))[j] == c[j]
    {
      UIntChunkBit(d, k, j);
    }
  }

  /** Bit `j` of chunk `k`: from the upper word below 32, from the lower word (or zero) from 32 on. */
  lemma UIntChunkBit(d: seq<bv32>, k: nat, j: nat)
    requires 2 * k < |d| && j < 64
    ensures (Msb32(UIntOrZero(d, 2 * k)) + Msb32(UIntOrZero(d, 2 * k + 1)))[j] == Chunk(UIntBits(d), 64 * k)[j]
  {
    var hi, lo := Msb32(UIntOrZero(d, 2 * k)), Msb32(UIntOrZero(d, 2 * k + 1));
    Split64(k, j);
    if j < 32 {
      assert (hi + lo)[j] == hi[j];
    } else if 2 * k + 1 < |d| {
      assert (hi + lo)[j] == lo[j - 32];
    } else {
      assert (hi + lo)[j] == lo[j - 32];
      ZeroBits(j);
    }
  }

  lemma ZeroBits(j: nat)
    requires 32 <= j < 64
    ensures !Msb32(0)[j - 32]
  {
    LsbAt(0, Pos(63 - j));
  }

  lemma PackedWordRead(items: seq<bool>, words: ULongList, i: nat)
    requires i < |items| <= |words| * 64
    requires Msb(words[i / 64]) == Chunk(items, 64 * (i / 64))
    ensures ULongAccess(words, i) == Ok(items[i])
  {
    Split64(i / 64, i % 64);
    assert Msb(words[i / 64])[i % 64] == Chunk(items, 64 * (i / 64))[i % 64];
  }

  /**
   * Words each packed with BoolToUlong from consecutive 64-bit chunks of
   * `items`, wrapped in a `ulong` adapter, read back `items`.
   */
  lemma PackedWordsRead(items: seq<bool>, words: ULongList)
    requires |words| * 64 >= |items|
    requires forall w :: 0 <= w < |words| ==> Msb(words[w]) == Chunk(items, 64 * w)
    ensures forall i :: 0 <= i < |items| ==> ULongAccess(words, i) == Ok(items[i])
  {
    forall i | 0 <= i < |items|
      ensures ULongAccess(words, i) == Ok(items[i])
    {
      PackedWordRead(items, words, i);
    }
  }

  /**
   * BoolListMapper.AccessRange: the items from `offset` up to the earlier of
   * `offset + count` and the end of the list. Both ends are cast to `int`
   * in a checked context.
   */
  method BoolAccessRange(d: BoolList, offset: ULong, count: ULong) returns (r: Result<seq<bool>>)
    ensures offset > IntMax || offset + count > IntMax ==> r == Err(Overflow)
    ensures offset <= IntMax && offset + count <= IntMax ==>
      r == Ok(if offset < Min(|d|, offset + count) then d[offset .. Min(|d|, offset + count)] else [])
  {
    if offset > IntMax || offset + count >= ULongLimit || offset + count > IntMax {
      return Err(Overflow);
    }
    var startIndex := offset;
    var maxIndex := offset + count;
    var items := [];
    var i := startIndex;
    while i < |d| && i < maxIndex
      invariant startIndex <= i
      invariant i <= startIndex || i <= Min(|d|, maxIndex)
      invariant items == if startIndex < i then d[startIndex..i] else []
    {
      items := items + [d[i]];
      i := i + 1;
    }
    return Ok(items);
  }
}
