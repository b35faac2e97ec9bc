/**
 * UShortBitIndex: a read-only rank/select index over a storage adapter. The
 * data is read in 64-bit chunks, most significant bit first; the index keeps
 * the ones before each group of 1024 chunks (the rank table) and, per chunk,
 * the ones since the start of its group (the 16-bit block table).
 *
 * The proofs read the chunks as the blocks of a bit vector (least
 * significant bit first, the tail of the last chunk cleared), so the block
 * lemmas of `BitVectors` carry over.
 */
module UShortIndex {
  import opened Outcome
  import opened BitSeq
  import opened Word
  import opened BitUtility
  import opened Mapper
  import opened BitVectors

  /** Chunks per group of the rank table (`RANK_TABLE_RATIO`). */
  const GroupBlocks: nat := 1024
  /** Bits per group of the rank table (`RANK_TABLE_SIZE`). */
  const GroupSize: nat := 65536
  /** The largest `ushort`. */
  const UShortMax: nat := 0xffff

  // ------------------------------------------------------- Data as blocks

  /** The chunks of `d` as blocks: chunk `k`, reversed so that bit `j` of the block is bit `64 * k + j` of `d`. */
  function DataBlocks(d: seq<bool>): (blocks: seq<bv64>)
    ensures |blocks| == BlockCount(|d|)
  {
    seq(BlockCount(|d|), k requires 0 <= k < BlockCount(|d|) => ReverseInt64(FromMsb(Chunk(d, 64 * k))))
  }

  /** Block `k` of `blocks` holds chunk `k` of `d`, least significant bit first. */
  ghost predicate ChunkBlock(d: seq<bool>, blocks: seq<bv64>, k: nat)
    requires k < |blocks|
  {
    Lsb(blocks[k]) == Chunk(d, 64 * k)
  }

  /** `blocks` holds the chunks of `d`, one per block. */
  ghost predicate ChunkBlocks(d: seq<bool>, blocks: seq<bv64>) {
    |blocks| == BlockCount(|d|) && forall k: nat :: k < |blocks| ==> ChunkBlock(d, blocks, k)
  }

  /** The data blocks hold the chunks of the data. */
  lemma DataBlocksChunks(d: seq<bool>)
    ensures ChunkBlocks(d, DataBlocks(d))
  {
    var blocks := DataBlocks(d);
    forall k: nat | k < |blocks|
      ensures ChunkBlock(d, blocks, k)
    {
      ReverseInt64Bits(FromMsb(Chunk(d, 64 * k)));
      MsbFromMsb(Chunk(d, 64 * k));
    }
  }

  /** Blocks holding the chunks of the data spell out the data, followed by clear bits. */
  lemma DataBits(d: seq<bool>, blocks: seq<bv64>)
    requires ChunkBlocks(d, blocks)
    ensures AllBits(blocks)[..|d|] == d
    ensures ZeroFrom(AllBits(blocks), |d|)
  {
    var a := AllBits(blocks);
    forall i | 0 <= i < |a|
      ensures a[i] == (i < |d| && d[i])
    {
      var k, j := i / 64, i % 64;
      BitOfBlock(blocks, k, j);
      assert ChunkBlock(d, blocks, k);
    }
  }

  /** Every prefix of the data is a prefix of the bits of its blocks. */
  lemma DataPrefix(d: seq<bool>, blocks: seq<bv64>, n: nat)
    requires ChunkBlocks(d, blocks) && n <= |d|
    ensures AllBits(blocks)[..n] == d[..n]
  {
    DataBits(d, blocks);
    assert AllBits(blocks)[..n] == AllBits(blocks)[..|d|][..n];
  }

  /** The ones of the data blocks are the ones of the data. */
  lemma DataOnes(d: seq<bool>, blocks: seq<bv64>)
    requires ChunkBlocks(d, blocks)
    ensures BlocksRank(blocks, true, |blocks|) == Count(d, true)
  {
    DataBits(d, blocks);
    BlocksRankCount(blocks, true, |blocks|);
    assert AllBits(blocks)[..64 * |blocks|] == AllBits(blocks);
    CountZeroTail(AllBits(blocks), |d|);
  }

  /** A chunk read by the adapter as a word counts the ones of its block. */
  lemma ChunkOnes(d: seq<bool>, blocks: seq<bv64>, k: nat, w: bv64)
    requires ChunkBlocks(d, blocks) && k < |blocks| && Msb(w) == Chunk(d, 64 * k)
    ensures Count(Lsb(w), true) == Count(Lsb(blocks[k]), true)
  {
    assert ChunkBlock(d, blocks, k);
    ReverseInt64Bits(w);
    CountReversal(Lsb(w), Msb(w), true) by {
      forall i | 0 <= i < 64
        ensures Msb(w)[i] == Lsb(w)[63 - i]
      {
      }
    }
  }

  // ------------------------------------------------------ Counts in groups

  /** The bits equal to `value` in blocks `lo` to `n - 1`. */
  function BlocksRankFrom(blocks: seq<bv64>, value: bool, lo: nat, n: nat): nat
    requires lo <= n <= |blocks|
    decreases n - lo
  {
    if n == lo then 0 else BlocksRankFrom(blocks, value, lo, n - 1) + Count(Lsb(blocks[n - 1]), value)
  }

  /** Counting one more block. */
  lemma BlocksRankFromStep(blocks: seq<bv64>, value: bool, lo: nat, j: nat)
    requires lo <= j < |blocks|
    ensures BlocksRankFrom(blocks, value, lo, j + 1) == BlocksRankFrom(blocks, value, lo, j) + Count(Lsb(blocks[j]), value)
  {}

  /** A longer run of blocks counts at least as many bits equal to `value`. */
  lemma {:induction false} BlocksRankFromMonotone(blocks: seq<bv64>, value: bool, lo: nat, m: nat, n: nat)
    requires lo <= m <= n <= |blocks|
    ensures BlocksRankFrom(blocks, value, lo, m) <= BlocksRankFrom(blocks, value, lo, n)
    decreases n - m
  {
    if m < n {
      BlocksRankFromMonotone(blocks, value, lo, m, n - 1);
    }
  }

  /** Counting from block 0 to `n` is counting to `lo` and then from `lo` to `n`. */
  lemma {:induction false} BlocksRankSplit(blocks: seq<bv64>, value: bool, lo: nat, n: nat)
    requires lo <= n <= |blocks|
    ensures BlocksRank(blocks, value, n) == BlocksRank(blocks, value, lo) + BlocksRankFrom(blocks, value, lo, n)
    decreases n - lo
  {
    if n > lo {
      BlocksRankSplit(blocks, value, lo, n - 1);
    }
  }

  /** A run of blocks holds at most 64 bits equal to `value` per block. */
  lemma {:induction false} BlocksRankFromBound(blocks: seq<bv64>, value: bool, lo: nat, n: nat)
    requires lo <= n <= |blocks|
    ensures BlocksRankFrom(blocks, value, lo, n) <= 64 * (n - lo)
    decreases n - lo
  {
    if n > lo {
      BlocksRankFromBound(blocks, value, lo, n - 1);
    }
  }

  /** Every bit of a run of blocks is a one or a zero. */
  lemma BlocksRankFromComplement(blocks: seq<bv64>, lo: nat, n: nat)
    requires lo <= n <= |blocks|
    ensures BlocksRankFrom(blocks, true, lo, n) + BlocksRankFrom(blocks, false, lo, n) == 64 * (n - lo)
  {
    BlocksRankSplit(blocks, true, lo, n);
    BlocksRankSplit(blocks, false, lo, n);
    BlocksRankComplement(blocks, lo);
    BlocksRankComplement(blocks, n);
  }

  /** The first block of the group holding block `j`. */
  function GroupStart(j: nat): (s: nat)
    ensures s <= j < s + 1024 && s % 1024 == 0
  {
    j / 1024 * 1024
  }

  /** Number of rank-table entries for `b` chunks: one per group of the `b + 1` block-table entries. */
  function GroupCount(b: nat): (t: nat)
    ensures 1024 * (t - 1) <= b < 1024 * t
  {
    (b + 1 + 1024 - 1) / 1024
  }

  /** The rank table of `blocks`: entry `g` is the number of ones in the groups before group `g`. */
  function GroupTableOf(blocks: seq<bv64>): (table: seq<nat>)
    ensures |table| == GroupCount(|blocks|)
  {
    seq(GroupCount(|blocks|), g requires 0 <= g < GroupCount(|blocks|) =>
      BlocksRank(blocks, true, Min(1024 * g, |blocks|)))
  }

  /** The block table of `blocks`: entry `j` is the number of ones from the start of its group to block `j`. */
  function BlockTableOf(blocks: seq<bv64>): (table: seq<nat>)
    ensures |table| == |blocks| + 1
  {
    seq(|blocks| + 1, j requires 0 <= j <= |blocks| => BlocksRankFrom(blocks, true, GroupStart(j), j))
  }

  /** Every block-table entry fits in a `ushort`, and entries at group starts are zero. */
  lemma BlockTableShape(blocks: seq<bv64>, j: nat)
    requires j <= |blocks|
    ensures BlockTableOf(blocks)[j] <= UShortMax
    ensures j % 1024 == 0 ==> BlockTableOf(blocks)[j] == 0
    ensures j < |blocks| && (j + 1) % 1024 != 0 ==>
      BlockTableOf(blocks)[j] <= BlockTableOf(blocks)[j + 1]
  {
    BlocksRankFromBound(blocks, true, GroupStart(j), j);
    if j < |blocks| && (j + 1) % 1024 != 0 {
      assert GroupStart(j + 1) == GroupStart(j);
    }
  }

  /** The rank table starts at zero and never decreases. */
  lemma GroupTableShape(blocks: seq<bv64>, g: nat, h: nat)
    requires g <= h < GroupCount(|blocks|)
    ensures GroupTableOf(blocks)[0] == 0
    ensures GroupTableOf(blocks)[g] <= GroupTableOf(blocks)[h]
  {
    BlocksRankMonotone(blocks, true, Min(1024 * g, |blocks|), Min(1024 * h, |blocks|));
  }

  /** The ones of group `g`. */
  function GroupOnes(blocks: seq<bv64>, g: nat): nat {
    var lo := Min(1024 * g, |blocks|);
    BlocksRankFrom(blocks, true, lo, Min(lo + 1024, |blocks|))
  }

  /**
   * Group `g` is complete and its ones do not fit the 16-bit running count:
   * all its 65536 bits are set.
   */
  predicate FullGroup(blocks: seq<bv64>, g: nat) {
    1024 * (g + 1) <= |blocks| && GroupOnes(blocks, g) > UShortMax
  }

  /** Some group of `blocks` is full. */
  ghost predicate HasFullGroup(blocks: seq<bv64>) {
    exists g: nat :: FullGroup(blocks, g)
  }

  /** A group is full exactly when it is complete and every one of its bits is set. */
  lemma FullGroupAllOnes(blocks: seq<bv64>, g: nat)
    ensures GroupOnes(blocks, g) <= GroupSize
    ensures FullGroup(blocks, g) <==> 1024 * (g + 1) <= |blocks| && GroupOnes(blocks, g) == GroupSize
  {
    var lo := Min(1024 * g, |blocks|);
    BlocksRankFromBound(blocks, true, lo, Min(lo + 1024, |blocks|));
  }

  // ---------------------------------------------------- Building the index

  /** Every block of the data starts at a chunk boundary inside the data. */
  lemma BlockInside(n: nat, j: nat)
    requires j < BlockCount(n)
    ensures j * BlockSize == 64 * j < n && (64 * j) % 64 == 0
  {}

  /** The first block of group `i` and of the next, as the code computes them. */
  lemma TimesGroup(i: nat)
    ensures i * GroupBlocks == 1024 * i && (i + 1) * GroupBlocks == 1024 * (i + 1)
  {}

  /** Inside group `i`, a block-table entry counts from the group's first block. */
  lemma BlockEntry(blocks: seq<bv64>, i: nat, k: nat)
    requires 1024 * i <= k <= |blocks| && k < 1024 * (i + 1)
    ensures BlockTableOf(blocks)[k] == BlocksRankFrom(blocks, true, 1024 * i, k)
  {
    assert GroupStart(k) == 1024 * i;
  }

  /** The ones of a group that starts inside the blocks, from its first block `lo` to its end `hi`. */
  lemma GroupOnesAt(blocks: seq<bv64>, i: nat, lo: nat, hi: nat)
    requires lo == 1024 * i <= |blocks| && hi == Min(lo + 1024, |blocks|)
    ensures GroupOnes(blocks, i) == BlocksRankFrom(blocks, true, lo, hi)
  {}

  /** The ones of chunk `j`, read through the adapter. */
  method ChunkPopCount(data: Collection, ghost blocks: seq<bv64>, j: nat) returns (count: nat)
    requires ChunkBlocks(data.Bits(), blocks) && j < |blocks|
    ensures count == Count(Lsb(blocks[j]), true)
  {
    BlockInside(|data.Bits()|, j);
    var chunk := data.GetRangeInt64(j * BlockSize);
    ChunkOnes(data.Bits(), blocks, j, chunk.value);
    count := PopCountInt64(chunk.value);
  }

  /** Entries counted from the start of group `i` up to its end `j` are the block table's. */
  lemma GroupEntries(blocks: seq<bv64>, i: nat, table: seq<nat>, j: nat)
    requires 1024 * i <= j <= |blocks| && j <= 1024 * (i + 1) && |table| == |blocks| + 1
    requires j == |blocks| || j == 1024 * (i + 1)
    requires forall k {:trigger table[k]} :: 1024 * i <= k <= j && k < 1024 * (i + 1) ==> table[k] == BlocksRankFrom(blocks, true, 1024 * i, k)
    ensures forall k :: 1024 * i <= k < |table| && k < 1024 * (i + 1) ==> table[k] == BlockTableOf(blocks)[k]
  {
    forall k | 1024 * i <= k < |table| && k < 1024 * (i + 1)
      ensures table[k] == BlockTableOf(blocks)[k]
    {
      BlockEntry(blocks, i, k);
    }
  }

  /** One step of the group loop: count chunk `j` and store the count after it. */
  method GroupAdvance(ghost blocks: seq<bv64>, ghost lo: nat, table: seq<nat>, subTotal: nat, j: nat, count: nat)
    returns (table': seq<nat>, subTotal': nat, j': nat)
    requires lo <= j < |blocks| && j < |table| - 1
    requires subTotal == BlocksRankFrom(blocks, true, lo, j) && count == Count(Lsb(blocks[j]), true)
    requires forall k {:trigger table[k]} :: lo <= k <= j && k < lo + 1024 ==> table[k] == BlocksRankFrom(blocks, true, lo, k)
    ensures j' == j + 1 && table' == table[j' := subTotal'] && subTotal' == BlocksRankFrom(blocks, true, lo, j')
    ensures forall k {:trigger table'[k]} :: lo <= k <= j' && k < lo + 1024 ==> table'[k] == BlocksRankFrom(blocks, true, lo, k)
  {
    BlocksRankFromStep(blocks, true, lo, j);
    subTotal' := subTotal + count;
    j' := j + 1;
    table' := table[j' := subTotal'];
  }

  /**
   * BuildIndex's inner loop for group `i` as written: the running count of
   * ones since the group's first chunk is a `ushort` added to in a checked
   * context, and is stored after each chunk; `full` reports the checked
   * overflow, which a group of 65536 ones causes.
   */
  method FillGroupChecked(data: Collection, ghost blocks: seq<bv64>, blockTable: seq<nat>, i: nat)
    returns (table: seq<nat>, subTotal: nat, full: bool)
    requires ChunkBlocks(data.Bits(), blocks)
    requires |blockTable| == |blocks| + 1 && 1024 * i < |blockTable|
    ensures |table| == |blockTable|
    ensures full <==> FullGroup(blocks, i)
    ensures !full ==> subTotal == GroupOnes(blocks, i)
    ensures !full ==> forall k :: 0 <= k < 1024 * i ==> table[k] == blockTable[k]
    ensures !full ==> forall k :: 1024 * i <= k < |table| && k < 1024 * (i + 1) ==> table[k] == BlockTableOf(blocks)[k]
  {
    ghost var lo := 1024 * i;
    var blockCount := |blockTable|;
    subTotal := 0;
    full := false;
    TimesGroup(i);
    var j := i * GroupBlocks;
    table := blockTable[j := 0];
    while j < blockCount - 1 && j < (i + 1) * GroupBlocks
      invariant lo <= j <= lo + 1024 && j <= |blocks| && |table| == blockCount
      invariant subTotal == BlocksRankFrom(blocks, true, lo, j) <= UShortMax
      invariant forall k :: 0 <= k < lo ==> table[k] == blockTable[k]
      invariant forall k {:trigger table[k]} :: lo <= k <= j && k < lo + 1024 ==> table[k] == BlocksRankFrom(blocks, true, lo, k)
    {
      var count := ChunkPopCount(data, blocks, j);
      if subTotal + count > UShortMax {
        GroupOverflow(blocks, i, j, count);
        full := true;
        return;
      }
      table, subTotal, j := GroupAdvance(blocks, lo, table, subTotal, j, count);
    }
    GroupOnesAt(blocks, i, lo, j);
    GroupEntries(blocks, i, table, j);
  }

  /**
   * The 16-bit count overflows only on the group's last chunk: up to then it
   * is at most 64 * 1023, and the group then holds more than 65535 ones.
   */
  lemma GroupOverflow(blocks: seq<bv64>, i: nat, j: nat, count: nat)
    requires 1024 * i <= j < |blocks| && j < 1024 * (i + 1)
    requires count == Count(Lsb(blocks[j]), true)
    requires BlocksRankFrom(blocks, true, 1024 * i, j) + count > UShortMax
    ensures FullGroup(blocks, i)
  {
    var lo := 1024 * i;
    BlocksRankFromBound(blocks, true, lo, j);
    BlocksRankFromStep(blocks, true, lo, j);
    assert j + 1 == lo + 1024;
    GroupOnesAt(blocks, i, lo, j + 1);
  }

  /** Counting through group `i` adds the group's ones to the count before it. */
  lemma GroupStep(blocks: seq<bv64>, i: nat)
    requires 1024 * i <= |blocks|
    ensures Min(1024 * i, |blocks|) == 1024 * i
    ensures BlocksRank(blocks, true, Min(1024 * (i + 1), |blocks|)) == BlocksRank(blocks, true, 1024 * i) + GroupOnes(blocks, i)
  {
    var hi := Min(1024 * i + 1024, |blocks|);
    GroupOnesAt(blocks, i, 1024 * i, hi);
    BlocksRankSplit(blocks, true, 1024 * i, hi);
  }

  /**
   * BuildIndex's outer loop as written: for each group, its rank-table entry
   * is the running total of ones; `full` reports the checked overflow of a
   * group's 16-bit count, which leaves the tables partly filled.
   */
  method BuildTablesChecked(data: Collection, ghost blocks: seq<bv64>, blockCount: nat, tableCount: nat)
    returns (rankTable: seq<nat>, blockTable: seq<nat>, total: nat, full: bool)
    requires ChunkBlocks(data.Bits(), blocks)
    requires blockCount == |blocks| + 1 && tableCount == (blockCount + 1024 - 1) / 1024
    ensures full <==> HasFullGroup(blocks)
    ensures !full ==> rankTable == GroupTableOf(blocks) && blockTable == BlockTableOf(blocks)
    ensures !full ==> total == Count(data.Bits(), true)
    ensures |rankTable| == tableCount && |blockTable| == blockCount
  {
    rankTable := seq(tableCount, _ => 0);
    blockTable := seq(blockCount, _ => 0);
    total := 0;
    full := false;
    assert tableCount == GroupCount(|blocks|);
    var i := 0;
    while i < tableCount
      invariant 0 <= i <= tableCount == |rankTable| && |blockTable| == blockCount
      invariant total == BlocksRank(blocks, true, Min(1024 * i, |blocks|))
      invariant forall g :: 0 <= g < i ==> rankTable[g] == GroupTableOf(blocks)[g]
      invariant forall k :: 0 <= k < Min(1024 * i, blockCount) ==> blockTable[k] == BlockTableOf(blocks)[k]
      invariant forall g: nat :: g < i ==> !FullGroup(blocks, g)
    {
      GroupStep(blocks, i);
      rankTable := rankTable[i := total];
      var subTotal;
      blockTable, subTotal, full := FillGroupChecked(data, blocks, blockTable, i);
      if full {
        assert FullGroup(blocks, i);
        return;
      }
      total := total + subTotal;
      i := i + 1;
    }
    forall g: nat
      ensures !FullGroup(blocks, g)
    {
    }
    DataOnes(data.Bits(), blocks);
  }

  /** A run of blocks each holding 64 ones holds 64 ones per block. */
  lemma {:induction false} OnesRun(blocks: seq<bv64>, lo: nat, n: nat)
    requires lo <= n <= |blocks|
    requires forall k :: lo <= k < n ==> Count(Lsb(blocks[k]), true) == 64
    ensures BlocksRankFrom(blocks, true, lo, n) == 64 * (n - lo)
    decreases n - lo
  {
    if n > lo {
      OnesRun(blocks, lo, n - 1);
    }
  }

  /** A block of data whose bits are all set holds 64 ones. */
  lemma OnesBlock(d: seq<bool>, blocks: seq<bv64>, k: nat)
    requires ChunkBlocks(d, blocks) && k < |blocks| && 64 * (k + 1) <= |d|
    requires forall i :: 0 <= i < |d| ==> d[i]
    ensures Count(Lsb(blocks[k]), true) == 64
  {
    assert ChunkBlock(d, blocks, k);
    var c := Chunk(d, 64 * k);
    CountNone(c, false);
    CountComplement(c);
  }

  /**
   * 65536 set bits make a full first group, so BuildTablesChecked reports the
   * overflow for them (the source reports it as a bug).
   */
  lemma OnesOverflow()
    ensures HasFullGroup(DataBlocks(BoolListMapper(seq(65536, _ => true)).Bits()))
  {
    var d := seq(65536, _ => true);
    var blocks := DataBlocks(d);
    DataBlocksChunks(d);
    assert |blocks| == 1024;
    forall k | 0 <= k < 1024
      ensures Count(Lsb(blocks[k]), true) == 64
    {
      OnesBlock(d, blocks, k);
    }
    OnesRun(blocks, 0, 1024);
    GroupOnesAt(blocks, 0, 0, 1024);
    assert FullGroup(blocks, 0);
  }

  /**
   * BuildIndex's inner loop for group `i`, with the running count kept wide
   * enough for a full group; every entry it stores is one of the block
   * table's, which fit a `ushort` (BlockTableShape).
   */
  method FillGroup(data: Collection, ghost blocks: seq<bv64>, blockTable: seq<nat>, i: nat)
    returns (table: seq<nat>, subTotal: nat)
    requires ChunkBlocks(data.Bits(), blocks)
    requires |blockTable| == |blocks| + 1 && 1024 * i < |blockTable|
    ensures |table| == |blockTable|
    ensures subTotal == GroupOnes(blocks, i)
    ensures forall k :: 0 <= k < 1024 * i ==> table[k] == blockTable[k]
    ensures forall k :: 1024 * i <= k < |table| && k < 1024 * (i + 1) ==> table[k] == BlockTableOf(blocks)[k]
  {
    ghost var lo := 1024 * i;
    var blockCount := |blockTable|;
    subTotal := 0;
    TimesGroup(i);
    var j := i * GroupBlocks;
    table := blockTable[j := 0];
    while j < blockCount - 1 && j < (i + 1) * GroupBlocks
      invariant lo <= j <= lo + 1024 && j <= |blocks| && |table| == blockCount
      invariant subTotal == BlocksRankFrom(blocks, true, lo, j)
      invariant forall k :: 0 <= k < lo ==> table[k] == blockTable[k]
      invariant forall k {:trigger table[k]} :: lo <= k <= j && k < lo + 1024 ==> table[k] == BlocksRankFrom(blocks, true, lo, k)
    {
      var count := ChunkPopCount(data, blocks, j);
      table, subTotal, j := GroupAdvance(blocks, lo, table, subTotal, j, count);
    }
    GroupOnesAt(blocks, i, lo, j);
    GroupEntries(blocks, i, table, j);
  }

  /**
   * BuildIndex's outer loop, with wide group counts: the rank table holds
   * the ones before each group and the block table the ones from each
   * group's start to each block.
   */
  method BuildTables(data: Collection, ghost blocks: seq<bv64>, blockCount: nat, tableCount: nat)
    returns (rankTable: seq<nat>, blockTable: seq<nat>, total: nat)
    requires ChunkBlocks(data.Bits(), blocks)
    requires blockCount == |blocks| + 1 && tableCount == (blockCount + 1024 - 1) / 1024
    ensures rankTable == GroupTableOf(blocks) && blockTable == BlockTableOf(blocks)
    ensures total == Count(data.Bits(), true)
  {
    rankTable := seq(tableCount, _ => 0);
    blockTable := seq(blockCount, _ => 0);
    total := 0;
    assert tableCount == GroupCount(|blocks|);
    var i := 0;
    while i < tableCount
      invariant 0 <= i <= tableCount == |rankTable| && |blockTable| == blockCount
      invariant total == BlocksRank(blocks, true, Min(1024 * i, |blocks|))
      invariant forall g :: 0 <= g < i ==> rankTable[g] == GroupTableOf(blocks)[g]
      invariant forall k :: 0 <= k < Min(1024 * i, blockCount) ==> blockTable[k] == BlockTableOf(blocks)[k]
    {
      GroupStep(blocks, i);
      rankTable := rankTable[i := total];
      var subTotal;
      blockTable, subTotal := FillGroup(data, blocks, blockTable, i);
      total := total + subTotal;
      i := i + 1;
    }
    DataOnes(data.Bits(), blocks);
  }

  // ---------------------------------------------------------------- Rank

  /** The two table entries for block `j` add up to the ones before block `j`. */
  lemma TablesCount(blocks: seq<bv64>, j: nat)
    requires j <= |blocks|
    ensures j / 1024 < GroupCount(|blocks|)
    ensures GroupTableOf(blocks)[j / 1024] + BlockTableOf(blocks)[j] == BlocksRank(blocks, true, j)
  {
    TablesCountIn(blocks, j / 1024, j);
  }

  /** TablesCount for block `j` of group `g`. */
  lemma TablesCountIn(blocks: seq<bv64>, g: nat, j: nat)
    requires 1024 * g <= j <= |blocks| && j < 1024 * g + 1024
    ensures g < GroupCount(|blocks|)
    ensures GroupTableOf(blocks)[g] + BlockTableOf(blocks)[j] == BlocksRank(blocks, true, j)
  {
    assert Min(1024 * g, |blocks|) == 1024 * g;
    BlockEntry(blocks, g, j);
    BlocksRankSplit(blocks, true, 1024 * g, j);
  }

  /** The rank-table entry of block `k`'s group and the block-table entry of `k` add up to the ones before block `k`. */
  ghost predicate PrefixEntries(blocks: seq<bv64>, rankTable: seq<nat>, blockTable: seq<nat>, k: nat) {
    && k <= |blocks| && k / 1024 < |rankTable| && k < |blockTable|
    && rankTable[k / 1024] + blockTable[k] == BlocksRank(blocks, true, k)
  }

  /** The ones among the first `rest` bits of chunk `j`, read through the adapter most significant bit first. */
  method ChunkPrefixOnes(data: Collection, ghost blocks: seq<bv64>, j: nat, rest: Int32) returns (count: nat)
    requires ChunkBlocks(data.Bits(), blocks) && j < |blocks| && 0 < rest < 64
    ensures count == Count(Lsb(blocks[j])[..rest], true)
  {
    BlockInside(|data.Bits()|, j);
    var chunk := data.GetRangeInt64(j * BlockSize);
    assert ChunkBlock(data.Bits(), blocks, j);
    RankInt64UpperPrefix(chunk.value, rest, true);
    count := RankInt64Upper(chunk.value, rest, true);
  }

  /**
   * RankOne's arithmetic: the rank-table entry of the group, the block-table
   * entry of the block, and the ones among the first `rest` bits of the chunk.
   */
  method DataPrefixOnes(data: Collection, ghost blocks: seq<bv64>, rankTable: seq<nat>, blockTable: seq<nat>, count: nat)
    returns (rankOne: nat)
    requires ChunkBlocks(data.Bits(), blocks)
    requires count <= |data.Bits()| && PrefixEntries(blocks, rankTable, blockTable, count / 64)
    ensures rankOne == Count(data.Bits()[..count], true)
  {
    ghost var d := data.Bits();
    var blockIndex := count / BlockSize;
    var tableIndex := blockIndex / GroupBlocks;
    var rest := count % BlockSize;
    assert count == 64 * blockIndex + rest && rest < 64 && blockIndex <= |blocks|;
    assert tableIndex == blockIndex / 1024;
    rankOne := rankTable[tableIndex] + blockTable[blockIndex];
    PrefixOnesSplit(blocks, count, blockIndex, rest);
    if rest > 0 {
      var inChunk := ChunkPrefixOnes(data, blocks, blockIndex, rest);
      rankOne := rankOne + inChunk;
    } else if blockIndex < |blocks| {
      assert Lsb(blocks[blockIndex])[..0] == [];
    }
    DataPrefix(d, blocks, count);
  }

  // -------------------------------------------------------------- Select

  /** Below the rank table's end, the key of entry `g` counts the bits equal to `value` in the groups before `g`. */
  lemma GroupKey(blocks: seq<bv64>, value: bool, g: nat)
    requires g < GroupCount(|blocks|)
    ensures 1024 * g <= |blocks|
    ensures RunKey(GroupTableOf(blocks), value, g, 0, GroupSize) == BlocksRank(blocks, value, 1024 * g)
  {
    BlocksRankComplement(blocks, 1024 * g);
    assert (g - 0) * GroupSize == 65536 * g;
  }

  /** Inside group `i`, the key of block-table entry `m` counts the bits equal to `value` from the group's start to block `m`. */
  lemma BlockKey(blocks: seq<bv64>, value: bool, i: nat, m: nat)
    requires 1024 * i <= m <= |blocks| && m < 1024 * (i + 1)
    ensures RunKey(BlockTableOf(blocks), value, m, 1024 * i, BlockSize) == BlocksRankFrom(blocks, value, 1024 * i, m)
  {
    BlockEntry(blocks, i, m);
    BlocksRankFromComplement(blocks, 1024 * i, m);
    assert (m - 1024 * i) * BlockSize == 64 * (m - 1024 * i);
  }

  /**
   * Select's first binary search: the group holding the `rank`-th bit equal
   * to `value`, and the rank left to find inside it.
   */
  method FindGroup(ghost blocks: seq<bv64>, rankTable: seq<nat>, value: bool, rank: nat)
    returns (tableIndex: nat, wanted: nat)
    requires rankTable == GroupTableOf(blocks)
    requires 1 <= rank <= BlocksRank(blocks, value, |blocks|)
    ensures 1024 * tableIndex <= |blocks| && tableIndex < |rankTable|
    ensures BlocksRank(blocks, value, 1024 * tableIndex) + wanted == rank && 1 <= wanted
    ensures wanted <= BlocksRankFrom(blocks, value, 1024 * tableIndex, Min(1024 * (tableIndex + 1), |blocks|))
  {
    var left := SearchRange(rankTable, value, rank, 0, |rankTable|, GroupSize);
    if left == 0 {
      GroupKey(blocks, value, 0);
      assert false;
    }
    tableIndex := if left != 0 then left - 1 else 0;
    GroupKey(blocks, value, tableIndex);
    wanted := rank - RunKey(rankTable, value, tableIndex, 0, GroupSize);
    var hi := Min(1024 * (tableIndex + 1), |blocks|);
    if hi == 1024 * left {
      GroupKey(blocks, value, left);
    }
    BlocksRankMonotone(blocks, value, hi, |blocks|);
    BlocksRankSplit(blocks, value, 1024 * tableIndex, hi);
  }

  /** From entry `base` to entry `hi`, the keys of `table` count the bits equal to `value` from block `base` on. */
  ghost predicate KeysCount(blocks: seq<bv64>, table: seq<nat>, value: bool, base: nat, hi: nat) {
    base < hi <= |table| && base <= |blocks| && hi <= |blocks| + 1 &&
    forall m {:trigger RunKey(table, value, m, base, BlockSize)} :: base <= m < hi ==> RunKey(table, value, m, base, BlockSize) == BlocksRankFrom(blocks, value, base, m)
  }

  /** The keys of the block table inside group `i` count from the group's first block. */
  lemma GroupKeysCount(blocks: seq<bv64>, value: bool, i: nat)
    requires 1024 * i <= |blocks|
    ensures KeysCount(blocks, BlockTableOf(blocks), value, 1024 * i, Min(1024 * (i + 1), |blocks| + 1))
  {
    forall m | 1024 * i <= m < Min(1024 * (i + 1), |blocks| + 1)
      ensures RunKey(BlockTableOf(blocks), value, m, 1024 * i, BlockSize) == BlocksRankFrom(blocks, value, 1024 * i, m)
    {
      BlockKey(blocks, value, i, m);
    }
  }

  /**
   * What Select's second binary search finds: past the group's first entry,
   * the first key that reaches `wanted` marks the block holding the
   * `wanted`-th bit equal to `value` counted from block `base`.
   */
  lemma BlockFound(blocks: seq<bv64>, table: seq<nat>, value: bool, base: nat, hi: nat, wanted: nat, left: nat)
    requires KeysCount(blocks, table, value, base, hi)
    requires 1 <= wanted <= BlocksRankFrom(blocks, value, base, Min(hi, |blocks|))
    requires base <= left <= hi
    requires left > base ==> RunKey(table, value, left - 1, base, BlockSize) < wanted
    requires left < hi ==> RunKey(table, value, left, base, BlockSize) >= wanted
    ensures base < left <= |blocks|
    ensures RunKey(table, value, left - 1, base, BlockSize) == BlocksRankFrom(blocks, value, base, left - 1)
    ensures 1 <= wanted - BlocksRankFrom(blocks, value, base, left - 1) <= Count(Lsb(blocks[left - 1]), value)
  {
    var top := Min(hi, |blocks|);
    if left <= top {
      BlocksRankFromMonotone(blocks, value, base, left, top);
    }
    BlocksRankFromStep(blocks, value, base, left - 1);
  }

  /**
   * Select's second binary search, over the block-table entries of group
   * `tableIndex`: the block holding the `wanted`-th bit equal to `value` of
   * the group, and the rank left to find inside it.
   */
  method FindBlock(ghost blocks: seq<bv64>, blockTable: seq<nat>, value: bool, tableIndex: nat, wanted: nat)
    returns (blockIndex: nat, rest: nat)
    requires 1024 * tableIndex <= |blocks| && |blockTable| == |blocks| + 1
    requires KeysCount(blocks, blockTable, value, 1024 * tableIndex, Min(1024 * (tableIndex + 1), |blocks| + 1))
    requires 1 <= wanted <= BlocksRankFrom(blocks, value, 1024 * tableIndex, Min(1024 * (tableIndex + 1), |blocks|))
    ensures 1024 * tableIndex <= blockIndex < |blocks|
    ensures BlocksRankFrom(blocks, value, 1024 * tableIndex, blockIndex) + rest == wanted
    ensures 1 <= rest <= Count(Lsb(blocks[blockIndex]), value)
  {
    TimesGroup(tableIndex);
    var baseIndex := tableIndex * GroupBlocks;
    var nextBlockStart := (tableIndex + 1) * GroupBlocks;
    var min := if nextBlockStart > |blockTable| then |blockTable| else nextBlockStart;
    var left := SearchRange(blockTable, value, wanted, baseIndex, min, BlockSize);
    BlockFound(blocks, blockTable, value, baseIndex, min, wanted, left);
    // `left` is past the group's first entry, so the fallback to entry 0 is not taken.
    rest := wanted - RunKey(blockTable, value, left - 1, baseIndex, BlockSize);
    blockIndex := left - 1;
  }

  /**
   * Select's search: the group, then the block, then the bit inside the
   * chunk, read most significant bit first and reversed.
   */
  method SelectInData(data: Collection, ghost blocks: seq<bv64>, rankTable: seq<nat>, blockTable: seq<nat>, value: bool, rank: nat)
    returns (pos: nat)
    requires ChunkBlocks(data.Bits(), blocks)
    requires rankTable == GroupTableOf(blocks) && blockTable == BlockTableOf(blocks)
    requires 1 <= rank <= Count(data.Bits(), value)
    ensures IsSelect(data.Bits(), value, rank, pos)
  {
    ghost var d := data.Bits();
    DataBits(d, blocks);
    PrefixRank(blocks, |d|, value);
    var tableIndex, wanted := FindGroup(blocks, rankTable, value, rank);
    GroupKeysCount(blocks, value, tableIndex);
    var blockIndex, rest := FindBlock(blocks, blockTable, value, tableIndex, wanted);
    BlocksRankSplit(blocks, value, 1024 * tableIndex, blockIndex);
    BlockInside(|d|, blockIndex);
    var startIndex := blockIndex * BlockSize;
    var chunk := data.GetRangeInt64(startIndex);
    assert ChunkBlock(d, blocks, blockIndex);
    ReverseInt64Bits(chunk.value);
    var inBlock := SelectInt64Of(ReverseInt64(chunk.value), value, rest);
    pos := startIndex + inBlock;
    SelectInBlock(blocks, |d|, value, rank, blockIndex, rest, inBlock, pos);
  }

  /** The zeros among the first `count` bits are the ones' complement. */
  lemma RankOfOnes(s: seq<bool>, count: nat, ones: nat, value: bool)
    requires count <= |s| && ones == Count(s[..count], true)
    ensures ones <= count && Count(s[..count], value) == if value then ones else count - ones
  {
    CountComplement(s[..count]);
  }

  /** The ones in `[offset, index)` are the ones before `index` less those before `offset`; the zeros are the rest. */
  lemma RangeOfOnes(s: seq<bool>, offset: nat, index: nat, ones: nat, value: bool)
    requires offset <= index <= |s| && ones + Count(s[..offset], true) == Count(s[..index], true)
    ensures ones <= index - offset
    ensures Count(s[offset .. index], value) == if value then ones else (index - offset) - ones
  {
    CountPrefixMonotone(s, offset, index, true);
    CountComplement(s[offset .. index]);
  }

  /** `(b + 1023) / 1024` groups cover `b` block-table entries. */
  lemma GroupTableCount(blockCount: nat)
    ensures (blockCount + GroupBlocks - 1) / GroupBlocks == (blockCount + 1024 - 1) / 1024
  {}

  // ------------------------------------------------------------ UShortBitIndex

  class UShortBitIndex {
    /** `_data`: the collection the index reads; the index never changes it. */
    const data: Collection
    /** `_rankTable`: ones before each group of 1024 blocks. */
    var rankTable: seq<nat>
    /** `_blockTable`: ones from the start of a block's group to the block, one entry per block and one more. */
    var blockTable: seq<nat>
    /** `_length`: the number of bits, as of the last `BuildIndex`. */
    var length: nat
    /** `_totalPopCount`: the number of ones, as of the last `BuildIndex`. */
    var totalPopCount: nat
    /** The tables, the length and the total describe the data. */
    ghost var indexed: bool

    /** When indexed, the tables, the length and the total are those of the data's bits. */
    ghost predicate Valid()
      reads this
    {
      indexed ==>
        && length == data.AvailableLength()
        && rankTable == GroupTableOf(DataBlocks(data.Bits()))
        && blockTable == BlockTableOf(DataBlocks(data.Bits()))
        && totalPopCount == Count(data.Bits(), true)
    }

    /** UShortBitIndex(data): an index over `data` with the field initialisers' empty tables. */
    constructor(data: Collection)
      ensures this.data == data && Valid() && !indexed
      ensures rankTable == [] && blockTable == [] && length == 0 && totalPopCount == 0
    {
      this.data := data;
      rankTable := [];
      blockTable := [];
      length := 0;
      totalPopCount := 0;
      indexed := false;
    }

    /**
     * UShortBitIndex(data, buildIndex): the index, built when asked; the
     * overflow of BuildIndex escapes the constructor.
     */
    static method Create(data: Collection, buildIndex: bool) returns (r: Result<UShortBitIndex>)
      ensures !buildIndex ==> r.Ok? && fresh(r.value) && r.value.data == data && r.value.Valid() && !r.value.indexed
      ensures buildIndex ==>
        (r.Err? <==> BlockCount(data.AvailableLength()) + 1024 > IntMax || HasFullGroup(DataBlocks(data.Bits())))
      ensures buildIndex && r.Err? ==> r.error == Overflow
      ensures buildIndex && r.Ok? ==>
        fresh(r.value) && r.value.data == data && r.value.Valid() && r.value.indexed
    {
      var index := new UShortBitIndex(data);
      if buildIndex {
        var status := index.BuildIndex();
        if status.Err? {
          return Err(status.error);
        }
      }
      return Ok(index);
    }

    /**
     * BuildIndex(): the block table gets one entry per block of the data and
     * one more, the rank table one entry per group of 1024 of those, and
     * both are filled from the data's blocks, with the length and the number
     * of ones. A block table or rank table longer than an `int` is an
     * overflow: the first leaves the index as it was, the second after the
     * block table was reset. So is a group of 65536 ones, whose count leaves
     * the checked 16-bit running count: the length is set, the total is zero
     * and the tables are left partly filled.
     */
    method BuildIndex() returns (r: Result<()>)
      modifies this
      ensures BlockCount(data.AvailableLength()) + 1 > IntMax ==> r == Err(Overflow) && unchanged(this)
      ensures BlockCount(data.AvailableLength()) + 1 <= IntMax < BlockCount(data.AvailableLength()) + 1024 ==>
        && r == Err(Overflow) && !indexed && Valid()
        && blockTable == seq(BlockCount(data.AvailableLength()) + 1, _ => 0)
        && rankTable == old(rankTable) && length == old(length) && totalPopCount == old(totalPopCount)
      ensures BlockCount(data.AvailableLength()) + 1024 <= IntMax && HasFullGroup(DataBlocks(data.Bits())) ==>
        && r == Err(Overflow) && !indexed && Valid()
        && length == |data.Bits()| && totalPopCount == 0
        && |blockTable| == BlockCount(data.AvailableLength()) + 1
        && |rankTable| == (BlockCount(data.AvailableLength()) + 1024) / 1024
      ensures BlockCount(data.AvailableLength()) + 1024 <= IntMax && !HasFullGroup(DataBlocks(data.Bits())) ==>
        && r == Ok(()) && Valid() && indexed
        && length == |data.Bits()| && totalPopCount == Count(data.Bits(), true)
    {
      var n := data.AvailableLength();
      // `n + 63` cannot overflow: an adapter holds at most 64 * int.MaxValue bits.
      var blocksNeeded := (n + BlockSize - 1) / BlockSize;
      assert blocksNeeded == BlockCount(n);
      if blocksNeeded + 1 > IntMax {
        return Err(Overflow);
      }
      var blockCount := blocksNeeded + 1;
      indexed := false;
      blockTable := seq(blockCount, _ => 0);
      if blockCount + GroupBlocks - 1 > IntMax {
        return Err(Overflow);
      }
      var tableCount := (blockCount + GroupBlocks - 1) / GroupBlocks;
      GroupTableCount(blockCount);
      ghost var blocks := DataBlocks(data.Bits());
      DataBlocksChunks(data.Bits());
      var ranks, entries, total, full := BuildTablesChecked(data, blocks, blockCount, tableCount);
      rankTable := ranks;
      blockTable := entries;
      length := n;
      if full {
        totalPopCount := 0;
        return Err(Overflow);
      }
      totalPopCount := total;
      indexed := true;
      return Ok(());
    }

    /**
     * BuildIndex() with the corrected group count: the running count of a
     * group is kept wide enough for a group of 65536 ones, so the build
     * fails only on the table sizes and otherwise always yields the index.
     */
    method BuildIndexWide() returns (r: Result<()>)
      modifies this
      ensures BlockCount(data.AvailableLength()) + 1 > IntMax ==> r == Err(Overflow) && unchanged(this)
      ensures BlockCount(data.AvailableLength()) + 1 <= IntMax < BlockCount(data.AvailableLength()) + 1024 ==>
        && r == Err(Overflow) && !indexed && Valid()
        && blockTable == seq(BlockCount(data.AvailableLength()) + 1, _ => 0)
        && rankTable == old(rankTable) && length == old(length) && totalPopCount == old(totalPopCount)
      ensures BlockCount(data.AvailableLength()) + 1024 <= IntMax ==>
        && r == Ok(()) && Valid() && indexed
        && length == |data.Bits()| && totalPopCount == Count(data.Bits(), true)
    {
      var n := data.AvailableLength();
      // `n + 63` cannot overflow: an adapter holds at most 64 * int.MaxValue bits.
      var blocksNeeded := (n + BlockSize - 1) / BlockSize;
      assert blocksNeeded == BlockCount(n);
      if blocksNeeded + 1 > IntMax {
        return Err(Overflow);
      }
      var blockCount := blocksNeeded + 1;
      indexed := false;
      blockTable := seq(blockCount, _ => 0);
      if blockCount + GroupBlocks - 1 > IntMax {
        return Err(Overflow);
      }
      var tableCount := (blockCount + GroupBlocks - 1) / GroupBlocks;
      GroupTableCount(blockCount);
      ghost var blocks := DataBlocks(data.Bits());
      DataBlocksChunks(data.Bits());
      var ranks, entries, total := BuildTables(data, blocks, blockCount, tableCount);
      rankTable := ranks;
      blockTable := entries;
      length := n;
      totalPopCount := total;
      indexed := true;
      return Ok(());
    }

    /** RankOne(count): the number of ones among the first `count` bits. */
    method RankOne(count: ULong) returns (rankOne: nat)
      requires Valid() && indexed && count <= length
      ensures rankOne == Count(data.Bits()[..count], true)
    {
      DataBlocksChunks(data.Bits());
      TablesCount(DataBlocks(data.Bits()), count / 64);
      rankOne := DataPrefixOnes(data, DataBlocks(data.Bits()), rankTable, blockTable, count);
    }

    /** Access(index): bit `index` of the data, read through the adapter. */
    method Access(index: ULong) returns (r: Result<bool>)
      ensures index < |data.Bits()| ==> r == Ok(data.Bits()[index])
      ensures index >= |data.Bits()| ==> r.Err?
    {
      r := data.Access(index);
    }

    /** Rank(value, count): the number of bits equal to `value` among the first `count` bits. */
    method Rank(value: bool, count: ULong) returns (r: Result<nat>)
      requires Valid() && indexed
      ensures count == 0 ==> r == Err(InvalidOperation)
      ensures count > length ==> r == Err(IndexOutOfRange)
      ensures 0 < count <= length ==> r == Ok(Count(data.Bits()[..count], value))
    {
      if count == 0 {
        return Err(InvalidOperation);
      }
      if count > length {
        return Err(IndexOutOfRange);
      }
      var ones := RankOne(count);
      RankOfOnes(data.Bits(), count, ones, value);
      return Ok(if value then ones else count - ones);
    }

    /**
     * Rank(value, count, offset): the number of bits equal to `value` among
     * the `count` bits from `offset`; a range past the end is out of range.
     */
    method RankWithOffset(value: bool, count: ULong, offset: ULong) returns (r: Result<nat>)
      requires Valid() && indexed
      ensures count == 0 ==> r == Err(InvalidOperation)
      ensures count > 0 && offset + count > length ==> r == Err(IndexOutOfRange)
      ensures count > 0 && offset + count <= length ==> r == Ok(Count(data.Bits()[offset .. offset + count], value))
    {
      if count == 0 {
        return Err(InvalidOperation);
      }
      var index := offset + count;
      if index > length {
        return Err(IndexOutOfRange);
      }
      var result: nat;
      var upTo := RankOne(index);
      if offset == 0 {
        assert data.Bits()[..offset] == [];
        result := upTo;
      } else {
        var before := RankOne(offset);
        CountPrefixMonotone(data.Bits(), offset, index, true);
        result := upTo - before;
      }
      RangeOfOnes(data.Bits(), offset, index, result, value);
      return Ok(if value then result else (index - offset) - result);
    }

    /**
     * Select(value, rank): the position of the `rank`-th bit equal to
     * `value`, found by a binary search of the rank table, a binary search of
     * the block table inside one group and a select inside one block; a zero
     * rank or one past the number of such bits is an invalid operation.
     */
    method Select(value: bool, rank: ULong) returns (r: Result<nat>)
      requires Valid() && indexed
      ensures rank == 0 || rank > Count(data.Bits(), value) ==> r == Err(InvalidOperation)
      ensures 0 < rank <= Count(data.Bits(), value) ==> r.Ok? && IsSelect(data.Bits(), value, rank, r.value)
    {
      if rank == 0 {
        return Err(InvalidOperation);
      }
      CountComplement(data.Bits());
      if (value && rank > totalPopCount) || (!value && rank > length - totalPopCount) {
        return Err(InvalidOperation);
      }
      DataBlocksChunks(data.Bits());
      var pos := SelectInData(data, DataBlocks(data.Bits()), rankTable, blockTable, value, rank);
      return Ok(pos);
    }

    /**
     * Select(value, rank, offset): the position of the `rank`-th bit equal
     * to `value` from `offset` on, as Select of the rank before `offset`
     * plus `rank`; a zero rank is an invalid operation, `offset + rank` past
     * the end is out of range, and a rank past the bits equal to `value` is
     * an invalid operation.
     */
    method SelectWithOffset(value: bool, rank: ULong, offset: ULong) returns (r: Result<nat>)
      requires Valid() && indexed
      ensures rank == 0 ==> r == Err(InvalidOperation)
      ensures rank > 0 && offset + rank > length ==> r == Err(IndexOutOfRange)
      ensures rank > 0 && offset + rank <= length && Count(data.Bits()[..offset], value) + rank > Count(data.Bits(), value) ==>
        r == Err(InvalidOperation)
      ensures rank > 0 && offset + rank <= length && Count(data.Bits()[..offset], value) + rank <= Count(data.Bits(), value) ==>
        r.Ok? && offset <= r.value && IsSelect(data.Bits(), value, Count(data.Bits()[..offset], value) + rank, r.value)
    {
      if rank == 0 {
        return Err(InvalidOperation);
      }
      if offset + rank > length {
        return Err(IndexOutOfRange);
      }
      CountComplement(data.Bits());
      if (value && rank > totalPopCount) || (!value && rank > length - totalPopCount) {
        return Err(InvalidOperation);
      }
      if offset == 0 {
        assert data.Bits()[..offset] == [];
        r := Select(value, rank);
      } else {
        var before := Rank(value, offset);
        var totalRank := before.value + rank;
        if (value && totalRank > totalPopCount) || (!value && totalRank > length - totalPopCount) {
          return Err(InvalidOperation);
        }
        r := Select(value, totalRank);
      }
      if r.Ok? {
        SelectPastPrefix(data.Bits(), value, offset, rank, r.value);
      }
    }
  }
}
