# SucCs bit vectors in Dafny

SucCs is a C# library of succinct bit vectors. A bit vector answers three
queries:
- `Access(i)`: the bit at position `i`;
- `Rank(value, count)`: how many of the first `count` bits equal `value`;
- `Select(value, rank)`: the position of the `rank`-th bit equal to `value`.

This project models the bit-vector core of the library and proves the
queries correct against one abstract view of the bits. That view is a
`seq<bool>`, with `Count` for rank and `IsSelect` for select (`bitseq.dfy`).

## What is modelled

- **Word operations** (`BitUtility`, `bit_utility.dfy`). These are:
  - the SWAR population count;
  - rank over a whole word, over its upper bits and over its lower bits;
  - the SWAR select;
  - 64-bit and 32-bit bit reversal;
  - packing booleans and pairs of 32-bit words into a 64-bit word, and unpacking a word into booleans.

  Each one works on `bv64` and is proved against the word's bit sequence (`Word.Lsb` / `Word.Msb`, `word.dfy`). The lane-by-lane arithmetic the SWAR code relies on is in `swar.dfy`.
- **Storage adapters** (`Mapper`, `mapper.dfy`).
  - `BoolListMapper`, `UIntListMapper` and `ULongListMapper` are the three cases of one datatype, `Collection`. It stands for the `IIndexAccessibleCollection` interface.
  - Each case exposes its bits most significant first (`Collection.Bits`).
  - `AvailableLength`, `Access` and `GetRangeInt64` are modelled with the exceptions each adapter raises. The Bool adapter's `AccessRange` is modelled too.
- **`BitVector`** (`BitVectors`, `bit_vector.dfy`). This is a class with the C# fields:
  - the blocks, each holding bits least significant first;
  - the rank table, one entry per group of four blocks;
  - the length and the total number of ones.

  Every mutator and query is a method over those fields.
  - `Valid()` ties the fields together.
  - The ghost flag `indexed` records that the rank table and the total are current, that is, that `BuildIndex` has run since the last mutation.
- **`UShortBitIndex`** (`UShortIndex`, `ushort_bit_index.dfy`). This is a read-only index over an adapter, with two tables:
  - a rank table per group of 1024 chunks;
  - a 16-bit block table per chunk, counted from the start of its group.

  Its proofs read the adapter's chunks as bit-vector blocks (`DataBlocks`), so the block lemmas of `BitVectors` carry over.

Exceptions are `Err` values of `Outcome.Result`. The C# integer types are explicit:
- `ulong` is `ULong`, an int subset type;
- `int` is `Int32`;
- an unchecked `(int)` cast is `TruncateToInt32`;
- a wrapped `ulong` sum is `WrappedSum`.

## Model

| member | source | states |
|---|---|---|
| BitUtility.PopCountCorrect | succs/BitVector/BitUtility.cs:15-18 | the three SWAR steps followed by the byte-summing multiplication leave exactly the number of one bits in the top byte |
| BitUtility.PopCountInt64 | succs/BitVector/BitUtility.cs:13-19 | the result is the number of one bits of the word |
| BitUtility.RankInt64 | succs/BitVector/BitUtility.cs:22-27 | the result is the number of bits of the word equal to `value` (ones, or zeros via the complement) |
| BitUtility.RankInt64Complement | succs/BitVector/BitUtility.cs:22-27 | the ones and the zeros of a word add up to 64 |
| BitUtility.RankInt64Upper | succs/BitVector/BitUtility.cs:30-36 | offset 0 gives 0; otherwise the count of `value` among the top `64 - (64 - offset) mod 64` bits, the shift count taken modulo 64 as C# does |
| BitUtility.RankInt64UpperPrefix | succs/BitVector/BitUtility.cs:30-36 | for an offset from 1 to 64, the result counts `value` among the first `offset` bits read from the most significant end |
| BitUtility.RankInt64OfLowerMask | succs/BitVector/BitUtility.cs:39-44 | the result counts `value` among the lowest `upLimitOffset mod 64` bits |
| BitUtility.SelectInt64 | succs/BitVector/BitUtility.cs:48-78 | the result is below 64; for a rank from 1 to the number of ones it is the position, from the least significant end, of the `rank`-th one |
| BitUtility.SelectInt64Of | succs/BitVector/BitUtility.cs:81-86 | the same for either bit value: for a rank from 1 to the count of `value`, the position of the `rank`-th bit equal to `value` |
| BitUtility.SelectOfComplement | succs/BitVector/BitUtility.cs:81-86 | selecting ones in the complemented word selects zeros in the word |
| BitUtility.SelectInvertsRank | succs/BitVector/BitUtility.cs:39-86 | the selected bit holds `value`, and the lower-mask rank up to it is `rank - 1` |
| BitUtility.RankOfSelected | succs/BitVector/BitUtility.cs:39-86 | the lower-mask rank through the selected position is `rank` |
| BitUtility.ReverseInt64Bits | succs/BitVector/BitUtility.cs:89-100 | the bits of the result, least significant first, are the bits of the input, most significant first |
| BitUtility.ReverseInt64Involution | succs/BitVector/BitUtility.cs:89-100 | reversing twice gives the word back |
| BitUtility.ReverseInt32 | succs/BitVector/BitUtility.cs:103-110 | the result, computed in 32-bit arithmetic, has no bit above bit 31 |
| BitUtility.ReverseInt32Bits | succs/BitVector/BitUtility.cs:103-110 | bit `i` of the result is bit `31 - i` of the input for `i < 32`, and the upper 32 bits are clear |
| BitUtility.ReverseInt32Involution | succs/BitVector/BitUtility.cs:103-110 | reversing a 32-bit value twice gives it back |
| BitUtility.BoolToUlong | succs/BitVector/BitUtility.cs:113-129 | when `index + 64` fits a `ulong`, the bits of the result, most significant first, are the 64 items from `index` on, with items past the end read as false; when the sum wraps, the loop does not run and the result is 0 |
| BitUtility.BoolToUlongList | succs/BitVector/BitUtility.cs:132-148 | a negative index is out of range for the list indexer; when `index + 64` fits an `int`, the result packs the 64 items from `index` on; when the `int` sum wraps, the result is 0 |
| BitUtility.BoolToUlongListWide | succs/BitVector/BitUtility.cs:132-148 | with the loop bound computed without wrap-around, every non-negative index packs the 64 items from `index` on |
| BitUtility.BoolToUlongListDropsTail | succs/BitVector/BitUtility.cs:136 | for a list of 2^31 - 1 true items and index 2^31 - 64, the packed word should start with a one, but the wrapped loop bound gives 0 |
| BitUtility.UIntToUlong | succs/BitVector/BitUtility.cs:151-163 | the bits of the result, most significant first, are the word at `index` followed by the word after it, with a missing word reading as zero |
| BitUtility.UIntToUlongList | succs/BitVector/BitUtility.cs:166-178 | a negative index is out of range for the list indexer; otherwise, as for the array form |
| BitUtility.ULongToBool | succs/BitVector/BitUtility.cs:181-189 | a fresh array of 64 booleans, the bits of the word most significant first |
| BitUtility.ULongRoundTrip | succs/BitVector/BitUtility.cs:181-189 | unpacking a word with ULongToBool and packing it back with BoolToUlong gives the word |
| Mapper.Collection.AvailableLength | succs/BitVector/IIndexAccessibleCollection.cs:10 | the number of bits the adapter exposes, below 2^64 |
| Mapper.Collection.Access | succs/BitVector/IIndexAccessibleCollection.cs:14 | below the length, the exposed bit; at or past it, an error |
| Mapper.Collection.GetRangeInt64 | succs/BitVector/IIndexAccessibleCollection.cs:12 | at a 64-aligned index inside the data, the 64 exposed bits from `index` on, most significant first, zero-padded past the end |
| Mapper.BoolAccess | succs/BitVector/Mapper/BoolListMapper.cs:23-40 | below the count, the item; an index past `int` is an overflow; an index in `int` but past the count is out of range |
| Mapper.BoolGetRangeInt64 | succs/BitVector/Mapper/BoolListMapper.cs:18-21 | for an index that fits an `int`, the packed 64 items from `index` on, alignment not demanded |
| Mapper.BoolAccessRange | succs/BitVector/Mapper/BoolListMapper.cs:42-64 | an end past `int` (or a `ulong` sum that overflows) is an overflow; otherwise the items from `offset` up to the earlier of `offset + count` and the end of the list |
| Mapper.UIntAccess | succs/BitVector/Mapper/UIntListMapper.cs:25-44 | below `32 * count`, bit `31 - index mod 32` of word `index / 32`; a word index past `int` is an overflow; a word index in `int` but past the end is out of range |
| Mapper.UIntGetRangeInt64 | succs/BitVector/Mapper/UIntListMapper.cs:16-23 | an index not a multiple of 32 is an invalid operation; a 64-aligned index inside the data gives the 64 exposed bits from it; a word index past the data that fits an `int` gives zero; otherwise the word pair at the word index's low 32 bits, missing words reading as zero, and an argument error where those bits make a negative `int` |
| Mapper.UIntRangeChunk | succs/BitVector/Mapper/UIntListMapper.cs:21-22 | joining word `index / 32` with its successor gives the exposed bits from `index` on |
| Mapper.ULongAccess | succs/BitVector/Mapper/ULongListMapper.cs:24-43 | below `64 * count`, bit `63 - index mod 64` of word `index / 64`; a word index past `int` is an overflow; a word index in `int` but past the end is out of range |
| Mapper.ULongGetRangeInt64 | succs/BitVector/Mapper/ULongListMapper.cs:16-22 | an index not a multiple of 64 is an invalid operation; an aligned index inside the data gives word `index / 64`, which holds the exposed bits from `index` on; an aligned index past the data whose word index fits an `int` is an argument error; otherwise the word at the word index's low 32 bits if that is a valid position, and an argument error if not |
| Mapper.PackedWordsRead | succs.Test/BitVector/Mapper/ULongListMapperTest.cs:14-17 | words packed with BoolToUlong from consecutive 64-item chunks of a list, wrapped in a `ulong` adapter, read back every item of the list |
| BitVectors.BitVector.Create | succs/BitVector/BitVector.cs:100-103 | a vector of `n` false bits, indexed, with total 0; an overflow exactly when the block count leaves no room for the rank table in `int` |
| BitVectors.BitVector.Initialize | succs/BitVector/BitVector.cs:53-77 | a block count past `int` fails before any change; a rank-table size past `int` fails after the blocks are replaced; otherwise all bits are false, `n` long, with a zeroed table |
| BitVectors.BitVector.Clear | succs/BitVector/BitVector.cs:354-357 | the same length, every bit false, total 0; when the rank table would not fit an `int`, an overflow after the blocks are zeroed, with the length, the rank table and the total kept |
| BitVectors.BitVector.Resize | succs/BitVector/BitVector.cs:359-362 | the new length, every bit false, total 0; a block count past `int` fails with nothing changed, and a rank table past `int` fails after the blocks are replaced by zero blocks, with the length, the rank table and the total kept |
| BitVectors.BitVector.Access | succs/BitVector/BitVector.cs:201-207 | below the length, bit `index` of the vector; otherwise out of range |
| BitVectors.BitVector.Set | succs/BitVector/BitVector.cs:109-121 | below the length, the bits become the old bits with position `index` set to `value` and the index is stale; otherwise out of range with nothing changed; the table and the total stay as they were |
| BitVectors.BitVector.Toggle | succs/BitVector/BitVector.cs:164-170 | below the length, exactly bit `index` flips; otherwise out of range with nothing changed |
| BitVectors.BitVector.SetRange | succs/BitVector/BitVector.cs:123-162 | an empty value is an invalid operation; a range running past the length is out of range; otherwise the bits from `index` on are overwritten with the value and no others change |
| BitVectors.WriteBlocks | succs/BitVector/BitVector.cs:133-161 | the loops of SetRange write exactly the value's bits, in order, into the blocks |
| BitVectors.BitVector.ToggleRange | succs/BitVector/BitVector.cs:172-199 | a zero count is an invalid operation; a last index at or past the length is out of range; otherwise exactly the bits in `[offset, offset + count)` flip |
| BitVectors.FlipBlocks | succs/BitVector/BitVector.cs:181-198 | the loops of ToggleRange flip exactly the bits from `offset` through `maxIndex` |
| BitVectors.FlipRangeTwice | succs/BitVector/BitVector.cs:172-199 | toggling the same range twice restores the bits |
| BitVectors.CountFlipRange | succs/BitVector/BitVector.cs:172-199 | toggling a range trades the range's ones for its zeros in the vector's count of ones |
| BitVectors.BitVector.AccessRange | succs/BitVector/BitVector.cs:209-237 | a zero count is an invalid operation; `offset + count` at or past the length is out of range; otherwise the `count + 1` bits from `offset` through `offset + count` (sum taken without wrap-around) |
| BitVectors.ReadBlocks | succs/BitVector/BitVector.cs:219-236 | the loops of AccessRange yield exactly the bits from `offset` through `lastIndex`, in order |
| BitVectors.ReadInBlock | succs/BitVector/BitVector.cs:230-235 | shifting a block right and emitting its low bit yields bits `startMask` through `endMask` of the block |
| BitVectors.AccessRangeOverreads | succs/BitVector/BitVector.cs:214-236 | for a range inside the bits, what AccessRange yields is the intended `count` bits followed by the bit at `offset + count` |
| BitVectors.WrappedGuardAdmits | succs/BitVector/BitVector.cs:255-257 | the wrapped guard admits a range ending past the bound exactly when the sum passes 2^64 - 1 and wraps to at most the bound |
| BitVectors.WrappedSelectOffsetPastEnd | succs/BitVector/BitVector.cs:331-344 | a rank no larger than the length that the wrapped guard lets through past the end starts past the end, so the `Rank(value, offset)` that follows refuses it |
| BitVectors.WrappedLastIndexAdmits | succs/BitVector/BitVector.cs:177-181 | the wrapped last index admits a range ending past the bound exactly when it passes 2^64 - 1 and wraps below the bound |
| BitVectors.BitVector.AccessRangeExact | succs/BitVector/BitVector.cs:209-237 | the intended range read: exactly the `count` bits from `offset` on, out of range only past the end |
| BitVectors.BitVector.BuildIndex | succs/BitVector/BitVector.cs:390-418 | a table size past `int` is an overflow with nothing changed; otherwise the blocks are untouched, rank-table entry `g` is the number of ones before block `4g`, the total is the number of ones, and the vector is indexed |
| BitVectors.RankTableFor | succs/BitVector/BitVector.cs:407-417 | the loops of BuildIndex produce exactly that table and the count of ones in all blocks |
| BitVectors.RankTableShape | succs/BitVector/BitVector.cs:410-416 | the rank table starts at 0 and never decreases |
| BitVectors.RankTableCounts | succs/BitVector/BitVector.cs:410-416 | entry `g` counts the ones among the first `256 g` bits, capped at the block count |
| BitVectors.BitVector.TotalIsOnes | succs/BitVector/BitVector.cs:417 | on an indexed vector, the total is the number of ones, and the length minus it the number of zeros |
| BitVectors.BitVector.RankOne | succs/BitVector/BitVector.cs:79-94 | on an indexed vector, the number of ones among the first `count` bits |
| BitVectors.PrefixOnes | succs/BitVector/BitVector.cs:81-93 | table entry, whole-block pop-counts and the lower-mask rank of the last block add up to the ones before `count` |
| BitVectors.BitVector.Rank | succs/BitVector/BitVector.cs:239-248 | zero count is an invalid operation; past the length is out of range; otherwise the count of `value` among the first `count` bits |
| BitVectors.BitVector.RankWithOffset | succs/BitVector/BitVector.cs:250-270 | zero count is an invalid operation; a range past the length (sum taken without wrap-around) is out of range; otherwise the count of `value` in `[offset, offset + count)` |
| BitVectors.BitVector.Select | succs/BitVector/BitVector.cs:272-324 | rank 0, or a rank above the count of `value`, is an invalid operation; otherwise the position of the `rank`-th bit equal to `value` |
| BitVectors.SearchRange | succs/BitVector/BitVector.cs:282-297 | the binary search returns the first table entry whose key reaches `rank`: keys before it are below `rank` and the key at it is not |
| BitVectors.ScanBlocks | succs/BitVector/BitVector.cs:311-319 | the block scan stops at the block holding the wanted bit, leaving a rank from 1 to that block's count of `value` |
| BitVectors.SelectInBlocks | succs/BitVector/BitVector.cs:281-323 | group search, block scan and in-word select together find the `rank`-th bit equal to `value` |
| BitVectors.BitVector.SelectWithOffset | succs/BitVector/BitVector.cs:326-352 | rank 0 is an invalid operation; `offset + rank` past the length is out of range; a rank beyond the bits after `offset` is an invalid operation; otherwise the `rank`-th bit equal to `value` at or after `offset` (sum taken without wrap-around) |
| BitVectors.BitVector.Extend | succs/BitVector/BitVector.cs:364-388 | a new length whose block count overflows fails with nothing changed; otherwise the bits are the old bits followed by `count` false bits; when the rank table fits an `int` the vector is re-indexed, the total becoming the number of ones in the old bits, and when it does not the call fails with the rank table kept, the total zero and the index invalid (the length sum is taken without wrap-around) |
| BitVectors.BitVector.GrowTo | succs/BitVector/BitVector.cs:372-379 | the blocks grow to the new block count with zero blocks, appending false bits |
| BitVectors.WrappedSum | succs/BitVector/BitVector.cs:255 | `offset + count` in `ulong`: the sum itself below 2^64, the sum less 2^64 above |
| BitVectors.WrappedRangeAdmitted | succs/BitVector/BitVector.cs:255-257 | offset 2^64 - 1 with count 2 wraps to 1, within a 64-bit vector, although the range lies past its end |
| BitVectors.WrappedToggleAdmitted | succs/BitVector/BitVector.cs:177-181 | offset 2^38 with a count that wraps the last index to 0 passes the guard, and the first block index truncates to 0 |
| BitVectors.ExtendedLength | succs/BitVector/BitVector.cs:366 | the new length is the wrapped `ulong` sum |
| BitVectors.ExtendShrinks | succs/BitVector/BitVector.cs:366 | the wrapped new length is below the old one exactly when `_length + count` passes 2^64 - 1 |
| BitVectors.ExtendWrapShrinks | succs/BitVector/BitVector.cs:366-378 | extending a 64-bit vector by 2^64 - 1 gives length 63 with the same single block |
| BitVectors.ExtendWrapDropsBlocks | succs/BitVector/BitVector.cs:366-376 | extending a 128-bit vector by 2^64 - 64 gives length 64, whose one block is fewer than the two the vector holds |
| UShortIndex.UShortBitIndex.constructor | succs/BitVector/UShortBitIndex.cs:57-62 | an index over the adapter, empty tables, not yet indexed |
| UShortIndex.UShortBitIndex.Create | succs/BitVector/UShortBitIndex.cs:57-62 | without a build, an unindexed index; with one, an overflow exactly when the table sizes leave `int` or some group of 1024 chunks holds 65536 ones, and otherwise an indexed index over the adapter |
| UShortIndex.UShortBitIndex.BuildIndex | succs/BitVector/UShortBitIndex.cs:231-289 | a block count past `int` fails with nothing changed; a rank-table size past `int` fails after the block table is zeroed; a group holding 65536 ones overflows the checked 16-bit count and fails with the length set, the total zero, the tables of their full sizes and the index invalid; otherwise the length is the adapter's, the tables are the group and block counts, and the total is the number of ones |
| UShortIndex.UShortBitIndex.BuildIndexWide | succs/BitVector/UShortBitIndex.cs:231-282 | with the group count kept wide: fails only on the table sizes, as BuildIndex does, and otherwise the length is the adapter's, the tables are the group and block counts, and the total is the number of ones |
| UShortIndex.BuildTables | succs/BitVector/UShortBitIndex.cs:260-282 | the loops produce exactly the group table and the block table of the data, and the number of ones |
| UShortIndex.FillGroup | succs/BitVector/UShortBitIndex.cs:268-280 | one group's pass leaves earlier entries alone, fills the group's block-table entries with the ones since the group start, and returns the group's ones |
| UShortIndex.FillGroupChecked | succs/BitVector/UShortBitIndex.cs:268-280 | with the 16-bit running count checked, the pass overflows exactly when the group is full, and otherwise returns the group's ones |
| UShortIndex.BuildTablesChecked | succs/BitVector/UShortBitIndex.cs:260-288 | the checked build fails exactly when some group is full, and otherwise yields the group table, the block table and the number of ones |
| UShortIndex.FullGroupAllOnes | succs/BitVector/UShortBitIndex.cs:269-277 | a group holds at most 65536 ones, and it overflows the running count exactly when it is complete and all 65536 bits are set |
| UShortIndex.OnesOverflow | succs/BitVector/UShortBitIndex.cs:276 | a Bool adapter over 65536 true items has a full group |
| UShortIndex.BlockTableShape | succs/BitVector/UShortBitIndex.cs:269-278 | every block-table entry fits a `ushort`, entries at group starts are 0, and entries grow within a group |
| UShortIndex.GroupTableShape | succs/BitVector/UShortBitIndex.cs:266-280 | the rank table starts at 0 and never decreases |
| UShortIndex.UShortBitIndex.RankOne | succs/BitVector/UShortBitIndex.cs:64-76 | on an indexed index, the number of ones among the first `count` bits of the data |
| UShortIndex.DataPrefixOnes | succs/BitVector/UShortBitIndex.cs:66-75 | rank-table entry, block-table entry and the upper-bit rank of the chunk add up to the ones before `count` |
| UShortIndex.TablesCount | succs/BitVector/UShortBitIndex.cs:70 | the group entry plus the block entry of block `j` are the ones in the first `j` blocks |
| UShortIndex.UShortBitIndex.Access | succs/BitVector/UShortBitIndex.cs:81-84 | below the data's length, the bit; at or past it, an error |
| UShortIndex.UShortBitIndex.Rank | succs/BitVector/UShortBitIndex.cs:91-100 | zero count is an invalid operation; past the length is out of range; otherwise the count of `value` among the first `count` bits |
| UShortIndex.RankOfOnes | succs/BitVector/UShortBitIndex.cs:99 | the count of zeros in a prefix is its length minus its ones |
| UShortIndex.UShortBitIndex.RankWithOffset | succs/BitVector/UShortBitIndex.cs:102-122 | zero count is an invalid operation; a range past the length (sum taken without wrap-around) is out of range; otherwise the count of `value` in `[offset, offset + count)` |
| UShortIndex.RangeOfOnes | succs/BitVector/UShortBitIndex.cs:111-121 | a difference of prefix ones is the range's ones, and the range's zeros its length minus them |
| UShortIndex.UShortBitIndex.Select | succs/BitVector/UShortBitIndex.cs:124-201 | rank 0, or a rank above the count of `value`, is an invalid operation; otherwise the position of the `rank`-th bit equal to `value` |
| UShortIndex.FindGroup | succs/BitVector/UShortBitIndex.cs:135-163 | the binary search over the rank table finds the group holding the wanted bit and the rank left inside it |
| UShortIndex.FindBlock | succs/BitVector/UShortBitIndex.cs:166-196 | the binary search over the group's block-table entries finds the block holding the wanted bit and a rank from 1 to its count of `value` |
| UShortIndex.SelectInData | succs/BitVector/UShortBitIndex.cs:134-200 | group search, block search and in-word select of the reversed chunk together find the `rank`-th bit equal to `value` |
| UShortIndex.UShortBitIndex.SelectWithOffset | succs/BitVector/UShortBitIndex.cs:203-229 | rank 0 is an invalid operation; `offset + rank` past the length is out of range; a rank beyond the bits after `offset` is an invalid operation; otherwise the `rank`-th bit equal to `value` at or after `offset` (sum taken without wrap-around) |

## Left out

- WaveletMatrix, `BitIndex<T>` and the `IBitIndex`/`IBitVector` interfaces are not part of this model. The interfaces are met by the classes' own methods.
- `Dispose`, `Capacity`, the `this[index]` indexer (the same as `Access`) and the `Length`/`TotalPopCount` properties (the fields themselves) are not modelled.
- The `BitVector(long)` constructor is not modelled: it casts a signed length to `ulong`. Only the `ulong` form (`Create`) is.
- `UIntListMapper.AccessRange`, `ULongListMapper.AccessRange` and `UShortBitIndex.AccessRange` are not modelled. The last one delegates to the adapter's AccessRange. These are lazy enumerators over words; only the Bool adapter's AccessRange is modelled.
- A lazy `IEnumerable<bool>` is a finished sequence here. Being single-pass and abandoning it early have no counterpart.
- Exceptions are `Err` values; the message texts are not modelled.
- The adapter's data is an immutable value in `UShortBitIndex`. Data that changes after `BuildIndex`, and the stale answers that follow, are not modelled.
- Queries on either class require `indexed`. The C# BitVector answers from whatever tables it holds, so a query after a mutation without `BuildIndex` returns stale counts. The C# UShortBitIndex before any build has length and total 0, so its `Rank` raises an out-of-range error for every positive count and its `Select` an invalid operation for every rank. The model states nothing about those answers.
- Mutators clear `indexed`: the C# code leaves the rank table and the total as they were, and the model says the same; it does not say which later queries the stale table would still answer correctly.
- Mapper.Collection.Access: states only "an error" past the end; the error kind is stated per adapter by Mapper.BoolAccess, Mapper.UIntAccess and Mapper.ULongAccess.
- UShortIndex.UShortBitIndex.Access: states only "an error" past the end, as Mapper.Collection.Access does.
- Mapper.Collection.GetRangeInt64: states the result only at 64-aligned indices inside the data, which are the only reads the indexes make.
- Mapper.UIntGetRangeInt64: at an index that is a multiple of 32 but not of 64 it states the word pair read, not a chunk of the exposed bits, since that pair straddles two chunks.
- Mapper.ULongGetRangeInt64: past `int` the word index is truncated to its low 32 bits, as the unchecked cast does; the word it then reads is stated, but it is not the chunk at `index`.
- Mapper.BoolGetRangeInt64: states nothing for an index past `int`, which the unchecked cast truncates. It packs with BitUtility.BoolToUlongListWide, the corrected loop bound (see Findings).
- BitUtility.ReverseInt32: its own contract bounds the result only; the bit-by-bit statement is BitUtility.ReverseInt32Bits.

## Findings

| source | as written | input that shows it | evidently intended | confidence | as-written member | corrected member |
|---|---|---|---|---|---|---|
| succs/BitVector/BitVector.cs:255-257 | `offset + count` wraps in `ulong` before the range guard of `Rank(value, count, offset)`; `AccessRange` guards the same way, and so does `Select(value, rank, offset)`, though there only the error raised changes | length 64, offset 2^64 - 1, count 2: the sum wraps to 1, which passes the guard | a range ending past the vector is out of range | not executed | BitVectors.WrappedRangeAdmitted | BitVectors.BitVector.RankWithOffset |
| succs/BitVector/UShortBitIndex.cs:107-108 | the same wrapped sum guards `Rank(value, count, offset)` of the large index, and its `Select(value, rank, offset)`, where only the error raised changes | length 64, offset 2^64 - 1, count 2 | a range ending past the data is out of range | not executed | BitVectors.WrappedRangeAdmitted | UShortIndex.UShortBitIndex.RankWithOffset |
| succs/BitVector/BitVector.cs:214-216 | AccessRange guards its last position `offset + count` after the sum wraps in `ulong` | length 64, offset 2^63, count 2^63 + 5: the sum wraps to 5, which passes the guard | a range ending past the vector is out of range | not executed | BitVectors.WrappedGuardAdmits | BitVectors.BitVector.AccessRange |
| succs/BitVector/BitVector.cs:331 | `Select(value, rank, offset)` guards `offset + rank` after it wraps in `ulong`; a rank let through past the end starts past the end, so `Rank(value, offset)` at line 344 refuses it, and only the kind of error changes | a 64-bit vector with one true bit, value true, offset 2^64 - 1, rank 2: the sum wraps to 1, the guard passes, and the rank above the total raises an invalid operation | an out-of-range error, as for any rank ending past the vector | not executed | BitVectors.WrappedSelectOffsetPastEnd | BitVectors.BitVector.SelectWithOffset |
| succs/BitVector/UShortBitIndex.cs:208 | the large index's `Select(value, rank, offset)` guards the same wrapped sum, and `Rank(value, offset)` at line 221 refuses what it lets through, so only the kind of error changes | 64 bits with one true bit, value true, offset 2^64 - 1, rank 2: the guard passes and the rank above the total raises an invalid operation | an out-of-range error, as for any rank ending past the data | not executed | BitVectors.WrappedSelectOffsetPastEnd | UShortIndex.UShortBitIndex.SelectWithOffset |
| succs/BitVector/BitVector.cs:177-181 | `offset + count - 1` wraps in `ulong`, and the first block index is cast to `int` without a check | length 64, offset 2^38, count 2^64 - 2^38 + 1: the last index wraps to 0, which passes the guard, and the first block index 2^32 truncates to 0 | the range is out of range and no block is toggled | not executed | BitVectors.WrappedToggleAdmitted | BitVectors.BitVector.ToggleRange |
| succs/BitVector/BitVector.cs:366 | the new length `_length + count` is computed outside the checked block and wraps; when the wrapped length needs as many blocks the vector silently shrinks, and when it needs fewer, setting the block list's capacity below its count (line 373) raises an argument error that the overflow handler at line 384 does not catch, leaving the vector as it was | length 64, count 2^64 - 1: the new length is 63 and the vector shrinks | a length past 2^64 - 1 is an overflow | not executed | BitVectors.ExtendWrapShrinks | BitVectors.BitVector.Extend |
| succs/BitVector/BitVector.cs:366-373 | the wrapped new length can need fewer blocks than the vector holds, and the capacity setter then raises an argument error instead of an overflow | length 128, count 2^64 - 64: the new length is 64, one block where the vector holds two | a length past 2^64 - 1 is an overflow | not executed | BitVectors.ExtendWrapDropsBlocks | BitVectors.BitVector.Extend |
| succs/BitVector/BitUtility.cs:136 | the loop bound `index + 64` is an `int` and wraps for an index above 2^31 - 65, so the loop does not run | 2^31 - 1 true items, index 2^31 - 64: the result is 0 instead of a word starting with ones | the 64 items from `index` are packed | not executed | BitUtility.BoolToUlongListDropsTail | BitUtility.BoolToUlongListWide |
| succs/BitVector/UShortBitIndex.cs:269-277 | the per-group running count is a `ushort` incremented in a checked block, and a group of 1024 chunks can hold 65536 ones | a Bool adapter over 65536 true items: the group's count reaches 65536 and BuildIndex throws its "[Bug]" overflow | every block-table entry fits a `ushort` (at most 65472) and the build succeeds | not executed | UShortIndex.OnesOverflow | UShortIndex.BuildTables |
| succs/BitVector/UShortBitIndex.cs:269-288 | the overflow of a group's `ushort` count escapes BuildIndex as an OverflowException | a Bool adapter over 65536 true items: BuildIndex fails and the index is left unbuilt | BuildIndex yields the index of every adapter whose tables fit an `int` | not executed | UShortIndex.UShortBitIndex.BuildIndex | UShortIndex.UShortBitIndex.BuildIndexWide |
| succs/BitVector/BitVector.cs:214-216 | AccessRange reads through position `offset + count` and refuses a last position equal to the length minus one | count 1 yields two bits; offset 0 and count 64 on a 64-bit vector are refused | exactly `count` bits, as the Bool adapter's AccessRange yields | not executed | BitVectors.AccessRangeOverreads | BitVectors.BitVector.AccessRangeExact |
