# Verification of the core algorithms

A Dafny model of the algorithms of this repository, with proofs of what they promise. Every method below has the
loops, branches, tables and constants of the code it models and is proved against a specification that does not
mention them; the theorems are about those specifications and about programs that call the methods.

**The NAND error correcting code.** `Hamming` defines the code over sets of bit positions, as the design notes do in
words: a code bit is set exactly when an even number of the data bits it covers are set, and it covers the data bits
one of whose address bits has a given value. `DriverLater` (2.6.28 and later, unrolled word loop, both byte orders,
256 and 512 bytes), `DriverOld` (2.6.27, table and interleave) and `DesignNotes` (the byte loop, the word loop and the
last unrolled loop of the notes) are proved to compute that code and no other, so they agree with each other
(`EccTheorems`). Then the decoder is classified: for every pattern of data errors with an intact stored code its exact
verdict and the bit it flips (the sum of the addresses of an odd number of errors; an even number is overlooked iff the
addresses cancel); the same for every pattern of data errors together with every pattern of damage to the stored code;
and so single correction with double detection over data and stored code. `Bits`, `XorSums`, `Words`,
`WordBlocks`, `EccTables`, `EccBytes` and `Correction` lead from bytes and words to sets of bit positions.

**The load balancer.** `LoadBalance` proves Graham's bound (R. L. Graham, Bounds on multiprocessing timing anomalies,
1969) for the program's greedy loop, for any number of groups and any values, against every other assignment of the
same values. `LoadBalanceWorstCase` shows for every number of groups that no smaller factor holds.

**The item pool.** `ItemPool` works on bytes: items of a fixed size in one block of memory, next fields at byte offsets,
a free list and bucket chains threaded through them by index. `PoolStates` is the state machine a caller sees, with
conservation, first-in first-out and map laws over all runs. `PoolTables` lets an item be in several tables at once, each
with a next field of its own, and proves that to each table the pool looks like one with that table alone.
`PoolInstance` proves that every call on memory is one step of that machine. `Chains` says what a chain of links is.

**Mirrored placeholders.** `Snippets` is the script's update of the mirrors of a placeholder, as a class with the
script's variables; `SnippetLayouts` says where the mirrors belong; `SnippetTheorems` proves that an update of separated
places ends in step and `SnippetDrift` that any other one does not; `SnippetTyping` has the exact condition for an update
and for a whole run of typing, and the bookkeeping of columns and line lengths between key strokes. `SnippetText` is
about lines of text with slots for words.

**Packed decimal numbers.** `Bcd` proves both conversions and both round trips.

Where code and documentation disagree, the model follows the code:

- The pseudo-code of attempt 0 of the design notes (`nand_ecc.txt:110`) adds `rp1` where it means `rp0`; the model has
  the code of attempt 1.
- `mkECCtbl` (`mktbl.c:37`) stops before entry 255, which keeps the zero of a static array. Zero is the right entry, so
  the table it makes is the driver's table (`DriverOld.MakeTable`).
- `s:UpdateVars` takes its positions to be ascending and mirrors to be told apart by their columns
  (`snipMate.vim:410-418`). An emptied word makes the columns of adjacent mirrors equal, and the update then goes wrong:
  `SnippetTyping.UpdateKeepsStepIff` gives the exact condition, `SnippetDrift.EmptiedTwins` and
  `SnippetDrift.TwinsGoWrong` a family of examples. The one gap that may be empty is the one right behind the
  placeholder.
- `s:UpdateChangedSnip` (`snipMate.vim:344-350`) marks an unknown end of the placeholder by -1, which is also the true
  end of an empty placeholder at the start of its line. When the end is -1 the new word is taken to end at the cursor: a
  stroke that leaves the cursor inside the new word, after a selection or after such a placeholder was emptied, sends
  only the part before the cursor to the mirrors. `SnippetTyping.Type` gives the exact condition,
  `SnippetTyping.EmptyThenInsert` the way there by two strokes.
- `list_info_init` (`list.c:45-57`) writes outside the block when there are no items (`ItemPool.LastWriteInside`: its
  last write is inside iff there is one), and its `int` counter needs fewer than 2^31 items;
  `ItemPool.ListInfo.Geometry` asks for between 1 and 2^31 - 1.
- `index_list_do_link` (`list.c:119-122`) does not clear the next field of the new item; `ItemPool.ListInfo.DoLink` says
  that the bucket gets the item at its end iff that field was INVALID.

## Model

| member | source | states |
|---|---|---|
| EccTables.InvParityIsEvenParity | embedded/nand-flash/ECC/nand_ecc-2.6.28-later.c:63-86 | the table `invparity` holds 1 exactly for the bytes with an even number of set bits, as its comment says |
| EccTables.BitsPerByteCounts | embedded/nand-flash/ECC/nand_ecc-2.6.28-later.c:88-110 | the table `bitsperbyte` holds the number of set bits of every byte |
| EccTables.AddressBitsGathers | embedded/nand-flash/ECC/nand_ecc-2.6.28-later.c:112-151 | the table `addressbits` gathers bits 1, 3, 5 and 7 of every byte into a number below 16 |
| EccTables.TextParityIsParity | embedded/nand-flash/ECC/nand_ecc.txt:170-187 | the table `parity` of the design notes holds 1 exactly for the bytes with an odd number of set bits |
| XorSums.RowPair | embedded/nand-flash/ECC/nand_ecc-2.6.28-later.c:333-349 | the sum of the bytes with an address bit set is the sum of all bytes plus that of the bytes with the bit clear, which is why rp5, rp7, ... need no accumulator of their own |
| XorSums.CoveredParity | embedded/nand-flash/ECC/nand_ecc.txt:156-163 | whatever bytes and bit columns a parity covers, the parity of the exclusive or of the bytes, masked to the columns, is that of the number of covered set bits: the rearrangement behind attempt 1 |
| Words.FoldAccumulator | embedded/nand-flash/ECC/nand_ecc-2.6.28-later.c:263-291 | folding a word accumulator to 8 bits gives the exclusive or of exactly the bytes of its words, whatever words were added and in either byte order |
| Words.FoldTotal | embedded/nand-flash/ECC/nand_ecc-2.6.28-later.c:293-327 | rp0..rp3 read off the halves of `par` are the sums over bytes with address bit 0 or 1 clear or set; the two byte orders swap the halves |
| Words.ByteOrder | embedded/nand-flash/ECC/nand_ecc-2.6.28-later.c:164 | the first byte of a word in memory is its lowest one in little endian and its highest one in big endian |
| DriverLater.Pass | embedded/nand-flash/ECC/nand_ecc-2.6.28-later.c:196-252 | one pass of the unrolled loop, with running sums in `tmppar`, takes rp4, rp6, rp8, rp10 from the sums of the words with an index bit clear over the words so far to the same sums over sixteen words more |
| DriverLater.FirstGroup | embedded/nand-flash/ECC/nand_ecc-2.6.28-later.c:197-208 | the first four words of a pass take the sums to the sums of four words more; rp6 and rp8 add them through `tmppar` |
| DriverLater.SecondGroup | embedded/nand-flash/ECC/nand_ecc-2.6.28-later.c:210-222 | likewise for the next four; rp10 adds all eight through `tmppar` |
| DriverLater.ThirdGroup | embedded/nand-flash/ECC/nand_ecc-2.6.28-later.c:224-239 | likewise for the third group, all of it in rp8 |
| DriverLater.FourthGroup | embedded/nand-flash/ECC/nand_ecc-2.6.28-later.c:241-252 | likewise for the last group, none of it in rp8 and rp10 |
| DriverLater.AccumulateWords | embedded/nand-flash/ECC/nand_ecc-2.6.28-later.c:177-261 | after the loop each of rp4..rp16 is the sum of exactly the words whose index has the corresponding bit clear, and `par` that of all words |
| DriverLater.RowSums | embedded/nand-flash/ECC/nand_ecc-2.6.28-later.c:177-349 | rp0..rp17 are the sums of exactly the bytes whose index has bit 0..8 clear or set, for either byte order and block size |
| DriverLater.CalculateEcc | embedded/nand-flash/ECC/nand_ecc-2.6.28-later.c:160-415 | the three bytes are the code: for every buffer of 256 or 512 bytes, byte order and storage order, a code bit is set iff an even number of the data bits it covers are set, the two bits without an address are 1 for 256 bytes, and nothing else of `code` changes |
| DriverLater.FlipLocated | embedded/nand-flash/ECC/nand_ecc-2.6.28-later.c:496-503 | the byte and bit addresses looked up in `addressbits` are in range and name the data bit spelled by the odd code bits; exactly that bit of the buffer flips |
| DriverLater.CorrectData | embedded/nand-flash/ECC/nand_ecc-2.6.28-later.c:444-513 | result and buffer follow the verdict on the set of differing code bits: 0 and untouched if none, 1 and the located bit flipped if every parity pair differs in exactly one bit, 1 and untouched if a single code bit differs, -1 and untouched otherwise |
| Correction.PairConditions | embedded/nand-flash/ECC/nand_ecc-2.6.28-later.c:475-478 | the shift-and-mask tests hold iff in each pair of parity bits of the block size exactly one differs |
| Correction.NoDifference | embedded/nand-flash/ECC/nand_ecc-2.6.28-later.c:472-473 | the or of the three difference bytes is zero iff no code bit differs |
| Correction.DifferenceSize | embedded/nand-flash/ECC/nand_ecc-2.6.28-later.c:507-508 | the bit counts of the three bytes add up to the number of differing code bits |
| Hamming.PairParity | embedded/nand-flash/ECC/nand_ecc-2.6.28-later.c:475-478 | for every pattern of data errors and every address bit, exactly one code bit of the pair changes iff the number of errors is odd |
| Hamming.CodeDifference | embedded/nand-flash/ECC/nand_ecc.txt:55-91 | the codes of two blocks differ exactly in the code bits that cover an odd number of the positions where the blocks differ |
| Hamming.Classification | embedded/nand-flash/ECC/nand_ecc-2.6.28-later.c:444-513 | with an intact stored code, the exact verdict for every pattern of data errors: an odd number flips the bit at the sum of their addresses, which is in range; an even number is called clean iff every address bit is set in an even number of them, and uncorrectable otherwise. So one error is located, none is clean and two are always uncorrectable |
| Hamming.RestoredIffAtMostOne | embedded/nand-flash/ECC/nand_ecc-2.6.28-later.c:444-513 | with an intact stored code, decoding leaves the written block iff at most one bit was wrong |
| Hamming.CorrectionReachesCodeword | embedded/nand-flash/ECC/nand_ecc-2.6.28-later.c:475-505 | whatever code is stored, when the decoder flips a bit it lies in the block and the block then has the stored code in every code bit that carries parity |
| Hamming.CodeErrorsOnly | embedded/nand-flash/ECC/nand_ecc-2.6.28-later.c:472-512 | one flipped code bit and intact data is a code error, two are uncorrectable |
| Hamming.DataAndParityError | embedded/nand-flash/ECC/nand_ecc-2.6.28-later.c:472-512 | a data error together with a flipped code bit that carries parity is uncorrectable |
| Hamming.DataAndConstantError | embedded/nand-flash/ECC/nand_ecc-2.6.28-later.c:472-512 | a data error together with one of the two constant code bits of a 256-byte block is still located |
| Hamming.SingleCorrectionDoubleDetection | embedded/nand-flash/ECC/nand_ecc-2.6.28-later.c:435-513 | over data bits and parity-carrying code bits together: no error is clean, one error leaves the written data, two errors are always uncorrectable |
| Hamming.CodeIsAffine | embedded/nand-flash/ECC/nand_ecc-2.6.28-later.c:160-415 | the code of the sum of two blocks is the sum of their codes and of the all-ones code |
| EccTheorems.ReadBack | embedded/nand-flash/ECC/nand_ecc-2.6.28-later.c:160-513 | write, read back with errors, decode, on buffers, for every error pattern: 1 iff the number of wrong bits is odd, and then exactly the bit at the sum of their addresses flips; 0 iff it is even and the addresses cancel; -1 otherwise; the buffer untouched unless 1; two wrong bits give -1; the written block is restored iff at most one bit was wrong |
| EccTheorems.ReadBackDamaged | embedded/nand-flash/ECC/nand_ecc-2.6.28-later.c:160-513 | the same with a stored code damaged in any of its 24 bits, for every pattern of wrong data and code bits: when 0, when a bit is flipped and which one, when 1 without a flip, and otherwise -1; the written block is left iff the data was right and no bit is flipped, or one data bit was wrong and no damaged code bit carries parity. With damage to parity-carrying bits only, one wrong bit leaves the written block and two give -1 and an untouched buffer |
| Hamming.DamagedClassification | embedded/nand-flash/ECC/nand_ecc-2.6.28-later.c:472-512 | the exact verdict for every pattern of data errors together with every pattern of flipped code bits: which flips are made and where, what is called clean and what a code error |
| Hamming.DamagedRestoration | embedded/nand-flash/ECC/nand_ecc-2.6.28-later.c:472-512 | the verdict undoes the data errors iff there are none and no flip is made, or there is one and no flipped code bit carries parity |
| EccTheorems.CorrectAndRecompute | embedded/nand-flash/ECC/nand_ecc-2.6.28-later.c:160-505 | if decoding changed the buffer, computing its code again gives the stored code: all three bytes for 512, all but the two constant bits for 256 |
| EccTheorems.EndiannessIndependent | embedded/nand-flash/ECC/nand_ecc-2.6.28-later.c:160-415 | the big-endian branches on big-endian words give the same three bytes as the little-endian branches on little-endian words, and they are the code of the buffer |
| EccTheorems.AllVersions | embedded/nand-flash/ECC/nand_ecc.txt:189-377 | in both storage orders the 2.6.28 driver in either byte order and the 2.6.27 driver give the same three bytes for every 256-byte buffer, its code; `ecc1` and `ecc2` give the same three in the order of the notes |
| EccTheorems.DriversCorrectAlike | embedded/nand-flash/ECC/2.6.27.y/nand_ecc-2.6.27-prev.c:145-192 | the two correct functions change equal buffers alike for every pair of codes, as the verdict on the differing code bits says, with equal results up to -EBADMSG for -1 |
| EccTheorems.AffineBytes | embedded/nand-flash/ECC/nand_ecc-2.6.28-later.c:160-415 | the three code bytes of A xor B are those of A xor those of B xor FF FF FF, for both sizes and storage orders |
| EccTheorems.ErasedCode | embedded/nand-flash/ECC/nand_ecc.txt:247-249 | a block of 0xff bytes has the code FF FF FF |
| DriverOld.MakeTable | embedded/nand-flash/ECC/2.6.27.y/mktbl.c:18-71 | the table the generator fills is the table of the 2.6.27 driver, entry by entry, including the entry its loop never reaches |
| DriverOld.PrecalcBits | embedded/nand-flash/ECC/2.6.27.y/nand_ecc-2.6.27-prev.c:44-64 | bits 0..5 of a table entry are the column parities of the byte and bit 6 the parity of all its bits |
| DriverOld.RegistersStep | embedded/nand-flash/ECC/2.6.27.y/nand_ecc-2.6.27-prev.c:82-92 | one byte more keeps the meaning of the registers: `reg1` the column parities, bit k of `reg3` and `reg2` the parity of the bytes whose index has bit k set or clear |
| DriverOld.CodeOfRegisters | embedded/nand-flash/ECC/2.6.27.y/nand_ecc-2.6.27-prev.c:94-121 | interleaving and inverting the registers yields exactly the code of the data |
| DriverOld.CalculateEcc | embedded/nand-flash/ECC/2.6.27.y/nand_ecc-2.6.27-prev.c:72-124 | the three bytes are the code of the 256 data bytes, in either storage order, and nothing else of `ecc_code` changes |
| DriverOld.CountBits | embedded/nand-flash/ECC/2.6.27.y/nand_ecc-2.6.27-prev.c:127-134 | the loop computes the count that BitCountIsOnes describes |
| DriverOld.BitCountIsOnes | embedded/nand-flash/ECC/2.6.27.y/nand_ecc-2.6.27-prev.c:127-134 | for every 32-bit word the count is that of the set bits of its four bytes |
| DriverOld.PackedCount | embedded/nand-flash/ECC/2.6.27.y/nand_ecc-2.6.27-prev.c:188-189 | counting the packed word counts the set bits of all three difference bytes |
| DriverOld.IndexedPosition | embedded/nand-flash/ECC/2.6.27.y/nand_ecc-2.6.27-prev.c:167-181 | byte offset and bit number assembled from the odd bits are those of the data bit the code difference spells |
| DriverOld.CorrectData | embedded/nand-flash/ECC/2.6.27.y/nand_ecc-2.6.27-prev.c:145-192 | result and buffer follow the same verdict as in the later driver, with -EBADMSG for an uncorrectable difference |
| DesignNotes.Ecc1 | embedded/nand-flash/ECC/nand_ecc.txt:189-245 | the byte loop writes the code of the 256 bytes |
| DesignNotes.SumWords | embedded/nand-flash/ECC/nand_ecc.txt:307-323 | the word loop leaves in each of rp4..rp15 the sum of the words whose index has one bit clear or set |
| DesignNotes.Ecc2 | embedded/nand-flash/ECC/nand_ecc.txt:298-377 | the word loop on 32-bit little-endian words, folded, writes the same code |
| DesignNotes.SharedPass | embedded/nand-flash/ECC/nand_ecc.txt:585-614 | one pass of attempt 7: rp4 and rp6 with the shared `rp4_6` added, and rp8 by way of `notrp8`, advance as in attempt 6 |
| DesignNotes.FirstGroup | embedded/nand-flash/ECC/nand_ecc.txt:589-592 | the first four words of a pass: the sums with the shared `rp4_6` added advance by four words |
| DesignNotes.SharedGroup | embedded/nand-flash/ECC/nand_ecc.txt:594-609 | each of the other three groups: rp4 and rp6 with `rp4_6` added advance by four words, and so does `tmppar` |
| DesignNotes.Attempt7 | embedded/nand-flash/ECC/nand_ecc.txt:582-616 | attempt 7 with its two corrections leaves the accumulators of attempt 6 (lines 518-543), which is the loop of the later driver for 256 bytes |
| LoadBalance.MakeTeam | lang/python/make_team.py:8-17 | for m >= 1 groups and any values: the groups hold exactly the values; 3m times the heaviest sum is at most 4m - 1 times the heaviest sum of any other assignment of the values to m groups; two sums never differ by more than one of the values; at the end the smallest value is the last one of the first group, and without it the groups are in order of their sums |
| LoadBalance.Balance | lang/python/make_team.py:13-17 | the loop over sorted values: a round for each value in order, with assignment, bound and gap |
| LoadBalance.PlaceOrder | lang/python/make_team.py:16-17 | where a round leaves the groups: the first of the lightest ones in front, with the value at its end, and the others by sum, equal ones in their order |
| LoadBalance.PlaceAllSnoc | lang/python/make_team.py:15-17 | the run of rounds ends with the round of its last value; no values leave the groups as they are |
| LoadBalance.Step | lang/python/make_team.py:15-17 | at every round: the groups hold exactly the values so far, every group keeps the bound against every assignment of all values, and the gap stays within the largest value |
| LoadBalance.ExtendedGroup | lang/python/make_team.py:16-17 | the heart of the bound: the group a value is appended to is then within (4m - 1)/3m of any assignment |
| LoadBalance.LargeValues | lang/python/make_team.py:16-17 | a value above a third of the best heaviest sum fits: the lightest group and the value together stay within any other heaviest sum |
| LoadBalance.PairFits | lang/python/make_team.py:9 | for m <= i < 2m: if value i is above a third of the heaviest sum of some assignment to m groups, then values i and 2m - 1 - i fit in its heaviest sum together |
| LoadBalance.LightestBelow | lang/python/make_team.py:16-17 | the lightest group before round i is no heavier than value 2m - 1 - i, for m <= i < 2m |
| LoadBalance.AverageLoad | lang/python/make_team.py:16-17 | m times the lightest sum plus the next value is at most m times the heaviest sum of any assignment |
| LoadBalance.SortBySumIsStable | lang/python/make_team.py:16 | the sort of the groups, which is sorted and a permutation, keeps the order of groups of equal sum, as Python's `sort` does |
| LoadBalanceWorstCase.BoundIsAttained | lang/python/make_team.py:6-17 | for every m the values 2m-1, 2m-1, ..., m+1, m+1, m, m, m reach the bound: the program gets 4m - 1, another assignment 3m |
| ItemPool.FieldFrame | lang/c/gadget/list/list.c:9-14 | writing four bytes at one offset of one item changes that link and no other link of any item at the same or any other non-overlapping offset |
| ItemPool.ByteFrame | lang/c/gadget/list/list.c:9-14 | nor any byte of an item outside the four |
| ItemPool.LinkBytes | lang/c/gadget/list/list.c:21-26 | a link is the number in the four bytes at its offset in its item, lowest byte first |
| ItemPool.ListInfo.ItemSetNext2 | lang/c/gadget/list/list.c:9-14 | the links at the offset change in one place; links at every non-overlapping offset and all bytes outside the field stay |
| ItemPool.ListInfo.ItemGetNext2 | lang/c/gadget/list/list.c:21-26 | the word read is the link of the item |
| ItemPool.ListInfo.Init | lang/c/gadget/list/list.c:45-57 | head 0, tail item_total - 1, every item linked to the next and the last one to 0xffffffff: the free list holds the items in order; all other bytes stay |
| ItemPool.ListInfo.FreeItem | lang/c/gadget/list/list.c:59-73 | the item goes to the end of the free list and becomes its tail, of an empty list also its head; its own link and that of the old tail are set and nothing else |
| ItemPool.ListInfo.AllocItem | lang/c/gadget/list/list.c:76-96 | the head of the free list is taken and detached, or 0xffffffff returned for an empty list; head and tail are then those of the rest, both 0xffffffff if there is none |
| ItemPool.IndexTableInit | lang/c/gadget/list/list.c:101-113 | every head is 0xffffffff |
| ItemPool.ListInfo.Prelink2 | lang/c/gadget/list/list.c:134-165 | Null iff a matching item is in the bucket, otherwise the address that ends the chain; the walk ends |
| ItemPool.ListInfo.DoLink | lang/c/gadget/list/list.c:119-122 | writing the item to that address appends it to the bucket iff its own next field is clear, and changes one link or the head and nothing else |
| ItemPool.LastWriteInside | lang/c/gadget/list/list.c:53-56 | the last write of the initialisation, to item `i - 1` as 32 bits, is inside the block iff there is an item |
| ItemPool.ListInfo.Unlink2 | lang/c/gadget/list/list.c:181-216 | the first matching item is taken out of the chain and detached, the order of the others kept, no other bucket or field changed; 0xffffffff and no change if none matches |
| PoolStates.InitialConserved | lang/c/gadget/list/list.c:45-57 | a new pool with an empty table is in a conserved state |
| PoolStates.StepConserves | lang/c/gadget/list/list.c:45-216 | every allowed call keeps each item in exactly one of the free list, one chain or the detached items, once |
| PoolStates.StepKeepsKeysDistinct | lang/c/gadget/list/list.c:119-165 | no call makes a bucket hold two items of one key |
| PoolStates.RunConserves | lang/c/gadget/list/list.c:45-216 | both hold after every run of allowed calls |
| PoolStates.PlacesDisjoint | lang/c/gadget/list/list.c:45-216 | in a conserved state no item is in two places and all are below item_total |
| PoolStates.FirstFreedFirstIssued | lang/c/gadget/list/list.c:59-96 | over every run, the items issued followed by those still free are the items free at the start followed by those freed, in order: the free list is a queue |
| PoolStates.LinkIsMapUpdate | lang/c/gadget/list/list.c:115-165 | prelink then link adds one entry to the bucket's map from keys to items, at the end of the chain, or changes nothing if the key is there |
| PoolStates.LinkLeavesOthers | lang/c/gadget/list/list.c:115-165 | free list, keys and all other buckets stay, and the item leaves the caller iff it was linked |
| PoolStates.WriteIsRecorded | lang/c/gadget/list/list.h:51-55 | what a caller writes into an item is what `is_same_item` finds there, and no other item changes |
| PoolStates.UnlinkIsMapRemove | lang/c/gadget/list/list.c:175-216 | unlink removes exactly the entry of the key and detaches its item, or changes nothing if the key is absent |
| PoolTables.CallSeen | lang/c/gadget/list/list.c:45-216 | with items in several tables at once, to each table every call is the call it sees of it: its own links and unlinks, every allocation and release, and nothing of the other tables |
| PoolTables.CallConserves | lang/c/gadget/list/list.c:45-216 | every permitted call keeps the free and held items a partition, linked items held, and each table conserved |
| PoolTables.TablesIndependent | lang/c/gadget/list/list.c:45-216 | over every run the same holds, and each table goes through a run of the single-table pool, so the queue and map laws hold for it |
| PoolTables.InitialPoolConserved | lang/c/gadget/list/list.c:45-113 | a new pool with any number of empty tables is conserved |
| PoolInstance.Instance.constructor | lang/c/gadget/list/list.c:265-276 | pool and tables in memory represent the initial state |
| PoolInstance.Instance.Alloc | lang/c/gadget/list/list.c:76-96 | the call on memory is the `Alloc` step for all tables and returns the longest-free item, INVALID iff there is none |
| PoolInstance.Instance.Release | lang/c/gadget/list/list.c:59-73 | the call on memory is the `Free` step for all tables |
| PoolInstance.Instance.Link | lang/c/gadget/list/list.c:119-165 | prelink and, if it returns an address, link on memory are the `Link` step of one table and leave the others; the result says whether the item was linked |
| PoolInstance.Instance.Unlink | lang/c/gadget/list/list.c:181-216 | the call on memory is the `Unlink` step of one table, leaves the others, and returns the item of the key, INVALID iff there is none |
| Bcd.Ul2Bcd | lang/c/gadget/ul2bcd.c:7-23 | the nibbles of the result are the sixteen lowest decimal digits |
| Bcd.Bcd2Ul | lang/c/gadget/bcd2ul.c:19-37 | the result is the decimal value of the sixteen nibbles, for nibbles above nine too, although every sum is taken modulo 2^64 |
| Bcd.NibbleIsDigit | lang/c/gadget/ul2bcd.c:13-20 | nibble k of the result of ul2bcd is decimal digit k of the number, for k below 16 |
| Bcd.ThereAndBack | lang/c/gadget/ul2bcd.c:7-23 | bcd2ul after ul2bcd is the number modulo 10^16, for every 64-bit number |
| Bcd.BackAndThere | lang/c/gadget/bcd2ul.c:19-37 | ul2bcd after bcd2ul gives back the word iff all its nibbles are at most nine |
| Bcd.DigitsOfValue | lang/c/gadget/ul2bcd.c:14-20 | in base ten and sixteen, the digits of the value of a digit sequence are that sequence |
| Bcd.ValueOfDigits | lang/c/gadget/bcd2ul.c:27-34 | in base ten and sixteen, the value of the k lowest digits of a number is the number modulo the k-th power |
| Snippets.Session.ShiftLaterMirrors | misc/vim/old/config/vim/autoload/snipMate.vim:410-416 | the loop with its early exit moves exactly the positions it reaches on the line behind the column |
| Snippets.Session.UpdateMirror | misc/vim/old/config/vim/autoload/snipMate.vim:403-426 | one round on the script's variables is one round of the specification: positions, startCol, endCol and the line |
| Snippets.Session.UpdateVars | misc/vim/old/config/vim/autoload/snipMate.vim:389-434 | nothing changes if the word is the old one or there are no mirrors; otherwise text, positions and startCol are those of the specification, endCol and cursor move along with startCol, and the word and its length are recorded |
| Snippets.MirrorText | misc/vim/old/config/vim/autoload/snipMate.vim:424-426 | the text after one round: the old word at the new column of the mirror is replaced; if it is not there no line changes; other lines never do |
| Snippets.MirrorPositions | misc/vim/old/config/vim/autoload/snipMate.vim:404-422 | the positions after one round, one by one: the placeholder moves for a mirror before it, the mirror itself if it is behind, the later ones of the line behind it up to the first one recorded on a later line; none for words of one length |
| Snippets.UpdateTrace | misc/vim/old/config/vim/autoload/snipMate.vim:403-427 | an update is one such round for every mirror, in order, whatever the rounds find |
| Snippets.Session.StrPartAt | misc/vim/old/config/vim/autoload/snipMate.vim:389-391 | the typed word is the part of the line that the columns name, as far as the line goes |
| SnippetText.SubstituteSlot | misc/vim/old/config/vim/autoload/snipMate.vim:424-426 | the substitution at the column of a slot replaces the word of that slot and nothing else |
| SnippetTheorems.MirrorBeforePlaceholder | misc/vim/old/config/vim/autoload/snipMate.vim:405-409 | with separated places, the comparison of columns recognises a mirror before the placeholder iff it stands there |
| SnippetTheorems.PositionsAfterMirror | misc/vim/old/config/vim/autoload/snipMate.vim:404-422 | with separated places, one round takes the positions half-way through an update to those with one mirror more handled |
| SnippetTheorems.StageAfterMirror | misc/vim/old/config/vim/autoload/snipMate.vim:403-427 | the same for text and positions together |
| SnippetTheorems.UpdateFrom | misc/vim/old/config/vim/autoload/snipMate.vim:403-427 | with separated places, the rest of an update brings every slot of the text and every position in step with the new word and leaves all other text |
| SnippetDrift.StayTogether | misc/vim/old/config/vim/autoload/snipMate.vim:404-422 | mirrors recorded at one column never part |
| SnippetDrift.StayOvertaken | misc/vim/old/config/vim/autoload/snipMate.vim:404-422 | a mirror touching the emptied placeholder from before is treated as standing behind it, to the end of the update |
| SnippetDrift.EmptiedTwins | misc/vim/old/config/vim/autoload/snipMate.vim:389-434 | two adjacent mirrors of an emptied word: the first word typed comes out right in the text, but both are recorded at one column |
| SnippetDrift.TwinsGoWrong | misc/vim/old/config/vim/autoload/snipMate.vim:389-434 | the next letters are then inserted twice at one place |
| SnippetDrift.TwinsTakenBack | misc/vim/old/config/vim/autoload/snipMate.vim:389-434 | letters taken back leave the second mirror as it is, because the word is not found at its column, unless it happens to be found there |
| SnippetTyping.UpdateKeepsStepIff | misc/vim/old/config/vim/autoload/snipMate.vim:389-434 | an update from a text in step with the old word, any other word typed, ends in step iff the old word was not empty or every gap between two places of a line, except the one right behind the placeholder, is not empty |
| SnippetTyping.StrokeKeepsStepIff | misc/vim/old/config/vim/autoload/snipMate.vim:389-434 | one key stroke keeps the snippet in step iff it leaves the word as it was or the places of the old word are separated |
| SnippetTyping.TypingKeepsStepIff | misc/vim/old/config/vim/autoload/snipMate.vim:389-434 | a run of typing keeps the snippet in step after every word iff each word that is changed has separated places |
| Snippets.Session.UpdateChangedSnip | misc/vim/old/config/vim/autoload/snipMate.vim:334-360 | the new end comes from the change of the line length, or after a selection from the cursor; entering at once after a selection changes nothing; a cursor outside the placeholder or on another line ends the snippet and changes no text; otherwise `s:UpdateVars` runs on the new word and the line length is recorded |
| SnippetTyping.Select | misc/vim/old/config/vim/autoload/snipMate.vim:304-313 | selecting the placeholder of a text in step starts the tracking of its columns |
| SnippetTyping.Type | misc/vim/old/config/vim/autoload/snipMate.vim:334-360 | a key stroke that keeps the cursor at the placeholder never ends the snippet; the word recorded and copied is the whole new word, or the part before the cursor if the end of the placeholder was -1 (nothing yet when insert mode is being entered); the snippet is in step with the new word iff the whole of it was taken and it is the old one or the places of the old one are separated |
| SnippetTyping.EmptyThenInsert | misc/vim/old/config/vim/autoload/snipMate.vim:344-350 | a placeholder at the start of its line that is emptied ends at -1; a word inserted then with the cursor inside it is cut off at the cursor |
| SnippetTyping.Move | misc/vim/old/config/vim/autoload/snipMate.vim:342-357 | a cursor that moves without a change of text ends the snippet iff it leaves the line of the placeholder or goes left of its start or right of its end, if that is known; with a known end nothing else happens |
| SnippetLayouts.PositionsAddressTheWord | misc/vim/old/config/vim/autoload/snipMate.vim:304-313 | in step, startCol and every recorded column address a copy of the word |
| SnippetLayouts.FirstStage | misc/vim/old/config/vim/autoload/snipMate.vim:304-313 | typing into the placeholder of a text in step changes the placeholder only and gives the state an update starts from |

## Left out

- DriverLater.CalculateEcc: block sizes other than 256 and 512, which the code does not serve, and misaligned buffers are not modelled; the block size is a parameter instead of a field of `nand_chip`.
- DriverLater.CorrectData: the message printed for an uncorrectable error is not modelled.
- DriverOld.CorrectData: the value of EBADMSG is not part of this model (it is defined outside the repository) and is a parameter.
- DesignNotes.Ecc2: `unsigned long` is taken as 32 bits, little-endian, as the notes say of their machine.
- Attempts 3 to 5 of the design notes: intermediate forms of the loops of attempts 2, 6 and 7.
- LoadBalance.MakeTeam: drawing random values and printing the sums are not modelled; the sort is a stable insertion sort, which gives the result of Python's sort.
- ItemPool.ListInfo.Init: pools without items (it writes outside the block, ItemPool.LastWriteInside) or with 2^31 and more (its counter overflows) are not modelled; `item_total * item_size` is taken to fit the address space.
- ItemPool.ListInfo.ItemSetNext2: words lie in memory lowest byte first; other byte orders are not modelled.
- ItemPool.ListInfo.DoLink: an item that is already in the bucket is not modelled; list.c leaves that to the caller.
- ItemPool.ListInfo.Prelink2: `is_same_item` is a pure predicate on item indices; keys are kept in a separate array, not in the bytes of the item.
- PoolInstance.Instance.constructor: next fields that the free list does not use have to be INVALID beforehand; list.c has no function for that, and list_alloc_item resets only the field at `next_offset`.
- The locks of list.c: they are only marked as to be done.
- Bcd.Ul2Bcd: words are numbers below 2^64, shifts are multiplications and divisions, and the or of disjoint bits is a sum.
- Bcd.Bcd2Ul: likewise, and the masks, which are of the form 2^n - 1, are remainders.
- Snippets.Session.UpdateVars: lines are character sequences counted from zero; `ignorecase`, multi-byte characters, folds and the window are not modelled. It asks that the length on record is that of the old word, which s:SelectWord and s:UpdateVars establish, and that the placeholder lies within its line, which follows from the bookkeeping of s:UpdateChangedSnip (SnippetTyping.Type).
- Snippets.Session.UpdateChangedSnip: the branch for a placeholder with mirrors; the copies it keeps for jumping to the next tab stop and the branches for other buffers and tab stops are not modelled.
- SnippetLayouts.Layout: how s:BuildTabStops finds the mirrors by regular expressions is not modelled; a layout is any ascending list of lines with gaps of text.
- The rest of snipMate.vim and the other vim scripts: editor interaction and settings.
- TestEcc.c: an uninverted copy of the 2.6.27 code that prints the location.
- The kernel modules, device drivers, itoa.c, bit.c, hidcom.c, demonstration programs, notes and configuration: input and output, or only easy facts.
