# Verified models of the gem5 support code

A Dafny model of the parts of the simulator's support code and configuration
scripts whose correctness is not visible from their text: interleaved address
ranges and the map that decodes addresses with them, the barrier between
simulation threads, the bit tricks they rest on, and the builders of network
and cache topologies.

| file | models |
|---|---|
| Bits.dfy | the 64-bit operators as operations on natural numbers |
| Bitfield.dfy, BitScan.dfy, PopCount.dfy, ReverseBits.dfy | base/bitfield.hh, base/bitfield.cc |
| Interleave.dfy, Sorting.dfy | XOR interleaving, and the sort that the range code calls |
| AddrRange.dfy, AddrRangeLaws.dfy, AddrRangeSets.dfy, AddrRangeAlignment.dfy | base/addr_range.hh |
| Chain.dfy, RangeTree.dfy, Recency.dfy, AddrRangeMap.dfy, RangeMapRuns.dfy | base/addr_range_map.hh |
| Barrier.dfy | base/barrier.hh |
| Mesh.dfy, MeshRouting.dfy | topologies/Mesh_XY.py, topologies/Mesh_westfirst.py |
| Cluster.dfy, ClusterLinks.dfy | topologies/Cluster.py |
| MemTest.dfy | example/memtest.py |

`dafny verify dfyconfig.toml` checks everything.

## How the model reads the code

* Addresses are natural numbers below 2^64; every wrap-around and truncation of
  the code is written out.  Where the language leaves a shift undefined (a mask
  bit at 31 or above in `addIntlvBits`, a granularity whose lowest bit is 32 or
  above, a legacy bit field that leaves the word), the member requires the
  defined case.
* `fatal` and failed Python assertions are results; `panic` and a C++ `assert`
  are preconditions.
* An address range is well formed when its masks are nonzero and have distinct
  lowest bits and its match value is a selector.  The code checks only the last
  part.  Offsets, sizes and the round trips rely on all of it; membership, the
  tests between ranges and the range map do not.  Disjoint masks are not needed
  anywhere.
* Nodes of the range map are objects, so that an iterator to an erased entry is
  different from one to an entry inserted later with the same key.
* In the barrier every statement of `wait` is a step of its own.  Threads
  interleave freely and may wake up spuriously; the history of calls and
  results is part of the state so that runs can be judged.
* The rule by which routers pick links is an assumption: the lowest weight among
  the links that start a cheapest walk.

## Where the code does less than it says

* `getOffset` and `size` number the addresses of every stripe exactly when the
  span is empty or both of its ends lie on boundaries of the whole interleaving
  pattern (`NumberedWhenAligned`, `UnalignedMisnumbered`).  The comment only asks for a divisible size.
* `addIntlvBits` with up to 8 masks reaches the right stripe for all match values,
  and undoes `removeIntlvBits` for all addresses, exactly when no mask contains the
  lowest bit of a later mask (`AddNeedsOrder`, `RestoreNeedsOrder`, `AddMissesExample`).
* `isSubset` never says yes wrongly, but misses subsets longer than a granule
  (`IsSubsetExact`, `IsSubsetMisses`).
* A lookup of the last address 2^64 - 1 builds a query whose end wraps to 0, and
  takes any contiguous entry it meets for an answer (`SingleAddress`,
  `LastAddressLookup`, `LastAddressFound`).
* `intersects` reduces an argument of computed size 1 to its start, and compares
  only the match values of stripes of one span.  It is right for all ranges that it
  can compare with the argument exactly when a size-1 argument is just its start and
  any other stripe is not empty (`IntersectsRightWhen`, `IntersectsMissesStart`).
  For an aligned argument only a missing start matters (`ProperSizedRight`).
  In a map, a stored size-1 stripe without its start is missed when it is inserted
  again, and makes `insert` refuse a stripe that shares no address with it.  `insert`
  refuses exactly for a common address, whatever is inserted, if and only if no such
  stripe is stored (`RefusesRightWhen`, `RefusedStripe`).
* The merging constructor counts match values in a `uint8_t`, so with more than 8
  masks it accepts ranges that do not make up the span (`MergeIsUnion`,
  `MergeLosesAddress`).
* The range form of `erase` removes only its first entry from the cache
  (`EraseRange`, `DanglingEntry`).
* `AddrRangeMap::intersects` is documented to return the first entry.  It returns the
  first cached hit, then the successor, then predecessors; `LookupIsFirstWhen` and
  `ProbeIsFirstWhen` say exactly when that is the first one (`SecondReturned`).
* The comments of the legacy constructor put the low bit of a field at
  `high - bits`; the loop puts it at `high - bits + 1` (`LegacyContains`,
  `LegacyExample`).
* The comment of `reverseBits` keeps the bytes above the mirrored ones; the code
  clears them (`OneByteExample`).

## Model

| member | source | states |
|---|---|---|
| Bitfield.InsertBits | createCkpt/gem5_create/base/bitfield.hh:164-173 | every bit of the result: the field from the inserted value, the others kept, and an empty field when the upper end wraps |
| Bitfield.InsertBitsRemoves | createCkpt/gem5_create/base/addr_range.hh:503-510 | the step of removeIntlvBits takes out exactly one bit, also when the field's upper end wraps below zero |
| Bitfield.InsertBitsAdds | createCkpt/gem5_create/base/addr_range.hh:537-548 | the step of addIntlvBits makes room for one bit, and bits lost at the top do not matter below |
| BitScan.FindMsbSet | createCkpt/gem5_create/base/bitfield.hh:262-291 | the result m satisfies 2^m <= val < 2^(m+1); 0 for zero |
| BitScan.FindLsbSet | createCkpt/gem5_create/base/bitfield.hh:298-327 | agrees with ctz64 on every word, 64 for zero included |
| BitScan.AlignToPowerOfTwo | createCkpt/gem5_create/base/bitfield.hh:371-384 | the least power of two at or above val for 1 to 2^63, and 0 for every other word |
| PopCount.CountBits | createCkpt/gem5_create/base/bitfield.hh:336-357 | the portable parallel count is the number of one bits, for every 64-bit word |
| PopCount.CountPairs | createCkpt/gem5_create/base/bitfield.hh:351-351 | after the first step the word is 32 digits of two bits, none above 2, that add up to the number of ones |
| PopCount.AddPairs | createCkpt/gem5_create/base/bitfield.hh:352-352 | the second step turns them into 16 digits of four bits with the same sum |
| PopCount.AddNibbles | createCkpt/gem5_create/base/bitfield.hh:353-353 | the third step turns them into 8 digits of eight bits with the same sum, without a carry between them |
| PopCount.HorizontalSum | createCkpt/gem5_create/base/bitfield.hh:354-354 | the upper byte of the wrapped product is the sum of the eight bytes |
| ReverseBits.TableMirrors | createCkpt/gem5_create/base/bitfield.cc:44-68 | every entry of the lookup table is the mirror image of its index |
| ReverseBits.Reverse | createCkpt/gem5_create/base/bitfield.hh:234-247 | bit i of the result is bit 8*size-1-i of the value, and everything above is zero |
| ReverseBits.MirrorTwice | createCkpt/gem5_create/base/bitfield.hh:214-247 | mirroring twice is the identity exactly on the values that fit |
| ReverseBits.OneByteExample | createCkpt/gem5_create/base/bitfield.hh:221-223 | the value of the comment's one-byte example under the code |
| AddrRanges.AddrRange.Contains | createCkpt/gem5_create/base/addr_range.hh:438-457 | the loop over the masks decides membership in the span and the stripe |
| AddrRanges.AddrRange.Granularity | createCkpt/gem5_create/base/addr_range.hh:269-281 | 2 to the lowest bit of any mask, although the masks are combined in a 32-bit int |
| AddrRangeSets.GranuleIsLargest | createCkpt/gem5_create/base/addr_range.hh:263-281 | the granularity of an interleaved range is the largest power of two whose blocks lie within one stripe |
| AddrRangeSets.ContiguousGranule | createCkpt/gem5_create/base/addr_range.hh:269-281 | the granularity of a contiguous range is the number of its addresses |
| AddrRanges.AddrRange.RemoveIntlvBits | createCkpt/gem5_create/base/addr_range.hh:483-513 | for all masks, also repeated or zero ones: each round drops one bit at its place among those left, or nothing once a repeated position falls behind; for distinct lowest bits exactly these bits are dropped |
| AddrRanges.RemoveStep | createCkpt/gem5_create/base/addr_range.hh:501-511 | one round for any position and round number: the unsigned field end wraps to an empty or to a whole-word field when the position falls behind |
| AddrRanges.RemovedIsCompressed | createCkpt/gem5_create/base/addr_range.hh:491-511 | with distinct lowest bits the rounds together drop exactly those bits |
| AddrRanges.RepeatedLow | createCkpt/gem5_create/base/addr_range.hh:501-511 | three masks with lowest bit 1 drop bits 1 and 0 of every address and then nothing |
| AddrRanges.RepeatedTwice | createCkpt/gem5_create/base/addr_range.hh:501-511 | two masks with lowest bit 2 drop bits 2 and 1 |
| AddrRanges.AddrRange.AddIntlvBits | createCkpt/gem5_create/base/addr_range.hh:521-560 | for every 64-bit word, also one too large to fit, and for masks that share lowest bits: the low bits are spread around the lowest bits of the masks, which are then filled in mask order |
| AddrRanges.AddrRange.GetOffset | createCkpt/gem5_create/base/addr_range.hh:575-586 | for all masks the difference of the two addresses after removal, which for distinct lowest bits is the difference of the compressed addresses; MaxAddr outside the span |
| AddrRanges.SortedLsbs | createCkpt/gem5_create/base/addr_range.hh:491-499 | the array holds the trailing-zero counts of the masks in ascending order, repetitions included; for distinct lowest bits it is strictly increasing and holds exactly these bits |
| AddrRanges.MakeRoom | createCkpt/gem5_create/base/addr_range.hh:535-548 | the first loop of addIntlvBits spreads the bits that fit around the given positions, repeated or not; the bits it shifts out do not matter |
| AddrRanges.RepeatedRoom | createCkpt/gem5_create/base/addr_range.hh:535-548 | room at bit 1 made twice repeats bit 0 in both places |
| AddrRanges.WriteLsbs | createCkpt/gem5_create/base/addr_range.hh:550-557 | the second loop of addIntlvBits sets the lowest bit of each mask in turn so that the parity under the mask is its match bit at that time |
| Interleave.SelBits | createCkpt/gem5_create/base/addr_range.hh:112-122 | bit j of the selector is the parity under mask j, and the selector fits in as many bits as there are masks |
| Interleave.CompressMono | createCkpt/gem5_create/base/addr_range.hh:459-480 | dropping the lowest bits of the masks keeps the order of the addresses of a stripe |
| Interleave.ExpandStripe | createCkpt/gem5_create/base/addr_range.hh:459-480 | the triangular system of the masks has a solution for every selector and every choice of the other bits |
| Interleave.CompressExpand | createCkpt/gem5_create/base/addr_range.hh:459-480 | the solution has the chosen other bits |
| AddrRangeLaws.OffsetBelowSize | createCkpt/gem5_create/base/addr_range.hh:575-586 | in an aligned range, the offset of every contained address is below size() |
| AddrRangeLaws.OffsetIncreasing | createCkpt/gem5_create/base/addr_range.hh:562-586 | in an aligned range, offsets grow strictly with the contained addresses |
| AddrRangeLaws.OffsetOnto | createCkpt/gem5_create/base/addr_range.hh:562-586 | in an aligned range, every number below size() is the offset of a contained address |
| AddrRangeLaws.SizeIsCount | createCkpt/gem5_create/base/addr_range.hh:293-303 | size() of an aligned range is the number of addresses it contains |
| AddrRangeSets.SizeRoundsDown | createCkpt/gem5_create/base/addr_range.hh:300-303 | on any span size() is the span divided by the number of stripes, rounded down |
| AddrRangeLaws.RemoveUndoesAdd | createCkpt/gem5_create/base/addr_range.hh:515-560 | removing what was added gives back the flat address, for any masks with distinct lowest bits |
| AddrRangeLaws.AddUndoesRemove | createCkpt/gem5_create/base/addr_range.hh:515-560 | adding what was removed gives back every address of the stripe, for ordered masks |
| AddrRangeLaws.AddNeedsOrder | createCkpt/gem5_create/base/addr_range.hh:550-557 | for up to 8 masks, addIntlvBits reaches the selected stripe for every match byte and every flat address if and only if no mask contains the lowest bit of a later one |
| AddrRangeLaws.AddMissesExample | createCkpt/gem5_create/base/addr_range.hh:550-557 | two masks, 3 and 2, that send flat address 0 to the wrong stripe |
| AddrRangeLaws.RestoreNeedsOrder | createCkpt/gem5_create/base/addr_range.hh:515-560 | for up to 8 masks, adding what was removed gives back every address of every stripe if and only if no mask contains the lowest bit of a later one |
| AddrRangeLaws.AddThenRemove | createCkpt/gem5_create/base/addr_range.hh:483-560 | the loops one after the other are the identity exactly on the flat addresses that fit |
| AddrRangeLaws.RemoveThenAdd | createCkpt/gem5_create/base/addr_range.hh:483-560 | the loops in the other order land in the stripe, and are the identity exactly on it |
| AddrRangeAlignment.NumberedWhenAligned | createCkpt/gem5_create/base/addr_range.hh:293-303 | for up to 8 masks, the offsets of every stripe of a span are exactly the numbers below size() if and only if the span is empty or aligned |
| AddrRangeAlignment.UnalignedMisnumbered | createCkpt/gem5_create/base/addr_range.hh:575-586 | a stripe of an unaligned span with one address and size 1 whose offset is 1 |
| AddrRangeAlignment.SpanClosed | createCkpt/gem5_create/base/addr_range.hh:575-586 | if all stripes are numbered, changing interleaving bits of an address does not leave the span |
| AddrRangeSets.IsSubsetExact | createCkpt/gem5_create/base/addr_range.hh:413-428 | for a nonempty contiguous argument and any masks isSubset is never wrongly true, and wrongly false exactly on the subsets longer than a granule |
| AddrRangeSets.IsSubsetMisses | createCkpt/gem5_create/base/addr_range.hh:413-428 | a subset that isSubset does not recognise |
| AddrRangeSets.SingleAddress | createCkpt/gem5_create/base/addr_range.hh:661-662 | on one address and any masks isSubset agrees with contains exactly when the address is not the last or the range is interleaved |
| AddrRangeSets.IntersectsExact | createCkpt/gem5_create/base/addr_range.hh:379-401 | on any two ranges that intersects can compare it means sharing an address, when the argument is not empty and, if its computed size is 1, is just its start |
| AddrRangeSets.IntersectsRightWhen | createCkpt/gem5_create/base/addr_range.hh:389-393 | that condition on the argument is also necessary: without it some range that intersects can compare gets a wrong answer |
| AddrRangeSets.IntersectsMissesStart | createCkpt/gem5_create/base/addr_range.hh:389-393 | an aligned stripe of size 1 that intersects does not find to share an address with itself |
| AddrRangeSets.IntersectsInventsAddress | createCkpt/gem5_create/base/addr_range.hh:389-393 | two stripes of one span without a common address that intersects takes to intersect |
| AddrRangeSets.ProperSizedRight | createCkpt/gem5_create/base/addr_range.hh:389-393 | for an aligned range the condition is only that a size-1 stripe contains its start |
| AddrRangeSets.StripesPartition | createCkpt/gem5_create/base/addr_range.hh:438-457 | for up to 8 masks every address of the span is in exactly one stripe |
| AddrRangeSets.StripesFillSpan | createCkpt/gem5_create/base/addr_range.hh:291-303 | 2^k stripes of the computed size make up the aligned span |
| AddrRangeSets.MaskedWellFormed | createCkpt/gem5_create/base/addr_range.hh:131-140 | which ranges the check of the match value lets through, and that an unchecked one has no address |
| AddrRangeSets.MaskedRefusesWhen | createCkpt/gem5_create/base/addr_range.hh:131-140 | with masks, refused are exactly the match values that are the selector of no address; otherwise the range is made of the addresses of the span with that selector |
| AddrRangeSets.Merge | createCkpt/gem5_create/base/addr_range.hh:218-251 | which lists of ranges are merged, kept or refused, with the wrap-around of the counter |
| AddrRangeSets.StripesMerge | createCkpt/gem5_create/base/addr_range.hh:218-251 | all stripes of a span with up to 8 masks, in order, are accepted |
| AddrRangeSets.MergeIsUnion | createCkpt/gem5_create/base/addr_range.hh:218-251 | for every accepted list the merged range is the union of the ranges if and only if every selector of the span is below 256: always with up to 8 masks, never with more on an aligned span |
| AddrRangeSets.MergeLosesAddress | createCkpt/gem5_create/base/addr_range.hh:218-251 | 512 ranges with 9 masks that are merged although address 256 is in none of them |
| AddrRangeSets.Legacy | createCkpt/gem5_create/base/addr_range.hh:168-204 | when the legacy constructor refuses, and otherwise masks with distinct lowest bits in a safe order |
| AddrRangeSets.LegacyRefusesWhen | createCkpt/gem5_create/base/addr_range.hh:174-191 | refused are exactly the match values that do not fit and the fields that overlap |
| AddrRangeSets.FieldsFitWhen | createCkpt/gem5_create/base/addr_range.hh:174-202 | the fields that the model accepts are those for which no shift is undefined |
| AddrRangeSets.LegacyDisjoint | createCkpt/gem5_create/base/addr_range.hh:180-203 | the masks are pairwise disjoint |
| AddrRangeSets.LegacySelector | createCkpt/gem5_create/base/addr_range.hh:148-157 | the selector is the interleaving field XOR the hash field |
| AddrRangeSets.LegacyContains | createCkpt/gem5_create/base/addr_range.hh:168-204 | a legacy range contains an address exactly when it is in the span and the XOR of its fields is the match value |
| AddrRangeSets.LegacyExample | createCkpt/gem5_create/base/addr_range.hh:148-157 | an address that the legacy range contains and whose field, as the comment places it, does not match |
| RangeTrees.ContainsIsScan | createCkpt/gem5_create/base/addr_range_map.hh:89-98 | for any cache, a lookup returns the one entry that a full scan would find, or none if there is none |
| RangeTrees.AddressIsScan | createCkpt/gem5_create/base/addr_range_map.hh:114-123 | the same for single addresses other than the last |
| RangeTrees.LastAddressLookup | createCkpt/gem5_create/base/addr_range_map.hh:114-123 | a lookup of the last address, which no range can contain, comes back empty exactly when the cache and the end of the map hold only stripes; otherwise it gives a contiguous entry |
| RangeTrees.CompatibleIntersects | createCkpt/gem5_create/base/addr_range.hh:379-401 | between compatible ranges intersects means sharing an address, aligned or not, when a size-1 stripe as argument contains its start |
| RangeTrees.HitsRightWhen | createCkpt/gem5_create/base/addr_range.hh:379-401 | that condition is also necessary: intersects is right for all compatible ranges if and only if the argument, if its computed size is 1, contains its start |
| RangeTrees.IntersectIsScan | createCkpt/gem5_create/base/addr_range_map.hh:139-148 | an entry is found exactly when a full scan with the intersects of the ranges finds one, although find looks only at the cache, one successor and a run of predecessors |
| RangeTrees.HitsAreShared | createCkpt/gem5_create/base/addr_range_map.hh:139-148 | if the stored size-1 stripes contain their starts, the entries that intersect are those that share an address |
| RangeTrees.RefusesRightWhen | createCkpt/gem5_create/base/addr_range_map.hh:154-161 | whatever compatible range is inserted, it is refused exactly for a common address, if and only if every stored size-1 stripe contains its start |
| RangeTrees.ProbeIsFirstWhen | createCkpt/gem5_create/base/addr_range_map.hh:300-318 | without a cached hit the first of the intersecting entries is returned if and only if not both neighbours of the place of the query intersect, nor both entries before it |
| RangeTrees.ContiguousHits | createCkpt/gem5_create/base/addr_range_map.hh:300-318 | for a contiguous query the second case cannot happen, so only the two neighbours matter |
| RangeTrees.LookupIsFirstWhen | createCkpt/gem5_create/base/addr_range_map.hh:286-318 | with a cached hit the first cached one is returned whatever its place, so the first of the intersecting entries exactly when that is the least of them |
| RangeTrees.ContainsInRun | createCkpt/gem5_create/base/addr_range_map.hh:300-318 | the entry that contains a query lies in the run of merging predecessors of its upper bound |
| RangeTrees.InsertKeepsValid | createCkpt/gem5_create/base/addr_range_map.hh:154-161 | inserting a range that shares no address at its upper bound keeps the keys strictly ordered and disjoint |
| RangeTrees.TreeOrder | createCkpt/gem5_create/base/addr_range.hh:597-612 | the entries are ordered by start, and stripes of one span by match value |
| RangeTrees.NeverPanics | createCkpt/gem5_create/base/addr_range.hh:379-401 | between compatible ranges intersects never reaches its panic |
| RangeTrees.InsertPlace | createCkpt/gem5_create/base/addr_range_map.hh:154-161 | a range that intersects does not see is an existing key, just before its upper bound, or shares no address with any entry |
| AddrRangeMaps.AddrRangeMap.AddNewEntryToCache | createCkpt/gem5_create/base/addr_range_map.hh:255-273 | the new entry comes first and the oldest goes when the cache is full |
| AddrRangeMaps.AddrRangeMap.Find | createCkpt/gem5_create/base/addr_range_map.hh:286-321 | the entry that cache and neighbour search select, its promotion in the cache, and the invariant |
| AddrRangeMaps.AddrRangeMap.Contains | createCkpt/gem5_create/base/addr_range_map.hh:89-98 | the unique containing entry or null, with cache and invariant kept |
| AddrRangeMaps.AddrRangeMap.ContainsAddress | createCkpt/gem5_create/base/addr_range_map.hh:114-123 | the one entry that has the address or null, for every address but the last; a contiguous entry for the last one; cache and invariant kept |
| AddrRangeMaps.AddrRangeMap.Intersects | createCkpt/gem5_create/base/addr_range_map.hh:139-148 | which entry comes back, by cache and neighbour search; an intersecting one, or null exactly when there is none; sharing an address when the stored size-1 stripes contain their starts |
| AddrRangeMaps.AddrRangeMap.Insert | createCkpt/gem5_create/base/addr_range_map.hh:154-161 | refused exactly when some entry intersects, with only the cache changed; an equal key that intersects misses is returned and keeps its value; otherwise a new node at its upper bound that shares no address with the others, all kept; refused exactly when an address is shared if the stored size-1 stripes contain their starts |
| AddrRangeMaps.AddrRangeMap.Erase | createCkpt/gem5_create/base/addr_range_map.hh:166-171 | the entry leaves map, cache and history, and the invariant holds |
| AddrRangeMaps.AddrRangeMap.EraseRange | createCkpt/gem5_create/base/addr_range_map.hh:176-183 | the cache stays valid if and only if none of the erased entries after the first was cached |
| AddrRangeMaps.AddrRangeMap.Clear | createCkpt/gem5_create/base/addr_range_map.hh:188-193 | map and cache are empty and valid |
| AddrRangeMaps.AddrRangeMap.CacheDistinct | createCkpt/gem5_create/base/addr_range_map.hh:331-337 | no entry is cached twice |
| AddrRangeMaps.AddrRangeMap.CacheIsMostRecent | createCkpt/gem5_create/base/addr_range_map.hh:331-337 | with no erase since construction or clear, the cache is the most recently returned entries in order |
| AddrRangeMaps.DanglingEntry | createCkpt/gem5_create/base/addr_range_map.hh:176-183 | a run after which an erased entry is still cached |
| AddrRangeMaps.RefusedStripe | createCkpt/gem5_create/base/addr_range_map.hh:154-161 | with one stripe of size 1 stored that misses its start, the same stripe is not refused and the disjoint one is |
| AddrRangeMaps.SecondReturned | createCkpt/gem5_create/base/addr_range_map.hh:139-148 | entries [0, 16) and [16, 32) and query [8, 24): the second is returned |
| AddrRangeMaps.LastAddressFound | createCkpt/gem5_create/base/addr_range_map.hh:114-123 | a map with the one entry [0, 16) that returns it for the last address |
| Recency.RecencyElements | createCkpt/gem5_create/base/addr_range_map.hh:331-337 | the recency order holds exactly the entries that lookups returned |
| Recency.RecencyDistinct | createCkpt/gem5_create/base/addr_range_map.hh:331-337 | the recency order holds each entry once |
| Recency.TouchKeepsPrefix | createCkpt/gem5_create/base/addr_range_map.hh:255-298 | using an entry keeps the cache a prefix of the recency order, within its bound |
| Recency.TouchKeepsFull | createCkpt/gem5_create/base/addr_range_map.hh:255-298 | using an entry keeps the cache as full as the recency order allows |
| Recency.RecencyWithout | createCkpt/gem5_create/base/addr_range_map.hh:166-171 | erasing an entry takes it out of the recency order and leaves the rest in place |
| RangeMapRuns.Run | createCkpt/gem5_create/base/addr_range_map.hh:61-338 | for every run of inserts, lookups of ranges and of addresses, intersections, single erases and clears on compatible ranges, and every cache size, all answers are those of a plain collection scanned in full, with sharing an address as the test whenever the stored size-1 stripes contain their starts |
| Barriers.InvStep | createCkpt/gem5_create/base/barrier.hh:65-80 | every statement of wait, by any thread, keeps the invariant of the protocol |
| Barriers.RunInv | createCkpt/gem5_create/base/barrier.hh:61-80 | the invariant holds in every state of every run |
| Barriers.RunGoesOn | createCkpt/gem5_create/base/barrier.hh:61-80 | the new barrier is a run, and every run goes on with every step that is enabled |
| Barriers.NoEarlyReturn | createCkpt/gem5_create/base/barrier.hh:65-80 | no thread returns from its k-th wait before all threads have made their k-th call |
| Barriers.OneTrue | createCkpt/gem5_create/base/barrier.hh:71-79 | once all threads have returned from their k-th wait, exactly one of them got true from it |
| Barriers.WinnerIsLast | createCkpt/gem5_create/base/barrier.hh:71-75 | the thread that completes a generation is the last to arrive: all others wait in it |
| Barriers.AtMostOneTrue | createCkpt/gem5_create/base/barrier.hh:71-79 | at no time have two threads got true from their k-th wait |
| Barriers.FreeMutex | createCkpt/gem5_create/base/barrier.hh:53-58 | with the mutex free, numLeft and the waiters of the generation make up all threads, and nobody sleeps on an old generation |
| Barriers.WrapTells | createCkpt/gem5_create/base/barrier.hh:77-78 | a waiter is at most one generation behind, so comparing wrapped generations is exact |
| Barriers.NothingHangs | createCkpt/gem5_create/base/barrier.hh:74-79 | when only new calls or spurious wakeups are possible, every thread has returned from as many waits as all have called |
| Barriers.RunsSettle | createCkpt/gem5_create/base/barrier.hh:65-80 | at most 10 steps per thread pass in a run without a new call or a spurious wakeup |
| Meshes.AddLinks | createCkpt/gem5_configs/topologies/Mesh_XY.py:111-124 | one pair of loops appends the links of its direction and advances the link counter by their number |
| Meshes.AllLinksMesh | createCkpt/gem5_configs/topologies/Mesh_XY.py:108-172 | exactly one link per ordered pair of neighbours and no other, with the weight of its direction and consecutive ids |
| Meshes.AllLinksOrder | createCkpt/gem5_configs/topologies/Mesh_XY.py:108-172 | the ids follow the loops: east, west, north, south, the first two row by row and the last two column by column |
| Meshes.ConnectNodes | createCkpt/gem5_configs/topologies/Mesh_XY.py:76-106 | one external link per controller, dealt out to the routers, the rest to router 0; fails exactly when a leftover controller is not DMA, so the other two asserts never fail |
| Meshes.DealtEvenly | createCkpt/gem5_configs/topologies/Mesh_XY.py:60-106 | every router gets equally many controllers, dealt out in turn from router 0, and fewer controllers than there are routers go to router 0 besides |
| Meshes.NoneLeft | createCkpt/gem5_configs/topologies/Mesh_XY.py:63-63 | if the routers divide the controllers, no controller has to be DMA |
| Meshes.LinkRouters | createCkpt/gem5_configs/topologies/Mesh_westfirst.py:110-167 | the four loops build the mesh, and how many links that takes |
| Meshes.MakeTopology | createCkpt/gem5_configs/topologies/Mesh_XY.py:49-172 | fails exactly when the rows do not divide the routers or a leftover controller is not DMA; otherwise external links 0 to n-1 and a mesh whose ids go on from n in the order of the loops |
| Meshes.FitsWhen | createCkpt/gem5_configs/topologies/Mesh_XY.py:60-98 | a mesh is built exactly when the routers form a rectangle with that many rows and the controllers beyond the last full round are DMA |
| MeshRouting.CheapestIsDist | createCkpt/gem5_configs/topologies/Mesh_XY.py:111-169 | a walk is cheapest exactly when it weighs the weighted distance, abs dx + 2 abs dy in the XY mesh |
| MeshRouting.XYRoutes | createCkpt/gem5_configs/topologies/Mesh_XY.py:35-38 | under the assumed rule the weights enforce XY routing: along the row first, then along the column |
| MeshRouting.WestFirstRoutes | createCkpt/gem5_configs/topologies/Mesh_westfirst.py:33-41 | under the assumed rule a link goes west exactly while the destination lies to the west |
| MeshRouting.RouteExists | createCkpt/gem5_configs/topologies/Mesh_westfirst.py:37-41 | every router has an allowed link towards every other router |
| MeshRouting.RoutedProgress | createCkpt/gem5_configs/topologies/Mesh_westfirst.py:37-41 | every walk that follows the rule is cheapest so far and ends within the distance |
| MeshRouting.RankGrows | createCkpt/gem5_configs/topologies/Mesh_westfirst.py:110-167 | a number assigned to links grows along every channel dependency |
| MeshRouting.RoutedDepends | createCkpt/gem5_configs/topologies/Mesh_westfirst.py:33-41 | the links of every walk that follows the rule are a path in the dependency graph |
| MeshRouting.NoDeadlock | createCkpt/gem5_configs/topologies/Mesh_XY.py:35-38 | the channel-dependency graph has no cycle, for both kinds of mesh and every size |
| Clusters.Builder.MakeTopology | createCkpt/gem5_configs/topologies/Cluster.py:73-122 | the recursion over mutable lists and counters computes the network of the cluster |
| Clusters.MakeCounts | createCkpt/gem5_configs/topologies/Cluster.py:41-52 | one router per cluster, two links per sub-cluster, len(c) external links, each kind numbered on from its counter |
| Clusters.MakeTree | createCkpt/gem5_configs/topologies/Cluster.py:81-110 | the internal links form a tree of the routers with both directions of every edge |
| Clusters.TreeConnected | createCkpt/gem5_configs/topologies/Cluster.py:86-90 | every router is reached from the root along the links, and back |
| ClusterLinks.MakeLinks | createCkpt/gem5_configs/topologies/Cluster.py:81-122 | every controller and every sub-cluster is linked once, in the order of the nodes, with the router numbers of the preorder and the overriding bandwidths and latencies |
| ClusterLinks.HomesHeld | createCkpt/gem5_configs/topologies/Cluster.py:111-122 | the router of a controller is that of the cluster which directly holds it, and its link has the internal settings of that cluster |
| ClusterLinks.HomesInOrder | createCkpt/gem5_configs/topologies/Cluster.py:81-122 | the external links of every router are those of the controllers of its cluster, all of them, in the order of the nodes |
| ClusterLinks.EdgesJoin | createCkpt/gem5_configs/topologies/Cluster.py:86-110 | every pair of internal links joins a cluster and one of its own sub-clusters, there and back, with the external settings of the sub-cluster where set and the internal ones of the cluster where not |
| ClusterLinks.EdgesInOrder | createCkpt/gem5_configs/topologies/Cluster.py:81-110 | the pairs of internal links come in the order in which the recursion leaves the sub-clusters: after all pairs within, and in node order |
| Clusters.FreshTopology | createCkpt/gem5_configs/topologies/Cluster.py:73-126 | from fresh counters: counts, consecutive ids from 0 and the tree |
| ClusterLinks.FreshHomes | createCkpt/gem5_configs/topologies/Cluster.py:73-122 | from fresh counters: the controllers that every router links, in order, and their settings |
| ClusterLinks.FreshEdges | createCkpt/gem5_configs/topologies/Cluster.py:73-110 | from fresh counters: the two clusters that every pair of internal links joins, and its settings |
| MemTest.NumTesters | createCkpt/gem5_configs/example/memtest.py:105-116 | the loops compute the sum of testers times multipliers over the common length of the lists |
| MemTest.Check | createCkpt/gem5_configs/example/memtest.py:141-166 | which specifications the script accepts |
| MemTest.SmallestTree | createCkpt/gem5_configs/example/memtest.py:141-161 | the smallest tree that is accepted, and the specifications next to it that are not |
| MemTest.FullBlock | createCkpt/gem5_configs/example/memtest.py:163-166 | 64 testers are accepted and 65 are not |
| MemTest.System.MakeCacheLevel | createCkpt/gem5_configs/example/memtest.py:225-270 | the testers and the subsystems per level that the recursion adds, all under names not used before, each subsystem with the testers of its level |
| MemTest.TotalTesters | createCkpt/gem5_configs/example/memtest.py:105-116 | the sum over the levels equals the count over the tree |
| MemTest.MultiplierSystems | createCkpt/gem5_configs/example/memtest.py:106-110 | the multiplier of a level is its number of subsystems |
| MemTest.Build | createCkpt/gem5_configs/example/memtest.py:288-289 | the recursion makes as many testers as the formula says, gives every subsystem those of its level, and uses every (level, index) name exactly once |

## Left out

- The checkpoint collector, its compressor and the restore loader: the repository describes them but does not hold their code.
- AddrRanges.AddrRange: `to_string`, the `operator==` and the helpers `RangeEx` and `RangeIn`, which would only add easy members.
- AddrRangeMaps.AddrRangeMap.Insert: ranges that overlap without being both contiguous or stripes of one span are excluded, because comparing them panics, or reduces a size-1 argument to its start.
- Meshes.MakeTopology: the number of columns is the integer quotient; the script divides in floating point, which is the same below 2^53.
- Meshes.MakeTopology: link and router latencies, which are copied from the options.
- AddrRanges.AddrRange.RemoveIntlvBits: 2^31 or more masks are excluded, because the code counts them in an `int`.
- AddrRanges.AddrRange.AddIntlvBits: lowest bits of 31 and above are excluded, because the code shifts an `int` by them.
- AddrRanges.AddrRange.Granularity: a lowest bit of 32 or above is excluded, because the code combines the masks in an `int`.
- AddrRanges.AddrRange.Contains: more than 31 masks are excluded, because the selector is an `int`.
- AddrRangeSets.Legacy: fields that reach outside bits 0 to 63 are excluded, because the shift is then undefined.
- AddrRangeSets.Merge: 64 or more masks are excluded, because the shift is then undefined.
- RangeMapRuns.Run: range erases are left to EraseRange, which does not keep the invariant; empty stripes are not stored.
- ReverseBits.Reverse: signed types, for which the shifts keep the sign.
- Barriers.RunInv: the barrier is used by exactly `numWaiting` threads, at least one, as its constructor expects.
- Barriers.InvStep: the mutex and the condition variable are taken to work as specified; fairness of the scheduler is not modelled.
- Clusters.Builder.MakeTopology: clusters are trees; a cluster object that occurs twice or inside itself is not modelled.
- MemTest.Check: the random generator of trees and the parsing of the command line.
- MemTest.System.MakeCacheLevel: ports, crossbars and cache parameters; the names are pairs of level and index and not the formatted strings.
- PopCount.CountBits: models the portable branch; the branch for GCC and Clang is a compiler builtin.
- base/atomicio.cc, base/bmpwriter.cc, base/amo.hh, topologies/MeshDirCorners_XY.py and the other configuration scripts: input and output, image files, one-line functors, or glue over simulator objects.
