# SlowScanner: verified model

A Dafny model of SlowScanner, a multi-pass memory search engine on top of a growing memory-mapped
bump allocator. `dafny verify dfyconfig.toml` checks everything.

A first scan asks the operating system for the target's memory regions, copies each eligible region
into a snapshot file and keeps the elements a comparator accepts. Each next scan lists the regions
again, walks the new list and the previous scans with two pointers, carries every surviving element
into the coordinates of the new region and filters once more. Scans run in a thread pool and allocate
from one shared file, whose mappings are owned by `basic_mmap` objects.

| module | what it is about |
|---|---|
| `Bytes`, `Comparator` | little-endian words, strides by element size, the comparator |
| `RegionWalk` | `get_regions`: the walk over an address space that may change while it is walked |
| `ScanModel` | scans as values, and what `first_scan` and `next_scan` compute from them |
| `SearchTheorems`, `RemapTheorems`, `PairTheorems`, `JoinTheorems`, `ListTheorems` | one region, one pair, one list |
| `WholeRun` | a first scan followed by any number of next scans and updates |
| `SnapshotStore` | `m_file`: growth, remapping, and why snapshots never overwrite each other |
| `Refusals` | scans whose file cannot always grow: a region without a block counts as one that cannot be read |
| `FirstScanTasks` | the pooled tasks of a first scan over one shared file, in any interleaving |
| `ScanEngine` | the classes `memory_region`, `scan` and `slow_scanner` with their loops, proved against `ScanModel` |
| `Sessions` | a first scan, next scans and updates in any order on the objects, over one file, tied to `WholeRun` |
| `PlainTerms` | first and next scans in literal widths, bytes and pages, without the model's own vocabulary |
| `Instances` | the surprises of `next_scan` at concrete inputs |
| `ThreadPool` | the monitor protocol of workers, enqueuers and the destructor |
| `Mmap` | `basic_mmap` ownership against the operating system's books |
| `Addressing` | the pointers `write` hands out, through `basic_mmap`'s mappings, against the blocks of the file |

The target's memory is an arbitrary function from address to byte that may be different in every
pass; region queries and reads are arbitrary functions or arbitrary answers. The scan proofs hold for
the concrete integer comparator, with 64-bit wrap-around subtraction, and for every predicate on the
two floating-point types; where a theorem says so, that predicate is the code's own over exact reals.

No proof uses Dafny's automatic induction: every lemma is marked `{:induction false}`. On lemmas that
compare datatypes, the induction hypothesis Dafny 4.11 adds by itself can be false of other types.

## What is false of the code, and exactly when

- `get_regions` clips the base of its first answer without shortening it. The result is disjoint for
  every address space if and only if the range starts on a page boundary, or is at most as long as one
  page, or no flag is asked for (`RegionWalk.DisjointIffAligned`).
- `next_scan` consumes a region after pairing it with one previous scan. It loses no survivor, for
  every target and scan type, if and only if no region that overlaps one previous scan holds a
  candidate of a later one (`JoinTheorems.CompleteIffUnmerged`). Whatever a first scan found in the upper
  of two adjacent regions is lost once they are reported as one (`Instances.MergeLosesUpper`; with two
  pages of zeros, the byte at 8192: `Instances.MergeLosesByte`).
- Remapping an index divides by the element size. The new index names the old address if and only if
  the two bases are congruent modulo that size (`RemapTheorems.RemapExactIffCongruent`). With four-byte
  elements, a next scan of a range from 4098 after a scan of the page at 4096 keeps a word at 4098 that
  no earlier scan had as a candidate (`Instances.ShiftedRangeMovesWords`).
- After an unknown-value scan every next scan is judged against the old value, so an exact-value scan
  ignores the value asked for (`PairTheorems.ExactAfterUnknownIsUnchanged`; a scan for 7 keeps a five:
  `Instances.ExactSevenKeepsFive`). After any other scan `increased_by` and `decreased_by` ignore the old
  value (`PairTheorems.TargetTypesIgnoreSnapshots`; in general `Instances.IncreasedByIgnoresOld`, and for
  fives that became sevens `Instances.FivesBecomeSevens`). Exactly which values each type accepts:
  `ListTheorems.TargetVerdicts`, `ListTheorems.DifferenceVerdicts`.
- `scan::update` ignores whether its reread worked. The live value it shows is the target's word if and
  only if the bytes of the element that a failing read did not reach were in the buffer as the target has
  them (`WholeRun.RefreshExact`); of an element it did not reach at all it shows the word that was in the
  buffer (`WholeRun.FailedRefreshShowsBuffer`).
- `m_file::write` ignores the result of `expand_size`, and keeps the enlarged size when the new
  mapping fails. A write is undefined if and only if the file could not be extended but was mapped
  again, or the block fits the file but not the current map (`SnapshotStore.WriteExact`). After growth
  without a map, the next write is undefined if and only if its block fits the grown file but not what
  is left of the old map; a smaller block is written, and a larger one makes the file coherent again
  (`SnapshotStore.LostMapping`).
- Remapping a `basic_mmap` onto the handle it opened itself leaves that handle closed, and this is the
  only case (`Mmap.RemapKeepsFileOpen`).
- A path map that opens the file and then fails leaves a handle open that no object will close, and no
  other operation does (`Mmap.FilesOwnedUnlessMapFails`).

The comments of `dumpable.hpp` say that `expand_size` doubles the current size plus the extra size;
`write` passes it the whole block, not the missing part, and the model does the same.

## Model

| member | source | states |
|---|---|---|
| Bytes.WordInjective | scanner/scan.hpp:85 | two zeroed words that n bytes were copied into are equal exactly when those bytes are equal |
| Bytes.OverwriteNarrow | scanner/scan.hpp:106 | copying over a live value leaves no stale high bytes if that value was no wider than the element |
| Bytes.WidthArithmetic | scanner/memory_region.hpp:34-43 | the stride, count and remainder used in the model are the product, quotient and remainder by the element size |
| Bytes.IndexOfAddress | src/slow_scanner.cpp:168 | two aligned addresses are a whole number of elements apart |
| Bytes.MemoryWordBytes | scanner/scan.hpp:85 | a word of one, two, four or eight bytes has its lowest byte at the lowest address |
| Bytes.MemoryWordFits | scanner/scan.hpp:84 | whatever its width, a word read from the target fits 64 bits |
| Comparator.DifferenceMeans | slow_scanner.h:116-117 | for any old value, increased_by and decreased_by hold exactly when one value is the other plus the second value, with wrap-around at 2^64; without a second value they accept nothing |
| Comparator.DifferenceIsModular | slow_scanner.h:116-117 | of two 64-bit values, increased_by and decreased_by are addition modulo 2^64 and mirror each other |
| Comparator.Trichotomy | slow_scanner.h:66-115 | against an old value, increased, decreased and unchanged exclude each other and leave nothing out, for integers, and for Float and Double over exact reals |
| Comparator.FloatVerdicts | slow_scanner.h:66-86 | with the new value first, what each scan type says about two floats, all with a tolerance of 0.01 |
| Comparator.DoubleVerdicts | slow_scanner.h:87-104 | the same for doubles, where only bigger_than and smaller_than have a tolerance |
| Comparator.NoSecondValue | slow_scanner.h:82-118 | without a second value increased_by, decreased_by and value_between accept nothing, whatever the type |
| RegionWalk.Clip | src/slow_scanner.cpp:19-23 | a clipped interval lies in the range, holds the queried address and makes progress, whatever the alignment |
| RegionWalk.VisitedAscendsInside | src/slow_scanner.cpp:10-32 | for any alignment and any answers the visited intervals are non-empty, inside the range, and strictly ascending |
| RegionWalk.VisitedGapless | src/slow_scanner.cpp:10-32 | from a page boundary the walk has no gaps and stops only at the end of the range or at a failed query |
| RegionWalk.KeepMembers | src/slow_scanner.cpp:28-29 | exactly those intervals are queued that are committed, not mapped files, and share a protection flag with those asked for |
| RegionWalk.RegionsAscendInside | src/slow_scanner.cpp:4-35 | the queue is strictly ascending by base, non-empty intervals inside the range, whatever the alignment |
| RegionWalk.AlignedRegionsDisjoint | src/slow_scanner.cpp:4-35 | from a page boundary the queued regions are disjoint and page aligned |
| RegionWalk.UnalignedWalkOverlaps | src/slow_scanner.cpp:19-20 | a concrete address space on which an unaligned range of more than a page yields overlapping regions |
| RegionWalk.DisjointIffAligned | src/slow_scanner.cpp:4-35 | the queue is disjoint for every address space exactly when the start is aligned, the range is short, or no flag is asked for |
| RegionWalk.RegionsCoverExactly | src/slow_scanner.cpp:4-35 | an address lies in a queued region exactly when it is in the part of the range walked and its page is committed, no mapped file, and has a protection flag asked for |
| SearchTheorems.SearchExact | scanner/scan.hpp:74-95 | search_value keeps, in order and once each, precisely the elements whose decoded value the comparator accepts |
| SearchTheorems.EveryElementExact | src/slow_scanner.cpp:144-157 | a raw snapshot stands for each whole element of the buffer, once, in order |
| SearchTheorems.SnapshotWord | scanner/memory_region.cpp:13-19 | a word of the snapshot is the target's word at the same address |
| SearchTheorems.ScanRegionExact | src/slow_scanner.cpp:55-72 | a region's candidates are the aligned elements wholly inside it, if it could be read, whose value there passes |
| SearchTheorems.ScanRegionFresh | src/slow_scanner.cpp:55-72 | a task yields at most one scan; its entries are ascending, in bounds, and equal to the snapshot; it is empty only for an unknown value |
| SearchTheorems.FirstScanFresh | src/slow_scanner.cpp:77-90 | the returned scans are in order, disjoint and hold the words of their own regions |
| SearchTheorems.FirstScanExact | src/slow_scanner.cpp:37-91 | an address is a candidate after first_scan exactly when some readable region wholly holds it and its value passes |
| PlainTerms.ExactU8 | src/slow_scanner.cpp:37-91 | an exact scan for 8-bit values finds exactly the readable bytes that equal the value asked for |
| PlainTerms.ExactU16 | src/slow_scanner.cpp:37-91 | for 16-bit values: the readable pairs of bytes at even addresses that make up that value |
| PlainTerms.ExactU32 | src/slow_scanner.cpp:37-91 | for 32-bit values: the same with four bytes at multiples of four |
| PlainTerms.ExactU64 | src/slow_scanner.cpp:37-91 | for 64-bit values: the same with eight bytes at multiples of eight |
| PlainTerms.UnknownFloat | src/slow_scanner.cpp:65-68 | an unknown-value scan for floats keeps every readable group of four bytes at a multiple of four, with its bits |
| PlainTerms.UnknownDouble | src/slow_scanner.cpp:65-68 | for doubles: every readable group of eight bytes at a multiple of eight |
| PlainTerms.FirstScanOfPages | src/slow_scanner.cpp:4-91 | from a page boundary, over a target whose queries and reads succeed, a first scan finds exactly the aligned elements of the range on scannable pages whose value passes, however the pages are cut into regions |
| PlainTerms.U16OfPages | src/slow_scanner.cpp:4-91 | so for 16-bit values, with page attributes and bytes written out |
| PlainTerms.NextScanOfPages | src/slow_scanner.cpp:4-197 | a next scan over the same pages keeps exactly those whose value passed before and passes now, against the old word or the value asked for |
| PlainTerms.IncreasedU16OfPages | src/slow_scanner.cpp:4-197 | so for increased 16-bit values after an unknown-value scan |
| PlainTerms.IncreasedByU64OfPages | src/slow_scanner.cpp:4-197 | so for 64-bit values increased by a difference, with wrap-around at 2^64 |
| RemapTheorems.RemapExactIffCongruent | src/slow_scanner.cpp:161-168 | the remapped index names the same address exactly when the bases are congruent modulo the element size |
| RemapTheorems.NewIndexExact | src/slow_scanner.cpp:160-168 | between aligned bases the new index is the old address, inside the new region |
| RemapTheorems.RemapEntryExact | src/slow_scanner.cpp:159-186 | what becomes of one entry: at most one new entry, at its old address, with the word now there, if it is in the overlap and accepted |
| RemapTheorems.RemapEntriesExact | src/slow_scanner.cpp:157-187 | the branch for value scans keeps the order and yields exactly what each entry becomes |
| RemapTheorems.RawIsExplicit | src/slow_scanner.cpp:144-187 | stepping raw strides over the overlap gives the entries that remapping every element of the snapshot explicitly would give |
| PairTheorems.PairExact | src/slow_scanner.cpp:120-190 | a candidate of the paired scan is a previous candidate wholly in the readable region whose value now is accepted against its reference |
| PairTheorems.PairFresh | src/slow_scanner.cpp:120-190 | a pair yields at most one scan, with ascending entries in bounds whose values are the region's own words |
| PairTheorems.ExactAfterUnknownIsUnchanged | src/slow_scanner.cpp:151 | after an unknown-value scan an exact-value scan finds what an unchanged scan finds, whatever value is asked for |
| PairTheorems.TargetTypesIgnoreSnapshots | src/slow_scanner.cpp:176-181 | scan types other than the four snapshot types depend only on where the previous candidates were |
| JoinTheorems.TwoPointerIsNested | src/slow_scanner.cpp:100-122 | on sorted lists the walk pairs each region with the lowest-indexed previous scan it overlaps, and with none if there is none |
| JoinTheorems.NestedMembers | src/slow_scanner.cpp:100-190 | every resulting scan comes from a region and its first overlapping previous scan, and each such pair contributes |
| JoinTheorems.NextScanFresh | src/slow_scanner.cpp:93-197 | the new list is in order and disjoint, holds the words of its own regions, and no scan in it is empty |
| JoinTheorems.NextScanExact | src/slow_scanner.cpp:93-197 | an address is a candidate exactly when it was one in the first overlapping scan of a readable region wholly holding it and its value now is accepted |
| JoinTheorems.NoFalseSurvivor | src/slow_scanner.cpp:93-197 | next_scan never keeps what an address filter would drop |
| JoinTheorems.UnmergedIsComplete | src/slow_scanner.cpp:100-122 | if no region hides a later scan's candidate behind an earlier scan, next_scan is the address filter |
| JoinTheorems.MergedLosesCandidate | src/slow_scanner.cpp:120-122 | whenever a region does hide one, there is a target and a scan type for which next_scan loses it |
| JoinTheorems.CompleteIffUnmerged | src/slow_scanner.cpp:100-122 | next_scan loses nothing for any target and scan type exactly when no region hides a candidate |
| ListTheorems.SnapshotUnique | scanner/scan.hpp:27-31 | a usable scan holds one snapshot value at most for an address |
| ListTheorems.VerdictDecides | src/slow_scanner.cpp:144-186 | once a candidate lies in a processed overlap, the comparator alone decides whether it survives |
| ListTheorems.ChangeVerdicts | src/slow_scanner.cpp:144-186 | a processed integer is a candidate of increased, decreased, unchanged or changed exactly when it rose above, fell below, equals or differs from its old value |
| ListTheorems.TargetVerdicts | src/slow_scanner.cpp:144-186 | exact, smaller, bigger and between compare with the value asked for, or with the old value after an unknown-value scan; between needs the second value |
| ListTheorems.DifferenceVerdicts | src/slow_scanner.cpp:144-186 | increased_by and decreased_by hold exactly when the value and that same reference differ by the second value, with wrap-around at 2^64 |
| ListTheorems.CandidatesPartition | slow_scanner.h:66-115 | increased, decreased and unchanged are disjoint and make up the processed candidates, and changed is increased or decreased; for integers, and for Float and Double over exact reals |
| ListTheorems.RepresentationEquivalence | src/slow_scanner.cpp:144-186 | for the four snapshot types next_scan cannot tell a raw snapshot from explicit entries of all its elements |
| ListTheorems.UpdateKeepsHistory | scanner/scan.hpp:101-109 | an update leaves indices, snapshot values and raw snapshots of unknown scans alone |
| ListTheorems.UpdateShowsLiveWords | scanner/scan.hpp:105-106 | after an update each live value is the word now in the buffer, and stays that narrow for the next update |
| ListTheorems.NextScanSeesHistory | src/slow_scanner.cpp:93-197 | next_scan gives the same list from previous scans that differ in live values and reread buffers only |
| ListTheorems.SortIsIdentity | src/slow_scanner.cpp:85-90 | a sorted permutation of a strictly ascending list is that list |
| ListTheorems.FirstScanAscends | src/slow_scanner.cpp:77-90 | first_scan's list is strictly ascending before the sort, whatever the alignment |
| ListTheorems.NextScanAscends | src/slow_scanner.cpp:189-193 | next_scan's list is strictly ascending before the sort, whatever the alignment and the previous scans |
| WholeRun.RunFresh | src/slow_scanner.cpp:37-197 | every list of a run satisfies the result-list invariant and is strictly ascending; only a first unknown scan has no entries |
| WholeRun.RunExact | src/slow_scanner.cpp:37-197 | after any run an address is a candidate exactly when it survived every pass through its lowest live predecessor, and its snapshot is the last word read there |
| WholeRun.RunIsAddressFilter | src/slow_scanner.cpp:37-197 | if no region ever merges two earlier ones, a candidate is an address that was readable and accepted in every pass, whatever the regions were |
| Instances.MergeLosesUpper | src/slow_scanner.cpp:120-122 | whatever first_scan found in the upper of two adjacent regions is lost when they are met as one, for every target and scan type |
| Instances.MergeLosesByte | src/slow_scanner.cpp:120-122 | so at one input: the byte at 8192 of two pages of zeros |
| Instances.ExactKeepsUnchanged | src/slow_scanner.cpp:151 | after an unknown-value scan of a region an exact-value scan keeps every element that did not change, whatever it asks for |
| Instances.ExactSevenKeepsFive | src/slow_scanner.cpp:151 | so at one input: a scan for 7 keeps a five |
| Instances.ShiftedRangeMovesWords | src/slow_scanner.cpp:161-168 | a page of zeros scanned from 4096 and then from 4098 for unchanged words: the word at 4098 is kept though it was never a candidate |
| Instances.IncreasedByIgnoresOld | src/slow_scanner.cpp:176-181 | after a scan for anything but an unknown value, increased_by keeps an element exactly when it is the value given plus the difference, whatever it was |
| Instances.FivesBecomeSevens | src/slow_scanner.cpp:176-181 | so at one input: fives that became sevens are kept as increased by two only if the value given is five |
| WholeRun.UpdatesInvisible | scanner/scan.hpp:101-109 | any updates between the scans leave the scans, their entries' number, order, indices and snapshots, and the raw bytes of unknown-value scans as in the run without them |
| ScanModel.AfterRead | scanner/memory_region.cpp:13-19 | a successful read leaves the region's bytes in the buffer, whatever was in it |
| WholeRun.RefreshShowsTarget | scanner/scan.hpp:101-109 | after an update of a region that can be read, or up to where a failing read got, each live value is the target's word at the entry's address; index and snapshot are untouched |
| WholeRun.RefreshExact | scanner/scan.hpp:101-109 | an update shows the target's word exactly when each byte of the element is reached by the reread or was in the buffer as the target has it |
| WholeRun.FailedRefreshShowsBuffer | scanner/scan.hpp:103-106 | the result of the reread is ignored: behind where it failed, each live value is the word that was in the buffer before |
| SnapshotStore.CopyExact | dumpable/src/dumpable.cpp:87-102 | a copy is defined exactly when there is a map and the block fits what is left of it; it puts the block at the old write position and leaves what was before it |
| SnapshotStore.ExpandExact | dumpable/src/dumpable.cpp:117-135 | the file grows to the page multiple at or above twice the size plus the block, and keeps its bytes |
| SnapshotStore.WriteExact | dumpable/src/dumpable.cpp:70-104 | from any state writes can leave: exactly when a write is undefined, fails or succeeds, where its block is, what a failed write changes, and when the file is coherent |
| SnapshotStore.GrowingWrite | dumpable/src/dumpable.cpp:74-104 | a write that grows the file maps it from the write position to its new end, puts its block at the start of that map, and leaves zeros behind it |
| SnapshotStore.FittingWrite | dumpable/src/dumpable.cpp:87-104 | a write that fits puts its block at the write position of the current map, moves both positions behind it and changes no other byte |
| SnapshotStore.WrittenHolds | dumpable/src/dumpable.cpp:87-104 | a block handed out, from whatever state and growth answers, holds the data that was to be written |
| SnapshotStore.LostMapping | dumpable/src/dumpable.cpp:75-102 | after growth without a new mapping, also the very first: exactly which next block makes the write undefined, and that a block beyond the grown size recovers |
| SnapshotStore.ReserveIsWrite | dumpable/src/dumpable.cpp:70-104 | size, write position and what is left of the map decide a write's fate, whatever the bytes |
| SnapshotStore.TogetherNeverCrashes | dumpable/src/dumpable.cpp:74-85 | from a coherent file no block makes a write undefined while extending and mapping succeed or fail together |
| SnapshotStore.AllocRefines | dumpable/src/dumpable.cpp:70-104 | an allocation adds one block with its data and changes no other block, even when the file is remapped |
| SnapshotStore.PokeRefines | scanner/memory_region.cpp:13-19 | writing into a block through its own, possibly old, mapping changes that block and no other |
| SnapshotStore.StoreRefinesPrivateBuffers | dumpable/src/dumpable.cpp:70-104 | after any run of writes the blocks read exactly as buffers that share nothing |
| SnapshotStore.AllocAppends | dumpable/src/dumpable.cpp:70-104 | in such a run every allocation of some bytes adds a block of just these |
| SnapshotStore.PokeWrites | scanner/memory_region.cpp:13-19 | and every overwrite within a block changes just the bytes it names |
| SnapshotStore.BlocksDisjoint | dumpable/src/dumpable.cpp:87-102 | every block, the only one of a store included, lies below the write position, inside the mapping it was handed out in, and behind all blocks before it |
| SnapshotStore.GrowthBounds | dumpable/src/dumpable.cpp:117-135 | the size is a page multiple, at most 4 times the offset plus 4092, and at least 4096 * 2^(k-1) after k mappings |
| SnapshotStore.MFile.constructor | dumpable/src/dumpable.cpp:3-30 | the file is opened with whatever could not be deleted, at write position 0 and without a map; it is coherent exactly when that is nothing |
| SnapshotStore.MFile.ExpandSize | dumpable/src/dumpable.cpp:117-135 | the object's whole new state is the specified growth, and the result tells whether it happened |
| SnapshotStore.MFile.DoMap | dumpable/src/dumpable.cpp:112-115 | the new map reaches from the given offset to the end of the file, or is one without memory |
| SnapshotStore.MFile.CopyIn | dumpable/src/dumpable.cpp:87-102 | the object's whole new state and the returned block are the specified copy |
| SnapshotStore.MFile.Write | dumpable/src/dumpable.cpp:70-104 | the object's whole new state and the returned block are the specified write; after a null buffer every byte of the block is zero |
| FirstScanTasks.NextKeeps | src/slow_scanner.cpp:53-74 | no step of any task disturbs what another task has read or found |
| FirstScanTasks.FirstScanConfluent | src/slow_scanner.cpp:43-90 | every interleaving of the tasks, allocations, denied growth and copied bytes included, collects the list of a sequential scan in which the unserved regions cannot be read |
| FirstScanTasks.ServedFirstScanConfluent | src/slow_scanner.cpp:43-90 | if all tasks get their blocks, every interleaving collects the first scan of the target itself |
| FirstScanTasks.UndeniedFirstScanConfluent | src/slow_scanner.cpp:43-90 | where the file can always grow, every interleaving that finishes the tasks collects the first scan of the target |
| FirstScanTasks.UnservedExactly | scanner/memory_region.cpp:6-12 | a task gets no block exactly when growth is denied and its region does not fit what is left of the file; otherwise it starts reading into a new block |
| Refusals.RefusedIsUnreadable | src/slow_scanner.cpp:59-60 | scanning a target that refuses some bases yields nothing for those regions and the same for the others |
| Refusals.FateIsScan | src/slow_scanner.cpp:59-60 | whatever state the allocations before it left the file in, a region comes to what scanning it would yield if just the regions whose allocations were refused could not be read |
| Refusals.TogetherFirstScan | src/slow_scanner.cpp:43-90 | no allocation of a first scan is undefined while extending and mapping succeed or fail together |
| Refusals.WalkIsNextScan | src/slow_scanner.cpp:100-190 | the walk by two indices in which regions may be refused blocks is the two-pointer walk in which just those cannot be read |
| Refusals.TogetherNextScan | src/slow_scanner.cpp:100-190 | no allocation of a next scan is undefined while extending and mapping succeed or fail together |
| Refusals.GrownRefusesNoRegion | dumpable/src/dumpable.cpp:74-85 | a file that always grows refuses no region of a first scan |
| Refusals.GrownRefusesNoPair | dumpable/src/dumpable.cpp:74-85 | a file that always grows refuses no region of a next scan |
| Refusals.NothingRefusedFirst | src/slow_scanner.cpp:37-91 | with nothing refused the first scan is that of the target itself |
| Refusals.NothingRefusedNext | src/slow_scanner.cpp:93-197 | with nothing refused the next scan is that of the target itself |
| FirstScanTasks.EarlierSnapshotsSurvive | src/slow_scanner.cpp:43-90 | in every state of every run the snapshots of earlier scans read as before |
| FirstScanTasks.MoveMakesProgress | src/slow_scanner.cpp:80-83 | every move of an unfinished task leaves less to do, so the futures become ready |
| ScanEngine.RegionsFormLayout | src/slow_scanner.cpp:4-35 | from a page boundary the regions meet what the scan theorems ask of them, for every element size |
| ScanEngine.MemoryRegion.constructor | scanner/memory_region.hpp:12-13 | a new region holds no span, no mapping and no reservation |
| ScanEngine.MemoryRegion.AllocF | dumpable/dumpable.hpp:291-329 | a granted allocation appends a zeroed span at the old write position and keeps its mapping; a refused one may have grown the file, and keeps the write position and the bytes before it |
| ScanEngine.MemoryRegion.ReadMemory | scanner/memory_region.cpp:4-23 | the block is asked for once and then refilled; the read succeeds exactly when it was granted and the target can be read; other bytes and the write position stay |
| ScanEngine.MemoryRegion.ReserveBlock | scanner/memory_region.cpp:6-12 | the region gets a block of zeros at the old write position exactly when its allocation is granted |
| ScanEngine.MemoryRegion.Refill | scanner/memory_region.cpp:13-19 | only the bytes copied into the region's own span change |
| ScanEngine.Scan.constructor | scanner/scan.hpp:46-55 | a new scan is not valid and has no results |
| ScanEngine.Scan.SearchValue | scanner/scan.hpp:74-95 | the results are the specified search of the raw bytes, the count is their number, and the scan is valid exactly when there are some |
| ScanEngine.Scan.AddResult | scanner/scan.hpp:97-99 | the result is appended |
| ScanEngine.Scan.SetValid | scanner/scan.hpp:65 | the scan is valid |
| ScanEngine.Scan.Update | scanner/scan.hpp:101-109 | at any alignment the new state is the specified update of the old one over the reread bytes; nothing is allocated and no byte of the file outside the region's own block changes |
| ScanEngine.UpdateOne | scanner/scan.hpp:101-109 | updating one scan of a list is the specified update of it and leaves what all the others show, although they share one file |
| ScanEngine.BytesKept | scanner/memory_region.hpp:27-30 | a scan shows what it showed as long as the bytes of its own block are as they were |
| ScanEngine.ViewKept | src/slow_scanner.cpp:140-141 | a scan made earlier shows the same value after anything is allocated behind it |
| ScanEngine.SlowScanner.RegionAt | src/slow_scanner.cpp:12-25 | the region made for an answer is the clipped interval |
| ScanEngine.SlowScanner.GetRegions | src/slow_scanner.cpp:4-35 | the loop returns one unread object for each interval of the specified walk, all of them new and distinct |
| ScanEngine.SlowScanner.RunTask | src/slow_scanner.cpp:55-72 | a task reserves, reads and searches, and ends as the specified scan of its region, or not valid when it was refused a block or cannot read |
| ScanEngine.SlowScanner.LaunchNext | src/slow_scanner.cpp:43-75 | the next task ends as its turn in the file says, in a block of its own; the futures before it show what they showed, and the regions behind it stay unread |
| ScanEngine.SlowScanner.RunTasks | src/slow_scanner.cpp:43-75 | after the loop every future is finished as its turn in the file says, all of them new objects with blocks of their own above what was there |
| ScanEngine.SlowScanner.Collect | src/slow_scanner.cpp:77-83 | the valid futures, in their order, are the specified list, with blocks apart from each other |
| ScanEngine.FirstScanSorted | src/slow_scanner.cpp:85-88 | the objects of a first scan are strictly ascending by base before they are sorted |
| ScanEngine.SlowScanner.FirstScan | src/slow_scanner.cpp:37-91 | the returned objects, all new and of the element size asked for, show the specified first scan of the walked regions, those refused a block counting as unreadable; their blocks are apart from each other and above everything handed out before |
| ScanEngine.NextScanSorted | src/slow_scanner.cpp:191-193 | so are those of a next scan |
| ScanEngine.OnwardTurn | src/slow_scanner.cpp:101-122 | one turn of the walk, whichever branch it takes, keeps what is done and what is to do making up the whole |
| ScanEngine.SlowScanner.CompareRaw | src/slow_scanner.cpp:144-156 | the stride loop over the overlap yields the specified entries, and the scan is valid exactly when there are some |
| ScanEngine.SlowScanner.CompareEntries | src/slow_scanner.cpp:157-187 | the entry loop yields the specified entries although raw1 is overwritten in it; outside the four snapshot types raw1 stays the caller's |
| ScanEngine.SlowScanner.CompareEntry | src/slow_scanner.cpp:159-186 | one previous entry adds what becomes of it |
| ScanEngine.SlowScanner.CompareBuffers | src/slow_scanner.cpp:128-187 | comparing the two buffers over the overlap yields the specified entries, and the scan is valid exactly when there are some |
| ScanEngine.SlowScanner.ReadKeeping | src/slow_scanner.cpp:140-141 | a new region is read into a block of its own, and no previous scan shows anything else |
| ScanEngine.SlowScanner.Compare | src/slow_scanner.cpp:120-187 | a region against its previous scan ends as the specified pair, or not valid when it is refused a block or cannot be read; all previous scans show what they showed |
| ScanEngine.SlowScanner.Consume | src/slow_scanner.cpp:120-190 | the results grow by the specified pair, in a block apart from theirs; the previous scans and the earlier results show what they showed |
| ScanEngine.SlowScanner.ConsumeFront | src/slow_scanner.cpp:102-122 | the front of the queue adds its specified pair in a block of its own; both lists show what they should and the regions behind it stay unread |
| ScanEngine.SlowScanner.Walk | src/slow_scanner.cpp:100-190 | the two-pointer loop yields the specified list, and terminates as regions or previous scans are used up |
| ScanEngine.SlowScanner.WalkQueue | src/slow_scanner.cpp:96-190 | the loop over a queue and the previous scans shows the specified next scan, those refused a block counting as unreadable |
| ScanEngine.SlowScanner.NextScan | src/slow_scanner.cpp:93-197 | the objects that replace the previous scans, all new and of the element size asked for, show the specified next scan of the values those showed, regions refused a block counting as unreadable; their blocks are apart and above everything handed out before |
| Sessions.RunSession | src/slow_scanner.cpp:37-197 | whatever sequence of next scans and updates follows a first scan on one file, the objects in hand show the list of the run, and what the file held before reads as it did |
| Sessions.CoherentSession | dumpable/src/dumpable.cpp:70-104 | from a coherent file no allocation of a session is undefined while extending and mapping succeed or fail together, and the file stays level |
| Sessions.SessionExact | src/slow_scanner.cpp:37-197 | from page boundaries the candidates of a session are exactly the survivors of its scans, whatever was reread in between and whichever regions got no block |
| Sessions.SessionPasses | src/slow_scanner.cpp:37-197 | the passes of a session are its requests, in order, and its refreshes its updates; none is skipped or added |
| Sessions.StepsInBounds | src/slow_scanner.cpp:168 | at any alignment, every entry of a list that scans and updates of one element type can produce lies in its buffer |
| Sessions.RenewOne | scanner/scan.hpp:101-109 | one update on the objects is one refresh of the run, and leaves the file as it was outside that block |
| ThreadPool.Reachable | thread_pool.hpp:10-79 | in every reachable state no wakeup is lost, tasks start once and in order, and no worker exits before the queue is drained |
| ThreadPool.SubmittedIsAccepted | thread_pool.hpp:69-77 | the pool is stopped once stop has happened, and has accepted exactly the tasks enqueued before it, in order |
| ThreadPool.EventsHappen | thread_pool.hpp:15-77 | what each event does to the queue and the workers, wherever it can happen |
| ThreadPool.QueueNeverStuck | thread_pool.hpp:15-28 | while a task is queued, the pool can move without outside help |
| ThreadPool.DispatchBounded | thread_pool.hpp:13-32 | before stop the pool's own steps number at most what was pending, plus four for each task accepted on the way and one for each spurious wakeup |
| ThreadPool.UndisturbedBounded | thread_pool.hpp:13-32 | left alone, the pool takes at most two steps for each queued task, worker and pending notification |
| ThreadPool.QuietExactly | thread_pool.hpp:15-28 | a pool that is not stopped has no step of its own left exactly when all workers wait and no notification is on its way |
| ThreadPool.QuietMeansDone | thread_pool.hpp:13-32 | then every task submitted has started in order and finished |
| ThreadPool.ShutdownDecreases | thread_pool.hpp:37-46 | after stop nothing is accepted, and every effective step makes twice the queued plus running, waiting, not exited and pending notifications smaller |
| ThreadPool.ShutdownNeverStuck | thread_pool.hpp:37-46 | after stop, as long as a worker has not exited, the pool can move |
| ThreadPool.ShutdownBounded | thread_pool.hpp:37-46 | any continuation after stop has at most that many effective steps |
| ThreadPool.ExitedMeansDrained | thread_pool.hpp:37-46 | once all workers have exited, every task submitted before stop has started in order and finished |
| ThreadPool.Monitor.constructor | thread_pool.hpp:10-34 | the invariant holds of a new pool |
| ThreadPool.Monitor.Enqueue | thread_pool.hpp:69-77 | the section of enqueue keeps the invariant and puts the task behind the queue, or refuses it after stop and changes nothing |
| ThreadPool.Monitor.TakeOrWait | thread_pool.hpp:18-28 | the worker's section keeps the invariant and takes the front task, waits or exits as the protocol says |
| ThreadPool.Monitor.TaskDone | thread_pool.hpp:29 | a finished task makes its worker recheck the predicate |
| ThreadPool.Monitor.Notify | thread_pool.hpp:76 | a notification wakes one waiting worker |
| ThreadPool.Monitor.BeginShutdown | thread_pool.hpp:38-41 | stop is set with the broadcast still pending |
| ThreadPool.Monitor.WakeEverybody | thread_pool.hpp:42 | every waiting worker, and no other, becomes awake |
| Mmap.MapWorksExactly | mio.hpp:1067-1111 | a map works exactly with a handle, a file that reaches to the end of what is asked for, a mapping handle and a start address; then what the object shows, otherwise nothing changes |
| Mmap.MapToEndWorks | mio.hpp:1084 | so a map that ends with the file, as the snapshot file's do, works |
| Mmap.MapPathWorksExactly | mio.hpp:1042-1065 | the same for a path, where a file that was opened stays open |
| Mmap.FaultsCount | mio.hpp:1161-1171 | the books count unmapping what is not mapped with that length, and closing what is not open as that kind or is the user's |
| Mmap.MapsHappen | mio.hpp:1042-1111 | in a system of objects, maps happen with whatever the system answers anew |
| Mmap.MovesHappen | mio.hpp:981-1030 | a move leaves the other object closed, with a stale ownership flag only when it is constructed from |
| Mmap.UnmapExact | mio.hpp:1145-1180 | giving up an object removes exactly its mapping, its mapping handle and the file it opened from the books |
| Mmap.MapExact | mio.hpp:1067-1111 | a successful map owns the new mapping, gives up the old one afterwards, and asks nothing it may not ask |
| Mmap.MapPathThenUnmap | mio.hpp:1042-1065 | after a successful path map the object owns the file it opened, and unmapping leaves the books as giving up the old mapping alone would |
| Mmap.MapThenUnmap | mio.hpp:1067-1111 | the same for a handle map, whose file the object does not own |
| Mmap.SingleOwnership | mio.hpp:974-1207 | after any operations every live mapping and mapping handle belongs to exactly one object, and nothing was unmapped or closed twice or on the user's behalf |
| Mmap.MappingsOwnedOnce | mio.hpp:974-1207 | spelled out: no fault was counted, and every live mapping is the whole mapping of one open object and of no other |
| Mmap.NothingLeaks | mio.hpp:974-979 | when all objects are gone, nothing is mapped and no mapping handle is open |
| Mmap.FailedPathLeaks | mio.hpp:1053-1064 | a path map that fails after opening leaves a file open that no object owns |
| Mmap.FilesOwnedUnlessMapFails | mio.hpp:974-1207 | an operation keeps every opened file owned by an object exactly when it is not such a failing path map |
| Mmap.NoHandleLeaks | mio.hpp:974-1207 | when all objects are gone and no path map failed after opening, only handles the user opened are open |
| Mmap.UserHandlesSurvive | mio.hpp:1161-1171 | from a consistent state no operation but the user's own close closes a handle the user opened, in books that would lose it |
| Mmap.RunSparesUser | mio.hpp:974-1207 | over any further run a handle the user opened and does not close stays open |
| Mmap.MappedBytesArePositioned | mio.hpp:914-968 | byte k of a mapped object is file byte offset + k, all requested bytes are mapped from a page boundary, and the start used for unmapping is the one the system returned |
| Addressing.WrittenBlockIsAddressed | dumpable/src/dumpable.cpp:70-115 | at every successful write, whatever the page size and the write position, data() + map_offset + k addresses file byte offset + k through the map do_map made, and that byte is byte k of the block |
| Addressing.StoredBlockIsAddressed | dumpable/src/dumpable.cpp:70-115 | after any run of writes and overwrites the pointer of every block, through its own possibly old map, still reads what a private buffer would hold |
| Mmap.AlignDownBelow | mio.hpp:93-98 | the aligned offset is at most the offset and less than a page below it |
| Mmap.AlignDownMultiple | mio.hpp:93-98 | the aligned offset is a multiple of the page size |
| Mmap.RemapKeepsFileOpen | mio.hpp:1088-1106 | after a successful map the file's handle is open unless it was the object's own internally opened one |
| Mmap.BasicMmap.constructor | mio.hpp:155-187 | a new object is closed; its ownership flag is whatever was in memory |
| Mmap.BasicMmap.Moved | mio.hpp:981-998 | the new object has all fields of the other, whose fields are reset except for the ownership flag, which stays |
| Mmap.BasicMmap.Unmap | mio.hpp:1145-1180 | the object and the books after unmap are as specified |
| Mmap.BasicMmap.Map | mio.hpp:1067-1111 | the object and the books after a handle map are as specified; it reports success exactly when the handle, the file's size and the system's answers allow the map |
| Mmap.BasicMmap.MapPath | mio.hpp:1042-1065 | the object and the books after a path map are as specified |
| Mmap.BasicMmap.MoveAssign | mio.hpp:1000-1030 | the own mapping is given up, all fields are taken over, the other is left closed; assigning to itself changes nothing |
| Mmap.BasicMmap.Swap | mio.hpp:1192-1207 | two objects exchange all fields |

## Left out

- 64-bit wrap-around of addresses and sizes: they are unbounded naturals; user-mode regions lie far below 2^64. Values and their differences do wrap.
- IEEE 754 rounding, NaN and infinities in the Float and Double branches of `make_comparator`: the two branches are one arbitrary predicate, or exact comparison of the real numbers that the bits stand for (`Comparator.OverReals`).
- Sessions.RunSession: its scans use one thread, as `ScanEngine.SlowScanner.FirstScan` does, and a reread of a list index that does not exist does nothing.
- The element size of a run: `next_scan` takes the element type afresh and scales the old indices by the new size (src/slow_scanner.cpp:93, 138, 161); that callers keep one element type is an assumption of the run theorems, which nothing in the code enforces.
- WholeRun.UpdatesInvisible: gives each scan bytes of its own; that the objects over one shared file show the same run is `Sessions.RunSession`.
- ScanEngine.SlowScanner.FirstScan: says nothing of growth after which one of its allocations is undefined in the code; `Refusals.TogetherFirstScan` says when there is none.
- ScanEngine.SlowScanner.NextScan: the same, with `Refusals.TogetherNextScan`; `prev_scans` is returned instead of being replaced through a reference.
- ScanEngine.SlowScanner.RunTasks: runs the tasks one after the other; all interleavings are the subject of `FirstScanTasks`, where growth that fails neither extends nor maps.
- `std::sort` is any sorted permutation.
- A failed `CreateFileMapping` is taken to answer `invalid_handle`, which is what the code tests for (mio.hpp:921-933); the system's null handle, after which a handle that was never opened would be closed, is not modelled.
- Operating system calls: queries, reads, growth, mapping and handles are parameters; a failing read may copy any prefix.
- FirstScanTasks: the tasks see one memory for the whole scan; memory that changes while it is read is not modelled, nor is reading a region while a later scan runs.
- The sized `m_file` constructor, `sync`, durability and file deletion: external effects, or a state without a current map.
- `basic_shared_mmap`, string traits, iterators and comparisons of `mio.hpp`, `singleton.hpp`, `attach_to` and the `driver` field: plumbing.
- `basic_mmap` is modelled in its Windows form, with a mapping handle; the length is checked on unmap as `munmap` would.
- `std::future` and `std::packaged_task`: a task is an identifier, and its result is what it leaves behind.
- Mutex sections of the pool are single steps, and which waiting worker a notification wakes is arbitrary.
