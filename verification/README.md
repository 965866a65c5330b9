# Verified model of memwatch

memwatch searches the memory of a running process, narrows the matches down over time, and freezes
values. This project models its four hard parts and proves what they compute.

- **Narrowing searches.** `Memory` has snapshots as lists of regions, `SearchSpec` says what each kind of
  search means as conditions on single addresses, and `Searching` has the class whose loops (the bounded
  first scan, the two-pointer sweep with skip-ahead, the sweep of results with tombstones and in-place
  compaction) produce exactly those addresses. `Adapter` lists the regions to read. `Sessions` proves what
  whole sequences of searches and deletions mean, and that reading only the regions that hold results
  gives the same results as reading everything. `SearchMeaning` writes the conditions out on the regions and
  bytes of the snapshots. `ReadBounds` says when string searches read past the end of a region. `Bytes`, `Bits`
  and `Comparators` give the integer comparators, the flag test and typed values their meaning.
- **Parallel find.** `Find` is a state machine whose steps are the atomic actions of the worker threads.
- **Frozen regions.** `FrozenRegions` is the write of one region, `FreezerRuns` what passes and operations
  do over time, and `Freezer` the class with its three views of shared region objects.
- **Iteration history.** `History` is the bounded undo stack and what its entries mean, `ShellRuns` the
  shell's search commands as steps, and `Shell` the class that performs them. `ShellMeaning` writes out what a
  search or delete command leaves in the newest iteration, and which commands a log holds. `Departures` has
  whole runs in which sessions and commands break a promise.

Evaluators of searches are arbitrary predicates on byte strings, except in `Comparators`. The target
process is a memory map and a byte map; a region's `data` is what reading it yields. Assumed of the
operating system: regions are non-empty, disjoint, in ascending order, aligned to 8 bytes, end below the
top of the address space, and a read yields all of a region or nothing. `Find` assumes whole pages where
it says so. No assumption excludes a region at address 0.

## Where the code departs from what it promises

The code is modelled as written. Each of these has a lemma that says exactly when the promise holds, and a
concrete input at which it does not.

- The first scan stops before the last cell of each region: `Sessions.LastCellIsMissed`, `LastCellExample`.
- A later search drops a result at address 0, the tombstone: `Sessions.LaterScanExactIff`,
  `Departures.AddressZeroExample`.
- Deleting up to the largest address deletes nothing, because `end + 1` wraps: `Sessions.DeletionExactIff`,
  `Departures.DeleteAllExample`.
- A string search without a value compares no bytes unless the search before it gave a value and was not an
  initial search for anything: `Sessions.ValuelessWidthIff`, `Departures.SecondValuelessExample`,
  `Departures.InitialAllExample`.
- A string search compares as many bytes as its value has, and reads past the end of a region: in the first
  scan, until the result limit stops it, exactly if the value is longer than the region (`ReadBounds.FirstScanOverrunIff`,
  `Departures.FirstOverrunExample`); after an initial search for anything exactly if the value has two bytes
  or more and some region with data overlaps one with data before that does not end early enough
  (`ReadBounds.SecondFitsIff`, `Departures.SecondOverrunExample`), so always if a region is unchanged
  (`ReadBounds.SharedRegionOverruns`); later exactly if some result that is readable now has too little room
  (`ReadBounds.LaterFitsIff`, `Departures.LaterOverrunExample`).
- The scan of `find` reads past the end exactly if the string is longer than the region: `Find.ScanOverrunIff`,
  `Find.ScanOverrunExample`.
- Deleting up to the largest address erases a range that ends before it begins exactly if a result lies below
  the start: `Searching.EraseInOrderIff`, `Departures.UndefinedDeleteExample`.
- The searches after the first one ignore the result limit, and keep to it exactly if there is no more to be
  found: `Sessions.LimitKeptIff`, `Departures.LimitIgnoredExample`.
- The manual restricts a search opened without `!` to writable memory; the flag is never consulted
  (`History.FlagIgnored`). A first search finds what is promised exactly if it finds nothing in memory that
  cannot be written: `Sessions.WritablePromiseIff`, `Departures.ReadOnlyExample`.
- `get_target_regions` reads one word past the end of the target list and may list one region too many.
  The word is a parameter, `beyond`; every result is independent of it: `Adapter.TargetRegionsExactIff`,
  `Adapter.OverrunExample`, `Adapter.TargetRegionsSuffice`.
- A reversed signed comparison is right only if the byte swap keeps the sign. The swap functions are not
  part of this model, so `signedSwap` says which: `Comparators.UnsignedSwapComparison`, `UnsignedSwapExample`.
- The flag searches of the signed 8-bit and 16-bit types overlook one bit: the sign bit or, in the reversed
  type, bit 7 of the number: `Comparators.SignedFlagMeaning`, `SignedFlagExamples`.
- `find` waits for ever for a string longer than a page, or without threads: `Find.SearchedSize`,
  `Find.LongStringExample`, `Find.NoThreadsExample`.
- `unfreeze_all` leaves the address view as it was, and later counts by address include its entries:
  `FreezerRuns.UnfreezeAllAgreesIff`, `FreezerRuns.UnfreezeAddrCountIff`, `FreezerRuns.StaleAddressExample`,
  `Freezer.EnableAddrCountIff`, `Freezer.StaleEnableExample`.
- The manual says that an array freeze writes nothing if the data is in the array already; an earlier null
  entry is overwritten all the same: `FrozenRegions.PresentDataUntouchedIff`, `DuplicateExample`.
- Forking a missing search by name erases the target: `ShellRuns.FailureLosesIff`,
  `Departures.LostTargetExample`.
- With an iteration limit of zero a search leaves no iteration: `ShellRuns.NonEmptyIff`,
  `Departures.ZeroLimitExample`. A limit too far above the history length makes the subtraction wrap, and
  more iterations would be deleted than there are: `History.NumToDeleteIff`, `Departures.GreatestLimitExample`.

## Model

| member | source | states |
|---|---|---|
| Memory.AscendingUnique | src/MemorySearch.cc:320-324 | an ascending result list is determined by its members, so membership results fix order and multiplicity |
| Memory.LookupMeaning | src/MemorySearch.cc:440-457 | the region found for an address is the one with data that the address lies in, and there is none exactly if there is no such region |
| Memory.CellMeaning | src/MemorySearch.cc:460-461 | the cell at an address in a region is the bytes of its data from that offset on |
| Memory.AlignedMeaning | src/MemorySearch.cc:307-309 | aligned means a multiple of the field size |
| SearchSpec.StepKeepsInv | src/MemorySearch.cc:260-495 | every search and deletion keeps the state invariant: ascending results, each aligned and inside a region with data of the saved snapshot |
| SearchSpec.StepDeterministic | src/MemorySearch.cc:260-495 | the specification leaves a search or deletion exactly one outcome |
| SearchSpec.FirstResultsArePrefix | src/MemorySearch.cc:308-329 | the first known-value search returns the first `max_results` elements of the full ascending list of matches |
| SearchSpec.FixedSizeReadsFit | src/MemorySearch.cc:396-398 | in every state with the invariant, a fixed-size search compares only bytes inside regions of both snapshots |
| ReadBounds.FirstScanOverrunIff | src/MemorySearch.cc:307-319 | the offsets that the first scan of a region may compare at, before the result limit stops it, reach past its end exactly if the value is longer than the region |
| ReadBounds.SecondFitsIff | src/MemorySearch.cc:396-398 | the search after an unknown-value search, given a value, reads inside regions exactly if the value has one byte or every overlap of regions with data leaves room |
| ReadBounds.SharedRegionOverruns | src/MemorySearch.cc:396-398 | a value of two bytes or more overruns as soon as one region is readable both times |
| ReadBounds.ValuelessSecondFits | src/MemorySearch.cc:396-398 | without a value the second search compares no bytes and cannot overrun |
| ReadBounds.StepKeepsSavedFits | src/MemorySearch.cc:478-480 | as long as searches read inside regions, every result has room in the saved snapshot for as many bytes as the saved length |
| ReadBounds.LaterFitsIff | src/MemorySearch.cc:460-462 | if no search has overrun before, a later one reads inside regions exactly if every result readable now has room for the value in its region |
| Departures.FirstOverrunExample | src/MemorySearch.cc:307-319 | a first search for nine bytes in a region of eight is accepted and overruns |
| Departures.SecondOverrunExample | src/MemorySearch.cc:396-398 | a session in which a second search for two bytes in unchanged memory is accepted and overruns |
| Departures.LaterOverrunExample | src/MemorySearch.cc:460-462 | a session in which a later search for two bytes is accepted and overruns |
| SearchSpec.AlignedCellFits | src/MemorySearch.cc:307-309 | an aligned address in a region leaves room for a whole field |
| Searching.SkipAligned | src/MemorySearch.cc:389-392 | the skip-ahead keeps offsets aligned and its subtraction does not wrap |
| Searching.MemorySearch.constructor | src/MemorySearch.hh:52-52 | a new search has neither snapshot nor results |
| Searching.MemorySearch.Copy | src/MemorySearch.hh:53-53 | a copy has the state of the original, sharing its snapshot |
| Searching.MemorySearch.CheckCanUpdate | src/MemorySearch.cc:230-258 | a search is accepted exactly if its predicate is supported, its value has the right size, and a first search has a value or, for fixed-size types, asks for anything; which reason is given when several apply |
| Searching.MemorySearch.Update | src/MemorySearch.cc:260-489 | a search is the specified step from the old to the new state in each of the three phases, or a refusal that changes nothing |
| SearchMeaning.AcceptedMeaning | src/MemorySearch.cc:230-258 | exactly when a search is accepted |
| SearchMeaning.StepMeaning | src/MemorySearch.cc:260-489 | on regions and bytes, what an accepted search leaves in each phase: the saved snapshot only; the first matches up to the limit; the aligned addresses in both snapshots that match; the results that still match, without 0 |
| SearchMeaning.DeleteMeaning | src/MemorySearch.cc:491-495 | a deletion leaves exactly the results outside the range, unless it ends at the last address, and nothing else changes |
| Searching.MemorySearch.FirstScan | src/MemorySearch.cc:299-332 | the results are the first matches in address order, up to the limit |
| Searching.MemorySearch.ScanRegion | src/MemorySearch.cc:307-330 | scanning one region extends what has been found to the end of the region |
| Searching.MemorySearch.SecondScan | src/MemorySearch.cc:354-403 | the results are the ascending list of all aligned addresses readable in both snapshots whose cells satisfy the predicate, although one index serves all new regions |
| Searching.MemorySearch.SweepRegion | src/MemorySearch.cc:358-401 | sweeping one new region ends, misses and repeats no match, and never moves the old index back |
| Searching.MemorySearch.NextOldRegion | src/MemorySearch.cc:375-379 | the regions the index passes cannot match any more, and it stops at one with data that ends after the current address |
| Searching.MemorySearch.Compare | src/MemorySearch.cc:459-462 | comparing inside the two regions decides the later-search condition, with all reads in bounds |
| Searching.MemorySearch.LaterScan | src/MemorySearch.cc:406-476 | the sweep with tombstones and compaction keeps exactly the earlier results that are readable now, satisfy the predicate and are not 0, in order |
| Searching.MemorySearch.StillMatches | src/MemorySearch.cc:432-462 | once both cursors stand at the result, the tests decide the condition; the test on the old map never removes a result |
| Searching.MemorySearch.Compact | src/MemorySearch.cc:467-475 | in-place compaction drops exactly the zeros and keeps the order |
| Searching.NonZeroAscending | src/MemorySearch.cc:467-475 | compacting a marked ascending list leaves an ascending list |
| Searching.MemorySearch.LowerBound | src/MemorySearch.cc:492-493 | binary search finds the split between smaller and other results |
| Searching.EraseInOrderIff | src/MemorySearch.cc:491-495 | the range to erase is in order exactly if its end does not wrap or no result lies below its start |
| Departures.UndefinedDeleteExample | src/MemorySearch.cc:491-495 | a session with a result at 8 in which deleting from 9 to the largest address is undefined |
| Searching.EraseIsDelete | src/MemorySearch.cc:491-495 | erasing between the two splits is the specified deletion and keeps the invariant |
| Searching.MemorySearch.DeleteResults | src/MemorySearch.cc:491-495 | removes exactly the inclusive range (nothing, if `end + 1` wraps) and keeps the rest in order |
| Adapter.RegionAfterAt | src/ProcessMemoryAdapter.cc:44-56 | a query answers with the region after all those that end at or before the address |
| Adapter.GetRegion | src/ProcessMemoryAdapter.cc:44-76 | what a query answers, with the region's data if asked for, and without data but with its protection if not |
| Adapter.GetAllRegions | src/ProcessMemoryAdapter.cc:78-94 | the walk ends and lists every region once, in ascending order |
| Adapter.GetTargetRegions | src/ProcessMemoryAdapter.cc:96-131 | the listing is the regions that contain a target, in order, plus at most the one region that the read past the end may add |
| Adapter.TargetRegionsSuffice | src/ProcessMemoryAdapter.cc:96-131 | whatever the word past the end is, the listing is a valid part of the map with every region that holds a target |
| Adapter.TargetRegionsExactIff | src/ProcessMemoryAdapter.cc:113-117 | exactly when the listing has no superfluous region |
| Adapter.OverrunExample | src/ProcessMemoryAdapter.cc:113-117 | one target and two regions, both of which are listed |
| Sessions.RunKeepsInv | src/MemorySearch.hh:10-15 | every state of every session satisfies the invariant |
| Sessions.SessionResults | src/MemorySearch.cc:260-495 | after any session the results are in ascending order and, unless the limit was hit, exactly the addresses that met the condition of every search against its own snapshots and of every deletion |
| Sessions.LaterResultsExact | src/MemorySearch.cc:406-495 | from any state with results on, the results are exactly those that pass every later operation |
| Sessions.CappedSessionResults | src/MemorySearch.cc:299-495 | limit hit or not, a session begun with a known value has exactly the first `max_results` matches of its first search that pass every later operation |
| Sessions.LimitKeptIff | src/MemorySearch.cc:354-402 | a first search keeps to the result limit; a later one keeps to it exactly if there is no more to be found |
| Departures.LimitIgnoredExample | src/MemorySearch.cc:354-402 | a session whose second search, with the limit at one, finds eight results |
| History.FlagIgnored | src/MemwatchShell.cc:1059-1071 | what a search yields does not depend on the all-memory flag |
| Sessions.WritablePromiseIff | README.md:46-46 | a first search finds what searching writable memory alone would find exactly if it finds nothing in memory that cannot be written |
| Departures.ReadOnlyExample | README.md:46-46 | a match in a region that can only be read is found |
| Sessions.NothingRuledOutYet | src/MemorySearch.cc:275-279 | until there are valid results, no operation restricts what will be found |
| Sessions.NarrowReadsSuffice | src/MemwatchShell.cc:1062-1071 | a session that reads only the regions holding results has at every point the results of the session that reads all of memory, although the snapshots differ |
| Sessions.TargetReadsSuffice | src/MemwatchShell.cc:1062-1071 | a session that reads, for each search with results, what listing the target regions gives has at every point the results of the session that reads all of memory |
| Sessions.MirrorStep | src/MemwatchShell.cc:1062-1071 | one command keeps the two sessions' states equal up to the extent of the saved snapshot |
| Sessions.LastCellIsMissed | src/MemorySearch.cc:308-308 | a matching cell is found exactly if it does not end where its region ends |
| Sessions.LastCellExample | src/MemorySearch.cc:308-308 | a region whose last byte matches and is not found |
| Sessions.LaterScanExactIff | src/MemorySearch.cc:408-476 | the later search is the intended filter exactly if no matching result is at address 0 |
| Departures.AddressZeroExample | src/MemorySearch.cc:467-475 | a session whose first search finds address 0 and whose second drops it although it still matches |
| Sessions.DeletionExactIff | src/MemorySearch.cc:493-493 | a deletion removes exactly its range if and only if the end is not the largest address or there are no results |
| Departures.DeleteAllExample | src/MemorySearch.cc:491-495 | a session in which deleting all addresses deletes nothing |
| Sessions.ValuelessWidthIff | src/MemorySearch.cc:277-279 | a string search without a value compares as many bytes as the value given last exactly if the search before it gave that value and was not an initial search for anything; otherwise it compares none |
| Sessions.NothingCompared | src/MemorySearch.cc:396-398 | a search that compares no bytes keeps everything readable or nothing, whatever memory holds |
| Departures.SecondValuelessExample | src/MemorySearch.cc:479-479 | a session in which the second string search without a value keeps a changed byte |
| Departures.ForgottenExample | src/MemorySearch.cc:479-479 | after a value and a search without one, the length of the value is forgotten |
| Departures.SavesMemory | src/MemorySearch.cc:277-279 | an initial search for anything, with a value, saves the snapshot and forgets the value's length |
| Departures.InitialAllExample | src/MemorySearch.cc:277-279 | a session in which the search after it finds a changed byte equal |
| Bytes.StoreLoad | src/MemwatchShell.cc:64-92 | storing a number in `n` bytes and loading it reduces it modulo 256 to the power `n` |
| Bytes.SwapOfLoaded | src/MemorySearch.cc:31-34 | swapping a loaded value gives the big-endian reading of its bytes |
| Bits.FlagTestIsOneBit | src/MemorySearch.cc:90-93 | the flag expression holds exactly for numbers with one bit set |
| Bits.FlagTestIsPower | src/MemorySearch.cc:90-93 | the flag expression holds exactly for powers of two |
| Bits.XorCountsDifferences | src/MemorySearch.cc:90-93 | the bits of the exclusive or are the positions in which the operands differ |
| Bits.DifferencesIgnoreByteOrder | src/MemorySearch.cc:150-158 | byte order does not change how many bits differ, so reversed types can reuse the flag function |
| Bits.SignedFlagTest | src/MemorySearch.cc:99-100 | on promoted signed operands the test holds exactly if the loaded patterns differ in one bit and it is not the top bit |
| Bits.SignedFlagExample | src/MemorySearch.cc:99-100 | 0 and the pattern with only the top bit set differ in one bit and fail the test |
| Comparators.IntConfigValid | src/MemorySearch.cc:174-188 | the integer rows of the table meet what the search proofs assume of a type |
| Comparators.ReadTypedValue | src/MemwatchShell.cc:62-93 | the buffer is the number's low bytes in the byte order of the type |
| Comparators.TypedValueRoundTrip | src/MemwatchShell.cc:62-93 | decoding the buffer gives the typed number reduced to the width and sign of the type |
| Comparators.NegativeValueReduces | src/MemwatchShell.cc:67-67 | a negative number in the range of a signed type survives being typed as a 64-bit value |
| Comparators.OperandMeaning | src/MemorySearch.cc:27-34 | what number the comparators of each type see in a cell |
| Comparators.ComparisonMeaning | src/MemorySearch.cc:43-86 | each of the six evaluators, for every integer type whose comparators keep the sign, compares the numbers stored in the two cells with its operator |
| Comparators.ComparisonWithValue | src/MemorySearch.cc:43-86 | for all integer types and each of the six operators, comparing a cell with a typed buffer compares the number in the cell with the number typed, reduced to the type |
| Comparators.UnsignedSwapComparison | src/MemorySearch.cc:31-34 | with a swap that loses the sign, a reversed signed comparison is right exactly for equality tests and numbers of the same sign |
| Comparators.UnsignedSwapExample | src/MemorySearch.cc:84-84 | with such a swap, -1 is not below 1 |
| Comparators.FlagMeaning | src/MemorySearch.cc:90-102 | a flag search of an unsigned or a 32-bit or 64-bit type, reversed or not, finds exactly the one-bit changes |
| Comparators.SignedFlagMeaning | src/MemorySearch.cc:99-100 | a flag search of a signed 8-bit or 16-bit type finds exactly the one-bit changes of all bits but the sign bit or, reversed, bit 7 of the number |
| Comparators.SignedFlagExamples | src/MemorySearch.cc:182-184 | a one-bit change that is not found, in each byte order |
| Comparators.ReversedSignExample | src/MemorySearch.cc:184-184 | the reversed 16-bit type does find a change of the sign bit alone |
| Comparators.TypedFirstSearch | src/MemorySearch.cc:299-332 | the results of a first typed search are the scanned cells whose number is less than, greater than, equal to and so on the number typed |
| Comparators.TypedSecondSearch | src/MemorySearch.cc:354-403 | the search after an unknown-value search, with a typed number or without, finds exactly the aligned cells readable both times whose number compares as asked with the number typed or with the number before |
| Comparators.TypedLaterSearch | src/MemorySearch.cc:406-476 | a later search, with a typed number or without, keeps the results whose number compares as asked with the number typed or with the number before |
| Find.ScanRegion | src/MemwatchShell.cc:292-310 | scanning a region yields exactly its addresses at which every byte that is not masked equals the string's, each with the region's protection, and advances the counter by its pages |
| Find.ScanOverrunIff | src/MemwatchShell.cc:293-301 | the scan of a region reads past its end exactly if the string is longer than the region |
| Find.ScanOverrunExample | src/MemwatchShell.cc:293-293 | a string of nine bytes in a region of eight makes the bound wrap |
| Find.StepOwned | src/MemwatchShell.cc:280-312 | every atomic step keeps the ownership invariant of the claim protocol |
| Find.StepRecorded | src/MemwatchShell.cc:280-312 | every step keeps the counter and the threads' results equal to what has been scanned |
| Find.OwnerStays | src/MemwatchShell.cc:283-285 | a claim is never taken over, and only the owner scans the region |
| Find.AllScanned | src/MemwatchShell.cc:280-330 | when all threads have finished, every region has been scanned to the end by one thread |
| Find.CollectedOnce | src/MemwatchShell.cc:332-335 | whatever the schedule, the collected results hold each match exactly once |
| Find.RearrangedValid | src/MemwatchShell.cc:260-263 | the regions of a valid map, sorted in any way, meet what the proofs assume of a find |
| Find.FindResults | src/MemwatchShell.cc:260-347 | for every region order, thread count and interleaving, the sorted results are, in strictly ascending order, all addresses at which every byte that is not masked equals the string's, each with the protection of its region |
| Find.SearchedSize | src/MemwatchShell.cc:269-327 | the counter never exceeds the total, and at the end it equals the total exactly if there is nothing to scan, or a thread and a string of at most a page |
| Find.NoThreadsExample | src/MemwatchShell.cc:314-327 | a page of memory and no threads: everything is finished and the counter stays below the total |
| Find.LongStringWaits | src/MemwatchShell.cc:293-327 | whenever the string is longer than a page, the threads can finish while the counter stays below the total |
| Find.LongStringExample | src/MemwatchShell.cc:293-327 | two pages, one thread and a string of a page and a byte |
| Find.Percentage | src/MemwatchShell.cc:322-326 | the percentage shown never exceeds 100 |
| Find.Finish | src/MemwatchShell.cc:280-312 | every schedule can be continued until all threads are done |
| Find.StepProgress | src/MemwatchShell.cc:282-311 | every step of an unfinished thread leaves fewer steps to take |
| Find.SearchTerminates | src/MemwatchShell.cc:280-330 | no interleaving of unfinished threads is longer than the initial number of steps |
| FrozenRegions.MemcmpMask | src/RegionFreezer.cc:16-33 | 0 exactly for equal strings, -1 exactly if some byte that is not masked differs, 1 otherwise |
| FrozenRegions.FrozenRegion.constructor | src/RegionFreezer.cc:222-268 | a region holds its data, layout and flag, and no error |
| FrozenRegions.FrozenRegion.Write | src/RegionFreezer.cc:247-254 | memory and error after writing a plain or array region |
| FrozenRegions.FrozenRegion.WriteArray | src/RegionFreezer.cc:305-355 | memory and error after writing an array region |
| FrozenRegions.FrozenRegion.FindItem | src/RegionFreezer.cc:309-347 | the scan stops at the least item that holds the data or is null |
| FrozenRegions.FrozenRegion.HoldsNull | src/RegionFreezer.cc:325-342 | an item is null if it matches the null data under its mask or, without null data, is all zero |
| FrozenRegions.WriteByte | src/RegionFreezer.cc:247-355 | a write changes exactly the bytes it is said to put, to the bytes of the data |
| FrozenRegions.OutsideUnchanged | src/RegionFreezer.cc:247-355 | no write changes a byte outside the region |
| FrozenRegions.WriteKeepsSame | src/RegionFreezer.cc:305-355 | what a write does depends on the bytes of its region only |
| FrozenRegions.ArrayWriteMeaning | src/RegionFreezer.cc:305-355 | the least item whose bytes equal the data's wherever the mask is not zero, or that is null, becomes the data if it can be written; every other byte is unchanged; without such an item nothing changes |
| FrozenRegions.PlainWriteMeaning | src/RegionFreezer.cc:247-254 | a plain region's bytes become the data if all of them can be written; otherwise nothing changes |
| FrozenRegions.ErrorMeaning | src/RegionFreezer.cc:305-355 | the error of an array that can be read: no space without a suitable item, none if that item equals the data, the one before if it is written, a write error if it cannot be |
| FrozenRegions.OtherErrors | src/RegionFreezer.cc:247-355 | a plain region fails exactly if it cannot be written; an array that cannot be read fails and is not written |
| FrozenRegions.MaskedExample | src/RegionFreezer.cc:16-33 | an item that differs from the data in a masked byte is recognised and made equal to the data |
| FrozenRegions.NullDataExample | src/RegionFreezer.cc:325-342 | with null data, an item of zeros is not null, and one that differs in a masked byte is |
| FrozenRegions.WriteTwice | src/RegionFreezer.cc:305-355 | writing a region a second time changes nothing |
| FrozenRegions.PresentDataUntouchedIff | README.md:65-65 | with the data present, nothing is written exactly if the first candidate item is equal to the data |
| FrozenRegions.DuplicateExample | README.md:65-65 | an array of a null item and the data, in which the data is written twice |
| FreezerRuns.PassByte | src/RegionFreezer.cc:364-376 | after a pass, every byte holds what the region of highest index that wrote it put there, and is unchanged if none wrote it |
| FreezerRuns.PassPlainByte | src/RegionFreezer.cc:364-376 | a byte of an enabled, writable plain region that no higher enabled region covers holds that region's byte |
| FreezerRuns.PassWithout | src/RegionFreezer.cc:368-372 | a pass does what it would do if a disabled region were not there |
| FreezerRuns.PassOnArray | src/RegionFreezer.cc:305-376 | within an enabled array apart from other enabled regions, a pass does what that array alone does |
| FreezerRuns.PassTwice | src/RegionFreezer.cc:364-376 | the pass after a pass changes nothing, if enabled arrays share no byte with other enabled regions; plain regions may overlap |
| FreezerRuns.OverlapExample | src/RegionFreezer.cc:364-376 | an array whose first item another region overwrites: the second pass still changes memory, the third does not |
| FreezerRuns.NextKeepsInv | src/RegionFreezer.cc:47-186 | every operation keeps indexes below the next one and every frozen region listed at its address |
| FreezerRuns.UnfreezeMeaning | src/RegionFreezer.cc:75-125 | unfreezing by name, address or index, or all, takes out exactly the regions with that name, address or index, or all, and leaves the others as they are; what the address view then lists |
| FreezerRuns.EnableMeaning | src/RegionFreezer.cc:127-186 | enabling and disabling sets the flag of exactly the regions with that name, address or index, or of all, and changes nothing else |
| FreezerRuns.FreezeMeaning | src/RegionFreezer.cc:47-61 | freezing adds the region under a new index; passes and the target change no region |
| FreezerRuns.ViewsAgreeUnlessAllUnfrozen | src/RegionFreezer.cc:47-125 | without `unfreeze_all`, the address view agrees with the others after every run |
| FreezerRuns.UnfreezeAllAgreesIff | src/RegionFreezer.cc:118-125 | `unfreeze_all` leaves the views in agreement exactly if the address view was empty |
| FreezerRuns.UnfreezeAddrCountIff | src/RegionFreezer.cc:90-103 | unfreezing by address removes exactly the regions at the address, and counts them exactly if no region unfrozen by `unfreeze_all` is still listed there |
| FreezerRuns.StaleAddressExample | src/RegionFreezer.cc:118-125 | a region unfrozen with all others and counted again |
| FreezerRuns.GoneForever | src/RegionFreezer.cc:75-125 | an index once unfrozen is never frozen again |
| FreezerRuns.OffStep | src/RegionFreezer.cc:75-186 | a region is off after an event that unfreezes or disables it and is turned off by no other event, and from then exactly until an event enables it |
| FreezerRuns.NoPassWritesOff | src/RegionFreezer.cc:364-376 | after any run that does not enable a region that is off, whatever else the shell and the target do, a pass does what it would do if the region did not exist |
| FreezerRuns.NoPassAfterTurningOff | src/RegionFreezer.cc:75-186 | so no pass writes a region between an unfreeze or disable and the event that enables it |
| FreezerRuns.NoPassWritesUnfrozen | src/RegionFreezer.cc:75-125 | an unfrozen region is written by no pass of any later run |
| FreezerRuns.ReleasedByte | src/RegionFreezer.cc:75-125 | once no frozen region covers a byte, every pass of every later run, target activity included, leaves it as it finds it until a region covering it is frozen |
| FreezerRuns.DisabledByte | src/RegionFreezer.cc:127-186 | every pass leaves a byte as it finds it as long as no event puts an enabled region over it, whatever other regions are enabled and whatever the target does |
| Freezer.RegionFreezer.constructor | src/RegionFreezer.cc:37-40 | nothing is frozen at first |
| Freezer.RegionFreezer.FreezeRegion | src/RegionFreezer.cc:47-61 | a new region, plain or array, with the given fields is frozen under the next index, and the others stay |
| Freezer.RegionFreezer.AddRegion | src/RegionFreezer.cc:357-362 | a region is entered into all three views |
| Freezer.RegionFreezer.UnfreezeName | src/RegionFreezer.cc:75-88 | the regions left are exactly those whose name is another; the number of regions that left is returned |
| Freezer.RegionFreezer.EraseAddresses | src/RegionFreezer.cc:80-84 | the loop takes the given entries' regions, and no others, out of two views |
| Freezer.RegionFreezer.UnfreezeAddr | src/RegionFreezer.cc:90-103 | the regions left are exactly those whose address is another; the number of entries listed at the address is returned |
| Freezer.RegionFreezer.EraseNames | src/RegionFreezer.cc:95-99 | the loop takes the given entries' regions, and no others, out of two views |
| Freezer.RegionFreezer.UnfreezeIndex | src/RegionFreezer.cc:105-116 | exactly the region of the index leaves all views, if there is one |
| Freezer.RegionFreezer.UnfreezeAll | src/RegionFreezer.cc:118-125 | everything is unfrozen and counted, but the address view stays |
| Freezer.RegionFreezer.EnableName | src/RegionFreezer.cc:127-141 | the flag of exactly the frozen regions whose name is the given one is set, the others keep theirs, and the changes are counted (`Freezer.EnableCounts`) |
| Freezer.RegionFreezer.EnableAddr | src/RegionFreezer.cc:143-157 | the flag of exactly the frozen regions whose address is the given one is set, the others keep theirs, and the changes among the listed ones are counted |
| Freezer.RegionFreezer.EnableIndex | src/RegionFreezer.cc:159-171 | the flag of the region with the index is set, the others keep theirs, and whether it changed is returned |
| Freezer.RegionFreezer.EnableAll | src/RegionFreezer.cc:173-186 | the flag of every frozen region is set, and the changes counted |
| Freezer.RegionFreezer.RunPass | src/RegionFreezer.cc:364-376 | one pass folds the writes of the enabled regions, as they are when it starts, over the target's memory in ascending index order |
| Freezer.RemoveRegions | src/RegionFreezer.cc:63-116 | taking the same regions out of all three views keeps them consistent |
| Freezer.EnableAddrCountIff | src/RegionFreezer.cc:143-157 | enabling by address returns the number of frozen regions that change exactly if no region unfrozen by `unfreeze_all` and still listed there changes |
| Freezer.EnableCounts | src/RegionFreezer.cc:127-186 | enabling by name, or of all regions, returns how many frozen regions of that name, or in all, have the flag different |
| Freezer.ViewsMeaning | src/RegionFreezer.cc:357-362 | the name view holds exactly the frozen regions, each under its name; the address view holds them all, each under its address, and nothing else exactly if the views agree |
| Freezer.StaleEnableExample | src/RegionFreezer.cc:143-157 | a region unfrozen with all others and counted when its address is disabled |
| Freezer.CountIndexes | src/RegionFreezer.cc:75-103 | entries of a view are as many as their regions' indexes |
| Freezer.LedgerInvariant | src/RegionFreezer.cc:357-362 | consistent views represent a state with the invariant of the runs |
| History.NumToDeleteIff | src/MemwatchShell.cc:1078-1081 | the unsigned subtraction read as signed is the number of iterations too many exactly if the limit is not too large; otherwise it exceeds the history |
| Departures.GreatestLimitExample | src/MemwatchShell.cc:1076-1081 | with the greatest limit, the first search of a newly opened one makes two iterations, of which three would be deleted |
| History.SearchAllNewest | src/MemwatchShell.cc:1076-1081 | after any number of searches the history is the newest iterations, up to the limit |
| History.SearchesThenUndos | src/MemwatchShell.cc:1076-1139 | from a history within the limit, `n` searches and `n` undos leave the newest originals that the limit did not push out, or none |
| History.UndoRestoresIff | src/MemwatchShell.cc:1114-1139 | the history is restored exactly if the limit was never exceeded |
| History.FullStep | src/MemwatchShell.cc:1061-1071 | every command of a session that reads less can be matched by the session that reads everything |
| History.FollowsKeepsValid | src/MemwatchShell.cc:1062-1076 | a command keeps an iteration faithful to its log |
| History.IterationMeaning | src/MemwatchShell.cc:1010-1139 | an iteration's results are those of the session that issued the logged commands with all of memory read; unless the limit was hit, exactly the addresses that met every logged condition |
| History.HistoryNarrows | src/MemwatchShell.cc:1069-1076 | once an iteration has results, every later iteration of its history has a subset of them |
| ShellRuns.NextKeepsValid | src/MemwatchShell.cc:740-1213 | every command keeps every iteration of every open search faithful to its log |
| ShellRuns.ShellRunValid | src/MemwatchShell.cc:740-1213 | so does every run of open, switch, close, search, undo, truncate, fork and delete commands |
| ShellRuns.NonEmptyIff | src/MemwatchShell.cc:1047-1081 | a command leaves a search without iterations exactly if it is a search that will be accepted while the limit is zero |
| Departures.ZeroLimitExample | src/MemwatchShell.cc:1076-1081 | a run whose first search, with the limit zero, leaves an open search without iterations |
| ShellRuns.SearchBounds | src/MemwatchShell.cc:1076-1081 | an accepted search leaves one iteration more, up to the limit, and before the new one the newest of those there were |
| ShellMeaning.SearchSucceedsIff | src/MemwatchShell.cc:1010-1071 | a search command succeeds exactly if the search is open, has an iteration, and supports the predicate with a value of this size; otherwise nothing changes |
| ShellMeaning.SearchCommandMeaning | src/MemwatchShell.cc:1059-1081 | in each phase, the newest iteration holds what the command's own predicate, value and limit find in the target's memory, and its log is the one before with that command; the oldest iterations beyond the limit go |
| ShellMeaning.DeleteCommandMeaning | src/MemwatchShell.cc:970-1008 | a delete command leaves in the newest iteration exactly the results in none of the ranges, and fails exactly without an iteration or with a decreasing range |
| ShellMeaning.LogStep | src/MemwatchShell.cc:740-1213 | after a command every log was there before, is empty, or is the newest log of the search the command was given to, with that command |
| ShellMeaning.LogOrigin | src/MemwatchShell.cc:740-1213 | in every run, each log that is not empty extends the newest log that the search had to which some earlier command was given, by that command |
| ShellMeaning.LogIsCommands | src/MemwatchShell.cc:740-1213 | after every run, each log is the sequence of some search and delete commands of the run, in order, with the predicates, values and limits given |
| ShellRuns.UndoSearchIff | src/MemwatchShell.cc:1130-1139 | undoing a search restores the shell exactly if the search dropped no iteration |
| ShellRuns.UndosAfterSearches | src/MemwatchShell.cc:1069-1139 | in the shell, `n` accepted searches and `n` undos leave the newest min(L, M - n) original iterations |
| ShellRuns.OthersUntouched | src/MemwatchShell.cc:835-862 | no command changes the history of a search it does not concern, so forks evolve independently |
| ShellRuns.FailureLosesIff | src/MemwatchShell.cc:854-861 | a failing command changes nothing, except that a failing fork by name loses the target exactly if it was open |
| Departures.LostTargetExample | src/MemwatchShell.cc:854-861 | a run in which forking a missing search loses the target |
| Shell.SearchFrom | src/MemwatchShell.cc:1059-1071 | reading the regions for the latest iteration and updating a copy finds what this predicate, value and limit find in all of the target's memory, and logs that |
| Shell.DeleteFrom | src/MemwatchShell.cc:998-1001 | the ranges are deleted one after the other: what is left lies in none of them |
| Shell.MemwatchShell.constructor | src/MemwatchShell.cc:1410-1418 | no search is open at first |
| Shell.MemwatchShell.OpenSearch | src/MemwatchShell.cc:801-815 | the search has one fresh iteration and is current; all others are as before, except that a named search closes the unnamed one |
| Shell.MemwatchShell.SwitchSearch | src/MemwatchShell.cc:781-791 | succeeds exactly if the search is open; no history changes, except that a named search closes the unnamed one; a failure changes nothing |
| Shell.MemwatchShell.CloseSearch | src/MemwatchShell.cc:1198-1217 | afterwards the search is not open and all others are as before; succeeds exactly if it was open |
| Shell.MemwatchShell.CommandSearch | src/MemwatchShell.cc:1010-1082 | a search fails for the reason given and changes nothing, or adds the iteration that this predicate, value and limit find and keeps the newest up to the limit |
| Shell.MemwatchShell.CommandTruncate | src/MemwatchShell.cc:1097-1127 | truncating keeps the newest iterations, as many as asked for or all if there are fewer, and no other search changes |
| Shell.MemwatchShell.CommandUndo | src/MemwatchShell.cc:1130-1140 | succeeds exactly if there are two iterations or more, leaving a non-empty history without the newest one and all other searches as before |
| Shell.MemwatchShell.CommandFork | src/MemwatchShell.cc:840-852 | succeeds exactly if the current search is open and not the target, which then has its history and is current; all others, and everything after a failure, are as before |
| Shell.MemwatchShell.CommandForkNamed | src/MemwatchShell.cc:854-861 | succeeds exactly if the source is open and not the target, which then has the source's history; otherwise the target is not open; all others are as before |
| Shell.MemwatchShell.CommandDelete | src/MemwatchShell.cc:970-1008 | no range is deleted if one is decreasing; otherwise the latest iteration of the current search keeps exactly the results in none of them |

## Left out

- The calls into the operating system, protection changes, attaching, pausing and signals: foreign code. What they yield is a parameter.
- The command line, argument splitting, printing, progress output and file dumps: user interface.
- Parsing of data strings, numbers, search types and predicate names: text handling; their results are parameters.
- Rows of the search-type table for floating-point numbers and strings: they are arbitrary evaluators here; the results hold for all of them, for strings as long as no search reads past the end of a region.
- Signed 32-bit and 64-bit flag tests of the lowest value: the subtraction overflows, which C++ leaves undefined.
- The flag test on strings: it compares the first bytes over and over; a string type is an arbitrary evaluator here.
- The null-mask branch of the masked comparison: no caller passes a null mask.
- Cancellation, sleeping and wall-clock time in the find command and the writer thread; a pass of the writer is one step because it holds the lock throughout.
- Sorting itself: the region order of a find is any permutation, its results any sorted arrangement.
- The multimaps' internal order: the name and address views are sets of key-region pairs, since each region is entered once.
- Writes that fail half-way: a write replaces the whole range or nothing.
- The setting of memory at search results, and search results as addresses in other commands: simple lookups.
- Searching.MemorySearch.Update: says nothing of an accepted string search that reads past the end of a region, which C++ leaves undefined; `ReadBounds` says exactly which do, and searches of fixed-size types never do.
- Searching.MemorySearch.DeleteResults: says nothing of a deletion up to the largest address with a result below the start, whose range is ill-formed (`Searching.EraseInOrderIff`).
- Find.ScanRegion: says nothing of a string longer than a region with data, whose scan reads past the end (`Find.ScanOverrunIff`).
- Find.SearchedSize: requires region sizes to be multiples of a page, as the operating system provides them.
- Shell.MemwatchShell.CommandSearch: says nothing of an iteration limit that exceeds the history length by more than half the integer range, with which more iterations would be erased than there are (`History.NumToDeleteIff`), nor of the string searches named above.
- FreezerRuns.PassTwice: says when passes settle at once, not when they do not; an array that shares bytes with another region may still settle, depending on what memory holds.
