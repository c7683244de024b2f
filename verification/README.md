# Verified model of the x86_64 crate's page-table machine

A Dafny model of the 4-level page tables of the `x86_64` Rust crate and of the address arithmetic
they rest on, with proofs of what the crate promises about them.

## What is modelled

- **Memory** (`PageTable`): a map from 4KiB frames to tables of 512 entries.  An entry is a frame
  address and a set of flags; `RawEntry` proves that this is the 64-bit word of the source and that
  the word operations of `PageTableEntry` are the operations used here.
- **The direct mapper** (`Mapped`): `MappedPageTable` as a class that rewrites memory in place.
  `map_to`, `identity_map`, `unmap`, `update_flags`, `set_flags_p*_entry`, `translate_page`,
  `translate` and `clean_up*`, for 4KiB, 2MiB and 1GiB pages, statement by statement, each proved
  against a specification function on memory (`MapIn`, `UnmapIn`, `SetFlagsIn`, `TranslateIn`,
  `CleanUpto`).
- **The recursive mapper** (`Recursive`): `RecursivePageTable` as a class that reaches a table only
  at the virtual address the source computes for it.  Which frame that address is, is decided by a
  model of the processor's page walk (`Translate.HardwareWalk`, section 4.5 of the Intel SDM
  Volume 3A).  `map_to`, `unmap`, `translate` and clean-up are proved against the same specification
  functions, so they do what the direct mapper does; the methods that do not look for larger mappings
  have specification functions of their own (`RecursiveEntry`).
- **The reference** (`PageTree`, `MapTo`, `PathOps`, `Prune`): the hierarchy below the root as a tree.
  Every specification function is proved to be a simple operation on that tree, and what the
  operations mean for mappings, frames and translation is proved there and carried back to memory
  (`MappingMeaning`, `PathMeaning`, `CleanUpMeaning`, `CleanUpEntries`, `DefaultMapTo`,
  `RecursiveMeaning`), with concrete inputs in `Divergences`.  `MapToCalls` and `RecursiveMeaning` say
  what `map_to` answers, writes and maps in the arguments of the call.
- **Whole runs** (`Runs`): every finite sequence of operations from an empty root table, for both
  mappers: `mask` is the recursive entry, or -1 for the direct mapper.  In a recursive mapper's run a
  flag update may have no larger mapping in its way, because the source does not look for one.
- **Addresses and pages** (`Bits`, `Addr`, `Page`, `PageSteps`, `PageRanges`, `RangeSplit`):
  canonical addresses by rank, alignment, stepping across the hole, index split and join, range
  iterators, and the range split of clean-up.
- **The flush loop** (`InvlpgbFlush`): the chunking of a page range into `invlpgb` commands.

The allocator is known by the sequence of its answers and the deallocator by what it was given.
Theorems about `map_to` ask that the answers used are frames not in use, which is the contract of
`FrameAllocator`.

An entry above level 1 is a link if it is present and not huge, and a leaf if it is huge; at level 1
every used entry is a leaf.  Three properties of a hierarchy are kept apart (module `MemoryTree`):

- `WF`: it is a tree, each table in a frame of its own;
- `Sound`: every used entry is a link or, below level 4, a leaf;
- `Proper`: every leaf is present and its frame aligned to its size.

What a theorem needs it asks for: `unmap`, the flag methods, `translate_page` and `translate` are
described on every memory, clean-up on every tree, `map_to` on every sound tree.

## Where the code and its documentation part

- `translate_page` and `update_flags` for 2MiB and 1GiB pages do not look at HUGE_PAGE in the entry
  they end at.  `PathMeaning.TranslatePageAnswer` and `PathMeaning.UpdateFlagsKeepsMappingIff` say
  exactly when they do what is documented.
- In the recursive mapper the same methods, for every size, and `set_flags_p*_entry` do not look at
  HUGE_PAGE on the way either.  `RecursiveEntry.UncheckedAgreesIff` says when they do what the direct
  mapper does, `RecursiveEntry.BlockedFlagUpdateAnswer` and `RecursiveEntry.BlockedTranslatePageAnswer`
  what they do otherwise.
- A successful `map_to` of a 4KiB page to frame 0 without flags leaves an entry that counts as unused
  (`MapToCalls.MapToMapsFrame`).
- A failing `map_to` widens the flags of the huge leaf in its way
  (`DefaultMapTo.FailureKeepsLeavesIff`).
- `map_to` panics when the flags for parents lack PRESENT and a table is missing, as they do in the
  example at `mapper/mod.rs:245-269`, and makes a link it refuses to follow when they contain
  HUGE_PAGE (`MapToCalls.MapToAnswer`, `DefaultMapTo.HugeParentFlagsCutOff`).
- `VirtAddr::align_up` wraps to address 0 for alignments above 2^47 (`Addr.VirtAlignUpIsLeastIff`).
- Flag bits 12 and 51 overlap the address (`RawEntry.AddressAndFlagsSurviveIff`).
- The range iterators panic at the hole and `len` counts the hole
  (`PageRanges.InclusiveYieldsEveryPage`, `PageRanges.LenInclusiveIsCountIff`).

Inputs that show them, reached by `map_to` from an empty root table or given by the arguments alone,
are in module `Divergences`; for the flag bits see `RawEntry.PatFlagMovesFrame`.

## Model

| member | source | states |
|---|---|---|
| `Runs.EveryRunKeepsInv` | src/structures/paging/mapper/mapped_page_table.rs:55-150 | from an empty root table, after every finite run of `map_to`, `unmap`, flag updates and clean-ups of all sizes, in any order, the hierarchy is a tree of tables, each in a frame of its own, whose used entries are links and leaves, and the frames the allocator handed out are exactly the tables below the root together with the frames given back |
| `Runs.EveryRunTranslatesByHistory` | src/structures/paging/mapper/mod.rs:110-377 | in every state of every run the leaf of a page (size, frame and flags) is what its history says: the last successful `map_to` that covers it, unless unmapped since, with the flags of the last update and those added by calls it was in the way of |
| `Runs.EveryRunTranslates` | src/structures/paging/mapper/mapped_page_table.rs:534-596 | in every state of every run `translate` of every address gives what the history of its page says |
| `Runs.EveryProperRunStaysProper` | src/structures/paging/mapper/mapped_page_table.rs:534-596 | in every state of a run that maps and updates with PRESENT and with aligned frames only, every leaf is present and aligned and `translate_addr` is the processor's walk for every address |
| `Runs.StepKeepsProper` | src/structures/paging/mapper/mod.rs:110-377 | one operation with PRESENT and an aligned frame keeps every leaf present and aligned |
| `Runs.StepKeepsInv` | src/structures/paging/mapper/mapped_page_table.rs:615-689 | one operation keeps the tree invariant and the frame balance |
| `Runs.StepIsMapStep` | src/structures/paging/mapper/mod.rs:110-377 | one operation is one step of an abstract map from pages to leaves: `map_to` adds a span that was free or widens the leaf in its way, `unmap` removes a span exactly when it is mapped at that size by a present, aligned leaf, flag updates change the flags of one leaf, clean-up changes nothing |
| `Runs.StepKeepsMaskedEntry` | src/structures/paging/mapper/recursive_page_table.rs:885-949 | no operation whose caller meets its obligations writes the recursive entry |
| `Runs.EveryRunKeepsMaskedEntry` | src/structures/paging/mapper/recursive_page_table.rs:36-110 | in every state of every run of a recursive mapper the recursive entry is the one it started with; flag updates in such a run have no larger mapping in their way |
| `MapTo.MapInIsMapTree` | src/structures/paging/mapper/mapped_page_table.rs:116-150 | on a sound tree of tables and with an allocator of unused frames, what `map_to` writes to memory is what the recursive reference `MapTree` does to the tree of tables: same result, same allocator answers used, one entry of the root changed, and nothing outside the hierarchy and the new frames written |
| `MapToMeaning.MapTreeKeepsSound` | src/structures/paging/mapper/mapped_page_table.rs:756-793 | `map_to` keeps every used entry a link or a leaf, and does not panic |
| `MapToMeaning.MapTreeKeepsProper` | src/structures/paging/mapper/mapped_page_table.rs:756-793 | with a present, aligned leaf `map_to` keeps every leaf present and aligned |
| `MapToMeaning.MapTreeStoresLeaf` | src/structures/paging/mapper/mapped_page_table.rs:116-150 | on the tree: after a successful `map_to` the entry of the page is the leaf of the request |
| `MapToMeaning.MapTreeFrames` | src/structures/paging/mapper/mod.rs:113-114 | every frame taken is now a table of the tree, once, and at most one is taken per level above the leaf |
| `MapToMeaning.MapTreeConsumes` | src/structures/paging/mapper/mapped_page_table.rs:756-793 | the frames used are the allocator answers consumed, in order |
| `MapToMeaning.MapTreeMapsOnePage` | src/structures/paging/mapper/mapped_page_table.rs:116-150 | success maps exactly the pages of the requested span, which were unmapped |
| `MapToMeaning.MapTreeFailureMapsNothing` | src/structures/paging/mapper/mapped_page_table.rs:756-793 | failure leaves every leaf alone, except that the huge leaf reported as the obstacle has the parent flags added, because they are written before the leaf is recognised |
| `MapToMeaning.MapTreeParents` | src/structures/paging/mapper/mod.rs:116-121 | on the tree: after a successful `map_to` every entry above the leaf is a link with the flags for parents, a link that was there keeps its address and its own flags, and a new one leads to a frame of the allocator |
| `MapToMeaning.MapTreeKeepsOtherEntries` | src/structures/paging/mapper/mapped_page_table.rs:756-793 | on the tree: no entry off the path changes at any level, and the other entries of new tables are unused |
| `MappingMeaning.MapToKeepsTables` | src/structures/paging/mapper/mapped_page_table.rs:55-150 | on memory: a sound tree again, proper if it was and the leaf is, no panic, tables afterwards = tables before + frames taken (at most 3, 2, 1 for 4KiB, 2MiB, 1GiB), and everything else in memory untouched |
| `MappingMeaning.MapToMapsOnePage` | src/structures/paging/mapper/mapped_page_table.rs:55-150 | on memory, for every page: mapped by the call, or unchanged with its flags, or the blocking huge leaf with exactly the parent flags added |
| `DefaultMapTo.FailureKeepsLeavesIff` | src/structures/paging/mapper/mapped_page_table.rs:775-784 | a failing `map_to` leaves every leaf unchanged if and only if it does not report a larger mapping or that mapping already has the parent flags |
| `MappingMeaning.MapToTranslates` | src/structures/paging/mapper/mod.rs:36-50 | after a successful `map_to` every address of the page translates to the leaf of the request plus its offset, and every other address translates as before |
| `MappingMeaning.MapToSetsParentFlags` | src/structures/paging/mapper/mod.rs:116-121 | on memory: after a successful `map_to` the entry of the page is the leaf, every link on the path has the parent flags, existing links keep their address, new ones lead to frames of the allocator, and no other entry changes |
| `MappingMeaning.UnmapUndoesMapTo` | src/structures/paging/mapper/mapped_page_table.rs:405-430 | `unmap` after `map_to` of a present leaf returns the mapped frame and restores every previous mapping |
| `MappingMeaning.AddressesOfPage` | src/structures/paging/page.rs:104-110 | the addresses of a page of any size are those that share its block number, at the offset `translate` reports |
| `DefaultMapTo.DefaultMapToIsLegal` | src/structures/paging/mapper/mod.rs:179-199 | a default `map_to` whose flags contain PRESENT meets the obligations of the theorems above, whatever the other flags |
| `DefaultMapTo.MapToResultIs` | src/structures/paging/mapper/mapped_page_table.rs:756-793 | the answer of `map_to` in every case: success on a free entry, an error for a mapped entry, an error for a larger mapping in the way; where tables are missing it succeeds if and only if the allocator has a frame for each of them, and it panics if and only if then the parent flags lack PRESENT and there is a first frame; with HUGE_PAGE among the parent flags it reports a huge page unless it needs a frame and gets none |
| `DefaultMapTo.HugeParentFlagsCutOff` | src/structures/paging/mapper/mapped_page_table.rs:756-793 | with HUGE_PAGE among the parent flags the level-4 entry becomes one the code refuses to follow, so the whole span of that entry is cut off, and nothing else is written |
| `MapToCalls.MapToAnswer` | src/structures/paging/mapper/mapped_page_table.rs:55-150 | by the arguments of `map_to_with_table_flags`, for all sizes: which result a call has, told by the entry and the leaf of the page, the missing tables, the allocator and the parent flags |
| `MapToCalls.MapToMapsFrame` | src/structures/paging/mapper/mod.rs:201-280 | by the arguments, for all sizes: after a successful call every address of the page translates to `frame` plus its offset with exactly `flags`, and HUGE_PAGE for a huge page, and every other address as before |
| `MapToCalls.MapToWritesPath` | src/structures/paging/mapper/mod.rs:116-121 | by the arguments: after a successful call the entry of the page is `frame` with these flags, a new link above it has exactly the parent flags and leads to a frame of the allocator, and an old link has the parent flags besides its own and leads where it led |
| `MapToCalls.MapToFailureMeans` | src/structures/paging/mapper/mapped_page_table.rs:756-793 | by the arguments: a failing call changes no leaf, except that the larger mapping in its way has the parent flags besides its own |
| `MapToCalls.DefaultMapToWritesPath` | src/structures/paging/mapper/mod.rs:179-199 | the default `map_to`: a new link has exactly those of PRESENT, WRITABLE and USER_ACCESSIBLE that are among `flags`, an old link these besides its own, and the entry of the page is `frame` with `flags` |
| `MapToCalls.DefaultMapToAnswer` | src/structures/paging/mapper/mod.rs:179-199 | the default `map_to`: which result a call has; with PRESENT among the flags it does not panic |
| `MapToCalls.IdentityMapTranslates` | src/structures/paging/mapper/mod.rs:362-376 | after a successful `identity_map` every address of the frame translates to itself, for the processor too if and only if the flags contain PRESENT, and no other address is affected |
| `PathMeaning.UnmapAnswer` | src/structures/paging/mapper/mapped_page_table.rs:169-430 | on any memory, the whole answer of `unmap`: ParentEntryHugePage on a link or below a larger leaf, PageNotMapped where there is no leaf or one that is not present, InvalidFrameAddress on a leaf that is not aligned, and else the frame |
| `PathMeaning.UnmapWrites` | src/structures/paging/mapper/mapped_page_table.rs:169-430 | on any memory: a successful `unmap` clears the one entry of the page and a failing one writes nothing |
| `PathMeaning.UnmapSucceedsIff` | src/structures/paging/mapper/mapped_page_table.rs:169-193 | where every leaf is present and aligned `unmap` succeeds if and only if the page is mapped at its size, and never reports an invalid frame address |
| `PathMeaning.UnmapRemovesOnePage` | src/structures/paging/mapper/mapped_page_table.rs:277-304 | a successful `unmap` removes exactly the span of the page and keeps every table; a failing one changes no memory |
| `PathMeaning.SetFlagsAnswer` | src/structures/paging/mapper/mapped_page_table.rs:195-515 | on any memory, the whole answer of `update_flags` and `set_flags_p*_entry`: success on every used entry of the level, link or leaf, else ParentEntryHugePage below a larger leaf and PageNotMapped elsewhere |
| `PathMeaning.SetFlagsWrites` | src/structures/paging/mapper/mapped_page_table.rs:195-515 | on any memory: a successful call writes one entry, with the address it had and exactly the flags given, and a failing one nothing |
| `PathMeaning.SetFlagsSetsOneEntry` | src/structures/paging/mapper/mapped_page_table.rs:195-515 | in the hierarchy: the entry of the page has its address and exactly the flags given, and the entries above it and those of every level off its span are as they were |
| `PathMeaning.SetFlagsChangesFlagsOnly` | src/structures/paging/mapper/mapped_page_table.rs:432-515 | with flags that keep the kind of the entry these calls change the flags of that leaf only, and no frame or table |
| `PathMeaning.SetFlagsRewritesOneSpan` | src/structures/paging/mapper/mapped_page_table.rs:432-515 | with any flags whatever, pages outside the span of the entry keep their leaf, and those inside have what the rewritten entry stands for |
| `PathMeaning.SetFlagsKeepsTreeIff` | src/structures/paging/mapper/mapped_page_table.rs:432-515 | flags that do not turn a leaf into a link keep the hierarchy a tree, and sound if and only if the rewritten entry is a link, a leaf or unused |
| `PathMeaning.UpdateFlagsKeepsMappingIff` | src/structures/paging/mapper/mapped_page_table.rs:195-211 | `update_flags` of a huge page keeps where the page is mapped if and only if its entry does not link to a table; the code does not check |
| `PathMeaning.TranslatePageAnswer` | src/structures/paging/mapper/mapped_page_table.rs:246-531 | on any memory, the whole answer of `translate_page`: the address of every used entry of the level if it is aligned and InvalidFrameAddress if not, else ParentEntryHugePage below a larger leaf and PageNotMapped elsewhere |
| `PathMeaning.TranslatePageIff` | src/structures/paging/mapper/mapped_page_table.rs:373-386 | where every leaf is present and aligned, by leaf and link: the frame of a mapping of its size, an error below a larger one or where nothing is mapped, and on a link the frame of the table whenever it is aligned, else InvalidFrameAddress |
| `PathOps.WriteIsPlace` | src/structures/paging/mapper/mapped_page_table.rs:432-515 | a write to the entry the walk ends at replaces that one node of the tree, whatever is written |
| `PathOps.KeepsKids` | src/structures/paging/mapper/mapped_page_table.rs:432-515 | a rewritten link that still leads to its table has the same hierarchy below it |
| `PathOps.WalkIsAt` | src/structures/paging/mapper/mapped_page_table.rs:711-750 | the walk down the links in memory is the walk down the tree |
| `PathOps.WalkFailure` | src/structures/paging/mapper/mapped_page_table.rs:711-750 | the walk fails with "not mapped" only on an unmapped page and with "huge page" only below a larger mapping |
| `Divergences.TranslatePageAnswersTable` | src/structures/paging/mapper/mapped_page_table.rs:373-386 | an input: after one `map_to` of a 4KiB page, `translate_page` of the 2MiB page around it answers with the frame of a table |
| `Divergences.UpdateFlagsMapsTable` | src/structures/paging/mapper/mapped_page_table.rs:306-326 | an input: there `update_flags` of the 2MiB page succeeds and maps it to the frame of that table |
| `Divergences.FailingMapToWidensHugePage` | src/structures/paging/mapper/mapped_page_table.rs:775-784 | an input: a `map_to` of a 4KiB page inside a read-only 2MiB page fails and makes the 2MiB page writable |
| `Divergences.MapToWithoutPresentPanics` | src/structures/paging/mapper/mapped_page_table.rs:779-787 | an input: `map_to` without PRESENT into an empty root table panics |
| `Divergences.RecursiveFlagUpdateWritesData` | src/structures/paging/mapper/recursive_page_table.rs:655-687 | an input: a recursive `update_flags` of a 4KiB page inside a mapped 2MiB page succeeds, where the direct one reports the huge page, and rewrites a word of the mapped data |
| `Divergences.AlignUpWrapsToZero` | src/addr.rs:165-170 | an input: `align_up` of address 1 to 2^48 is address 0 |
| `Divergences.RangeAcrossHole` | src/structures/paging/page.rs:434-451 | an input for each page size: iterating over the two pages at the hole yields nothing and panics, and their `len` is not 2 |
| `Translate.TranslateIsLeaf` | src/structures/paging/mapper/mapped_page_table.rs:534-596 | on any memory `translate` reports the leaf of the address: level, frame, offset and flags, or the panic of a huge level-4 entry; it never reports an invalid frame address, and frame and offset sum to less than 2^52 |
| `Translate.TranslateIsHardwareWalkIff` | src/structures/paging/mapper/mod.rs:45-50 | on any memory `translate_addr` is the 4-level walk of section 4.5 of the Intel SDM Volume 3A if and only if the address has no leaf below level 4, or one that is present and whose address is aligned or 0x1000, the PAT bit, above |
| `Translate.TranslateIsHardwareWalk` | src/structures/paging/mapper/mapped_page_table.rs:534-596 | where every leaf is present and aligned `translate` never panics and `translate_addr` equals that walk for every canonical address and page size |
| `Translate.HardwareWalkIsLeaf` | src/structures/paging/mapper/mapped_page_table.rs:534-596 | the processor reaches an address through the leaf of its page if that is present and aligned, and not otherwise |
| `CleanUp.CleanIsPrune` | src/structures/paging/mapper/mapped_page_table.rs:622-678 | the recursive clean-up of memory is the reference `PruneTable` on the tree: same remaining tree, same frames given back in the same order, only tables of the hierarchy written |
| `CleanUp.CleanWithin` | src/structures/paging/mapper/mapped_page_table.rs:655-659 | cutting the range at bounds outside a table does not change the clean-up of that table |
| `CleanUp.CleanSkips` | src/structures/paging/mapper/mapped_page_table.rs:638-647 | entries whose spans do not meet the range are not visited |
| `Prune.PruneKeepsLeaves` | src/structures/paging/mapper/mapped_page_table.rs:615-689 | clean-up changes no mapping |
| `Prune.PruneConserves` | src/structures/paging/mapper/mapped_page_table.rs:661-672 | table frames before = table frames after + frames given back |
| `Prune.FreedBottomUp` | src/structures/paging/mapper/mapped_page_table.rs:661-672 | the tables given back under a removed entry are all tables below it and, last, its own |
| `Prune.ChildrenFirst` | src/structures/paging/mapper/mapped_page_table.rs:661-672 | on the tree: a table given back comes in the log after every table below it |
| `Prune.PruneLeavesNoEmptyTable` | src/structures/paging/mapper/mod.rs:500-540 | no table whose span meets the range is left empty |
| `Prune.PruneTwice` | src/structures/paging/mapper/mapped_page_table.rs:615-689 | a second clean-up of the same range finds nothing |
| `CleanUpMeaning.CleanUpIsSafe` | src/structures/paging/mapper/mod.rs:500-540 | on memory: the hierarchy stays a tree, sound and proper if it was, every page mapped as before with the same flags, frames given back once each and never the root, nothing else written |
| `CleanUpMeaning.CleanUpChildrenFirst` | src/structures/paging/mapper/mapped_page_table.rs:661-672 | on memory: children are given back before their parents |
| `CleanUpMeaning.CleanUpIsComplete` | src/structures/paging/mapper/mapped_page_table.rs:615-689 | on memory: no empty table over the range is left, and repeating the clean-up neither writes nor gives back anything |
| `CleanUpMeaning.CleanUpMakesRoom` | src/structures/paging/mapper/mapped_page_table.rs:55-112 | if no page of a 4KiB, 2MiB or 1GiB span is mapped, then after a clean-up over that span `map_to` of it can only succeed or run out of frames |
| `CleanUpMeaning.NoFrameNoWrite` | src/structures/paging/mapper/mapped_page_table.rs:661-672 | a clean-up that gives nothing back writes nothing |
| `CleanUpEntries.CleanUpRemovesHollow` | src/structures/paging/mapper/mapped_page_table.rs:622-678 | for the entry of every level of every page: clean-up clears it if and only if it links to a table over the range whose used entries all link to such tables, what was below is gone, and every other entry is as it was |
| `RangeSplit.ChildBounds` | src/structures/paging/mapper/mapped_page_table.rs:633-657 | the start and the end of an entry of a table of any level are computed without failing `unwrap` or panicking addition, across the hole as well |
| `RangeSplit.ChildRangeIs` | src/structures/paging/mapper/mapped_page_table.rs:655-659 | the sub-range passed down for an index in `start..=end` is not empty and is what the range and the span of the entry share |
| `RangeSplit.ChildRangesTile` | src/structures/paging/mapper/mapped_page_table.rs:649-659 | the sub-ranges tile the range: every page is in the sub-range of its own index and in no other |
| `RangeSplit.TableAlignment` | src/structures/paging/page_table.rs:462-464 | the shift is the number of bytes below a table of the level, a power of two |
| `RangeSplit.EntryAlignment` | src/structures/paging/page_table.rs:467-469 | the shift is the number of bytes below an entry of the level, a power of two |
| `PageTable.ZeroTable` | src/structures/paging/page_table.rs:213-219 | the loop leaves the table in the frame all unused and touches no other |
| `Mapped.MappedPageTable.CreateNextTable` | src/structures/paging/mapper/mapped_page_table.rs:756-793 | memory, allocator and result are those of one step of `MapIn`, including flags added before the huge-page check |
| `Mapped.MappedPageTable.MapTo4KiBWithTableFlags` | src/structures/paging/mapper/mapped_page_table.rs:116-150 | does to memory and allocator what `MapIn` does, with its result |
| `Mapped.MappedPageTable.MapTo4KiB` | src/structures/paging/mapper/mod.rs:179-199 | the same with the parent flags cut to PRESENT, WRITABLE and USER_ACCESSIBLE |
| `Mapped.MappedPageTable.IdentityMap4KiB` | src/structures/paging/mapper/mod.rs:362-376 | panics exactly for a frame at or above 2^47, else is `map_to` of the page with the frame's own address |
| `Mapped.MappedPageTable.MapTo2MiBWithTableFlags` | src/structures/paging/mapper/mapped_page_table.rs:83-113 | does to memory and allocator what `MapIn` does, with its result |
| `Mapped.MappedPageTable.MapTo2MiB` | src/structures/paging/mapper/mod.rs:179-199 | the same with the parent flags cut to PRESENT, WRITABLE and USER_ACCESSIBLE |
| `Mapped.MappedPageTable.IdentityMap2MiB` | src/structures/paging/mapper/mod.rs:362-376 | panics exactly for a frame at or above 2^47, else is `map_to` of the page with the frame's own address |
| `Mapped.MappedPageTable.MapTo1GiBWithTableFlags` | src/structures/paging/mapper/mapped_page_table.rs:55-80 | does to memory and allocator what `MapIn` does, with its result |
| `Mapped.MappedPageTable.MapTo1GiB` | src/structures/paging/mapper/mod.rs:179-199 | the same with the parent flags cut to PRESENT, WRITABLE and USER_ACCESSIBLE |
| `Mapped.MappedPageTable.IdentityMap1GiB` | src/structures/paging/mapper/mod.rs:362-376 | panics exactly for a frame at or above 2^47, else is `map_to` of the page with the frame's own address |
| `Mapped.MappedPageTable.Unmap4KiB` | src/structures/paging/mapper/mapped_page_table.rs:405-430 | memory and result are those of `UnmapIn` |
| `Mapped.MappedPageTable.Unmap2MiB` | src/structures/paging/mapper/mapped_page_table.rs:277-304 | memory and result are those of `UnmapIn` |
| `Mapped.MappedPageTable.Unmap1GiB` | src/structures/paging/mapper/mapped_page_table.rs:169-193 | memory and result are those of `UnmapIn` |
| `Mapped.MappedPageTable.UpdateFlags4KiB` | src/structures/paging/mapper/mapped_page_table.rs:432-455 | memory and result are those of `SetFlagsIn` at the level of the size |
| `Mapped.MappedPageTable.UpdateFlags2MiB` | src/structures/paging/mapper/mapped_page_table.rs:306-326 | memory and result are those of `SetFlagsIn` at the level of the size, with HUGE_PAGE added |
| `Mapped.MappedPageTable.UpdateFlags1GiB` | src/structures/paging/mapper/mapped_page_table.rs:195-211 | memory and result are those of `SetFlagsIn` at the level of the size, with HUGE_PAGE added |
| `Mapped.MappedPageTable.SetFlagsP4Entry` | src/structures/paging/mapper/mapped_page_table.rs:457-472 | memory and result are those of `SetFlagsIn` at level 4 |
| `Mapped.MappedPageTable.SetFlagsP3Entry` | src/structures/paging/mapper/mapped_page_table.rs:474-492 | memory and result are those of `SetFlagsIn` at level 3 |
| `Mapped.MappedPageTable.SetFlagsP2Entry` | src/structures/paging/mapper/mapped_page_table.rs:494-515 | memory and result are those of `SetFlagsIn` at level 2 |
| `Mapped.MappedPageTable.TranslatePage4KiB` | src/structures/paging/mapper/mapped_page_table.rs:517-531 | the result is that of `TranslatePageIn` |
| `Mapped.MappedPageTable.TranslatePage2MiB` | src/structures/paging/mapper/mapped_page_table.rs:373-386 | the result is that of `TranslatePageIn` |
| `Mapped.MappedPageTable.TranslatePage1GiB` | src/structures/paging/mapper/mapped_page_table.rs:246-258 | the result is that of `TranslatePageIn` |
| `Mapped.MappedPageTable.TranslateAddress` | src/structures/paging/mapper/mapped_page_table.rs:536-595 | the result is that of `TranslateIn` |
| `Mapped.MappedPageTable.CleanUpTable` | src/structures/paging/mapper/mapped_page_table.rs:622-678 | the recursive loop does what `CleanUpto` does to memory and deallocator, and reports whether the table is empty |
| `Mapped.MappedPageTable.CleanUpAddrRange` | src/structures/paging/mapper/mapped_page_table.rs:615-689 | does what `CleanRange` does, frames given back in order |
| `Mapped.MappedPageTable.CleanUpAll` | src/structures/paging/mapper/mapped_page_table.rs:600-613 | is the clean-up of all pages of the address space |
| `RecursiveWalk.P3PageIsP3Table` | src/structures/paging/mapper/recursive_page_table.rs:994-1001 | the processor's walk of `p3_page` ends at the frame of the level-3 table on the path of the page, for every recursive index and every page |
| `RecursiveWalk.P2PageIsP2Table` | src/structures/paging/mapper/recursive_page_table.rs:1009-1016 | the same for `p2_page` and the level-2 table |
| `RecursiveWalk.P1PageIsP1Table` | src/structures/paging/mapper/recursive_page_table.rs:1024-1031 | the same for `p1_page` and the level-1 table |
| `RecursivePath.LandsP3` | src/structures/paging/mapper/recursive_page_table.rs:117-167 | whatever link `create_next_table` is about to write, `p3_page` will reach the table it links to, for pages below the recursive entry as well |
| `RecursivePath.LandsP2` | src/structures/paging/mapper/recursive_page_table.rs:117-167 | the same for `p2_page` |
| `RecursivePath.LandsP1` | src/structures/paging/mapper/recursive_page_table.rs:117-167 | the same for `p1_page` |
| `RecursivePath.PathAfterCreate` | src/structures/paging/mapper/recursive_page_table.rs:117-167 | after `create_next_table` every used entry on the rest of the path is a link or a leaf, and every link there was still leads where it led, even when the path runs through the root table again |
| `RecursivePath.RecursivePathOK` | src/structures/paging/mapper/recursive_page_table.rs:36-56 | in a recursively mapped memory every used entry on the path of every page is a link or a leaf, the path through the recursive entry included |
| `RecursivePath.RecursiveTranslateIsHardwareWalk` | src/structures/paging/mapper/recursive_page_table.rs:793-858 | in a recursively mapped memory `translate` never panics or reports an invalid frame address, and where every leaf is present and aligned it is the processor's walk for every address, those below the recursive entry included |
| `RecursiveClean.ChildReached` | src/structures/paging/mapper/recursive_page_table.rs:917-936 | the address of the sub-range's first page reaches the table below the entry, in the memory the loop has reached |
| `Recursive.RecursivePageTable.CreateNextTable` | src/structures/paging/mapper/recursive_page_table.rs:117-167 | as for the direct mapper, new links also PRESENT and WRITABLE, the next table reached through its address |
| `Recursive.RecursivePageTable.MapTo4KiBWithTableFlags` | src/structures/paging/mapper/recursive_page_table.rs:250-299 | does to memory and allocator what `MapIn`, the specification of the direct mapper, does, for every page |
| `Recursive.RecursivePageTable.MapTo2MiBWithTableFlags` | src/structures/paging/mapper/recursive_page_table.rs:206-247 | does to memory and allocator what `MapIn`, the specification of the direct mapper, does, for every page |
| `Recursive.RecursivePageTable.MapTo1GiBWithTableFlags` | src/structures/paging/mapper/recursive_page_table.rs:172-203 | does to memory and allocator what `MapIn`, the specification of the direct mapper, does, for every page |
| `Recursive.RecursivePageTable.Unmap4KiB` | src/structures/paging/mapper/recursive_page_table.rs:605-653 | memory and result are those of the direct mapper's `UnmapIn` |
| `Recursive.RecursivePageTable.Unmap2MiB` | src/structures/paging/mapper/recursive_page_table.rs:442-484 | memory and result are those of the direct mapper's `UnmapIn` |
| `Recursive.RecursivePageTable.Unmap1GiB` | src/structures/paging/mapper/recursive_page_table.rs:318-350 | memory and result are those of the direct mapper's `UnmapIn` |
| `Recursive.RecursivePageTable.UpdateFlags4KiB` | src/structures/paging/mapper/recursive_page_table.rs:655-687 | memory and result are those of `RecursiveSetFlags`, for every page, whatever is in its way, as long as the processor can follow the addresses used |
| `Recursive.RecursivePageTable.UpdateFlags2MiB` | src/structures/paging/mapper/recursive_page_table.rs:486-513 | memory and result are those of `RecursiveSetFlags`, for every page, whatever is in its way, as long as the processor can follow the addresses used |
| `Recursive.RecursivePageTable.UpdateFlags1GiB` | src/structures/paging/mapper/recursive_page_table.rs:352-372 | memory and result are those of `RecursiveSetFlags`, for every page, whatever is in its way, as long as the processor can follow the addresses used |
| `Recursive.RecursivePageTable.SetFlagsP4Entry` | src/structures/paging/mapper/recursive_page_table.rs:689-704 | memory and result are those of `RecursiveSetFlags` at level 4 |
| `Recursive.RecursivePageTable.SetFlagsP3Entry` | src/structures/paging/mapper/recursive_page_table.rs:706-727 | the same at level 3 |
| `Recursive.RecursivePageTable.SetFlagsP2Entry` | src/structures/paging/mapper/recursive_page_table.rs:729-756 | the same at level 2 |
| `Recursive.RecursivePageTable.TranslatePage4KiB` | src/structures/paging/mapper/recursive_page_table.rs:758-788 | the result is that of `RecursiveTranslatePage`, for every page, whatever is in its way, as long as the processor can follow the addresses used |
| `Recursive.RecursivePageTable.TranslatePage2MiB` | src/structures/paging/mapper/recursive_page_table.rs:563-586 | the result is that of `RecursiveTranslatePage`, for every page, whatever is in its way, as long as the processor can follow the addresses used |
| `Recursive.RecursivePageTable.TranslatePage1GiB` | src/structures/paging/mapper/recursive_page_table.rs:407-423 | the result is that of `RecursiveTranslatePage`, for every page, whatever is in its way, as long as the processor can follow the addresses used |
| `Recursive.RecursivePageTable.TranslateAddress` | src/structures/paging/mapper/recursive_page_table.rs:793-858 | the result is that of the direct mapper's `TranslateIn` |
| `Recursive.RecursivePageTable.CleanUpTable` | src/structures/paging/mapper/recursive_page_table.rs:885-949 | does what `CleanUpto` does with the recursive entry masked at level 4 |
| `Recursive.RecursivePageTable.CleanUpAddrRange` | src/structures/paging/mapper/recursive_page_table.rs:878-958 | does what `CleanRange` does with the recursive entry masked |
| `Recursive.RecursivePageTable.CleanUpAll` | src/structures/paging/mapper/recursive_page_table.rs:863-876 | is the clean-up of all pages of the address space |
| `Recursive.RequestsAgree` | src/structures/paging/mapper/recursive_page_table.rs:129-167 | with PRESENT and WRITABLE among the parent flags the two mappers get the same request |
| `RecursiveEntry.UncheckedAgreesIff` | src/structures/paging/mapper/recursive_page_table.rs:655-788 | the flag methods and `translate_page` of the recursive mapper do what those of the direct one do if and only if no larger mapping is in the way of the page |
| `RecursiveEntry.MayEnter` | src/structures/paging/mapper/recursive_page_table.rs:655-788 | the processor can follow these methods for every page where every leaf is present and aligned, and elsewhere for every page without a larger mapping in its way |
| `RecursiveEntry.BlockedFlagUpdateAnswer` | src/structures/paging/mapper/recursive_page_table.rs:655-756 | with a larger mapping in the way: which word of the mapped memory they take for the entry, that they report PageNotMapped where it or the word taken for a link is zero, and else set the flag bits of that word |
| `RecursiveEntry.BlockedTranslatePageAnswer` | src/structures/paging/mapper/recursive_page_table.rs:563-788 | with a larger mapping in the way: the answer of `translate_page`, made from the same word |
| `RecursiveEntry.BlockedFlagUpdateWritesData` | src/structures/paging/mapper/recursive_page_table.rs:655-687 | with a larger mapping in the way they report no obstacle, and what they write, if they write, is a word of the memory that mapping maps |
| `RecursiveEntry.P1PageIsData` | src/structures/paging/mapper/recursive_page_table.rs:1024-1031 | below a 1GiB mapping the processor's walk of `p1_page` ends inside that mapping |
| `RecursiveMeaning.EveryRunIsRecursive` | src/structures/paging/mapper/recursive_page_table.rs:36-110 | in every state of every run the obligations of the recursive mapper's methods are met and its steps, unchecked flag updates included, are the steps of the run |
| `RecursiveMeaning.RecursiveMapToIsDirect` | src/structures/paging/mapper/recursive_page_table.rs:250-299 | `map_to` of the recursive mapper has the result, the allocator calls and, for every page, the leaf of the direct mapper; with PRESENT and WRITABLE among the parent flags also the same memory |
| `RecursiveMeaning.RecursiveMapToAnswer` | src/structures/paging/mapper/recursive_page_table.rs:129-299 | by the arguments of the recursive `map_to_with_table_flags`, for all sizes: which result a call has; it never panics |
| `RecursiveMeaning.RecursiveMapToMapsFrame` | src/structures/paging/mapper/recursive_page_table.rs:172-299 | by the arguments, for all sizes: after a successful call every address of the page translates to `frame` plus its offset with exactly `flags`, and HUGE_PAGE for a huge page, and every other address as before |
| `RecursiveMeaning.RecursiveMapToWritesPath` | src/structures/paging/mapper/recursive_page_table.rs:129-167 | by the arguments: after a successful call the entry of the page is `frame` with these flags, a new link above it has exactly the parent flags, PRESENT and WRITABLE, and an old link the parent flags besides its own |
| `RecursiveMeaning.RecursiveMapToFailureMeans` | src/structures/paging/mapper/recursive_page_table.rs:129-167 | by the arguments: a failing call changes no leaf, except that the larger mapping in its way has the parent flags besides its own |
| `RecursiveMeaning.RecursiveCleanUpIsDirect` | src/structures/paging/mapper/recursive_page_table.rs:885-949 | the recursive clean-up acts on the hierarchy without the recursive entry exactly as the direct one: same memory, same frames in the same order; the root is never given back and the recursive entry never changes |
| `RecursiveMeaning.EveryRunStaysRecursive` | src/structures/paging/mapper/recursive_page_table.rs:36-110 | in every state of every run of a recursive mapper the root stays recursively mapped at the same entry and the rest is a tree of tables; flag updates in such a run have no larger mapping in their way |
| `Addr.NewTruncate` | src/addr.rs:101-106 | the result is canonical |
| `Addr.NewTruncateKeepsRank` | src/addr.rs:101-106 | truncation keeps the low 48 bits and gives the canonical address with them |
| `Addr.TryNewAcceptsCanonical` | src/addr.rs:86-93 | `try_new` accepts exactly the canonical words, unchanged |
| `Addr.LinIsIso` | src/addr.rs:22-27 | ranks and canonical addresses correspond one to one, in order |
| `Addr.PlusIs` | src/addr.rs:366-371 | `addr + n` succeeds exactly when the sum is canonical |
| `Addr.MinusIs` | src/addr.rs:381-386 | `addr - n` succeeds exactly when the difference is canonical |
| `Addr.StepMaskIsBitwise` | src/addr.rs:257-265 | the mask of `steps_between_u64` keeps the low 48 bits |
| `Addr.StepsBetweenIsRankDifference` | src/addr.rs:257-265 | `steps_between_u64` is the difference of ranks when start <= end, else nothing |
| `Addr.ForwardIsRankAddition` | src/addr.rs:274-295 | `forward_checked_u64` adds to the rank and fails exactly when the rank would leave the address space |
| `Addr.BackwardIsRankSubtraction` | src/addr.rs:299-319 | `backward_checked_u64` subtracts from the rank and fails exactly when it would become negative |
| `Addr.ForwardComposes` | src/addr.rs:911-1060 | steps forward compose, are undone by a step backward and measured by `steps_between` |
| `Addr.BackwardComposes` | src/addr.rs:911-1060 | the same for steps backward |
| `Addr.AlignDownIsFloor` | src/addr.rs:636-640 | the bitwise `align_down` is rounding down, for every power of two |
| `Addr.AlignDownIsGreatest` | src/addr.rs:636-640 | it is the greatest aligned value not above its argument |
| `Addr.AlignUpIsCeiling` | src/addr.rs:647-660 | the bitwise `align_up` is rounding up |
| `Addr.AlignUpIsLeast` | src/addr.rs:647-660 | it is the least aligned value not below its argument and panics exactly when that does not fit |
| `Addr.VirtAlignDownIsRankFloor` | src/addr.rs:187-189 | `VirtAddr::align_down` rounds the rank down, for every power of two |
| `Addr.VirtAlignDownIsFloor` | src/addr.rs:187-189 | for alignments up to 2^47 it also rounds the address down |
| `Addr.VirtAlignUpIsLeastIff` | src/addr.rs:165-170 | `VirtAddr::align_up` is the least canonical aligned address at or above its argument if and only if the alignment is at most 2^47 or the address is zero |
| `Page.IndicesAreDigits` | src/addr.rs:214-234 | `p1_index` to `p4_index` are the radix-512 digits of the page number |
| `Page.PageTableIndexAgrees` | src/addr.rs:238-240 | `page_table_index` agrees with them at every level |
| `Page.Containing4KiB` | src/structures/paging/page.rs:105-110 | the page is the address rounded down |
| `Page.Containing2MiB` | src/structures/paging/page.rs:105-110 | the page is the address rounded down |
| `Page.Containing1GiB` | src/structures/paging/page.rs:105-110 | the page is the address rounded down |
| `Page.IndexWordIsSum` | src/structures/paging/page.rs:236-248 | or-ing the shifted indices together is adding them up |
| `Page.IndicesOfPage` | src/structures/paging/page.rs:236-248 | the page made from four indices has these indices |
| `Page.IndicesOfPage2MiB` | src/structures/paging/page.rs:219-231 | the 2MiB page made from three indices has these indices |
| `Page.IndicesOfPage1GiB` | src/structures/paging/page.rs:204-214 | the 1GiB page made from two indices has these indices |
| `Page.PageOfIndices` | src/structures/paging/page.rs:204-248 | a page of any of the three sizes is made from its own indices again |
| `Page.PageOrderIsLexicographic` | src/structures/paging/page.rs:65-70 | the order of pages is the lexicographic order of their indices |
| `PageSteps.ForwardIsAddition` | src/structures/paging/page.rs:179-188 | `forward_checked_impl` adds to the page number and fails exactly when there is no such page, for all three sizes |
| `PageSteps.BackwardIsSubtraction` | src/structures/paging/page.rs:315-324 | `backward_checked` subtracts from the page number and fails exactly below the first page |
| `PageSteps.StepsBetweenIsDifference` | src/structures/paging/page.rs:163-175 | `steps_between_impl` is the difference of page numbers |
| `PageSteps.StepsCompose` | src/structures/paging/page.rs:163-188 | steps stay on pages, compose, are undone, keep the order and are measured by `steps_between_impl` |
| `PageSteps.PlusDoesNotCross` | src/structures/paging/page.rs:268-273 | `page + n` agrees with the checked step within a half and panics where the step crosses the hole |
| `PageSteps.NumIsBlock` | src/structures/paging/page.rs:163-175 | the page number of a size is the number of the span of its level, so steps and table indices count alike |
| `PageRanges.NextInclusiveTakesFirst` | src/structures/paging/page.rs:434-451 | `next` takes the first page off the range and one off `len`, by start + 1 or, at the top of the address space, by end - 1; it panics exactly at the last page of the lower half |
| `PageRanges.InclusiveYieldsEveryPage` | src/structures/paging/page.rs:434-451 | iteration yields every page once, in order, unless the last lower-half page is in the range; then it yields the pages before it and panics |
| `PageRanges.LenInclusiveIsCountIff` | src/structures/paging/page.rs:415-421 | `len` is the number of pages if and only if the range is empty or within one half |
| `PageRanges.PageRangeInclusive.Next` | src/structures/paging/page.rs:434-451 | the iterator, in place: takes the first of the pages left |
| `PageRanges.PageRangeInclusive.IsEmpty` | src/structures/paging/page.rs:409-411 | true exactly when no page is left |
| `PageRanges.PageRangeInclusive.Len` | src/structures/paging/page.rs:415-421 | the number of pages left exactly when the range is empty or within one half |
| `PageRanges.NextExclusiveTakesFirst` | src/structures/paging/page.rs:365-373 | `next` of the half-open range takes the first page off it and one off `len` |
| `PageRanges.ExclusiveYieldsEveryPage` | src/structures/paging/page.rs:365-373 | iteration yields every page once, in order, unless the range spans the hole |
| `PageRanges.LenExclusiveIsCountIff` | src/structures/paging/page.rs:346-352 | `len` is the number of pages if and only if the range is empty or within one half |
| `PageRanges.PageRange.Next` | src/structures/paging/page.rs:365-373 | the iterator, in place: takes the first of the pages left |
| `PageRanges.PageRange.IsEmpty` | src/structures/paging/page.rs:340-342 | true exactly when no page is left |
| `PageRanges.PageRange.Len` | src/structures/paging/page.rs:346-352 | the number of pages left exactly when the range is empty or within one half |
| `InvlpgbFlush.Flush` | src/instructions/tlb.rs:314-353 | the commands tile the range from its first page to its end without gap or overlap, none straddles the hole or exceeds the limits, one falls short of the limit only at the end of the range or of the lower half; the `unwrap` does not fail and the loop ends, for every limit including 0 |
| `InvlpgbFlush.TilesFlushOnce` | src/instructions/tlb.rs:314-353 | under such a tiling every page of the range is flushed by exactly one command and no other page by any |
| `RawEntry.DecodeEncode` | src/structures/paging/page_table.rs:26-93 | an entry is read back from its 64-bit word |
| `RawEntry.EncodeDecode` | src/structures/paging/page_table.rs:26-93 | every 64-bit word is the word of the entry read from it |
| `RawEntry.FlagBits` | src/structures/paging/page_table.rs:111-181 | which flag each of the 64 bits is; bits 12 and 51 are none of the mappers' flags |
| `RawEntry.AddressFits` | src/structures/paging/page_table.rs:57-59 | the address field of every word is a frame address, so `PhysAddr::new` does not panic |
| `RawEntry.AddressAndFlagsSurviveIff` | src/structures/paging/page_table.rs:77-80 | `set_addr` keeps the address if and only if flag bits 12 and 51 are set only where the address has them; the flags are reported back if and only if the address sets these bits only where the flags do |
| `RawEntry.PatFlagMovesFrame` | src/structures/paging/page_table.rs:151-153 | PAT_HUGE_PAGE moves the frame of a huge leaf by 4KiB |
| `RawEntry.ZeroIsUnused` | src/structures/paging/page_table.rs:39-41 | a word is zero exactly when address and flags are |
| `RawEntry.Contained` | src/structures/paging/mapper/mapped_page_table.rs:775-778 | `contains` on the flag words is inclusion of the flag sets |
| `RawEntry.WidenedFlags` | src/structures/paging/mapper/mapped_page_table.rs:775-778 | adding flags to the reported ones keeps the address, even one with bits 12 or 51, and joins the flags |
| `RawEntry.PageTableEntry.IsUnused` | src/structures/paging/page_table.rs:39-41 | true exactly for the unused entry |
| `RawEntry.PageTableEntry.SetUnused` | src/structures/paging/page_table.rs:45-47 | leaves the unused entry |
| `RawEntry.PageTableEntry.GetFlags` | src/structures/paging/page_table.rs:51-53 | the flags of the entry |
| `RawEntry.PageTableEntry.Addr` | src/structures/paging/page_table.rs:57-59 | the address of the entry |
| `RawEntry.PageTableEntry.SetAddr` | src/structures/paging/page_table.rs:77-86 | the entry of the address and the flags, when the flags avoid bits 12 and 51 |
| `RawEntry.PageTableEntry.SetFlags` | src/structures/paging/page_table.rs:90-93 | the address kept and the flags replaced, when the flags avoid bits 12 and 51 |
| `RawEntry.PageTableEntry.Widen` | src/structures/paging/mapper/mapped_page_table.rs:775-778 | the address kept and the flags joined |

## Left out

- Memory is a map of tables and a mapper a class over it: references, lifetimes and the raw pointer
  behind a table are not modelled.  A recursive mapper's pointer is its virtual address.
- `frame_to_pointer` of `MappedPageTable` and all of `OffsetPageTable`, which delegates to it: frames
  are the keys of memory.
- Flags with bits 12 and 51 in the mappers: inputs and reported flags are sets of the other 24 bits;
  what the two bits do to an entry is in `RawEntry`.
- What `map_to` with HUGE_PAGE among the parent flags means for mappings: `HugeParentFlagsCutOff` gives
  memory and result; the theorems about soundness, mappings and frames exclude such flags, as the
  level-4 entry is a leaf afterwards.
- `map_to` on a hierarchy that is not sound: where an entry above level 1 is used but neither present
  nor huge, which `set_flags_p*_entry` without PRESENT or a panicking `map_to` leaves behind, the call
  panics or revives the entry as a link; also memory after such a panic.
- Runs with pages below the recursive entry, whose mapping would rewrite page tables as data: every
  call on such a page does what its specification function says, but runs keep to the others.
- Runs.EveryRunKeepsInv: flag updates in a run keep the kind of the entry, as others lose tables or
  leave a hierarchy that is not sound; what one such call does is `SetFlagsWrites`,
  `SetFlagsSetsOneEntry` and `SetFlagsRewritesOneSpan`.
- PathMeaning.SetFlagsChangesFlagsOnly: asks for flags that keep the kind of the entry; for all other
  flags see `SetFlagsSetsOneEntry` and `SetFlagsRewritesOneSpan`.
- PathMeaning.SetFlagsKeepsTreeIff: excludes flags that turn a leaf into a link, after which the data of
  the leaf is read as a table and whether the result is a tree depends on that data.
- The unchecked recursive methods where the processor faults on a table address: at an entry on the way
  that is not present, at a huge level-4 entry, or below a 1GiB mapping that is not 2MiB aligned.
- The default `map_to` and `identity_map` of the recursive mapper: the same delegation as in the direct
  one, to the `map_to_with_table_flags` that is modelled.
- The `set_flags_p3_entry` and `set_flags_p2_entry` variants that only return `ParentEntryHugePage`.
- The checks of `RecursivePageTable::new` against CR3; that the root table is active and recursively
  mapped is assumed.
- `MapperFlush` and `MapperFlushAll`, the TLB and paging-structure caches, effective permissions.
- The payload of `PageAlreadyMapped`; the other error payloads are there.
- `PhysFrame` ranges, which repeat the page ranges without a hole, and `PhysAddr` arithmetic beyond
  alignment.
- `Page + n` with a product that overflows 64 bits counts as a panic; without overflow checks the
  source wraps.
- The `invlpgb` instruction itself and its other operands.  A count of zero is read as one page, as a
  comment in the source does.
- 32-bit `usize`, formatting, `Hash` and `Ord` derives, and everything else in the crate that is not
  about page tables or addresses: registers, ports, segments, interrupts, descriptor tables.
