/** `RecursivePageTable`: the mapper that reaches page tables through the recursive entry.

Every table is accessed at a virtual address and is the frame that the page walk of that address
ends at.  `map_to`, `unmap`, `translate` and clean-up are proved to be those of the direct mapper:
the same specification functions give memory, allocator calls and results.  The flag methods and
`translate_page` have functions of their own in `RecursiveEntry`, because they do not look for
larger mappings.
 */
module Recursive {
  import opened Wrappers
  import opened Addr
  import opened Levels
  import opened Page
  import opened RangeSplit
  import opened PageTable
  import opened PageTree
  import opened MemoryTree
  import opened FrameAlloc
  import opened MapTo
  import opened PathOps
  import opened Translate
  import opened CleanUpMeaning
  import opened CleanUpSteps
  import opened Mapped
  import opened RecursiveWalk
  import opened RecursivePath
  import opened RecursiveEntry
  import opened RecursiveClean

  /** The request of a recursive `map_to_with_table_flags`: new links are also made PRESENT and
      WRITABLE. */
  function RecursiveRequest(size: Level, page: VirtAddr, frame: Frame, flags: Flags, parentFlags: Flags): Request {
    RequestFor(size, page, frame, flags, parentFlags).(link := parentFlags + {PRESENT, WRITABLE})
  }

  /** When the parent flags contain PRESENT and WRITABLE the request is the direct mapper's. */
  lemma RequestsAgree(size: Level, page: VirtAddr, frame: Frame, flags: Flags, parentFlags: Flags)
    requires {PRESENT, WRITABLE} <= parentFlags
    ensures RecursiveRequest(size, page, frame, flags, parentFlags) == RequestFor(size, page, frame, flags, parentFlags)
  {
    assert parentFlags + {PRESENT, WRITABLE} == parentFlags;
  }

  class RecursivePageTable {
    var mem: Memory
    const root: Frame
    const r: nat

    constructor (mem: Memory, root: Frame, r: nat)
      requires SelfMapped(mem, root, r)
      ensures this.mem == mem && this.root == root && this.r == r
    {
      this.mem := mem;
      this.root := root;
      this.r := r;
    }

    method CreateNextTable(f: Frame, i: nat, nextPage: Page4KiB, insertFlags: Flags, allocator: FrameAllocator)
      returns (res: Result<Frame, MapResult>)
      requires i < 512 && Lands(mem, root, f, i, nextPage)
      requires TableAt(mem, f)[i].IsUnused() || TableAt(mem, f)[i].Present() || TableAt(mem, f)[i].Huge()
      modifies this`mem, allocator
      ensures var c := CreateNext(old(mem), f, i, insertFlags + {PRESENT, WRITABLE}, insertFlags, old(allocator.answers));
              mem == c.m && allocator.answers == c.answers && res == c.res
    {
      hide TableOf;
      var created;
      if TableAt(mem, f)[i].IsUnused() {
        var frame := allocator.AllocateFrame();
        if frame.None? {
          return Err(FrameAllocationFailed);
        }
        mem := Write(mem, f, i, Entry(frame.value, insertFlags + {PRESENT, WRITABLE}));
        created := true;
      } else {
        var e := TableAt(mem, f)[i];
        if insertFlags != {} && !(insertFlags <= e.flags) {
          mem := Write(mem, f, i, Entry(e.addr, e.flags + insertFlags));
        }
        created := false;
      }
      if TableAt(mem, f)[i].Huge() {
        return Err(MapResult.ParentEntryHugePage);
      }
      assert TableOf(mem, root, nextPage) == Some(TableAt(mem, f)[i].addr);
      var table: Frame := TableOf(mem, root, nextPage).value;
      if created {
        mem := ZeroTable(mem, table);
      }
      return Ok(table);
    }

    method MapTo4KiBWithTableFlags(page: Page4KiB, frame: Frame, flags: Flags, parentFlags: Flags, allocator: FrameAllocator)
      returns (res: MapResult)
      requires RecursiveWF(mem, root, r)
      requires Fresh(allocator.answers, 3, multiset{root} + AllFrames(4, View(mem, 4, root, r)))
      modifies this`mem, allocator
      ensures var out := MapIn(old(mem), 4, root, RecursiveRequest(1, page, frame, flags, parentFlags), old(allocator.answers));
              mem == out.m && allocator.answers == out.answers && res == out.res
    {
      hide Idx, Vpn, P1Index, P2Index, P3Index, P4Index, MapIn, CreateNext, TableAt, Write, Lands, Linked, Fresh,
        WF, View, AllFrames, LeafAligned, P3Page, P2Page, P1Page;
      IndicesAreDigits(page);
      ghost var q := RecursiveRequest(1, page, frame, flags, parentFlags);
      ghost var v, taken4 := Vpn(page), multiset{root} + AllFrames(4, View(mem, 4, root, r));
      RecursivePathOK(mem, root, r, v);
      SelfMappedIsLink(mem, root, r);
      ghost var m4, a4 := mem, allocator.answers;
      LandsP3(mem, root, r, page);
      PathAfterCreate(m4, 4, root, v, q.link, q.add, a4, taken4, 3);
      var p3 := CreateNextTable(root, P4Index(page), P3Page(page, r), parentFlags, allocator);
      UnfoldMapIn(m4, 4, root, q, a4);
      if p3.Err? {
        return p3.error;
      }
      ghost var taken3 := taken4 + multiset(CreateNext(m4, root, P4Index(page), q.link, q.add, a4).used);
      ghost var m3, a3 := mem, allocator.answers;
      LandsP2(mem, root, r, page, p3.value);
      PathAfterCreate(m3, 3, p3.value, v, q.link, q.add, a3, taken3, 2);
      var p2 := CreateNextTable(p3.value, P3Index(page), P2Page(page, r), parentFlags, allocator);
      UnfoldMapIn(m3, 3, p3.value, q, a3);
      if p2.Err? {
        return p2.error;
      }
      ghost var taken2 := taken3 + multiset(CreateNext(m3, p3.value, P3Index(page), q.link, q.add, a3).used);
      ghost var m2, a2 := mem, allocator.answers;
      LandsP1(mem, root, r, page, p3.value, p2.value);
      PathAfterCreate(m2, 2, p2.value, v, q.link, q.add, a2, taken2, 1);
      var p1 := CreateNextTable(p2.value, P2Index(page), P1Page(page, r), parentFlags, allocator);
      UnfoldMapIn(m2, 2, p2.value, q, a2);
      if p1.Err? {
        return p1.error;
      }
      UnfoldMapIn(mem, 1, p1.value, q, allocator.answers);
      if !TableAt(mem, p1.value)[P1Index(page)].IsUnused() {
        return PageAlreadyMapped;
      }
      mem := Write(mem, p1.value, P1Index(page), Entry(frame, flags));
      return Mapped;
    }

    method MapTo2MiBWithTableFlags(page: Page2MiB, frame: Frame2MiB, flags: Flags, parentFlags: Flags, allocator: FrameAllocator)
      returns (res: MapResult)
      requires RecursiveWF(mem, root, r)
      requires Fresh(allocator.answers, 2, multiset{root} + AllFrames(4, View(mem, 4, root, r)))
      modifies this`mem, allocator
      ensures var out := MapIn(old(mem), 4, root, RecursiveRequest(2, page, frame, flags, parentFlags), old(allocator.answers));
              mem == out.m && allocator.answers == out.answers && res == out.res
    {
      hide Idx, Vpn, P1Index, P2Index, P3Index, P4Index, MapIn, CreateNext, TableAt, Write, Lands, Linked, Fresh,
        WF, View, AllFrames, LeafAligned, P3Page, P2Page, P1Page;
      IndicesAreDigits(page);
      ghost var q := RecursiveRequest(2, page, frame, flags, parentFlags);
      ghost var v, taken4 := Vpn(page), multiset{root} + AllFrames(4, View(mem, 4, root, r));
      RecursivePathOK(mem, root, r, v);
      SelfMappedIsLink(mem, root, r);
      ghost var m4, a4 := mem, allocator.answers;
      LandsP3(mem, root, r, page);
      PathAfterCreate(m4, 4, root, v, q.link, q.add, a4, taken4, 2);
      var p3 := CreateNextTable(root, P4Index(page), P3Page(page, r), parentFlags, allocator);
      UnfoldMapIn(m4, 4, root, q, a4);
      if p3.Err? {
        return p3.error;
      }
      ghost var taken3 := taken4 + multiset(CreateNext(m4, root, P4Index(page), q.link, q.add, a4).used);
      ghost var m3, a3 := mem, allocator.answers;
      LandsP2(mem, root, r, page, p3.value);
      PathAfterCreate(m3, 3, p3.value, v, q.link, q.add, a3, taken3, 1);
      var p2 := CreateNextTable(p3.value, P3Index(page), P2Page(page, r), parentFlags, allocator);
      UnfoldMapIn(m3, 3, p3.value, q, a3);
      if p2.Err? {
        return p2.error;
      }
      UnfoldMapIn(mem, 2, p2.value, q, allocator.answers);
      if !TableAt(mem, p2.value)[P2Index(page)].IsUnused() {
        return PageAlreadyMapped;
      }
      mem := Write(mem, p2.value, P2Index(page), Entry(frame, flags + {HUGE_PAGE}));
      return Mapped;
    }

    method MapTo1GiBWithTableFlags(page: Page1GiB, frame: Frame1GiB, flags: Flags, parentFlags: Flags, allocator: FrameAllocator)
      returns (res: MapResult)
      requires RecursiveWF(mem, root, r)
      requires Fresh(allocator.answers, 1, multiset{root} + AllFrames(4, View(mem, 4, root, r)))
      modifies this`mem, allocator
      ensures var out := MapIn(old(mem), 4, root, RecursiveRequest(3, page, frame, flags, parentFlags), old(allocator.answers));
              mem == out.m && allocator.answers == out.answers && res == out.res
    {
      hide Idx, Vpn, P1Index, P2Index, P3Index, P4Index, MapIn, CreateNext, TableAt, Write, Lands, Linked, Fresh,
        WF, View, AllFrames, LeafAligned, P3Page, P2Page, P1Page;
      IndicesAreDigits(page);
      ghost var q := RecursiveRequest(3, page, frame, flags, parentFlags);
      ghost var v, taken4 := Vpn(page), multiset{root} + AllFrames(4, View(mem, 4, root, r));
      RecursivePathOK(mem, root, r, v);
      SelfMappedIsLink(mem, root, r);
      ghost var m4, a4 := mem, allocator.answers;
      LandsP3(mem, root, r, page);
      PathAfterCreate(m4, 4, root, v, q.link, q.add, a4, taken4, 1);
      var p3 := CreateNextTable(root, P4Index(page), P3Page(page, r), parentFlags, allocator);
      UnfoldMapIn(m4, 4, root, q, a4);
      if p3.Err? {
        return p3.error;
      }
      UnfoldMapIn(mem, 3, p3.value, q, allocator.answers);
      if !TableAt(mem, p3.value)[P3Index(page)].IsUnused() {
        return PageAlreadyMapped;
      }
      mem := Write(mem, p3.value, P3Index(page), Entry(frame, flags + {HUGE_PAGE}));
      return Mapped;
    }

    method Unmap4KiB(page: Page4KiB) returns (res: Result<Frame, UnmapError>)
      requires SelfMapped(mem, root, r)
      modifies this`mem
      ensures var out := UnmapIn(old(mem), 4, root, 1, Vpn(page));
              mem == out.m && res == out.res
    {
      hide Idx, Vpn, P1Index, P2Index, P3Index, P4Index, WalkTo, TableAt, TableOf, P3Page, P2Page, P1Page;
      IndicesAreDigits(page);
      UnfoldWalk(mem, 4, root, 1, Vpn(page));
      var e4 := TableAt(mem, root)[P4Index(page)];
      if e4.Huge() {
        return Err(UnmapParentEntryHugePage);
      }
      if !e4.Present() {
        return Err(UnmapPageNotMapped);
      }
      P3PageIsP3Table(mem, root, r, page);
      var p3: Frame := TableOf(mem, root, P3Page(page, r)).value;
      UnfoldWalk(mem, 3, p3, 1, Vpn(page));
      var e3 := TableAt(mem, p3)[P3Index(page)];
      if e3.Huge() {
        return Err(UnmapParentEntryHugePage);
      }
      if !e3.Present() {
        return Err(UnmapPageNotMapped);
      }
      P2PageIsP2Table(mem, root, r, page);
      var p2: Frame := TableOf(mem, root, P2Page(page, r)).value;
      UnfoldWalk(mem, 2, p2, 1, Vpn(page));
      var e2 := TableAt(mem, p2)[P2Index(page)];
      if e2.Huge() {
        return Err(UnmapParentEntryHugePage);
      }
      if !e2.Present() {
        return Err(UnmapPageNotMapped);
      }
      P1PageIsP1Table(mem, root, r, page);
      var p1: Frame := TableOf(mem, root, P1Page(page, r)).value;
      WalkEnds(mem, 1, p1, Vpn(page));
      var entry := TableAt(mem, p1)[P1Index(page)];
      if !entry.Present() {
        return Err(UnmapPageNotMapped);
      }
      mem := Write(mem, p1, P1Index(page), UNUSED);
      return Ok(entry.addr);
    }

    method Unmap2MiB(page: Page2MiB) returns (res: Result<Frame, UnmapError>)
      requires SelfMapped(mem, root, r)
      modifies this`mem
      ensures var out := UnmapIn(old(mem), 4, root, 2, Vpn(page));
              mem == out.m && res == out.res
    {
      hide Idx, Vpn, P1Index, P2Index, P3Index, P4Index, WalkTo, TableAt, TableOf, P3Page, P2Page, P1Page;
      IndicesAreDigits(page);
      UnfoldWalk(mem, 4, root, 2, Vpn(page));
      var e4 := TableAt(mem, root)[P4Index(page)];
      if e4.Huge() {
        return Err(UnmapParentEntryHugePage);
      }
      if !e4.Present() {
        return Err(UnmapPageNotMapped);
      }
      P3PageIsP3Table(mem, root, r, page);
      var p3: Frame := TableOf(mem, root, P3Page(page, r)).value;
      UnfoldWalk(mem, 3, p3, 2, Vpn(page));
      var e3 := TableAt(mem, p3)[P3Index(page)];
      if e3.Huge() {
        return Err(UnmapParentEntryHugePage);
      }
      if !e3.Present() {
        return Err(UnmapPageNotMapped);
      }
      P2PageIsP2Table(mem, root, r, page);
      var p2: Frame := TableOf(mem, root, P2Page(page, r)).value;
      WalkEnds(mem, 2, p2, Vpn(page));
      var entry := TableAt(mem, p2)[P2Index(page)];
      if !entry.Present() {
        return Err(UnmapPageNotMapped);
      }
      if !entry.Huge() {
        return Err(UnmapParentEntryHugePage);
      }
      if entry.addr % 0x20_0000 != 0 {
        return Err(UnmapInvalidFrameAddress(entry.addr));
      }
      mem := Write(mem, p2, P2Index(page), UNUSED);
      return Ok(entry.addr);
    }

    method Unmap1GiB(page: Page1GiB) returns (res: Result<Frame, UnmapError>)
      requires SelfMapped(mem, root, r)
      modifies this`mem
      ensures var out := UnmapIn(old(mem), 4, root, 3, Vpn(page));
              mem == out.m && res == out.res
    {
      hide Idx, Vpn, P1Index, P2Index, P3Index, P4Index, WalkTo, TableAt, TableOf, P3Page, P2Page, P1Page;
      IndicesAreDigits(page);
      UnfoldWalk(mem, 4, root, 3, Vpn(page));
      var e4 := TableAt(mem, root)[P4Index(page)];
      if e4.Huge() {
        return Err(UnmapParentEntryHugePage);
      }
      if !e4.Present() {
        return Err(UnmapPageNotMapped);
      }
      P3PageIsP3Table(mem, root, r, page);
      var p3: Frame := TableOf(mem, root, P3Page(page, r)).value;
      WalkEnds(mem, 3, p3, Vpn(page));
      var entry := TableAt(mem, p3)[P3Index(page)];
      if !entry.Present() {
        return Err(UnmapPageNotMapped);
      }
      if !entry.Huge() {
        return Err(UnmapParentEntryHugePage);
      }
      if entry.addr % 0x4000_0000 != 0 {
        return Err(UnmapInvalidFrameAddress(entry.addr));
      }
      mem := Write(mem, p3, P3Index(page), UNUSED);
      return Ok(entry.addr);
    }

    method UpdateFlags4KiB(page: Page4KiB, flags: Flags) returns (res: Result<(), FlagUpdateError>)
      requires SelfMapped(mem, root, r) && Enters(mem, 4, root, 1, Vpn(page))
      modifies this`mem
      ensures var out := RecursiveSetFlags(old(mem), root, 1, Vpn(page), flags);
              mem == out.m && res == out.res
    {
      hide Idx, Vpn, P1Index, P2Index, P3Index, P4Index, EntryTable, TableAt, TableOf, P3Page, P2Page, P1Page, LeafAligned,
        FrameInside;
      IndicesAreDigits(page);
      UnfoldEntryTable(mem, 4, root, 1, Vpn(page));
      if TableAt(mem, root)[P4Index(page)].IsUnused() {
        return Err(FlagsPageNotMapped);
      }
      P3PageIsP3Table(mem, root, r, page);
      var p3: Frame := TableOf(mem, root, P3Page(page, r)).value;
      UnfoldEntryTable(mem, 3, p3, 1, Vpn(page));
      if TableAt(mem, p3)[P3Index(page)].IsUnused() {
        return Err(FlagsPageNotMapped);
      }
      P2PageIsP2Table(mem, root, r, page);
      var p2: Frame := TableOf(mem, root, P2Page(page, r)).value;
      UnfoldEntryTable(mem, 2, p2, 1, Vpn(page));
      if TableAt(mem, p2)[P2Index(page)].IsUnused() {
        return Err(FlagsPageNotMapped);
      }
      if TableAt(mem, p3)[P3Index(page)].Huge() {
        P1PageIsData(mem, root, r, page);
      } else {
        P1PageIsP1Table(mem, root, r, page);
      }
      var p1: Frame := TableOf(mem, root, P1Page(page, r)).value;
      EntryTableEnds(mem, 1, p1, Vpn(page));
      var entry := TableAt(mem, p1)[P1Index(page)];
      if entry.IsUnused() {
        return Err(FlagsPageNotMapped);
      }
      mem := Write(mem, p1, P1Index(page), Entry(entry.addr, flags));
      return Ok(());
    }

    method UpdateFlags2MiB(page: Page2MiB, flags: Flags) returns (res: Result<(), FlagUpdateError>)
      requires SelfMapped(mem, root, r) && Enters(mem, 4, root, 2, Vpn(page))
      modifies this`mem
      ensures var out := RecursiveSetFlags(old(mem), root, 2, Vpn(page), flags + {HUGE_PAGE});
              mem == out.m && res == out.res
    {
      hide Idx, Vpn, P1Index, P2Index, P3Index, P4Index, EntryTable, TableAt, TableOf, P3Page, P2Page, P1Page, LeafAligned,
        FrameInside;
      IndicesAreDigits(page);
      UnfoldEntryTable(mem, 4, root, 2, Vpn(page));
      if TableAt(mem, root)[P4Index(page)].IsUnused() {
        return Err(FlagsPageNotMapped);
      }
      P3PageIsP3Table(mem, root, r, page);
      var p3: Frame := TableOf(mem, root, P3Page(page, r)).value;
      UnfoldEntryTable(mem, 3, p3, 2, Vpn(page));
      if TableAt(mem, p3)[P3Index(page)].IsUnused() {
        return Err(FlagsPageNotMapped);
      }
      P2PageIsP2Table(mem, root, r, page);
      var p2: Frame := TableOf(mem, root, P2Page(page, r)).value;
      EntryTableEnds(mem, 2, p2, Vpn(page));
      var entry := TableAt(mem, p2)[P2Index(page)];
      if entry.IsUnused() {
        return Err(FlagsPageNotMapped);
      }
      mem := Write(mem, p2, P2Index(page), Entry(entry.addr, flags + {HUGE_PAGE}));
      return Ok(());
    }

    method UpdateFlags1GiB(page: Page1GiB, flags: Flags) returns (res: Result<(), FlagUpdateError>)
      requires SelfMapped(mem, root, r) && Enters(mem, 4, root, 3, Vpn(page))
      modifies this`mem
      ensures var out := RecursiveSetFlags(old(mem), root, 3, Vpn(page), flags + {HUGE_PAGE});
              mem == out.m && res == out.res
    {
      hide Idx, Vpn, P1Index, P2Index, P3Index, P4Index, EntryTable, TableAt, TableOf, P3Page, P2Page, P1Page, LeafAligned,
        FrameInside;
      IndicesAreDigits(page);
      UnfoldEntryTable(mem, 4, root, 3, Vpn(page));
      if TableAt(mem, root)[P4Index(page)].IsUnused() {
        return Err(FlagsPageNotMapped);
      }
      P3PageIsP3Table(mem, root, r, page);
      var p3: Frame := TableOf(mem, root, P3Page(page, r)).value;
      EntryTableEnds(mem, 3, p3, Vpn(page));
      var entry := TableAt(mem, p3)[P3Index(page)];
      if entry.IsUnused() {
        return Err(FlagsPageNotMapped);
      }
      mem := Write(mem, p3, P3Index(page), Entry(entry.addr, flags + {HUGE_PAGE}));
      return Ok(());
    }

    /** `set_flags_p4_entry` for 4KiB pages, and for pages of every size. */
    method SetFlagsP4Entry(page: Page4KiB, flags: Flags) returns (res: Result<(), FlagUpdateError>)
      modifies this`mem
      ensures var out := RecursiveSetFlags(old(mem), root, 4, Vpn(page), flags);
              mem == out.m && res == out.res
    {
      hide Idx, Vpn, P1Index, P2Index, P3Index, P4Index, EntryTable, TableAt, TableOf, P3Page, P2Page, P1Page,
        WF, AllFrames, View, LeafAligned, FrameInside;
      IndicesAreDigits(page);
      EntryTableEnds(mem, 4, root, Vpn(page));
      var entry := TableAt(mem, root)[P4Index(page)];
      if entry.IsUnused() {
        return Err(FlagsPageNotMapped);
      }
      mem := Write(mem, root, P4Index(page), Entry(entry.addr, flags));
      return Ok(());
    }

    /** `set_flags_p3_entry` for 4KiB pages, and for 2MiB pages. */
    method SetFlagsP3Entry(page: Page4KiB, flags: Flags) returns (res: Result<(), FlagUpdateError>)
      requires SelfMapped(mem, root, r) && Enters(mem, 4, root, 3, Vpn(page))
      modifies this`mem
      ensures var out := RecursiveSetFlags(old(mem), root, 3, Vpn(page), flags);
              mem == out.m && res == out.res
    {
      hide Idx, Vpn, P1Index, P2Index, P3Index, P4Index, EntryTable, TableAt, TableOf, P3Page, P2Page, P1Page, LeafAligned,
        FrameInside;
      IndicesAreDigits(page);
      UnfoldEntryTable(mem, 4, root, 3, Vpn(page));
      if TableAt(mem, root)[P4Index(page)].IsUnused() {
        return Err(FlagsPageNotMapped);
      }
      P3PageIsP3Table(mem, root, r, page);
      var p3: Frame := TableOf(mem, root, P3Page(page, r)).value;
      EntryTableEnds(mem, 3, p3, Vpn(page));
      var entry := TableAt(mem, p3)[P3Index(page)];
      if entry.IsUnused() {
        return Err(FlagsPageNotMapped);
      }
      mem := Write(mem, p3, P3Index(page), Entry(entry.addr, flags));
      return Ok(());
    }

    /** `set_flags_p2_entry` for 4KiB pages. */
    method SetFlagsP2Entry(page: Page4KiB, flags: Flags) returns (res: Result<(), FlagUpdateError>)
      requires SelfMapped(mem, root, r) && Enters(mem, 4, root, 2, Vpn(page))
      modifies this`mem
      ensures var out := RecursiveSetFlags(old(mem), root, 2, Vpn(page), flags);
              mem == out.m && res == out.res
    {
      hide Idx, Vpn, P1Index, P2Index, P3Index, P4Index, EntryTable, TableAt, TableOf, P3Page, P2Page, P1Page, LeafAligned,
        FrameInside;
      IndicesAreDigits(page);
      UnfoldEntryTable(mem, 4, root, 2, Vpn(page));
      if TableAt(mem, root)[P4Index(page)].IsUnused() {
        return Err(FlagsPageNotMapped);
      }
      P3PageIsP3Table(mem, root, r, page);
      var p3: Frame := TableOf(mem, root, P3Page(page, r)).value;
      UnfoldEntryTable(mem, 3, p3, 2, Vpn(page));
      if TableAt(mem, p3)[P3Index(page)].IsUnused() {
        return Err(FlagsPageNotMapped);
      }
      P2PageIsP2Table(mem, root, r, page);
      var p2: Frame := TableOf(mem, root, P2Page(page, r)).value;
      EntryTableEnds(mem, 2, p2, Vpn(page));
      var entry := TableAt(mem, p2)[P2Index(page)];
      if entry.IsUnused() {
        return Err(FlagsPageNotMapped);
      }
      mem := Write(mem, p2, P2Index(page), Entry(entry.addr, flags));
      return Ok(());
    }

    method TranslatePage4KiB(page: Page4KiB) returns (res: Result<Frame, TranslateError>)
      requires SelfMapped(mem, root, r) && Enters(mem, 4, root, 1, Vpn(page))
      ensures res == RecursiveTranslatePage(mem, root, 1, Vpn(page))
    {
      hide Idx, Vpn, P1Index, P2Index, P3Index, P4Index, EntryTable, TableAt, TableOf, P3Page, P2Page, P1Page,
        FrameInside;
      IndicesAreDigits(page);
      UnfoldEntryTable(mem, 4, root, 1, Vpn(page));
      if TableAt(mem, root)[P4Index(page)].IsUnused() {
        return Err(PageNotMapped);
      }
      P3PageIsP3Table(mem, root, r, page);
      var p3: Frame := TableOf(mem, root, P3Page(page, r)).value;
      UnfoldEntryTable(mem, 3, p3, 1, Vpn(page));
      if TableAt(mem, p3)[P3Index(page)].IsUnused() {
        return Err(PageNotMapped);
      }
      P2PageIsP2Table(mem, root, r, page);
      var p2: Frame := TableOf(mem, root, P2Page(page, r)).value;
      UnfoldEntryTable(mem, 2, p2, 1, Vpn(page));
      if TableAt(mem, p2)[P2Index(page)].IsUnused() {
        return Err(PageNotMapped);
      }
      if TableAt(mem, p3)[P3Index(page)].Huge() {
        P1PageIsData(mem, root, r, page);
      } else {
        P1PageIsP1Table(mem, root, r, page);
      }
      var p1: Frame := TableOf(mem, root, P1Page(page, r)).value;
      EntryTableEnds(mem, 1, p1, Vpn(page));
      var entry := TableAt(mem, p1)[P1Index(page)];
      if entry.IsUnused() {
        return Err(PageNotMapped);
      }
      if entry.addr % 0x1000 != 0 {
        return Err(InvalidFrameAddress(entry.addr));
      }
      return Ok(entry.addr);
    }

    method TranslatePage2MiB(page: Page2MiB) returns (res: Result<Frame, TranslateError>)
      requires SelfMapped(mem, root, r) && Enters(mem, 4, root, 2, Vpn(page))
      ensures res == RecursiveTranslatePage(mem, root, 2, Vpn(page))
    {
      hide Idx, Vpn, P1Index, P2Index, P3Index, P4Index, EntryTable, TableAt, TableOf, P3Page, P2Page, P1Page,
        FrameInside;
      IndicesAreDigits(page);
      UnfoldEntryTable(mem, 4, root, 2, Vpn(page));
      if TableAt(mem, root)[P4Index(page)].IsUnused() {
        return Err(PageNotMapped);
      }
      P3PageIsP3Table(mem, root, r, page);
      var p3: Frame := TableOf(mem, root, P3Page(page, r)).value;
      UnfoldEntryTable(mem, 3, p3, 2, Vpn(page));
      if TableAt(mem, p3)[P3Index(page)].IsUnused() {
        return Err(PageNotMapped);
      }
      P2PageIsP2Table(mem, root, r, page);
      var p2: Frame := TableOf(mem, root, P2Page(page, r)).value;
      EntryTableEnds(mem, 2, p2, Vpn(page));
      var entry := TableAt(mem, p2)[P2Index(page)];
      if entry.IsUnused() {
        return Err(PageNotMapped);
      }
      if entry.addr % 0x20_0000 != 0 {
        return Err(InvalidFrameAddress(entry.addr));
      }
      return Ok(entry.addr);
    }

    method TranslatePage1GiB(page: Page1GiB) returns (res: Result<Frame, TranslateError>)
      requires SelfMapped(mem, root, r) && Enters(mem, 4, root, 3, Vpn(page))
      ensures res == RecursiveTranslatePage(mem, root, 3, Vpn(page))
    {
      hide Idx, Vpn, P1Index, P2Index, P3Index, P4Index, EntryTable, TableAt, TableOf, P3Page, P2Page, P1Page,
        FrameInside;
      IndicesAreDigits(page);
      UnfoldEntryTable(mem, 4, root, 3, Vpn(page));
      if TableAt(mem, root)[P4Index(page)].IsUnused() {
        return Err(PageNotMapped);
      }
      P3PageIsP3Table(mem, root, r, page);
      var p3: Frame := TableOf(mem, root, P3Page(page, r)).value;
      EntryTableEnds(mem, 3, p3, Vpn(page));
      var entry := TableAt(mem, p3)[P3Index(page)];
      if entry.IsUnused() {
        return Err(PageNotMapped);
      }
      if entry.addr % 0x4000_0000 != 0 {
        return Err(InvalidFrameAddress(entry.addr));
      }
      return Ok(entry.addr);
    }

    method TranslateAddress(a: VirtAddr) returns (res: TranslateResult)
      requires RecursiveWF(mem, root, r)
      ensures res == TranslateIn(mem, 4, root, a)
    {
      hide Idx, Vpn, P1Index, P2Index, P3Index, P4Index, TranslateIn, TableAt, TableOf, P3Page, P2Page,
        P1Page, WF, AllFrames, View, LeafAligned;
      IndicesAreDigits(a);
      RecursivePathOK(mem, root, r, Vpn(a));
      var page := Containing4KiB(a);
      SameIndices(a);
      UnfoldTranslate(mem, 4, root, a);
      var e4 := TableAt(mem, root)[P4Index(a)];
      if e4.IsUnused() {
        return NotTranslated;
      }
      if e4.Huge() {
        return TranslatePanic;
      }
      P3PageIsP3Table(mem, root, r, page);
      var p3: Frame := TableOf(mem, root, P3Page(page, r)).value;
      UnfoldTranslate(mem, 3, p3, a);
      var e3 := TableAt(mem, p3)[P3Index(a)];
      if e3.IsUnused() {
        return NotTranslated;
      }
      if e3.Huge() {
        return HugeResult(3, e3, a);
      }
      P2PageIsP2Table(mem, root, r, page);
      var p2: Frame := TableOf(mem, root, P2Page(page, r)).value;
      UnfoldTranslate(mem, 2, p2, a);
      var e2 := TableAt(mem, p2)[P2Index(a)];
      if e2.IsUnused() {
        return NotTranslated;
      }
      if e2.Huge() {
        return HugeResult(2, e2, a);
      }
      P1PageIsP1Table(mem, root, r, page);
      var p1: Frame := TableOf(mem, root, P1Page(page, r)).value;
      UnfoldTranslate(mem, 1, p1, a);
      return LastLevel(TableAt(mem, p1)[P1Index(a)], a);
    }

    /** The inner `clean_up`.  The level-4 loop skips the recursive entry; the table below an entry
        is reached at the address made from the sub-range's first page. */
    method CleanUpTable(f: Frame, level: Level, start: Page4KiB, end: Page4KiB, deallocator: FrameDeallocator)
      returns (empty: bool)
      requires r < 512 && WF(mem, level, f, MaskAt(level, r)) && Reaches(mem, root, r, level, f, start)
      requires AboveOutside(mem, root, r, level, f, start)
      requires start <= end ==> SameTable(level, start, end)
      modifies this`mem, deallocator
      ensures var out := CleanPages(old(mem), level, f, MaskAt(level, r), start, end, 512);
              mem == out.m && deallocator.freed == old(deallocator.freed) + out.log
      ensures empty == (start <= end && IsEmpty(TableAt(mem, f)))
      decreases level
    {
      hide WF, CleanPages, ChildRange, LevelIndex, TableAt, IsEmpty, Links, Reaches, AboveOutside, TableOf,
        ChildPage, MaskAt, SameTable;
      if start > end {
        NothingInEmptyRange(mem, level, f, MaskAt(level, r), start, end);
        return false;
      }
      ghost var m, mask := mem, MaskAt(level, r);
      OnlyIndexed(m, level, f, mask, start, end);
      if level == 1 {
        NothingOnLevelOne(m, f, mask, start, end);
      } else {
        var i, last := LevelIndex(level, start), LevelIndex(level, end);
        while i <= last
          invariant LevelIndex(level, start) <= i <= last + 1
          invariant var out := CleanPages(m, level, f, mask, start, end, i);
                    mem == out.m && deallocator.freed == old(deallocator.freed) + out.log
          decreases last - i
        {
          var entry := TableAt(mem, f)[i];
          LinkIsNext(level, entry);
          MaskIs(level, r, i);
          if (level == 4 && i == r) || entry.Huge() || !entry.Present() {
            TurnWithoutLink(m, level, f, mask, start, end, i);
          } else {
            TurnAtLink(m, level, f, mask, start, end, i);
            ChildReached(m, root, r, level, f, start, end, i);
            var (from, to) := ChildRange(level, start, end, i);
            var table: Frame := TableOf(mem, root, ChildPage(level, from, r)).value;
            var gone := CleanUpTable(table, level - 1, from, to, deallocator);
            if gone {
              mem := Write(mem, f, i, UNUSED);
              deallocator.DeallocateFrame(entry.addr);
            }
          }
          i := i + 1;
        }
      }
      return IsEmpty(TableAt(mem, f));
    }

    method CleanUpAddrRange(start: Page4KiB, end: Page4KiB, deallocator: FrameDeallocator)
      requires SelfMapped(mem, root, r) && WF(mem, 4, root, r)
      modifies this`mem, deallocator
      ensures var out := CleanRange(old(mem), root, r, Vpn(start), Vpn(end));
              mem == out.m && deallocator.freed == old(deallocator.freed) + out.log
    {
      WholeSpace(start);
      WholeSpace(end);
      RootReached(mem, root, r, start);
      MaskIs(4, r, r);
      var _ := CleanUpTable(root, 4, start, end, deallocator);
    }

    /** `clean_up`: the whole address space. */
    method CleanUpAll(deallocator: FrameDeallocator)
      requires SelfMapped(mem, root, r) && WF(mem, 4, root, r)
      modifies this`mem, deallocator
      ensures var out := CleanRange(old(mem), root, r, 0, PAGES - 1);
              mem == out.m && deallocator.freed == old(deallocator.freed) + out.log
    {
      LastPage();
      CleanUpAddrRange(0, 0xffff_ffff_ffff_f000, deallocator);
    }
  }

  lemma MaskIs(level: Level, r: nat, i: nat)
    ensures i == MaskAt(level, r) <==> level == 4 && i == r
    ensures MaskAt(4, r) == r && (level > 1 ==> MaskAt(level - 1, r) == -1)
  {
  }

  /** The page that contains an address has its indices. */
  lemma SameIndices(a: VirtAddr)
    ensures var page := Containing4KiB(a);
            && P4Index(page) == P4Index(a) && P3Index(page) == P3Index(a)
            && P2Index(page) == P2Index(a) && P1Index(page) == P1Index(a)
  {
    hide Idx;
    IndicesAreDigits(a);
    IndicesAreDigits(Containing4KiB(a));
    SamePage(a);
  }
}
