/** `MappedPageTable`: the mapper that reaches page tables through their frames.

The mutating methods follow the source statement by statement; each is proved to leave memory,
allocator and result as the specification function of its operation says.
 */
module Mapped {
  import opened Wrappers
  import opened Addr
  import opened Levels
  import opened Page
  import opened RangeSplit
  import opened PageTable
  import opened PageTree
  import opened MemoryTree
  import opened FrameAlloc
  import opened MapTo
  import opened PathOps
  import opened Translate
  import opened CleanUpMeaning
  import opened CleanUpSteps

  /** A 2MiB or 1GiB frame. */
  type Frame2MiB = f: Frame | f % 0x20_0000 == 0
  type Frame1GiB = f: Frame | f % 0x4000_0000 == 0

  /** The flags a default `map_to` passes on to parent entries. */
  const PARENT_FLAGS: Flags := {PRESENT, WRITABLE, USER_ACCESSIBLE}

  /** The request of one `map_to_with_table_flags` call. */
  function RequestFor(size: Level, page: VirtAddr, frame: Frame, flags: Flags, parentFlags: Flags): Request {
    Request(size, Vpn(page), Entry(frame, if size > 1 then flags + {HUGE_PAGE} else flags), parentFlags, parentFlags)
  }

  /** The request of one default `map_to` call. */
  function DefaultRequest(size: Level, page: VirtAddr, frame: Frame, flags: Flags): Request {
    RequestFor(size, page, frame, flags, flags * PARENT_FLAGS)
  }

  class MappedPageTable {
    var mem: Memory
    const root: Frame

    constructor (mem: Memory, root: Frame)
      ensures this.mem == mem && this.root == root
    {
      this.mem := mem;
      this.root := root;
    }

    method CreateNextTable(f: Frame, i: nat, insertFlags: Flags, allocator: FrameAllocator)
      returns (r: Result<Frame, MapResult>)
      requires i < 512
      modifies this`mem, allocator
      ensures var c := CreateNext(old(mem), f, i, insertFlags, insertFlags, old(allocator.answers));
              mem == c.m && allocator.answers == c.answers && r == c.res
    {
      var created;
      if TableAt(mem, f)[i].IsUnused() {
        var frame := allocator.AllocateFrame();
        if frame.None? {
          return Err(FrameAllocationFailed);
        }
        mem := Write(mem, f, i, Entry(frame.value, insertFlags));
        created := true;
      } else {
        var e := TableAt(mem, f)[i];
        if insertFlags != {} && !(insertFlags <= e.flags) {
          mem := Write(mem, f, i, Entry(e.addr, e.flags + insertFlags));
        }
        created := false;
      }
      var next := NextTable(TableAt(mem, f)[i]);
      if next.Err? {
        return Err(if next.error.NotMapped? then Panicked else MapResult.ParentEntryHugePage);
      }
      if created {
        mem := ZeroTable(mem, next.value);
      }
      return Ok(next.value);
    }

    method MapTo4KiBWithTableFlags(page: Page4KiB, frame: Frame, flags: Flags, parentFlags: Flags, allocator: FrameAllocator)
      returns (r: MapResult)
      modifies this`mem, allocator
      ensures var out := MapIn(old(mem), 4, root, RequestFor(1, page, frame, flags, parentFlags), old(allocator.answers));
              mem == out.m && allocator.answers == out.answers && r == out.res
    {
      hide Idx, Vpn, P1Index, P2Index, P3Index, P4Index, MapIn, CreateNext, TableAt, Write;
      IndicesAreDigits(page);
      ghost var q := RequestFor(1, page, frame, flags, parentFlags);
      ghost var m4, a4 := mem, allocator.answers;
      var p3 := CreateNextTable(root, P4Index(page), parentFlags, allocator);
      UnfoldMapIn(m4, 4, root, q, a4);
      if p3.Err? {
        return p3.error;
      }
      ghost var m3, a3 := mem, allocator.answers;
      var p2 := CreateNextTable(p3.value, P3Index(page), parentFlags, allocator);
      UnfoldMapIn(m3, 3, p3.value, q, a3);
      if p2.Err? {
        return p2.error;
      }
      ghost var m2, a2 := mem, allocator.answers;
      var p1 := CreateNextTable(p2.value, P2Index(page), parentFlags, allocator);
      UnfoldMapIn(m2, 2, p2.value, q, a2);
      if p1.Err? {
        return p1.error;
      }
      UnfoldMapIn(mem, 1, p1.value, q, allocator.answers);
      if !TableAt(mem, p1.value)[P1Index(page)].IsUnused() {
        return PageAlreadyMapped;
      }
      mem := Write(mem, p1.value, P1Index(page), Entry(frame, flags));
      return Mapped;
    }

    /** The default `map_to`. */
    method MapTo4KiB(page: Page4KiB, frame: Frame, flags: Flags, allocator: FrameAllocator) returns (r: MapResult)
      modifies this`mem, allocator
      ensures var out := MapIn(old(mem), 4, root, DefaultRequest(1, page, frame, flags), old(allocator.answers));
              mem == out.m && allocator.answers == out.answers && r == out.res
    {
      r := MapTo4KiBWithTableFlags(page, frame, flags, flags * PARENT_FLAGS, allocator);
    }

    /** `identity_map`: `VirtAddr::new` panics for a frame at or above 2^47; below, the page is the
        one with the frame's own address. */
    method IdentityMap4KiB(frame: Frame, flags: Flags, allocator: FrameAllocator) returns (r: MapResult)
      modifies this`mem, allocator
      ensures frame >= 0x8000_0000_0000 ==> r == Panicked && mem == old(mem) && allocator.answers == old(allocator.answers)
      ensures frame < 0x8000_0000_0000 ==>
                var out := MapIn(old(mem), 4, root, DefaultRequest(1, frame, frame, flags), old(allocator.answers));
                mem == out.m && allocator.answers == out.answers && r == out.res
    {
      TryNewAcceptsCanonical(frame);
      var a := TryNew(frame);
      if a.Err? {
        return Panicked;
      }
      r := MapTo4KiB(Containing4KiB(a.value), frame, flags, allocator);
    }

    method MapTo2MiBWithTableFlags(page: Page2MiB, frame: Frame2MiB, flags: Flags, parentFlags: Flags, allocator: FrameAllocator)
      returns (r: MapResult)
      modifies this`mem, allocator
      ensures var out := MapIn(old(mem), 4, root, RequestFor(2, page, frame, flags, parentFlags), old(allocator.answers));
              mem == out.m && allocator.answers == out.answers && r == out.res
    {
      hide Idx, Vpn, P1Index, P2Index, P3Index, P4Index, MapIn, CreateNext, TableAt, Write;
      IndicesAreDigits(page);
      ghost var q := RequestFor(2, page, frame, flags, parentFlags);
      ghost var m4, a4 := mem, allocator.answers;
      var p3 := CreateNextTable(root, P4Index(page), parentFlags, allocator);
      UnfoldMapIn(m4, 4, root, q, a4);
      if p3.Err? {
        return p3.error;
      }
      ghost var m3, a3 := mem, allocator.answers;
      var p2 := CreateNextTable(p3.value, P3Index(page), parentFlags, allocator);
      UnfoldMapIn(m3, 3, p3.value, q, a3);
      if p2.Err? {
        return p2.error;
      }
      UnfoldMapIn(mem, 2, p2.value, q, allocator.answers);
      if !TableAt(mem, p2.value)[P2Index(page)].IsUnused() {
        return PageAlreadyMapped;
      }
      mem := Write(mem, p2.value, P2Index(page), Entry(frame, flags + {HUGE_PAGE}));
      return Mapped;
    }

    /** The default `map_to`. */
    method MapTo2MiB(page: Page2MiB, frame: Frame2MiB, flags: Flags, allocator: FrameAllocator) returns (r: MapResult)
      modifies this`mem, allocator
      ensures var out := MapIn(old(mem), 4, root, DefaultRequest(2, page, frame, flags), old(allocator.answers));
              mem == out.m && allocator.answers == out.answers && r == out.res
    {
      r := MapTo2MiBWithTableFlags(page, frame, flags, flags * PARENT_FLAGS, allocator);
    }

    /** `identity_map`: `VirtAddr::new` panics for a frame at or above 2^47; below, the page is the
        one with the frame's own address. */
    method IdentityMap2MiB(frame: Frame2MiB, flags: Flags, allocator: FrameAllocator) returns (r: MapResult)
      modifies this`mem, allocator
      ensures frame >= 0x8000_0000_0000 ==> r == Panicked && mem == old(mem) && allocator.answers == old(allocator.answers)
      ensures frame < 0x8000_0000_0000 ==>
                var out := MapIn(old(mem), 4, root, DefaultRequest(2, frame, frame, flags), old(allocator.answers));
                mem == out.m && allocator.answers == out.answers && r == out.res
    {
      TryNewAcceptsCanonical(frame);
      var a := TryNew(frame);
      if a.Err? {
        return Panicked;
      }
      r := MapTo2MiB(Containing2MiB(a.value), frame, flags, allocator);
    }

    method MapTo1GiBWithTableFlags(page: Page1GiB, frame: Frame1GiB, flags: Flags, parentFlags: Flags, allocator: FrameAllocator)
      returns (r: MapResult)
      modifies this`mem, allocator
      ensures var out := MapIn(old(mem), 4, root, RequestFor(3, page, frame, flags, parentFlags), old(allocator.answers));
              mem == out.m && allocator.answers == out.answers && r == out.res
    {
      hide Idx, Vpn, P1Index, P2Index, P3Index, P4Index, MapIn, CreateNext, TableAt, Write;
      IndicesAreDigits(page);
      ghost var q := RequestFor(3, page, frame, flags, parentFlags);
      ghost var m4, a4 := mem, allocator.answers;
      var p3 := CreateNextTable(root, P4Index(page), parentFlags, allocator);
      UnfoldMapIn(m4, 4, root, q, a4);
      if p3.Err? {
        return p3.error;
      }
      UnfoldMapIn(mem, 3, p3.value, q, allocator.answers);
      if !TableAt(mem, p3.value)[P3Index(page)].IsUnused() {
        return PageAlreadyMapped;
      }
      mem := Write(mem, p3.value, P3Index(page), Entry(frame, flags + {HUGE_PAGE}));
      return Mapped;
    }

    /** The default `map_to`. */
    method MapTo1GiB(page: Page1GiB, frame: Frame1GiB, flags: Flags, allocator: FrameAllocator) returns (r: MapResult)
      modifies this`mem, allocator
      ensures var out := MapIn(old(mem), 4, root, DefaultRequest(3, page, frame, flags), old(allocator.answers));
              mem == out.m && allocator.answers == out.answers && r == out.res
    {
      r := MapTo1GiBWithTableFlags(page, frame, flags, flags * PARENT_FLAGS, allocator);
    }

    /** `identity_map`: `VirtAddr::new` panics for a frame at or above 2^47; below, the page is the
        one with the frame's own address. */
    method IdentityMap1GiB(frame: Frame1GiB, flags: Flags, allocator: FrameAllocator) returns (r: MapResult)
      modifies this`mem, allocator
      ensures frame >= 0x8000_0000_0000 ==> r == Panicked && mem == old(mem) && allocator.answers == old(allocator.answers)
      ensures frame < 0x8000_0000_0000 ==>
                var out := MapIn(old(mem), 4, root, DefaultRequest(3, frame, frame, flags), old(allocator.answers));
                mem == out.m && allocator.answers == out.answers && r == out.res
    {
      TryNewAcceptsCanonical(frame);
      var a := TryNew(frame);
      if a.Err? {
        return Panicked;
      }
      r := MapTo1GiB(Containing1GiB(a.value), frame, flags, allocator);
    }

    method Unmap4KiB(page: Page4KiB) returns (r: Result<Frame, UnmapError>)
      modifies this`mem
      ensures var out := UnmapIn(old(mem), 4, root, 1, Vpn(page));
              mem == out.m && r == out.res
    {
      IndicesAreDigits(page);
      UnfoldWalk(mem, 4, root, 1, Vpn(page));
      var p3 := NextTable(TableAt(mem, root)[P4Index(page)]);
      if p3.Err? {
        return Err(UnmapWalkError(p3.error));
      }
      UnfoldWalk(mem, 3, p3.value, 1, Vpn(page));
      var p2 := NextTable(TableAt(mem, p3.value)[P3Index(page)]);
      if p2.Err? {
        return Err(UnmapWalkError(p2.error));
      }
      UnfoldWalk(mem, 2, p2.value, 1, Vpn(page));
      var p1 := NextTable(TableAt(mem, p2.value)[P2Index(page)]);
      if p1.Err? {
        return Err(UnmapWalkError(p1.error));
      }
      var entry := TableAt(mem, p1.value)[P1Index(page)];
      if !entry.Present() {
        return Err(UnmapPageNotMapped);
      }
      mem := Write(mem, p1.value, P1Index(page), UNUSED);
      return Ok(entry.addr);
    }

    method Unmap2MiB(page: Page2MiB) returns (r: Result<Frame, UnmapError>)
      modifies this`mem
      ensures var out := UnmapIn(old(mem), 4, root, 2, Vpn(page));
              mem == out.m && r == out.res
    {
      IndicesAreDigits(page);
      UnfoldWalk(mem, 4, root, 2, Vpn(page));
      var p3 := NextTable(TableAt(mem, root)[P4Index(page)]);
      if p3.Err? {
        return Err(UnmapWalkError(p3.error));
      }
      UnfoldWalk(mem, 3, p3.value, 2, Vpn(page));
      var p2 := NextTable(TableAt(mem, p3.value)[P3Index(page)]);
      if p2.Err? {
        return Err(UnmapWalkError(p2.error));
      }
      var entry := TableAt(mem, p2.value)[P2Index(page)];
      if !entry.Present() {
        return Err(UnmapPageNotMapped);
      }
      if !entry.Huge() {
        return Err(UnmapParentEntryHugePage);
      }
      if entry.addr % 0x20_0000 != 0 {
        return Err(UnmapInvalidFrameAddress(entry.addr));
      }
      mem := Write(mem, p2.value, P2Index(page), UNUSED);
      return Ok(entry.addr);
    }

    method Unmap1GiB(page: Page1GiB) returns (r: Result<Frame, UnmapError>)
      modifies this`mem
      ensures var out := UnmapIn(old(mem), 4, root, 3, Vpn(page));
              mem == out.m && r == out.res
    {
      IndicesAreDigits(page);
      UnfoldWalk(mem, 4, root, 3, Vpn(page));
      var p3 := NextTable(TableAt(mem, root)[P4Index(page)]);
      if p3.Err? {
        return Err(UnmapWalkError(p3.error));
      }
      var entry := TableAt(mem, p3.value)[P3Index(page)];
      if !entry.Present() {
        return Err(UnmapPageNotMapped);
      }
      if !entry.Huge() {
        return Err(UnmapParentEntryHugePage);
      }
      if entry.addr % 0x4000_0000 != 0 {
        return Err(UnmapInvalidFrameAddress(entry.addr));
      }
      mem := Write(mem, p3.value, P3Index(page), UNUSED);
      return Ok(entry.addr);
    }

    method UpdateFlags4KiB(page: Page4KiB, flags: Flags) returns (r: Result<(), FlagUpdateError>)
      modifies this`mem
      ensures var out := SetFlagsIn(old(mem), 4, root, 1, Vpn(page), flags);
              mem == out.m && r == out.res
    {
      IndicesAreDigits(page);
      UnfoldWalk(mem, 4, root, 1, Vpn(page));
      var p3 := NextTable(TableAt(mem, root)[P4Index(page)]);
      if p3.Err? {
        return Err(FlagsWalkError(p3.error));
      }
      UnfoldWalk(mem, 3, p3.value, 1, Vpn(page));
      var p2 := NextTable(TableAt(mem, p3.value)[P3Index(page)]);
      if p2.Err? {
        return Err(FlagsWalkError(p2.error));
      }
      UnfoldWalk(mem, 2, p2.value, 1, Vpn(page));
      var p1 := NextTable(TableAt(mem, p2.value)[P2Index(page)]);
      if p1.Err? {
        return Err(FlagsWalkError(p1.error));
      }
      var entry := TableAt(mem, p1.value)[P1Index(page)];
      if entry.IsUnused() {
        return Err(FlagsPageNotMapped);
      }
      mem := Write(mem, p1.value, P1Index(page), Entry(entry.addr, flags));
      return Ok(());
    }

    method UpdateFlags2MiB(page: Page2MiB, flags: Flags) returns (r: Result<(), FlagUpdateError>)
      modifies this`mem
      ensures var out := SetFlagsIn(old(mem), 4, root, 2, Vpn(page), flags + {HUGE_PAGE});
              mem == out.m && r == out.res
    {
      IndicesAreDigits(page);
      UnfoldWalk(mem, 4, root, 2, Vpn(page));
      var p3 := NextTable(TableAt(mem, root)[P4Index(page)]);
      if p3.Err? {
        return Err(FlagsWalkError(p3.error));
      }
      UnfoldWalk(mem, 3, p3.value, 2, Vpn(page));
      var p2 := NextTable(TableAt(mem, p3.value)[P3Index(page)]);
      if p2.Err? {
        return Err(FlagsWalkError(p2.error));
      }
      var entry := TableAt(mem, p2.value)[P2Index(page)];
      if entry.IsUnused() {
        return Err(FlagsPageNotMapped);
      }
      mem := Write(mem, p2.value, P2Index(page), Entry(entry.addr, flags + {HUGE_PAGE}));
      return Ok(());
    }

    method UpdateFlags1GiB(page: Page1GiB, flags: Flags) returns (r: Result<(), FlagUpdateError>)
      modifies this`mem
      ensures var out := SetFlagsIn(old(mem), 4, root, 3, Vpn(page), flags + {HUGE_PAGE});
              mem == out.m && r == out.res
    {
      IndicesAreDigits(page);
      UnfoldWalk(mem, 4, root, 3, Vpn(page));
      var p3 := NextTable(TableAt(mem, root)[P4Index(page)]);
      if p3.Err? {
        return Err(FlagsWalkError(p3.error));
      }
      var entry := TableAt(mem, p3.value)[P3Index(page)];
      if entry.IsUnused() {
        return Err(FlagsPageNotMapped);
      }
      mem := Write(mem, p3.value, P3Index(page), Entry(entry.addr, flags + {HUGE_PAGE}));
      return Ok(());
    }

    /** `set_flags_p4_entry` for 4KiB pages, and for pages of every size. */
    method SetFlagsP4Entry(page: Page4KiB, flags: Flags) returns (r: Result<(), FlagUpdateError>)
      modifies this`mem
      ensures var out := SetFlagsIn(old(mem), 4, root, 4, Vpn(page), flags);
              mem == out.m && r == out.res
    {
      IndicesAreDigits(page);
      var entry := TableAt(mem, root)[P4Index(page)];
      if entry.IsUnused() {
        return Err(FlagsPageNotMapped);
      }
      mem := Write(mem, root, P4Index(page), Entry(entry.addr, flags));
      return Ok(());
    }

    /** `set_flags_p3_entry` for 4KiB pages, and for 2MiB pages. */
    method SetFlagsP3Entry(page: Page4KiB, flags: Flags) returns (r: Result<(), FlagUpdateError>)
      modifies this`mem
      ensures var out := SetFlagsIn(old(mem), 4, root, 3, Vpn(page), flags);
              mem == out.m && r == out.res
    {
      IndicesAreDigits(page);
      UnfoldWalk(mem, 4, root, 3, Vpn(page));
      var p3 := NextTable(TableAt(mem, root)[P4Index(page)]);
      if p3.Err? {
        return Err(FlagsWalkError(p3.error));
      }
      var entry := TableAt(mem, p3.value)[P3Index(page)];
      if entry.IsUnused() {
        return Err(FlagsPageNotMapped);
      }
      mem := Write(mem, p3.value, P3Index(page), Entry(entry.addr, flags));
      return Ok(());
    }

    /** `set_flags_p2_entry` for 4KiB pages. */
    method SetFlagsP2Entry(page: Page4KiB, flags: Flags) returns (r: Result<(), FlagUpdateError>)
      modifies this`mem
      ensures var out := SetFlagsIn(old(mem), 4, root, 2, Vpn(page), flags);
              mem == out.m && r == out.res
    {
      IndicesAreDigits(page);
      UnfoldWalk(mem, 4, root, 2, Vpn(page));
      var p3 := NextTable(TableAt(mem, root)[P4Index(page)]);
      if p3.Err? {
        return Err(FlagsWalkError(p3.error));
      }
      UnfoldWalk(mem, 3, p3.value, 2, Vpn(page));
      var p2 := NextTable(TableAt(mem, p3.value)[P3Index(page)]);
      if p2.Err? {
        return Err(FlagsWalkError(p2.error));
      }
      var entry := TableAt(mem, p2.value)[P2Index(page)];
      if entry.IsUnused() {
        return Err(FlagsPageNotMapped);
      }
      mem := Write(mem, p2.value, P2Index(page), Entry(entry.addr, flags));
      return Ok(());
    }

    method TranslatePage4KiB(page: Page4KiB) returns (r: Result<Frame, TranslateError>)
      ensures r == TranslatePageIn(mem, 4, root, 1, Vpn(page))
    {
      IndicesAreDigits(page);
      UnfoldWalk(mem, 4, root, 1, Vpn(page));
      var p3 := NextTable(TableAt(mem, root)[P4Index(page)]);
      if p3.Err? {
        return Err(TranslateWalkError(p3.error));
      }
      UnfoldWalk(mem, 3, p3.value, 1, Vpn(page));
      var p2 := NextTable(TableAt(mem, p3.value)[P3Index(page)]);
      if p2.Err? {
        return Err(TranslateWalkError(p2.error));
      }
      UnfoldWalk(mem, 2, p2.value, 1, Vpn(page));
      var p1 := NextTable(TableAt(mem, p2.value)[P2Index(page)]);
      if p1.Err? {
        return Err(TranslateWalkError(p1.error));
      }
      var entry := TableAt(mem, p1.value)[P1Index(page)];
      if entry.IsUnused() {
        return Err(PageNotMapped);
      }
      if entry.addr % 0x1000 != 0 {
        return Err(InvalidFrameAddress(entry.addr));
      }
      return Ok(entry.addr);
    }

    method TranslatePage2MiB(page: Page2MiB) returns (r: Result<Frame, TranslateError>)
      ensures r == TranslatePageIn(mem, 4, root, 2, Vpn(page))
    {
      IndicesAreDigits(page);
      UnfoldWalk(mem, 4, root, 2, Vpn(page));
      var p3 := NextTable(TableAt(mem, root)[P4Index(page)]);
      if p3.Err? {
        return Err(TranslateWalkError(p3.error));
      }
      UnfoldWalk(mem, 3, p3.value, 2, Vpn(page));
      var p2 := NextTable(TableAt(mem, p3.value)[P3Index(page)]);
      if p2.Err? {
        return Err(TranslateWalkError(p2.error));
      }
      var entry := TableAt(mem, p2.value)[P2Index(page)];
      if entry.IsUnused() {
        return Err(PageNotMapped);
      }
      if entry.addr % 0x20_0000 != 0 {
        return Err(InvalidFrameAddress(entry.addr));
      }
      return Ok(entry.addr);
    }

    method TranslatePage1GiB(page: Page1GiB) returns (r: Result<Frame, TranslateError>)
      ensures r == TranslatePageIn(mem, 4, root, 3, Vpn(page))
    {
      IndicesAreDigits(page);
      UnfoldWalk(mem, 4, root, 3, Vpn(page));
      var p3 := NextTable(TableAt(mem, root)[P4Index(page)]);
      if p3.Err? {
        return Err(TranslateWalkError(p3.error));
      }
      var entry := TableAt(mem, p3.value)[P3Index(page)];
      if entry.IsUnused() {
        return Err(PageNotMapped);
      }
      if entry.addr % 0x4000_0000 != 0 {
        return Err(InvalidFrameAddress(entry.addr));
      }
      return Ok(entry.addr);
    }

    method TranslateAddress(a: VirtAddr) returns (r: TranslateResult)
      ensures r == TranslateIn(mem, 4, root, a)
    {
      IndicesAreDigits(a);
      UnfoldTranslate(mem, 4, root, a);
      var p3 := NextTable(TableAt(mem, root)[P4Index(a)]);
      if p3.Err? {
        return if p3.error.NotMapped? then NotTranslated else TranslatePanic;
      }
      UnfoldTranslate(mem, 3, p3.value, a);
      var p2 := NextTable(TableAt(mem, p3.value)[P3Index(a)]);
      if p2.Err? {
        return if p2.error.NotMapped? then NotTranslated else HugeResult(3, TableAt(mem, p3.value)[P3Index(a)], a);
      }
      UnfoldTranslate(mem, 2, p2.value, a);
      var p1 := NextTable(TableAt(mem, p2.value)[P2Index(a)]);
      if p1.Err? {
        return if p1.error.NotMapped? then NotTranslated else HugeResult(2, TableAt(mem, p2.value)[P2Index(a)], a);
      }
      UnfoldTranslate(mem, 1, p1.value, a);
      return LastLevel(TableAt(mem, p1.value)[P1Index(a)], a);
    }

    /** The inner `clean_up`: true when the table is empty afterwards. */
    method CleanUpTable(f: Frame, level: Level, start: Page4KiB, end: Page4KiB, deallocator: FrameDeallocator)
      returns (empty: bool)
      requires WF(mem, level, f, -1)
      requires start <= end ==> SameTable(level, start, end)
      modifies this`mem, deallocator
      ensures var out := CleanPages(old(mem), level, f, -1, start, end, 512);
              mem == out.m && deallocator.freed == old(deallocator.freed) + out.log
      ensures empty == (start <= end && IsEmpty(TableAt(mem, f)))
      decreases level
    {
      hide WF, CleanPages, ChildRange, LevelIndex, TableAt, IsEmpty, Links;
      if start > end {
        NothingInEmptyRange(mem, level, f, -1, start, end);
        return false;
      }
      ghost var m := mem;
      OnlyIndexed(m, level, f, -1, start, end);
      if level == 1 {
        NothingOnLevelOne(m, f, -1, start, end);
      } else {
        var i, last := LevelIndex(level, start), LevelIndex(level, end);
        while i <= last
          invariant LevelIndex(level, start) <= i <= last + 1
          invariant var out := CleanPages(m, level, f, -1, start, end, i);
                    mem == out.m && deallocator.freed == old(deallocator.freed) + out.log
          decreases last - i
        {
          LinkIsNext(level, TableAt(mem, f)[i]);
          var next := NextTable(TableAt(mem, f)[i]);
          if next.Ok? {
            TurnAtLink(m, level, f, -1, start, end, i);
            var (from, to) := ChildRange(level, start, end, i);
            var gone := CleanUpTable(next.value, level - 1, from, to, deallocator);
            if gone {
              var frame := TableAt(mem, f)[i].addr;
              mem := Write(mem, f, i, UNUSED);
              deallocator.DeallocateFrame(frame);
            }
          } else {
            TurnWithoutLink(m, level, f, -1, start, end, i);
          }
          i := i + 1;
        }
      }
      return IsEmpty(TableAt(mem, f));
    }

    method CleanUpAddrRange(start: Page4KiB, end: Page4KiB, deallocator: FrameDeallocator)
      requires WF(mem, 4, root, -1)
      modifies this`mem, deallocator
      ensures var out := CleanRange(old(mem), root, -1, Vpn(start), Vpn(end));
              mem == out.m && deallocator.freed == old(deallocator.freed) + out.log
    {
      WholeSpace(start);
      WholeSpace(end);
      var _ := CleanUpTable(root, 4, start, end, deallocator);
    }

    /** `clean_up`: the whole address space. */
    method CleanUpAll(deallocator: FrameDeallocator)
      requires WF(mem, 4, root, -1)
      modifies this`mem, deallocator
      ensures var out := CleanRange(old(mem), root, -1, 0, PAGES - 1);
              mem == out.m && deallocator.freed == old(deallocator.freed) + out.log
    {
      LastPage();
      CleanUpAddrRange(0, 0xffff_ffff_ffff_f000, deallocator);
    }
  }

  lemma LinkIsNext(level: Level, e: Entry)
    ensures Links(level, e) <==> level > 1 && NextTable(e).Ok?
    ensures NextTable(e).Ok? ==> NextTable(e).value == e.addr
  {
  }

  lemma WholeSpace(p: Page4KiB)
    ensures SpanStart(5, Vpn(p)) == 0
  {
  }

  lemma LastPage()
    ensures Vpn(0) == 0 && Vpn(0xffff_ffff_ffff_f000) == PAGES - 1
  {
    LinParts(0xffff_ffff_ffff_f000);
  }

  // ---------------------------------------------------------------- unfolding the specifications

  lemma UnfoldMapIn(m: Memory, level: Level, f: Frame, r: Request, answers: Answers)
    requires r.size <= level
    ensures level == r.size ==>
              MapIn(m, level, f, r, answers) ==
              if TableAt(m, f)[Idx(level, r.v)].IsUnused() then MapOut(Write(m, f, Idx(level, r.v), r.leaf), answers, [], Mapped)
              else MapOut(m, answers, [], PageAlreadyMapped)
    ensures level > r.size ==>
              var c, out := CreateNext(m, f, Idx(level, r.v), r.link, r.add, answers), MapIn(m, level, f, r, answers);
              if c.res.Err? then out == MapOut(c.m, c.answers, c.used, c.res.error)
              else
                var below := MapIn(c.m, level - 1, c.res.value, r, c.answers);
                out == MapOut(below.m, below.answers, c.used + below.used, below.res)
  {
  }
}
