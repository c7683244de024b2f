/** `map_to_with_table_flags`, the default `map_to` and `identity_map`, told by the arguments of the
call: what they answer, what they write on the path of the page, and what translation is afterwards.

The same for the recursive mapper is in `RecursiveMeaning`.
 */
module MapToCalls {
  import opened Wrappers
  import opened Addr
  import opened Levels
  import opened Page
  import opened PageTable
  import opened PageTree
  import opened MemoryTree
  import opened MapTo
  import opened PathOps
  import opened PathMeaning
  import opened Translate
  import opened MappingMeaning
  import opened Mapped
  import opened DefaultMapTo

  /** What a call asks for: a page and a frame of its size, a sound tree of tables, a page outside the
      recursive entry, and an allocator that answers with unused frames. */
  ghost predicate Callable(m: Memory, root: Frame, mask: int, size: Level, page: VirtAddr, frame: Frame, answers: Answers) {
    && WF(m, 4, root, mask) && Sound(m, 4, root, mask)
    && IsPageStart(size, page) && LeafAligned(size, frame) && P4Index(page) != mask
    && Fresh(answers, 4 - size, Tables(m, root, mask))
  }

  /** A request with the page and the frame of the call. */
  ghost predicate IsRequest(r: Request, size: Level, page: VirtAddr, frame: Frame) {
    && r.size == size && r.v == Vpn(page) && r.leaf.addr == frame
    && (size > 1 ==> HUGE_PAGE in r.leaf.flags) && (HUGE_PAGE in r.link <==> HUGE_PAGE in r.add)
  }

  /** HUGE_PAGE among the flags for parents keeps a call from succeeding, and so does a new link that
      cannot be followed. */
  lemma SuccessIsLegal(m: Memory, root: Frame, mask: int, r: Request, page: VirtAddr, frame: Frame, answers: Answers)
    requires Callable(m, root, mask, r.size, page, frame, answers) && IsRequest(r, r.size, page, frame)
    requires MapIn(m, 4, root, r, answers).res == MapResult.Mapped
    ensures MapPre(m, root, mask, r, answers)
  {
    hide MapIn, WF, Sound, Fresh, Tables, Vpn, P4Index, Enough;
    PageNumber(page);
    IndicesAreDigits(page);
    MapToResultIs(m, root, mask, r, answers);
  }

  /** A successful call, by the leaf and the flags of its request: every address of the page translates
      to the leaf, and every other one as before. */
  lemma RequestTranslates(m: Memory, root: Frame, mask: int, r: Request, page: VirtAddr, frame: Frame, answers: Answers,
                          a: VirtAddr)
    requires Callable(m, root, mask, r.size, page, frame, answers) && IsRequest(r, r.size, page, frame)
    requires MapIn(m, 4, root, r, answers).res == MapResult.Mapped && P4Index(a) != mask
    ensures TranslateIn(MapIn(m, 4, root, r, answers).m, 4, root, a) ==
            if !(page <= a < page + LeafBytes(r.size)) then TranslateIn(m, 4, root, a)
            else if r.leaf == Entry(0, {}) then NotTranslated
            else Translated(r.size, frame, a - page, r.leaf.flags)
  {
    hide MapIn, WF, Sound, Fresh, Tables, Vpn, P4Index, TranslateIn, MapPre, LeafBytes;
    SuccessIsLegal(m, root, mask, r, page, frame, answers);
    MapToTranslates(m, root, mask, r, answers, page, a);
  }

  /** And the entries on the path of the page, from its own upwards. */
  lemma RequestWritesPath(m: Memory, root: Frame, mask: int, r: Request, page: VirtAddr, frame: Frame, answers: Answers,
                          t: Level)
    requires Callable(m, root, mask, r.size, page, frame, answers) && IsRequest(r, r.size, page, frame)
    requires MapIn(m, 4, root, r, answers).res == MapResult.Mapped && r.size <= t
    ensures var out := MapIn(m, 4, root, r, answers);
            var was, now := EntryOn(m, root, mask, t, Vpn(page)), EntryOn(out.m, root, mask, t, Vpn(page));
            && now.Some?
            && (t == r.size ==> now.value == r.leaf)
            && (t > r.size ==>
                  if was.Some? && was.value != Entry(0, {}) then now.value == Entry(was.value.addr, was.value.flags + r.add)
                  else now.value.flags == r.link && now.value.addr in out.used)
  {
    hide MapIn, WF, Sound, Fresh, Tables, Vpn, P4Index, MapPre, View, At, Links;
    SuccessIsLegal(m, root, mask, r, page, frame, answers);
    PageNumber(page);
    MapToSetsParentFlags(m, root, mask, r, answers, t, Vpn(page));
  }

  // ---------------------------------------------------------------- map_to_with_table_flags

  /** What `map_to_with_table_flags` answers.  On a free entry it succeeds, and a mapped entry or a
      larger mapping in the way it reports; where tables are missing it needs a frame for each, and
      panics if the flags for parents lack PRESENT.  With HUGE_PAGE among them it never succeeds. */
  lemma MapToAnswer(m: Memory, root: Frame, mask: int, size: Level, page: VirtAddr, frame: Frame, flags: Flags,
                    parentFlags: Flags, answers: Answers)
    requires Callable(m, root, mask, size, page, frame, answers)
    ensures var entry, leaf := EntryOn(m, root, mask, size, Vpn(page)), LeafIn(m, root, mask, Vpn(page));
            MapIn(m, 4, root, RequestFor(size, page, frame, flags, parentFlags), answers).res ==
            if HUGE_PAGE in parentFlags then
              (if TableAt(m, root)[P4Index(page)] == Entry(0, {}) && Answer(answers).None? then FrameAllocationFailed
               else MapResult.ParentEntryHugePage)
            else if entry.Some? then (if entry.value == Entry(0, {}) then MapResult.Mapped else PageAlreadyMapped)
            else if leaf.Some? then MapResult.ParentEntryHugePage
            else if PRESENT in parentFlags then
              (if Enough(answers, MissingTables(m, root, size, Vpn(page))) then MapResult.Mapped else FrameAllocationFailed)
            else (if Answer(answers).Some? then Panicked else FrameAllocationFailed)
  {
    RequestAnswer(m, root, mask, RequestFor(size, page, frame, flags, parentFlags), page, frame, answers);
  }

  lemma RequestAnswer(m: Memory, root: Frame, mask: int, r: Request, page: VirtAddr, frame: Frame, answers: Answers)
    requires Callable(m, root, mask, r.size, page, frame, answers) && IsRequest(r, r.size, page, frame)
    ensures var entry, leaf := EntryOn(m, root, mask, r.size, Vpn(page)), LeafIn(m, root, mask, Vpn(page));
            MapIn(m, 4, root, r, answers).res ==
            if HUGE_PAGE in r.add then
              (if TableAt(m, root)[P4Index(page)] == Entry(0, {}) && Answer(answers).None? then FrameAllocationFailed
               else MapResult.ParentEntryHugePage)
            else if entry.Some? then (if entry.value == Entry(0, {}) then MapResult.Mapped else PageAlreadyMapped)
            else if leaf.Some? then MapResult.ParentEntryHugePage
            else if PRESENT in r.link then
              (if Enough(answers, MissingTables(m, root, r.size, Vpn(page))) then MapResult.Mapped else FrameAllocationFailed)
            else (if Answer(answers).Some? then Panicked else FrameAllocationFailed)
  {
    hide MapIn, WF, Sound, Fresh, Tables, Vpn, P4Index, Enough, MissingTables, WalkTo, EntryOn, LeafIn, LinkAt, TableAt;
    PageNumber(page);
    IndicesAreDigits(page);
    WalkByLeaf(m, root, mask, r.size, Vpn(page));
    MapToResultIs(m, root, mask, r, answers);
  }

  /** After a successful call every address of the page translates to the frame plus its offset, with
      the flags of the call, and every other address as before.  The one page that is not: a 4KiB
      page mapped to frame 0 without flags, whose entry the code takes for an unused one. */
  lemma MapToMapsFrame(m: Memory, root: Frame, mask: int, size: Level, page: VirtAddr, frame: Frame, flags: Flags,
                       parentFlags: Flags, answers: Answers, a: VirtAddr)
    requires Callable(m, root, mask, size, page, frame, answers) && P4Index(a) != mask
    requires MapIn(m, 4, root, RequestFor(size, page, frame, flags, parentFlags), answers).res == MapResult.Mapped
    ensures var m' := MapIn(m, 4, root, RequestFor(size, page, frame, flags, parentFlags), answers).m;
            TranslateIn(m', 4, root, a) ==
            if !(page <= a < page + LeafBytes(size)) then TranslateIn(m, 4, root, a)
            else if size == 1 && frame == 0 && flags == {} then NotTranslated
            else Translated(size, frame, a - page, if size > 1 then flags + {HUGE_PAGE} else flags)
  {
    hide Callable, MapIn, TranslateIn, LeafBytes, Vpn;
    RequestTranslates(m, root, mask, RequestFor(size, page, frame, flags, parentFlags), page, frame, answers, a);
  }

  /** After a successful call the entry of the page holds the frame and the flags of the call.  Above
      it, a link that was there leads where it led and has the parent flags besides its own, and a
      new one leads to a frame of the allocator and has exactly the parent flags. */
  lemma MapToWritesPath(m: Memory, root: Frame, mask: int, size: Level, page: VirtAddr, frame: Frame, flags: Flags,
                        parentFlags: Flags, answers: Answers, t: Level)
    requires Callable(m, root, mask, size, page, frame, answers) && size <= t
    requires MapIn(m, 4, root, RequestFor(size, page, frame, flags, parentFlags), answers).res == MapResult.Mapped
    ensures var out := MapIn(m, 4, root, RequestFor(size, page, frame, flags, parentFlags), answers);
            var was, now := EntryOn(m, root, mask, t, Vpn(page)), EntryOn(out.m, root, mask, t, Vpn(page));
            && now.Some?
            && (t == size ==> now.value == Entry(frame, if size > 1 then flags + {HUGE_PAGE} else flags))
            && (t > size ==>
                  if was.Some? && was.value != Entry(0, {})
                  then now.value == Entry(was.value.addr, was.value.flags + parentFlags)
                  else now.value.flags == parentFlags && now.value.addr in out.used)
  {
    hide Callable, MapIn, EntryOn, Vpn;
    RequestWritesPath(m, root, mask, RequestFor(size, page, frame, flags, parentFlags), page, frame, answers, t);
  }

  /** A call that fails with an error maps and unmaps nothing; if it reports a larger mapping in the
      way, that mapping has gained the parent flags. */
  lemma MapToFailureMeans(m: Memory, root: Frame, mask: int, size: Level, page: VirtAddr, frame: Frame, flags: Flags,
                          parentFlags: Flags, answers: Answers, w: nat)
    requires Callable(m, root, mask, size, page, frame, answers) && HUGE_PAGE !in parentFlags && w < PAGES
    requires MapIn(m, 4, root, RequestFor(size, page, frame, flags, parentFlags), answers).res !in {MapResult.Mapped, Panicked}
    ensures var out := MapIn(m, 4, root, RequestFor(size, page, frame, flags, parentFlags), answers);
            var before, after := LeafIn(m, root, mask, w), LeafIn(out.m, root, mask, w);
            if before.Some? && before.value.level > size && Block(before.value.level, w) == Block(before.value.level, Vpn(page))
            then
              after == Some(Mapping(before.value.level,
                                    Entry(before.value.entry.addr, before.value.entry.flags + parentFlags)))
            else after == before
  {
    RequestFailureMeans(m, root, mask, RequestFor(size, page, frame, flags, parentFlags), page, frame, answers, w);
  }

  lemma RequestFailureMeans(m: Memory, root: Frame, mask: int, r: Request, page: VirtAddr, frame: Frame, answers: Answers,
                            w: nat)
    requires Callable(m, root, mask, r.size, page, frame, answers) && IsRequest(r, r.size, page, frame)
    requires HUGE_PAGE !in r.add && w < PAGES
    requires MapIn(m, 4, root, r, answers).res !in {MapResult.Mapped, Panicked}
    ensures var before, after := LeafIn(m, root, mask, w), LeafIn(MapIn(m, 4, root, r, answers).m, root, mask, w);
            if before.Some? && before.value.level > r.size && Block(before.value.level, w) == Block(before.value.level, r.v)
            then after == Some(Mapping(before.value.level, Entry(before.value.entry.addr, before.value.entry.flags + r.add)))
            else after == before
  {
    hide MapIn, WF, Sound, Fresh, Tables, Vpn, P4Index, Enough, MissingTables, EntryOn, LeafIn, TableAt, Block;
    PageNumber(page);
    IndicesAreDigits(page);
    MapToMapsOnePage(m, root, mask, r, answers, w);
    RequestAnswer(m, root, mask, r, page, frame, answers);
    SameLeafInBlock(m, root, mask, w, r.v);
    WalkByLeaf(m, root, mask, r.size, r.v);
    var before := LeafIn(m, root, mask, w);
    if before.Some? { WidenedIs(before.value.entry, r.add); }
  }

  lemma WidenedIs(e: Entry, add: Flags)
    ensures Widened(e, add) == Entry(e.addr, e.flags + add)
  {
  }

  // ---------------------------------------------------------------- the default map_to and identity_map

  /** The default `map_to` gives the links on the path PRESENT, WRITABLE and USER_ACCESSIBLE as far as
      the flags of the call have them: a new link exactly these, an old one these besides its own. */
  lemma DefaultMapToWritesPath(m: Memory, root: Frame, mask: int, size: Level, page: VirtAddr, frame: Frame, flags: Flags,
                               answers: Answers, t: Level)
    requires Callable(m, root, mask, size, page, frame, answers) && size <= t
    requires MapIn(m, 4, root, DefaultRequest(size, page, frame, flags), answers).res == MapResult.Mapped
    ensures var out := MapIn(m, 4, root, DefaultRequest(size, page, frame, flags), answers);
            var was, now := EntryOn(m, root, mask, t, Vpn(page)), EntryOn(out.m, root, mask, t, Vpn(page));
            && now.Some?
            && (t == size ==> now.value == Entry(frame, if size > 1 then flags + {HUGE_PAGE} else flags))
            && (t > size ==>
                  if was.Some? && was.value != Entry(0, {}) then
                    now.value == Entry(was.value.addr, was.value.flags + flags * {PRESENT, WRITABLE, USER_ACCESSIBLE})
                  else
                    now.value.flags == flags * {PRESENT, WRITABLE, USER_ACCESSIBLE} && now.value.addr in out.used)
  {
    hide Callable, MapIn, EntryOn, Vpn;
    RequestWritesPath(m, root, mask, DefaultRequest(size, page, frame, flags), page, frame, answers, t);
  }

  /** With PRESENT among its flags the default `map_to` never panics: it needs a frame for each missing
      table, a free entry and no larger mapping in the way. */
  lemma DefaultMapToAnswer(m: Memory, root: Frame, mask: int, size: Level, page: VirtAddr, frame: Frame, flags: Flags,
                           answers: Answers)
    requires Callable(m, root, mask, size, page, frame, answers)
    ensures var entry, leaf := EntryOn(m, root, mask, size, Vpn(page)), LeafIn(m, root, mask, Vpn(page));
            MapIn(m, 4, root, DefaultRequest(size, page, frame, flags), answers).res ==
            if entry.Some? then (if entry.value == Entry(0, {}) then MapResult.Mapped else PageAlreadyMapped)
            else if leaf.Some? then MapResult.ParentEntryHugePage
            else if PRESENT in flags then
              (if Enough(answers, MissingTables(m, root, size, Vpn(page))) then MapResult.Mapped else FrameAllocationFailed)
            else (if Answer(answers).Some? then Panicked else FrameAllocationFailed)
  {
    hide Callable, MapIn, EntryOn, Vpn, LeafIn, Enough, MissingTables, TableAt, P4Index;
    RequestAnswer(m, root, mask, DefaultRequest(size, page, frame, flags), page, frame, answers);
  }

  /** After a successful `identity_map` every address of the frame translates to itself, for the
      processor too if the flags contain PRESENT, and every other address translates as before. */
  lemma IdentityMapTranslates(m: Memory, root: Frame, mask: int, size: Level, frame: Frame, flags: Flags,
                              answers: Answers, a: VirtAddr)
    requires frame < 0x8000_0000_0000 && Callable(m, root, mask, size, frame, frame, answers) && P4Index(a) != mask
    requires MapIn(m, 4, root, DefaultRequest(size, frame, frame, flags), answers).res == MapResult.Mapped
    ensures var m' := MapIn(m, 4, root, DefaultRequest(size, frame, frame, flags), answers).m;
            if frame <= a < frame + LeafBytes(size) then
              && TranslateAddr(TranslateIn(m', 4, root, a))
                 == (if size == 1 && frame == 0 && flags == {} then None else Some(a))
              && HardwareWalk(m', 4, root, a) == (if PRESENT in flags then Some(a) else None)
            else TranslateIn(m', 4, root, a) == TranslateIn(m, 4, root, a)
  {
    hide MapIn, TranslateIn, HardwareWalk, WF, Sound, Tables, Vpn, P4Index, Fresh, LeafBytes;
    var r := DefaultRequest(size, frame, frame, flags);
    RequestTranslates(m, root, mask, r, frame, frame, answers, a);
    if frame <= a < frame + LeafBytes(size) { RequestWalks(m, root, mask, r, frame, frame, answers, a); }
  }

  /** The processor's walk of an address of the page after a successful call. */
  lemma RequestWalks(m: Memory, root: Frame, mask: int, r: Request, page: VirtAddr, frame: Frame, answers: Answers,
                     a: VirtAddr)
    requires Callable(m, root, mask, r.size, page, frame, answers) && IsRequest(r, r.size, page, frame)
    requires MapIn(m, 4, root, r, answers).res == MapResult.Mapped && P4Index(a) != mask
    requires page <= a < page + LeafBytes(r.size)
    ensures HardwareWalk(MapIn(m, 4, root, r, answers).m, 4, root, a) ==
            if PRESENT in r.leaf.flags then Some(frame + (a - page)) else None
  {
    hide MapIn, HardwareWalk, TranslateIn, LeafIn, MapPre, Vpn, P4Index, Block, FrameContaining, LeafBytes, LeafAligned,
      WF, Sound, Fresh, Tables;
    SuccessIsLegal(m, root, mask, r, page, frame, answers);
    LeafOfRequest(m, root, mask, r, answers);
    PageNumber(a);
    AddressesOfPage(r.size, page, a);
    MapToMapsOnePage(m, root, mask, r, answers, Vpn(a));
    HardwareWalkIsLeaf(MapIn(m, 4, root, r, answers).m, root, mask, a);
    AlignedContains(r.size, frame);
  }
}
