/** Inputs on which the code does something other than its documentation says.

The memories are reached by `map_to` from a root table in frame 0 that is empty, but for its
recursive entry where the mapper is the recursive one.
 */
module Divergences {
  import opened Wrappers
  import opened Bits
  import opened Addr
  import opened Levels
  import opened PageTable
  import opened PageTree
  import opened MemoryTree
  import opened MapTo
  import opened PathOps
  import opened PathMeaning
  import opened MappingMeaning
  import opened Mapped
  import opened DefaultMapTo
  import opened Runs
  import opened Recursive
  import opened RecursivePath
  import opened RecursiveEntry
  import PageSteps
  import PageRanges

  const ROOT: Frame := 0
  const LEAF_FRAME: Frame := 0x5000
  const TABLE: Frame := 0x20_0000

  /** The default `map_to` of the first page of a size. */
  function FirstPage(size: Level, frame: Frame, flags: Flags): Request {
    DefaultRequest(size, 0, frame, flags)
  }

  lemma EmptyRoot()
    ensures WF(map[], 4, ROOT, -1) && Sound(map[], 4, ROOT, -1) && Tables(map[], ROOT, -1) == multiset{ROOT}
  {
    hide WF, View, Frames;
    var s := State(map[], [], []);
    InitialInv(s, ROOT, -1);
    assert AllFrames(4, View(map[], 4, ROOT, -1)) + multiset(s.freed) == AllFrames(4, View(map[], 4, ROOT, -1));
  }

  lemma FirstIsLegal(size: Level, frame: Frame, flags: Flags)
    requires size <= 3 && PRESENT in flags
    ensures Legal(FirstPage(size, frame, flags)) && FirstPage(size, frame, flags).v == 0
  {
    DefaultMapToIsLegal(size, 0, frame, flags);
  }

  /** The panic: with an allocator that has a frame, a `map_to` without PRESENT into an empty root
      table panics. */
  lemma MapToWithoutPresentPanics()
    ensures MapIn(map[], 4, ROOT, FirstPage(1, LEAF_FRAME, {WRITABLE}), [Some(0x1000)]).res == Panicked
  {
    hide WF, Sound, MapIn;
    EmptyRoot();
    MapToResultIs(map[], ROOT, -1, FirstPage(1, LEAF_FRAME, {WRITABLE}), [Some(0x1000)]);
  }

  // ---------------------------------------------------------------- a table that looks like a huge frame

  function Answers4KiB(): Answers {
    [Some(0x1000), Some(0x2000), Some(TABLE)]
  }

  /** One 4KiB page is mapped, and the frame of its level-1 table happens to be 2MiB aligned. */
  function OnePage(): Memory {
    MapIn(map[], 4, ROOT, FirstPage(1, LEAF_FRAME, {PRESENT, WRITABLE}), Answers4KiB()).m
  }

  lemma OnePageIsMapped()
    ensures WF(OnePage(), 4, ROOT, -1) && Sound(OnePage(), 4, ROOT, -1)
    ensures LeafIn(OnePage(), ROOT, -1, 0) == Some(Mapping(1, Entry(LEAF_FRAME, {PRESENT, WRITABLE})))
    ensures LinkAt(OnePage(), ROOT, -1, 2, 0) == Some(Entry(TABLE, {PRESENT, WRITABLE}))
  {
    hide WF, Sound, MapIn, Legal, LeafIn, Tables, LinkAt, Fresh, Enough;
    var r, answers := FirstPage(1, LEAF_FRAME, {PRESENT, WRITABLE}), Answers4KiB();
    EmptyRoot();
    FirstIsLegal(1, LEAF_FRAME, {PRESENT, WRITABLE});
    FirstAnswers();
    MapToResultIs(map[], ROOT, -1, r, answers);
    NothingThere();
    MapToKeepsTables(map[], ROOT, -1, r, answers);
    MapToMapsOnePage(map[], ROOT, -1, r, answers, 0);
    OnePageTables();
  }

  lemma FirstAnswers()
    ensures Fresh(Answers4KiB(), 3, multiset{ROOT}) && Enough(Answers4KiB(), 3)
  {
    hide Fresh, Enough;
    var a := Answers4KiB();
    OneAnswer(a[1..][1..], TABLE, 1, multiset{ROOT} + multiset{0x1000} + multiset{0x2000});
    OneAnswer(a[1..], 0x2000, 2, multiset{ROOT} + multiset{0x1000});
    OneAnswer(a, 0x1000, 3, multiset{ROOT});
  }

  lemma OneAnswer(a: Answers, f: Frame, n: nat, taken: multiset<Frame>)
    requires a != [] && a[0] == Some(f) && n > 0 && f !in taken
    requires n > 1 ==> Fresh(a[1..], n - 1, taken + multiset{f}) && Enough(a[1..], n - 1)
    ensures Fresh(a, n, taken) && Enough(a, n)
  {
  }

  lemma NothingThere()
    ensures WalkTo(map[], 4, ROOT, 1, 0) == Err(NotMapped) && MissingTables(map[], ROOT, 1, 0) == 3
  {
    assert forall target: Level :: target < 4 ==> WalkTo(map[], 4, ROOT, target, 0) == Err(NotMapped);
    assert MissingTables(map[], ROOT, 4, 0) == 0;
    assert MissingTables(map[], ROOT, 3, 0) == 1;
    assert MissingTables(map[], ROOT, 2, 0) == 2;
  }

  /** The tables of `OnePage`, one call of `create_next_table` after the other. */
  lemma OnePageTables()
    ensures LinkAt(OnePage(), ROOT, -1, 2, 0) == Some(Entry(TABLE, {PRESENT, WRITABLE}))
  {
    hide MapIn, View, EntryOn, LinkAt;
    var r, link: Flags := FirstPage(1, LEAF_FRAME, {PRESENT, WRITABLE}), {PRESENT, WRITABLE};
    assert r.link == link && r.v == 0;
    var m4: Memory := map[];
    var m3 := Write(m4, ROOT, 0, Entry(0x1000, link))[0x1000 := EmptyTable()];
    var m2 := Write(m3, 0x1000, 0, Entry(0x2000, link))[0x2000 := EmptyTable()];
    var m1 := Write(m2, 0x2000, 0, Entry(TABLE, link))[TABLE := EmptyTable()];
    CreatedFirst(m4, 4, ROOT, 0x1000, r, Answers4KiB());
    CreatedFirst(m3, 3, 0x1000, 0x2000, r, Answers4KiB()[1..]);
    CreatedFirst(m2, 2, 0x2000, TABLE, r, Answers4KiB()[1..][1..]);
    UnfoldMapIn(m1, 1, TABLE, r, Answers4KiB()[1..][1..][1..]);
    assert OnePage() == Write(m1, TABLE, 0, r.leaf);
    WalkIsPath(OnePage(), ROOT, -1, 2, 0);
    LinkIsEntry(OnePage(), ROOT, -1, 2, 0);
  }

  lemma CreatedFirst(m: Memory, level: Level, f: Frame, g: Frame, r: Request, answers: Answers)
    requires r.size < level && r.v == 0 && TableAt(m, f)[0].IsUnused()
    requires PRESENT in r.link && HUGE_PAGE !in r.link && answers != [] && answers[0] == Some(g)
    ensures MapIn(m, level, f, r, answers).m
         == MapIn(Write(m, f, 0, Entry(g, r.link))[g := EmptyTable()], level - 1, g, r, answers[1..]).m
  {
    UnfoldMapIn(m, level, f, r, answers);
  }

  /** `translate_page`: the 2MiB page is not mapped, but the frame of a table is reported for it. */
  lemma TranslatePageAnswersTable()
    ensures WF(OnePage(), 4, ROOT, -1)
    ensures LeafIn(OnePage(), ROOT, -1, 0) == Some(Mapping(1, Entry(LEAF_FRAME, {PRESENT, WRITABLE})))
    ensures TranslatePageIn(OnePage(), 4, ROOT, 2, 0) == Ok(TABLE)
  {
    hide WF, Sound, OnePage, LeafIn, LinkAt, EntryOn, TranslatePageIn, LeafAligned;
    OnePageIsMapped();
    LinkIsEntry(OnePage(), ROOT, -1, 2, 0);
    TranslatePageAnswer(OnePage(), ROOT, -1, 2, 0);
    TableIsAligned();
  }

  /** `update_flags`: of a 2MiB page that is not mapped succeeds, and maps it to the frame of the
      table, in the place of the 4KiB page. */
  lemma UpdateFlagsMapsTable()
    ensures var flags := {PRESENT, WRITABLE, HUGE_PAGE};
            var out := SetFlagsIn(OnePage(), 4, ROOT, 2, 0, flags);
            && WF(OnePage(), 4, ROOT, -1)
            && LeafIn(OnePage(), ROOT, -1, 0) == Some(Mapping(1, Entry(LEAF_FRAME, {PRESENT, WRITABLE})))
            && out.res == Ok(()) && LeafIn(out.m, ROOT, -1, 0) == Some(Mapping(2, Entry(TABLE, flags)))
  {
    hide WF, Sound, OnePage, LeafIn, LinkAt, SetFlagsIn;
    OnePageIsMapped();
    LinkBecomesLeaf(OnePage(), {PRESENT, WRITABLE, HUGE_PAGE});
  }

  lemma LinkBecomesLeaf(m: Memory, flags: Flags)
    requires WF(m, 4, ROOT, -1) && LinkAt(m, ROOT, -1, 2, 0).Some? && HUGE_PAGE in flags
    ensures var out := SetFlagsIn(m, 4, ROOT, 2, 0, flags);
            && out.res == Ok(())
            && LeafIn(out.m, ROOT, -1, 0) == Some(Mapping(2, Entry(LinkAt(m, ROOT, -1, 2, 0).value.addr, flags)))
  {
    hide WF, LeafIn, EntryOn, LinkAt, SetFlagsIn, TableAt, NodeAt;
    LinkIsEntry(m, ROOT, -1, 2, 0);
    LinkIsUsed(m, ROOT, -1, 2, 0);
    EntryOfNode(SetFlagsIn(m, 4, ROOT, 2, 0, flags).m, 2, Entry(LinkAt(m, ROOT, -1, 2, 0).value.addr, flags));
    SetFlagsAnswer(m, ROOT, -1, 2, 0, flags);
    SetFlagsRewritesOneSpan(m, ROOT, -1, 2, 0, flags, 0);
  }

  lemma TableIsAligned()
    ensures LeafAligned(2, TABLE)
  {
  }

  // ---------------------------------------------------------------- a huge page in the way

  /** A 2MiB page is mapped read-only. */
  function OneHugePage(): Memory {
    MapIn(map[], 4, ROOT, FirstPage(2, TABLE, {PRESENT}), [Some(0x1000), Some(0x2000)]).m
  }

  lemma OneHugePageIsMapped()
    ensures WF(OneHugePage(), 4, ROOT, -1) && Sound(OneHugePage(), 4, ROOT, -1)
    ensures LeafIn(OneHugePage(), ROOT, -1, 0) == Some(Mapping(2, Entry(TABLE, {PRESENT, HUGE_PAGE})))
  {
    hide WF, Sound, MapIn, Legal, LeafIn, Tables, Fresh, Enough;
    var answers := [Some(0x1000), Some(0x2000)];
    var r := FirstPage(2, TABLE, {PRESENT});
    EmptyRoot();
    FirstIsLegal(2, TABLE, {PRESENT});
    OneAnswer(answers[1..], 0x2000, 1, multiset{ROOT} + multiset{0x1000});
    OneAnswer(answers, 0x1000, 2, multiset{ROOT});
    assert WalkTo(map[], 4, ROOT, 2, 0) == Err(NotMapped) && MissingTables(map[], ROOT, 2, 0) == 2 by { NothingThere(); }
    MapToResultIs(map[], ROOT, -1, r, answers);
    MapToKeepsTables(map[], ROOT, -1, r, answers);
    MapToMapsOnePage(map[], ROOT, -1, r, answers, 0);
    assert {PRESENT} + {HUGE_PAGE} == {PRESENT, HUGE_PAGE};
  }

  /** A `map_to` of a 4KiB page inside it fails, and makes the huge page writable. */
  lemma FailingMapToWidensHugePage()
    ensures var out := MapIn(OneHugePage(), 4, ROOT, FirstPage(1, LEAF_FRAME, {PRESENT, WRITABLE}), []);
            && WF(OneHugePage(), 4, ROOT, -1)
            && LeafIn(OneHugePage(), ROOT, -1, 0) == Some(Mapping(2, Entry(TABLE, {PRESENT, HUGE_PAGE})))
            && out.res == MapResult.ParentEntryHugePage
            && LeafIn(out.m, ROOT, -1, 0) == Some(Mapping(2, Entry(TABLE, {PRESENT, HUGE_PAGE, WRITABLE})))
  {
    hide WF, Sound, OneHugePage, MapIn, Legal, LeafIn, Tables, WalkTo, MissingTables;
    var m, r := OneHugePage(), FirstPage(1, LEAF_FRAME, {PRESENT, WRITABLE});
    OneHugePageIsMapped();
    FirstIsLegal(1, LEAF_FRAME, {PRESENT, WRITABLE});
    BlockedBelowLeaf(m);
    MapToResultIs(m, ROOT, -1, r, []);
    MapToMapsOnePage(m, ROOT, -1, r, [], 0);
    assert r.add == {PRESENT, WRITABLE};
    assert {PRESENT, HUGE_PAGE} + {PRESENT, WRITABLE} == {PRESENT, HUGE_PAGE, WRITABLE};
  }

  lemma BlockedBelowLeaf(m: Memory)
    requires LeafIn(m, ROOT, -1, 0).Some? && LeafIn(m, ROOT, -1, 0).value.level == 2
    ensures WalkTo(m, 4, ROOT, 1, 0) == Err(MappedToHugePage)
  {
    hide WF, View, WalkTo, Leaf;
    if WalkTo(m, 4, ROOT, 1, 0).Ok? {
      LeafAtEntry(m, ROOT, -1, 1, 0, 0);
    } else {
      WalkFailure(m, 4, ROOT, -1, 1, 0);
    }
  }

  // ---------------------------------------------------------------- the recursive mapper

  const SELF: nat := 511
  const WORD: Entry := Entry(0x7000, {PRESENT})

  /** A root table that is empty but for its recursive entry, and a frame of data. */
  function SelfMappedRoot(): Memory {
    map[ROOT := EmptyTable()[SELF := Entry(ROOT, {PRESENT, WRITABLE})], TABLE := EmptyTable()[0 := WORD]]
  }

  function HugeRequest(): Request {
    RecursiveRequest(2, 0, TABLE, {PRESENT}, {PRESENT})
  }

  /** The data is mapped as a 2MiB page. */
  function MappedData(): Memory {
    MapIn(SelfMappedRoot(), 4, ROOT, HugeRequest(), [Some(0x1000), Some(0x2000)]).m
  }

  lemma MappedDataIs()
    ensures RecursiveWF(MappedData(), ROOT, SELF)
    ensures LeafIn(MappedData(), ROOT, SELF, 0) == Some(Mapping(2, Entry(TABLE, {PRESENT, HUGE_PAGE})))
  {
    hide WF, Sound, MapIn, Legal, LeafIn, Tables, Fresh, Enough, View;
    var m, answers := SelfMappedRoot(), [Some(0x1000), Some(0x2000)];
    SelfMappedRootIs();
    OneAnswer(answers[1..], 0x2000, 1, multiset{ROOT} + multiset{0x1000});
    OneAnswer(answers, 0x1000, 2, multiset{ROOT});
    HugeRequestIsLegal();
    MapToResultIs(m, ROOT, SELF, HugeRequest(), answers);
    MapToKeepsTables(m, ROOT, SELF, HugeRequest(), answers);
    MapToMapsOnePage(m, ROOT, SELF, HugeRequest(), answers, 0);
  }

  lemma HugeRequestIsLegal()
    ensures Legal(HugeRequest()) && HugeRequest().v == 0 && HugeRequest().leaf == Entry(TABLE, {PRESENT, HUGE_PAGE})
  {
    assert {PRESENT} + {HUGE_PAGE} == {PRESENT, HUGE_PAGE};
  }

  lemma SelfMappedRootIs()
    ensures RecursiveWF(SelfMappedRoot(), ROOT, SELF) && Tables(SelfMappedRoot(), ROOT, SELF) == multiset{ROOT}
    ensures WalkTo(SelfMappedRoot(), 4, ROOT, 2, 0) == Err(NotMapped) && MissingTables(SelfMappedRoot(), ROOT, 2, 0) == 2
  {
    hide WF, View, Frames;
    var m := SelfMappedRoot();
    var s := State(m, [], []);
    InitialInv(s, ROOT, SELF);
    assert AllFrames(4, View(m, 4, ROOT, SELF)) + multiset(s.freed) == AllFrames(4, View(m, 4, ROOT, SELF));
    assert forall target: Level :: target < 4 ==> WalkTo(m, 4, ROOT, target, 0) == Err(NotMapped);
    assert MissingTables(m, ROOT, 4, 0) == 0;
    assert MissingTables(m, ROOT, 3, 0) == 1;
  }

  /** The flag update of a 4KiB page inside it, which the direct mapper refuses, takes the data for a
      page table and rewrites its first word. */
  lemma RecursiveFlagUpdateWritesData()
    ensures var m, flags := MappedData(), {PRESENT, WRITABLE};
            var out := RecursiveSetFlags(m, ROOT, 1, 0, flags);
            && RecursiveWF(m, ROOT, SELF) && LeafIn(m, ROOT, SELF, 0) == Some(Mapping(2, Entry(TABLE, {PRESENT, HUGE_PAGE})))
            && SetFlagsIn(m, 4, ROOT, 1, 0, flags).res == Err(FlagsParentEntryHugePage)
            && out.res == Ok(()) && TableAt(m, TABLE)[0] == WORD && TableAt(out.m, TABLE)[0] == Entry(WORD.addr, flags)
  {
    hide WF, Sound, MapIn, LeafIn, MappedData;
    MappedDataIs();
    MappedDataTables();
  }

  lemma MappedDataTables()
    ensures EntryTable(MappedData(), 4, ROOT, 1, 0) == Some(TABLE) && TableAt(MappedData(), TABLE)[0] == WORD
    ensures WalkTo(MappedData(), 4, ROOT, 1, 0) == Err(MappedToHugePage)
  {
    hide MapIn;
    var r, answers := HugeRequest(), [Some(0x1000), Some(0x2000)];
    HugeRequestIsLegal();
    assert r.link == {PRESENT, WRITABLE};
    var m4 := SelfMappedRoot();
    var m3 := Write(m4, ROOT, 0, Entry(0x1000, r.link))[0x1000 := EmptyTable()];
    var m2 := Write(m3, 0x1000, 0, Entry(0x2000, r.link))[0x2000 := EmptyTable()];
    CreatedFirst(m4, 4, ROOT, 0x1000, r, answers);
    CreatedFirst(m3, 3, 0x1000, 0x2000, r, answers[1..]);
    UnfoldMapIn(m2, 2, 0x2000, r, answers[1..][1..]);
    assert MappedData() == Write(m2, 0x2000, 0, r.leaf);
  }

  // ---------------------------------------------------------------- addresses

  /** `VirtAddr::align_up` of address 1 to 2^48 is address 0. */
  lemma AlignUpWrapsToZero()
    ensures IsPowerOfTwo(ADDRESS_SPACE_SIZE) && VirtAlignUp(1, ADDRESS_SPACE_SIZE) == Some(0)
  {
    hide AlignUp, NewTruncate;
    Pow2Constants();
    AlignUpIsCeiling(1, ADDRESS_SPACE_SIZE);
    NewTruncateKeepsRank(ADDRESS_SPACE_SIZE);
  }

  /** The two pages on either side of the hole: iterating over them yields nothing and panics, and
      `len` is more than two. */
  lemma RangeAcrossHole(size: PageSteps.PageSize)
    ensures var last, first := PageSteps.PageOf(size, PageSteps.Half(size) - 1), PageSteps.PageOf(size, PageSteps.Half(size));
            && PageSteps.IsPage(size, last) && PageSteps.IsPage(size, first)
            && |PageRanges.Inclusive(size, last, first)| == 2
            && PageRanges.IterateInclusive(size, last, first) == ([], true)
            && PageRanges.LenInclusive(size, last, first) != 2
  {
    hide PageSteps.Num, PageSteps.PageOf, PageRanges.IterateInclusive, PageRanges.LenInclusive;
    var half := PageSteps.Half(size);
    PageSteps.NumberedPage(size, half - 1);
    PageSteps.NumberedPage(size, half);
    var last, first := PageSteps.PageOf(size, half - 1), PageSteps.PageOf(size, half);
    PageSteps.PageNumber(size, last);
    PageSteps.PageNumber(size, first);
    PageSteps.PageOrder(size, last, first);
    PageRanges.InclusiveYieldsEveryPage(size, last, first);
    PageRanges.LenInclusiveIsCountIff(size, last, first);
  }
}
