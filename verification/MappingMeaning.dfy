/** The mapping operations on memory: what they mean for the hierarchy and for translation. */
module MappingMeaning {
  import opened Wrappers
  import opened Addr
  import opened Levels
  import opened Page
  import opened PageTable
  import opened PageTree
  import opened MemoryTree
  import opened MapTo
  import opened MapToMeaning
  import opened PathOps
  import opened PathMeaning
  import opened Translate

  /** The frames in use: the root table and every table below it. */
  ghost function Tables(m: Memory, root: Frame, mask: int): multiset<Frame> {
    multiset{root} + AllFrames(4, View(m, 4, root, mask))
  }

  /** The obligations of a `map_to` caller: flags for parents without HUGE_PAGE, with PRESENT unless
      no table is missing, a page outside the recursive entry, and an allocator that answers with
      unused frames. */
  ghost predicate MapPre(m: Memory, root: Frame, mask: int, r: Request, answers: Answers) {
    && WF(m, 4, root, mask) && Sound(m, 4, root, mask)
    && Linkable(r) && (PRESENT in r.link || MapIn(m, 4, root, r, answers).res != Panicked)
    && r.v < PAGES && Idx(4, r.v) != mask
    && Fresh(answers, 4 - r.size, Tables(m, root, mask))
  }

  /** The call is one whose new links can be followed, or makes none. */
  lemma AsLegal(m: Memory, root: Frame, mask: int, r: Request, answers: Answers)
    requires MapPre(m, root, mask, r, answers)
    ensures Legal(WithPresent(r)) && MapPre(m, root, mask, WithPresent(r), answers)
    ensures MapIn(m, 4, root, WithPresent(r), answers) == MapIn(m, 4, root, r, answers)
    ensures PRESENT in r.link || MapIn(m, 4, root, r, answers).used == []
  {
    hide MapIn, WF, Sound, Fresh, Tables;
    if PRESENT in r.link {
      assert r.link + {PRESENT} == r.link;
    } else {
      NoPanicNoLink(m, 4, root, r, answers);
    }
  }

  /** `map_to` keeps the hierarchy a sound tree, never panics, and turns exactly the frames it took
      from the allocator, at most one per level above the leaf, into tables; nothing outside the
      hierarchy and those frames is written, and no other entry of the root table.  A proper leaf
      keeps it proper. */
  lemma MapToKeepsTables(m: Memory, root: Frame, mask: int, r: Request, answers: Answers)
    requires MapPre(m, root, mask, r, answers)
    ensures var out := MapIn(m, 4, root, r, answers);
            && WF(out.m, 4, root, mask) && out.res != Panicked
            && StaysGood(m, out.m, root, mask, true, IsProperEntry(r.size, r.leaf))
            && Tables(out.m, root, mask) == Tables(m, root, mask) + multiset(out.used)
            && |out.used| <= 4 - r.size
            && Took(answers, out.answers, out.used)
            && (forall g :: g !in Tables(m, root, mask) && g !in out.used ==> TableAt(out.m, g) == TableAt(m, g))
            && OnlyEntry(m, out.m, root, Idx(4, r.v))
  {
    hide MapIn, MapTree, View, Frames, SoundTable, ProperTable, Fresh, Linkable, Idx, Given, IsProperLeaf;
    AsLegal(m, root, mask, r, answers);
    var q := WithPresent(r);
    var kids := View(m, 4, root, mask);
    var out := MapIn(m, 4, root, q, answers);
    MapInIsMapTree(m, 4, root, mask, q, answers, Tables(m, root, mask));
    MapTreeKeepsSound(4, kids, q, answers);
    if Proper(m, 4, root, mask) && IsProperEntry(r.size, r.leaf) {
      LeafIsNoLink(r);
      MapTreeKeepsProper(4, kids, q, answers);
    }
    MapTreeFrames(4, kids, q, answers);
    MapTreeConsumes(4, kids, q, answers);
    UsedOnce(Tables(m, root, mask), q, answers, kids);
    assert multiset{root} + (AllFrames(4, kids) + multiset(out.used)) == Tables(m, root, mask) + multiset(out.used);
  }

  lemma LeafIsNoLink(r: Request)
    requires Linkable(r)
    ensures !Links(r.size, r.leaf)
  {
  }

  /** The first answers were taken, leaving `rest`; `used` are the frames among them, in order. */
  ghost predicate Took(answers: Answers, rest: Answers, used: seq<Frame>) {
    && |rest| <= |answers| && rest == answers[|answers| - |rest|..]
    && Given(answers[..|answers| - |rest|]) == used
  }

  /** The frames used are pairwise different and were not tables before. */
  lemma UsedOnce(taken: multiset<Frame>, r: Request, answers: Answers, kids: seq<Node>)
    requires r.size <= 4 && SoundTable(4, kids) && Legal(r) && Fresh(answers, 4 - r.size, taken) && Unique(taken)
    ensures Unique(taken + multiset(MapTree(4, kids, r, answers).used))
  {
    hide MapTree, SoundTable, Legal;
    FreshUsed(4, kids, r, answers, taken);
  }

  lemma {:induction false} FreshUsed(level: Level, kids: seq<Node>, r: Request, answers: Answers, taken: multiset<Frame>)
    requires r.size <= level && SoundTable(level, kids) && Legal(r) && Fresh(answers, level - r.size, taken) && Unique(taken)
    ensures Unique(taken + multiset(MapTree(level, kids, r, answers).used))
    decreases level
  {
    hide MapTree, Idx, Unique, Legal, SoundTable, Widened;
    TableSize(level, kids);
    var n := kids[Idx(level, r.v)];
    if StopsHere(level, kids, r, answers) {
      StopFrames(level, kids, r, answers);
      assert taken + multiset([]) == taken;
    } else if n.entry.IsUnused() {
      EmptyTableTree(level - 1);
      ThroughEntry(level, kids, r, answers);
      var g := answers[0].value;
      AddOne(taken, g);
      FreshUsed(level - 1, NoKids(), r, answers[1..], taken + multiset{g});
      var below := MapTree(level - 1, NoKids(), r, answers[1..]).used;
      assert taken + multiset([g] + below) == taken + multiset{g} + multiset(below);
    } else {
      EntriesBelow(level, kids, Idx(level, r.v), r.add);
      FreshForFewer(answers, level - r.size, level - 1 - r.size, taken, taken);
      FreshUsed(level - 1, n.kids, r, answers, taken);
      ThroughEntry(level, kids, r, answers);
    }
  }

  lemma AddOne(taken: multiset<Frame>, g: Frame)
    requires Unique(taken) && g !in taken
    ensures Unique(taken + multiset{g})
  {
  }

  /** Success maps exactly the pages of the request's span, all unmapped before, and changes no
      other mapping, flags included.  Failure changes no mapping, except that the huge leaf
      reported as the obstacle has gained the flags passed for parents. */
  lemma MapToMapsOnePage(m: Memory, root: Frame, mask: int, r: Request, answers: Answers, w: nat)
    requires MapPre(m, root, mask, r, answers) && w < PAGES
    ensures var out := MapIn(m, 4, root, r, answers);
            var before, after := LeafIn(m, root, mask, w), LeafIn(out.m, root, mask, w);
            if out.res == Mapped then
              if Block(r.size, w) == Block(r.size, r.v)
              then before == None && after == LeafOf(r.size, r.leaf)
              else after == before
            else if out.res == MapResult.ParentEntryHugePage && before.Some? && before.value.level > r.size
                    && Block(before.value.level, w) == Block(before.value.level, r.v)
            then after == Some(WidenedLeaf(before.value, r.add))
            else after == before
  {
    hide MapIn, MapTree, View, Frames, SoundTable, Fresh, Linkable, Idx, Leaf, LeafOf;
    AsLegal(m, root, mask, r, answers);
    var q, kids := WithPresent(r), View(m, 4, root, mask);
    MapInIsMapTree(m, 4, root, mask, q, answers, Tables(m, root, mask));
    if MapIn(m, 4, root, q, answers).res == Mapped {
      MapTreeMapsOnePage(4, kids, q, answers, w);
    } else {
      MapTreeFailureMapsNothing(4, kids, q, answers, w);
    }
  }

  /** What a successful `map_to` does to the entries of every level `t`, for every page `w`: the entry
      of the page becomes the leaf, those above it are links with the flags passed for parents, an
      existing link leads where it led, a new one to a frame of the allocator, and no other entry
      changes. */
  lemma MapToSetsParentFlags(m: Memory, root: Frame, mask: int, r: Request, answers: Answers, t: Level, w: nat)
    requires MapPre(m, root, mask, r, answers) && w < PAGES && MapIn(m, 4, root, r, answers).res == Mapped
    ensures var was := At(4, View(m, 4, root, mask), t, w);
            var now := At(4, View(MapIn(m, 4, root, r, answers).m, 4, root, mask), t, w);
            if Block(t, w) != Block(t, r.v) then SameEntryOff(was, now)
            else if t == r.size then now == Some(Node(r.leaf, []))
            else t > r.size ==>
              && now.Some? && Links(t, now.value.entry) && IsParentOf(r, was, now.value.entry)
              && (was.None? || was.value.entry.IsUnused() ==> now.value.entry.addr in MapIn(m, 4, root, r, answers).used)
  {
    hide MapIn, MapTree, View, Frames, SoundTable, Fresh, Linkable, Idx, Leaf, At, SameEntryOff;
    AsLegal(m, root, mask, r, answers);
    var q, kids := WithPresent(r), View(m, 4, root, mask);
    MapInIsMapTree(m, 4, root, mask, q, answers, Tables(m, root, mask));
    if Block(t, w) != Block(t, r.v) {
      MapTreeKeepsOtherEntries(4, kids, q, answers, t, w);
    } else if t >= r.size {
      if t > r.size { MapTreeParents(4, kids, q, answers, t); } else { MapTreeStoresLeaf(4, kids, q, answers); }
      AtSameBlock(4, kids, t, w, r.v);
      AtSameBlock(4, MapTree(4, kids, q, answers).kids, t, w, r.v);
    }
  }

  /** Pages of one entry reach the same entry. */
  lemma {:induction false} AtSameBlock(level: Level, kids: seq<Node>, t: Level, v: nat, w: nat)
    requires t <= level && Block(t, v) == Block(t, w)
    ensures At(level, kids, t, v) == At(level, kids, t, w)
    decreases level
  {
    CoarserBlock(t, level, v, w);
    if level > t && Idx(level, v) < |kids| { AtSameBlock(level - 1, kids[Idx(level, v)].kids, t, v, w); }
  }

  /** After a successful `map_to` of a present leaf, `unmap` of the same page returns the mapped frame
      and restores every mapping there was before. */
  lemma UnmapUndoesMapTo(m: Memory, root: Frame, mask: int, r: Request, answers: Answers, w: nat)
    requires MapPre(m, root, mask, r, answers) && w < PAGES && IsProperLeaf(r.size, r.leaf)
    requires MapIn(m, 4, root, r, answers).res == Mapped
    ensures var undone := UnmapIn(MapIn(m, 4, root, r, answers).m, 4, root, r.size, r.v);
            && undone.res == Ok(r.leaf.addr)
            && LeafIn(undone.m, root, mask, w) == LeafIn(m, root, mask, w)
            && WF(undone.m, 4, root, mask)
  {
    hide MapIn, UnmapIn, LeafIn, WF, Sound, Fresh, Linkable, Idx, Tables, LinkAt, StaysGood;
    var m' := MapIn(m, 4, root, r, answers).m;
    MapToKeepsTables(m, root, mask, r, answers);
    MapToMapsOnePage(m, root, mask, r, answers, r.v);
    MapToMapsOnePage(m, root, mask, r, answers, w);
    LinkHidesLeaf(m', root, mask, r.size, r.v);
    UnmapAnswer(m', root, mask, r.size, r.v);
    UnmapRemovesOnePage(m', root, mask, r.size, r.v, w);
  }

  // ---------------------------------------------------------------- as addresses

  /** A page of a size, as the first address of its span. */
  predicate IsPageStart(size: Level, page: VirtAddr) {
    size <= 3 && LeafAligned(size, page)
  }

  /** The addresses of a page are those whose page number is in its span, and the distance from
      the start is the offset `translate` reports. */
  lemma AddressesOfPage(size: Level, page: VirtAddr, a: VirtAddr)
    requires IsPageStart(size, page)
    ensures page <= a < page + LeafBytes(size) <==> Block(size, Vpn(a)) == Block(size, Vpn(page))
    ensures page <= a < page + LeafBytes(size) ==> a % LeafBytes(size) == a - page
  {
    LinParts(page);
    LinParts(a);
    hide Lin;
    if size == 1 {
      AddressParts(page, a, Lin(page), Lin(a), 0x1000);
    } else if size == 2 {
      AddressParts(page, a, Lin(page), Lin(a), 0x20_0000);
    } else {
      AddressParts(page, a, Lin(page), Lin(a), 0x4000_0000);
    }
    BlocksAreQuotients(Lin(page));
    BlocksAreQuotients(Lin(a));
  }

  lemma BlocksAreQuotients(n: nat)
    ensures Block(1, n / 0x1000) == n / 0x1000
    ensures Block(2, n / 0x1000) == n / 0x20_0000
    ensures Block(3, n / 0x1000) == n / 0x4000_0000
  {
  }

  lemma AddressParts(page: VirtAddr, a: VirtAddr, lp: nat, la: nat, size: nat)
    requires size in {0x1000, 0x20_0000, 0x4000_0000} && page % size == 0
    requires lp == if page < 0x8000_0000_0000 then page else page - 0xffff_0000_0000_0000
    requires la == if a < 0x8000_0000_0000 then a else a - 0xffff_0000_0000_0000
    ensures page <= a < page + size <==> la / size == lp / size
    ensures page <= a < page + size ==> a % size == a - page
  {
    if size == 0x1000 {
      Parts4KiB(page, a, lp, la);
    } else if size == 0x20_0000 {
      Parts2MiB(page, a, lp, la);
    } else {
      Parts1GiB(page, a, lp, la);
    }
  }

  lemma Parts4KiB(page: VirtAddr, a: VirtAddr, lp: nat, la: nat)
    requires page % 0x1000 == 0
    requires lp == if page < 0x8000_0000_0000 then page else page - 0xffff_0000_0000_0000
    requires la == if a < 0x8000_0000_0000 then a else a - 0xffff_0000_0000_0000
    ensures page <= a < page + 0x1000 <==> la / 0x1000 == lp / 0x1000
    ensures page <= a < page + 0x1000 ==> a % 0x1000 == a - page
  {
  }

  lemma Parts2MiB(page: VirtAddr, a: VirtAddr, lp: nat, la: nat)
    requires page % 0x20_0000 == 0
    requires lp == if page < 0x8000_0000_0000 then page else page - 0xffff_0000_0000_0000
    requires la == if a < 0x8000_0000_0000 then a else a - 0xffff_0000_0000_0000
    ensures page <= a < page + 0x20_0000 <==> la / 0x20_0000 == lp / 0x20_0000
    ensures page <= a < page + 0x20_0000 ==> a % 0x20_0000 == a - page
  {
  }

  lemma Parts1GiB(page: VirtAddr, a: VirtAddr, lp: nat, la: nat)
    requires page % 0x4000_0000 == 0
    requires lp == if page < 0x8000_0000_0000 then page else page - 0xffff_0000_0000_0000
    requires la == if a < 0x8000_0000_0000 then a else a - 0xffff_0000_0000_0000
    ensures page <= a < page + 0x4000_0000 <==> la / 0x4000_0000 == lp / 0x4000_0000
    ensures page <= a < page + 0x4000_0000 ==> a % 0x4000_0000 == a - page
  {
  }

  /** After a successful `map_to`, every address of the page translates to the leaf of the request, and
      every other address translates as before. */
  lemma MapToTranslates(m: Memory, root: Frame, mask: int, r: Request, answers: Answers, page: VirtAddr, a: VirtAddr)
    requires MapPre(m, root, mask, r, answers) && P4Index(a) != mask
    requires IsPageStart(r.size, page) && r.v == Vpn(page) && LeafAligned(r.size, r.leaf.addr)
    requires MapIn(m, 4, root, r, answers).res == Mapped
    ensures var m' := MapIn(m, 4, root, r, answers).m;
            TranslateIn(m', 4, root, a) ==
            if !(page <= a < page + LeafBytes(r.size)) then TranslateIn(m, 4, root, a)
            else if r.leaf.IsUnused() then NotTranslated
            else Translated(r.size, r.leaf.addr, a - page, r.leaf.flags)
  {
    hide MapIn, TranslateIn, LeafIn, MapPre, Vpn, P4Index, Block, FrameContaining, LeafBytes, LeafAligned;
    LeafOfRequest(m, root, mask, r, answers);
    PageNumber(a);
    MapToMapsOnePage(m, root, mask, r, answers, Vpn(a));
    TranslateIsLeaf(m, root, mask, a);
    TranslateIsLeaf(MapIn(m, 4, root, r, answers).m, root, mask, a);
    AlignedContains(r.size, r.leaf.addr);
    AddressesOfPage(r.size, page, a);
  }

  lemma LeafOfRequest(m: Memory, root: Frame, mask: int, r: Request, answers: Answers)
    requires MapPre(m, root, mask, r, answers)
    ensures r.size <= 3
    ensures LeafOf(r.size, r.leaf) == if r.leaf.IsUnused() then None else Some(Mapping(r.size, r.leaf))
  {
  }

  lemma PageNumber(a: VirtAddr)
    ensures Vpn(a) < PAGES
  {
    LinParts(a);
  }
}
