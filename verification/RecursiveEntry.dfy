/** `update_flags`, `set_flags_p*_entry` and `translate_page` of the recursive mapper.

They follow every used entry without looking at HUGE_PAGE, so below a larger mapping they read and
write the mapped memory as if it held page tables.
 */
module RecursiveEntry {
  import opened Wrappers
  import opened Addr
  import opened Levels
  import opened Page
  import opened PageTable
  import opened PageTree
  import opened MemoryTree
  import opened PathOps
  import opened PathMeaning
  import opened Translate
  import opened RecursiveWalk
  import opened RecursivePath

  /** The frame the code takes for the level-`target` table on the path of page `v`, or `None` at an
      unused entry.  A huge level-3 entry on the way to level 1 is seen by the processor as a 2MiB
      mapping, so the last table is a frame inside it. */
  function EntryTable(m: Memory, level: Level, f: Frame, target: Level, v: nat): Option<Frame>
    requires target <= level
    decreases level
  {
    var e := TableAt(m, f)[Idx(level, v)];
    if level == target then Some(f)
    else if e.IsUnused() then None
    else if level == 3 && target == 1 && e.Huge() then
      (if TableAt(m, e.addr)[Idx(2, v)].IsUnused() then None else Some(FrameInside(e.addr, Idx(2, v))))
    else EntryTable(m, level - 1, e.addr, target, v)
  }

  lemma EntryTableEnds(m: Memory, level: Level, f: Frame, v: nat)
    ensures EntryTable(m, level, f, level, v) == Some(f)
  {
  }

  lemma UnfoldEntryTable(m: Memory, level: Level, f: Frame, target: Level, v: nat)
    requires target < level
    ensures var e := TableAt(m, f)[Idx(level, v)];
            EntryTable(m, level, f, target, v) ==
            if e.IsUnused() then None
            else if level == 3 && target == 1 && e.Huge() then
              (if TableAt(m, e.addr)[Idx(2, v)].IsUnused() then None else Some(FrameInside(e.addr, Idx(2, v))))
            else EntryTable(m, level - 1, e.addr, target, v)
  {
  }

  /** The `i`-th 4KiB frame of the 2MiB frame that contains an address. */
  function FrameInside(addr: Frame, i: nat): Frame
    requires i < 512
  {
    InsideFits(addr, i);
    FrameContaining(2, addr) + 0x1000 * i
  }

  lemma InsideFits(addr: Frame, i: nat)
    requires i < 512
    ensures var f := FrameContaining(2, addr) + 0x1000 * i; 0 <= f < 0x10_0000_0000_0000 && f % 4096 == 0
  {
    var q := addr / 0x20_0000;
    assert addr - addr % 0x20_0000 == 0x20_0000 * q;
  }

  function RecursiveSetFlags(m: Memory, root: Frame, target: Level, v: nat, flags: Flags): FlagsOut {
    match EntryTable(m, 4, root, target, v)
    case None => FlagsOut(m, Err(FlagsPageNotMapped))
    case Some(g) =>
      var e := TableAt(m, g)[Idx(target, v)];
      if e.IsUnused() then FlagsOut(m, Err(FlagsPageNotMapped))
      else FlagsOut(Write(m, g, Idx(target, v), Entry(e.addr, flags)), Ok(()))
  }

  function RecursiveTranslatePage(m: Memory, root: Frame, size: Level, v: nat): Result<Frame, TranslateError> {
    match EntryTable(m, 4, root, size, v)
    case None => Err(PageNotMapped)
    case Some(g) =>
      var e := TableAt(m, g)[Idx(size, v)];
      if e.IsUnused() then Err(PageNotMapped)
      else if !LeafAligned(size, e.addr) then Err(InvalidFrameAddress(e.addr))
      else Ok(e.addr)
  }

  /** The processor can follow an unchecked method to the table of level `target`: every used entry
      above it is present, and one that is no link is below level 4 and, if another table address
      leads through it as a 2MiB mapping, aligned like one. */
  ghost predicate Enters(m: Memory, level: Level, f: Frame, target: Level, v: nat)
    decreases level
  {
    var e := TableAt(m, f)[Idx(level, v)];
    level > target && !e.IsUnused() ==>
      && e.Present()
      && (e.Huge() ==> level <= 3 && (level == 3 && target == 1 ==> LeafAligned(2, e.addr)))
      && (!e.Huge() ==> Enters(m, level - 1, e.addr, target, v))
  }

  // ---------------------------------------------------------------- addresses below a larger mapping

  /** A step of the processor's walk that ends at a 2MiB mapping. */
  lemma WalkEndsHuge(m: Memory, f: Frame, p: Page4KiB)
    requires var e := TableAt(m, f)[Idx(2, Vpn(p))]; e.Present() && e.Huge() && LeafAligned(2, e.addr)
    ensures HardwareWalk(m, 2, f, p) == Some(TableAt(m, f)[Idx(2, Vpn(p))].addr + p % 0x20_0000)
  {
  }

  /** Below a 1GiB mapping the walk of `p1_page` ends inside that mapping. */
  lemma P1PageIsData(m: Memory, root: Frame, r: nat, page: VirtAddr)
    requires SelfMapped(m, root, r) && TableAt(m, root)[P4Index(page)].IsTable()
    requires var e := TableAt(m, TableAt(m, root)[P4Index(page)].addr)[P3Index(page)];
             e.Present() && e.Huge() && LeafAligned(2, e.addr)
    ensures var e := TableAt(m, TableAt(m, root)[P4Index(page)].addr)[P3Index(page)];
            TableOf(m, root, P1Page(page, r)) == Some(FrameInside(e.addr, P2Index(page)))
  {
    hide Idx, Vpn, P4Index, P3Index, P2Index, P1Index, FromPageTableIndices, TableAt, HardwareWalk, LeafAligned;
    var p := P1Page(page, r);
    var p3 := TableAt(m, root)[P4Index(page)].addr;
    IndicesOfPage(r, P4Index(page), P3Index(page), P2Index(page));
    WalkStep(m, 4, root, p);
    WalkStep(m, 3, root, p);
    WalkEndsHuge(m, p3, p);
    LowIndex(r, P4Index(page), P3Index(page), P2Index(page));
    AlignedContains(2, TableAt(m, p3)[P3Index(page)].addr);
  }

  /** The lowest index of a page is its offset in its 2MiB page. */
  lemma LowIndex(p4: nat, p3: nat, p2: nat, p1: nat)
    requires p4 < 512 && p3 < 512 && p2 < 512 && p1 < 512
    ensures FromPageTableIndices(p4, p3, p2, p1) % 0x20_0000 == 0x1000 * p1
  {
    hide FromPageTableIndices, Vpn, Idx, P4Index, P3Index, P2Index, P1Index;
    var p := FromPageTableIndices(p4, p3, p2, p1);
    IndicesOfPage(p4, p3, p2, p1);
    PageRank(p);
    OffsetIn2MiB(p, p4 * 0x4_0000 + p3 * 0x200 + p2, p1);
  }

  lemma OffsetIn2MiB(p: Page4KiB, q: nat, p1: nat)
    requires Lin(p) == 0x1000 * (0x200 * q + p1) && p1 < 512
    ensures p % 0x20_0000 == 0x1000 * p1
  {
    LinParts(p);
    hide Lin;
    assert p == 0x20_0000 * q + 0x1000 * p1 || p == 0x20_0000 * (q + 0x7fff800_0000) + 0x1000 * p1;
  }

  // ---------------------------------------------------------------- agreement with the direct mapper

  /** Unless a larger mapping is in the way, the unchecked walk is the checked one. */
  lemma {:induction false} EntryTableIsWalk(m: Memory, level: Level, f: Frame, target: Level, v: nat, taken: multiset<Frame>)
    requires target <= level && PathOK(m, level, f, v, taken)
    ensures match WalkTo(m, level, f, target, v)
            case Ok(g) => EntryTable(m, level, f, target, v) == Some(g)
            case Err(NotMapped) => EntryTable(m, level, f, target, v) == None
            case Err(MappedToHugePage) => true
    decreases level
  {
    hide Idx, TableAt, LeafAligned;
    var e := TableAt(m, f)[Idx(level, v)];
    if level > target && e.IsTable() { EntryTableIsWalk(m, level - 1, e.addr, target, v, taken); }
  }

  /** The unchecked methods do what the direct mapper's do if and only if no larger mapping is in the
      way of the page. */
  lemma UncheckedAgreesIff(m: Memory, root: Frame, r: nat, target: Level, v: nat, flags: Flags)
    requires RecursiveWF(m, root, r)
    ensures RecursiveSetFlags(m, root, target, v, flags) == SetFlagsIn(m, 4, root, target, v, flags)
            <==> WalkTo(m, 4, root, target, v) != Err(MappedToHugePage)
    ensures RecursiveTranslatePage(m, root, target, v) == TranslatePageIn(m, 4, root, target, v)
            <==> WalkTo(m, 4, root, target, v) != Err(MappedToHugePage)
  {
    hide WF, Sound, View, Frames, EntryTable, WalkTo, Idx, LeafAligned;
    RecursivePathOK(m, root, r, v);
    EntryTableIsWalk(m, 4, root, target, v, multiset{root} + AllFrames(4, View(m, 4, root, r)));
  }

  /** Unless a larger mapping is in the way, the processor can follow an unchecked method. */
  lemma {:induction false} EntersUnblocked(m: Memory, level: Level, f: Frame, target: Level, v: nat, taken: multiset<Frame>)
    requires target <= level && PathOK(m, level, f, v, taken)
    requires WalkTo(m, level, f, target, v) != Err(MappedToHugePage)
    ensures Enters(m, level, f, target, v)
    decreases level
  {
    hide Idx, TableAt, LeafAligned;
    var e := TableAt(m, f)[Idx(level, v)];
    if level > target && e.IsTable() { EntersUnblocked(m, level - 1, e.addr, target, v, taken); }
  }

  lemma {:induction false} EntersProper(m: Memory, root: Frame, r: nat, own: Level, level: Level, f: Frame, target: Level,
                                        v: nat, taken: multiset<Frame>)
    requires SelfMapped(m, root, r) && level <= own
    requires InHierarchy(m, root, r, own, f, taken, true) && InHierarchy(m, root, r, 4, root, taken, true)
    ensures Enters(m, level, f, target, v)
    decreases level
  {
    hide Idx, InHierarchy, SelfMapped, TableAt;
    var i := Idx(level, v);
    var e := TableAt(m, f)[i];
    if level > target {
      if f == root && i == r {
        SelfEntry(m, root, r, own, taken, true);
        EntersProper(m, root, r, 4, level - 1, root, target, v, taken);
      } else {
        EntryInHierarchy(m, root, r, own, f, i, taken, true);
        if Links(level, e) { EntersProper(m, root, r, own - 1, level - 1, e.addr, target, v, taken); }
        if LeafAligned(own, e.addr) && own > 1 { FinerAlignment(2, own, e.addr); }
      }
    }
  }

  /** The unchecked methods may be called for every page if every leaf is present and aligned, and
      otherwise for every page that has no larger mapping in the way. */
  lemma MayEnter(m: Memory, root: Frame, r: nat, target: Level, v: nat)
    requires RecursiveWF(m, root, r)
    requires Proper(m, 4, root, r) || WalkTo(m, 4, root, target, v) != Err(MappedToHugePage)
    ensures Enters(m, 4, root, target, v)
  {
    hide WF, Sound, Proper, View, Frames, Enters, WalkTo, PathOK;
    if Proper(m, 4, root, r) {
      EntersProper(m, root, r, 4, 4, root, target, v, multiset{root} + AllFrames(4, View(m, 4, root, r)));
    } else {
      RecursivePathOK(m, root, r, v);
      EntersUnblocked(m, 4, root, target, v, multiset{root} + AllFrames(4, View(m, 4, root, r)));
    }
  }

  // ---------------------------------------------------------------- below a larger mapping

  /** Where an unchecked method below a larger mapping ends: at a frame of that mapping, unless the
      first word it reads there, when it has two levels to go, is zero. */
  lemma {:induction false} UncheckedEndsInLeaf(m: Memory, level: Level, f: Frame, mask: int, target: Level, v: nat,
                                               leaf: Mapping)
    requires target < level && Idx(level, v) != mask && Enters(m, level, f, target, v)
    requires Leaf(level, View(m, level, f, mask), v) == Some(leaf) && leaf.level > target
    ensures leaf.level <= 3 && (leaf.level == target + 1 || (leaf.level == 3 && target == 1 && LeafAligned(2, leaf.entry.addr)))
    ensures EntryTable(m, level, f, target, v) ==
            if leaf.level == target + 1 then Some(leaf.entry.addr)
            else if TableAt(m, leaf.entry.addr)[Idx(2, v)] == Entry(0, {}) then None
            else Some(FrameInside(leaf.entry.addr, Idx(2, v)))
    decreases level
  {
    hide Idx, Tree, TableAt, View, EntryTable, LeafAligned, FrameInside;
    var i := Idx(level, v);
    ViewEntry(m, level, f, mask, i);
    NodeAtIsView(m, level, TableAt(m, f)[i]);
    LeafAt(level, View(m, level, f, mask), v);
    UnfoldEntryTable(m, level, f, target, v);
    var e := TableAt(m, f)[i];
    if Links(level, e) {
      if level - 1 == target {
        LeafLevel(target, View(m, target, e.addr, -1), v);
      } else {
        UncheckedEndsInLeaf(m, level - 1, e.addr, -1, target, v, leaf);
      }
    } else if level - 1 == target {
      EntryTableEnds(m, target, e.addr, v);
    }
  }

  /** Below a larger mapping a recursive flag update reports no obstacle: it takes a word of the mapped
      memory for the entry, and unless that or the word it takes for a link is zero, it sets the flag
      bits of that word. */
  lemma BlockedFlagUpdateAnswer(m: Memory, root: Frame, r: nat, target: Level, v: nat, flags: Flags, leaf: Mapping, g: Frame)
    requires Idx(4, v) != r && target < 4 && Enters(m, 4, root, target, v)
    requires LeafIn(m, root, r, v) == Some(leaf) && leaf.level > target
    requires g == if leaf.level == target + 1 then leaf.entry.addr else leaf.entry.addr + 0x1000 * Idx(2, v)
    ensures var out, word := RecursiveSetFlags(m, root, target, v, flags), TableAt(m, g)[Idx(target, v)];
            if (leaf.level > target + 1 && TableAt(m, leaf.entry.addr)[Idx(2, v)] == Entry(0, {})) || word == Entry(0, {})
            then out.res == Err(FlagsPageNotMapped) && out.m == m
            else out.res == Ok(()) && out.m == Write(m, g, Idx(target, v), Entry(word.addr, flags))
  {
    hide View, EntryTable, Idx, Leaf, TableAt, Enters;
    UncheckedEndsInLeaf(m, 4, root, r, target, v, leaf);
    InsideLeaf(leaf.level, leaf.entry.addr, Idx(2, v));
  }

  /** In the same way `translate_page` answers with the frame in a word of the mapped memory. */
  lemma BlockedTranslatePageAnswer(m: Memory, root: Frame, r: nat, size: Level, v: nat, leaf: Mapping, g: Frame)
    requires Idx(4, v) != r && size < 4 && Enters(m, 4, root, size, v)
    requires LeafIn(m, root, r, v) == Some(leaf) && leaf.level > size
    requires g == if leaf.level == size + 1 then leaf.entry.addr else leaf.entry.addr + 0x1000 * Idx(2, v)
    ensures var word := TableAt(m, g)[Idx(size, v)];
            RecursiveTranslatePage(m, root, size, v) ==
            if (leaf.level > size + 1 && TableAt(m, leaf.entry.addr)[Idx(2, v)] == Entry(0, {})) || word == Entry(0, {})
            then Err(PageNotMapped)
            else if LeafAligned(size, word.addr) then Ok(word.addr)
            else Err(InvalidFrameAddress(word.addr))
  {
    hide View, EntryTable, Idx, Leaf, TableAt, Enters, LeafAligned;
    UncheckedEndsInLeaf(m, 4, root, r, size, v, leaf);
    InsideLeaf(leaf.level, leaf.entry.addr, Idx(2, v));
  }

  /** Below a larger mapping a recursive flag update reports no obstacle, and what it writes, if it
      writes, is a word of the memory that mapping maps. */
  lemma BlockedFlagUpdateWritesData(m: Memory, root: Frame, r: nat, target: Level, v: nat, flags: Flags, leaf: Mapping)
    requires Idx(4, v) != r && target < 4 && Enters(m, 4, root, target, v)
    requires LeafIn(m, root, r, v) == Some(leaf) && leaf.level > target
    ensures var out := RecursiveSetFlags(m, root, target, v, flags);
            && leaf.level <= 3
            && (out.res == Ok(()) || (out.res == Err(FlagsPageNotMapped) && out.m == m))
            && (forall g: Frame :: !(leaf.entry.addr <= g < leaf.entry.addr + LeafBytes(leaf.level))
                              ==> TableAt(out.m, g) == TableAt(m, g))
  {
    hide View, EntryTable, Idx, Leaf, TableAt, Enters, LeafIn, FrameInside, LeafAligned, RecursiveSetFlags, LeafBytes, Write;
    UncheckedInLeaf(m, root, r, target, v, leaf);
    var g := if leaf.level == target + 1 then leaf.entry.addr else FrameInside(leaf.entry.addr, Idx(2, v));
    InsideLeaf(leaf.level, leaf.entry.addr, Idx(2, v));
    BlockedFlagUpdateAnswer(m, root, r, target, v, flags, leaf, g);
    WriteReads(m, g, Idx(target, v), Entry(TableAt(m, g)[Idx(target, v)].addr, flags));
  }

  lemma UncheckedInLeaf(m: Memory, root: Frame, r: nat, target: Level, v: nat, leaf: Mapping)
    requires Idx(4, v) != r && target < 4 && Enters(m, 4, root, target, v)
    requires LeafIn(m, root, r, v) == Some(leaf) && leaf.level > target
    ensures leaf.level <= 3 && (leaf.level == target + 1 || (leaf.level == 3 && target == 1 && LeafAligned(2, leaf.entry.addr)))
  {
    hide View, EntryTable, Idx, Leaf, TableAt, Enters, LeafAligned;
    UncheckedEndsInLeaf(m, 4, root, r, target, v, leaf);
  }

  /** The frames inside a mapping. */
  lemma InsideLeaf(level: Level, addr: Frame, i: nat)
    requires level <= 3 && i < 512
    ensures LeafAligned(2, addr) ==> FrameInside(addr, i) == addr + 0x1000 * i
    ensures LeafBytes(level) > 0 && (level == 3 ==> 0x1000 * i < LeafBytes(3))
  {
    hide FrameContaining;
    AlignedContains(2, addr);
  }
}
