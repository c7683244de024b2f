/** `translate` and `translate_addr`, and the page walk of the processor.

`HardwareWalk` is the 4-level paging walk of section 4.5 of the Intel SDM, Volume 3A.
 */
module Translate {
  import opened Wrappers
  import opened Addr
  import opened Levels
  import opened Page
  import opened PageTable
  import opened PageTree
  import opened MemoryTree
  import opened PathOps
  import opened PathMeaning

  /** The mapped frame is given by the level of its leaf: 1, 2, 3 for 4KiB, 2MiB, 1GiB. */
  datatype TranslateResult =
    | Translated(size: Level, frame: nat, offset: nat, flags: Flags)
    | NotTranslated
    | InvalidAddress(addr: Frame)
    | TranslatePanic   // "level 4 entry has huge page bit set"

  /** The bytes of a page of each size. */
  function LeafBytes(size: Level): (n: nat)
    ensures n > 0
    ensures size <= 3 ==> n == 0x1000 * Width(size)
  {
    if size == 1 then 0x1000 else if size == 2 then 0x20_0000 else 0x4000_0000
  }

  /** `PhysFrame::containing_address`. */
  function FrameContaining(size: Level, addr: nat): (f: nat)
    ensures f % LeafBytes(size) == 0 && f <= addr < f + LeafBytes(size)
  {
    FloorOf(addr, LeafBytes(size));
    addr - addr % LeafBytes(size)
  }

  lemma FloorOf(addr: nat, bytes: nat)
    requires bytes in {0x1000, 0x20_0000, 0x4000_0000}
    ensures addr >= addr % bytes && (addr - addr % bytes) % bytes == 0
  {
    if bytes == 0x1000 {
    } else if bytes == 0x20_0000 {
    } else {
    }
  }

  /** A huge leaf: the frame containing the entry's address, and the low bits of `a`. */
  function HugeResult(size: Level, e: Entry, a: VirtAddr): TranslateResult {
    Translated(size, FrameContaining(size, e.addr), a % LeafBytes(size), e.flags)
  }

  /** `translate`, from the table of some level on. */
  function TranslateIn(m: Memory, level: Level, f: Frame, a: VirtAddr): TranslateResult
    decreases level
  {
    var e := TableAt(m, f)[Idx(level, Vpn(a))];
    if level == 1 then LastLevel(e, a)
    else
      match NextTable(e)
      case Err(NotMapped) => NotTranslated
      case Err(MappedToHugePage) => if level == 4 then TranslatePanic else HugeResult(level, e, a)
      case Ok(g) => TranslateIn(m, level - 1, g, a)
  }

  lemma UnfoldTranslate(m: Memory, level: Level, f: Frame, a: VirtAddr)
    ensures TranslateIn(m, level, f, a) ==
            var e := TableAt(m, f)[Idx(level, Vpn(a))];
            if level == 1 then LastLevel(e, a)
            else
              match NextTable(e)
              case Err(NotMapped) => NotTranslated
              case Err(MappedToHugePage) => if level == 4 then TranslatePanic else HugeResult(level, e, a)
              case Ok(g) => TranslateIn(m, level - 1, g, a)
  {
  }

  function LastLevel(e: Entry, a: VirtAddr): TranslateResult {
    if e.IsUnused() then NotTranslated
    else if e.addr % 0x1000 != 0 then InvalidAddress(e.addr)
    else Translated(1, e.addr, a % 0x1000, e.flags)
  }

  /** `translate_addr`; the addition panics when the sum needs more than 52 bits. */
  function TranslateAddr(t: TranslateResult): Option<nat> {
    match t
    case Translated(_, frame, offset, _) => Some(frame + offset)
    case _ => None
  }

  // ---------------------------------------------------------------- the processor

  /** The physical address the processor reaches, or `None` for a page fault.  A present entry
      with its PS bit set maps a page at levels 3 and 2, and is reserved at level 4.  In an entry
      that maps a huge page, bit 12 is the PAT bit and the address bits above it and below the
      page size are reserved. */
  function HardwareWalk(m: Memory, level: Level, f: Frame, a: VirtAddr): Option<nat>
    decreases level
  {
    var e := TableAt(m, f)[Idx(level, Vpn(a))];
    if !e.Present() then None
    else if level == 1 then Some(e.addr + a % 0x1000)
    else if e.Huge() then
      if level == 4 || e.addr - FrameContaining(level, e.addr) !in {0, 0x1000} then None
      else Some(FrameContaining(level, e.addr) + a % LeafBytes(level))
    else HardwareWalk(m, level - 1, e.addr, a)
  }

  /** What a leaf means for an address of its page: the panic of a huge level-4 entry, or a frame of
      its size, the offset in it and the flags of the leaf. */
  function LeafResult(leaf: Option<Mapping>, a: VirtAddr): TranslateResult {
    match leaf
    case None => NotTranslated
    case Some(l) =>
      if l.level == 4 then TranslatePanic
      else Translated(l.level, FrameContaining(l.level, l.entry.addr), a % LeafBytes(l.level), l.entry.flags)
  }

  lemma EntryOnPath(m: Memory, level: Level, f: Frame, mask: int, i: nat)
    requires i < 512 && i != mask
    ensures View(m, level, f, mask)[i] == NodeAt(m, level, TableAt(m, f)[i])
    ensures Sound(m, level, f, mask) ==> SoundNode(level, View(m, level, f, mask)[i])
    ensures Proper(m, level, f, mask) ==> ProperNode(level, View(m, level, f, mask)[i])
  {
  }

  /** Frame and offset add up to a physical address. */
  lemma SumFits(level: Level, addr: Frame, offset: nat)
    requires level <= 3 && offset < LeafBytes(level)
    ensures FrameContaining(level, addr) + offset < 0x10_0000_0000_0000
  {
    var f := FrameContaining(level, addr);
    if level == 1 {
      Sum4KiB(f, offset);
    } else if level == 2 {
      Sum2MiB(f, offset);
    } else {
      Sum1GiB(f, offset);
    }
  }

  lemma Sum4KiB(addr: nat, offset: nat)
    requires addr < 0x10_0000_0000_0000 && addr % 0x1000 == 0 && offset < 0x1000
    ensures addr + offset < 0x10_0000_0000_0000
  {
  }

  lemma Sum2MiB(addr: nat, offset: nat)
    requires addr < 0x10_0000_0000_0000 && addr % 0x20_0000 == 0 && offset < 0x20_0000
    ensures addr + offset < 0x10_0000_0000_0000
  {
  }

  lemma Sum1GiB(addr: nat, offset: nat)
    requires addr < 0x10_0000_0000_0000 && addr % 0x4000_0000 == 0 && offset < 0x4000_0000
    ensures addr + offset < 0x10_0000_0000_0000
  {
  }

  lemma AlignedContains(level: Level, addr: Frame)
    requires level <= 3
    ensures LeafAligned(level, addr) <==> FrameContaining(level, addr) == addr
    ensures FrameContaining(1, addr) == addr
  {
  }

  /** The processor maps memory by this leaf: it is present, and its frame address is aligned but for
      the PAT bit. */
  predicate Reachable(l: Mapping) {
    PRESENT in l.entry.flags && l.entry.addr - FrameContaining(l.level, l.entry.addr) in {0, 0x1000}
  }

  /** On any memory `translate` reports the leaf of the address, and the walk of the processor ends in
      it exactly when it is present and aligned. */
  lemma {:induction false} WalksFindLeaf(m: Memory, level: Level, f: Frame, mask: int, a: VirtAddr)
    requires Idx(level, Vpn(a)) != mask
    ensures var leaf := Leaf(level, View(m, level, f, mask), Vpn(a));
            && TranslateIn(m, level, f, a) == LeafResult(leaf, a)
            && HardwareWalk(m, level, f, a) ==
               (if leaf.Some? && leaf.value.level <= 3 && Reachable(leaf.value) then TranslateAddr(LeafResult(leaf, a))
                else None)
            && (leaf.Some? ==> leaf.value.level <= level)
    decreases level
  {
    hide Idx, Tree, View, TableAt, FrameContaining, LeafBytes, TranslateIn, HardwareWalk, Leaf, Reachable;
    var v := Vpn(a);
    var e := TableAt(m, f)[Idx(level, v)];
    ViewEntry(m, level, f, mask, Idx(level, v));
    NodeAtIsView(m, level, e);
    LeafAt(level, View(m, level, f, mask), v);
    if Links(level, e) {
      UnfoldTranslate(m, level, f, a);
      WalkStep(m, level, f, a);
      WalksFindLeaf(m, level - 1, e.addr, -1, a);
    } else {
      WalksEnd(m, level, f, a);
    }
  }

  /** One step of the processor's walk through a link. */
  lemma WalkStep(m: Memory, level: Level, f: Frame, a: VirtAddr)
    requires level > 1 && TableAt(m, f)[Idx(level, Vpn(a))].IsTable()
    ensures HardwareWalk(m, level, f, a) == HardwareWalk(m, level - 1, TableAt(m, f)[Idx(level, Vpn(a))].addr, a)
  {
  }

  /** Both walks where the path ends. */
  lemma WalksEnd(m: Memory, level: Level, f: Frame, a: VirtAddr)
    requires !Links(level, TableAt(m, f)[Idx(level, Vpn(a))])
    ensures var leaf := LeafOf(level, TableAt(m, f)[Idx(level, Vpn(a))]);
            && TranslateIn(m, level, f, a) == LeafResult(leaf, a)
            && HardwareWalk(m, level, f, a) ==
               if leaf.Some? && level <= 3 && Reachable(leaf.value) then TranslateAddr(LeafResult(leaf, a)) else None
  {
    hide Idx, TableAt, FrameContaining, LeafBytes, LeafAligned, Vpn;
    AlignedContains(1, TableAt(m, f)[Idx(level, Vpn(a))].addr);
  }

  /** On any memory `translate` reports the leaf of the address; it never reports an invalid frame
      address, and the physical address it stands for fits in 52 bits. */
  lemma TranslateIsLeaf(m: Memory, root: Frame, mask: int, a: VirtAddr)
    requires P4Index(a) != mask
    ensures var t := TranslateIn(m, 4, root, a);
            && t == LeafResult(LeafIn(m, root, mask, Vpn(a)), a)
            && (TranslateAddr(t).Some? ==> TranslateAddr(t).value < 0x10_0000_0000_0000)
  {
    hide TranslateIn, HardwareWalk, FrameContaining, LeafBytes;
    IndicesAreDigits(a);
    WalksFindLeaf(m, 4, root, mask, a);
    var leaf := LeafIn(m, root, mask, Vpn(a));
    if leaf.Some? && leaf.value.level <= 3 {
      SumFits(leaf.value.level, leaf.value.entry.addr, a % LeafBytes(leaf.value.level));
    }
  }

  /** On any memory the processor reaches the address by a leaf that is present and aligned, and by none
      other. */
  lemma HardwareWalkIsLeaf(m: Memory, root: Frame, mask: int, a: VirtAddr)
    requires P4Index(a) != mask
    ensures var leaf := LeafIn(m, root, mask, Vpn(a));
            HardwareWalk(m, 4, root, a) ==
            if leaf.Some? && leaf.value.level <= 3 && Reachable(leaf.value)
            then Some(FrameContaining(leaf.value.level, leaf.value.entry.addr) + a % LeafBytes(leaf.value.level))
            else None
  {
    hide TranslateIn, HardwareWalk, FrameContaining, LeafBytes, Reachable;
    IndicesAreDigits(a);
    WalksFindLeaf(m, 4, root, mask, a);
  }

  /** `translate_addr` is the walk of the processor if and only if the address has no leaf below level
      4 or one that is present and aligned but for the PAT bit. */
  lemma TranslateIsHardwareWalkIff(m: Memory, root: Frame, mask: int, a: VirtAddr)
    requires P4Index(a) != mask
    ensures var leaf := LeafIn(m, root, mask, Vpn(a));
            TranslateAddr(TranslateIn(m, 4, root, a)) == HardwareWalk(m, 4, root, a) <==>
            (leaf.Some? && leaf.value.level <= 3 ==> Reachable(leaf.value))
  {
    hide TranslateIn, HardwareWalk, FrameContaining, LeafBytes, Reachable;
    IndicesAreDigits(a);
    WalksFindLeaf(m, 4, root, mask, a);
  }

  /** On a proper hierarchy `translate` never panics and is the walk of the processor. */
  lemma TranslateIsHardwareWalk(m: Memory, root: Frame, mask: int, a: VirtAddr)
    requires Proper(m, 4, root, mask) && P4Index(a) != mask
    ensures var t := TranslateIn(m, 4, root, a);
            && (t.Translated? || t.NotTranslated?)
            && TranslateAddr(t) == HardwareWalk(m, 4, root, a)
  {
    hide HardwareWalk, TranslateIn, LeafAligned, FrameContaining, Leaf, View, ProperTable;
    TranslateIsLeaf(m, root, mask, a);
    TranslateIsHardwareWalkIff(m, root, mask, a);
    LeafIsProper(4, View(m, 4, root, mask), Vpn(a));
    var leaf := LeafIn(m, root, mask, Vpn(a));
    if leaf.Some? { AlignedContains(leaf.value.level, leaf.value.entry.addr); }
  }
}
