/** What keeps the recursive mapper's table addresses right while it rewrites the tables they go
through, and what `translate` means on a recursively mapped memory. */
module RecursivePath {
  import opened Wrappers
  import opened Addr
  import opened Levels
  import opened Page
  import opened PageTable
  import opened PageTree
  import opened MemoryTree
  import opened MapTo
  import opened PathMeaning
  import opened Translate
  import opened RecursiveWalk

  /** The hierarchy without its recursive entry is a sound tree, and that entry points at the root. */
  ghost predicate RecursiveWF(m: Memory, root: Frame, r: nat) {
    SelfMapped(m, root, r) && WF(m, 4, root, r) && Sound(m, 4, root, r)
  }

  /** The tables on the path of page `v` below `f` are in `taken`, and every used entry on it is a link
      or a leaf.  The path may go through the root table again. */
  ghost predicate PathOK(m: Memory, level: Level, f: Frame, v: nat, taken: multiset<Frame>)
    decreases level
  {
    f in taken &&
    var e := TableAt(m, f)[Idx(level, v)];
    && IsSoundEntry(level, e)
    && (Links(level, e) ==> PathOK(m, level - 1, e.addr, v, taken))
  }

  /** A table of the hierarchy, met at its own level or, behind the recursive entry, at a lower one. */
  ghost predicate InHierarchy(m: Memory, root: Frame, r: nat, level: Level, f: Frame, taken: multiset<Frame>, proper: bool) {
    var mask := if f == root then r else -1;
    && WF(m, level, f, mask) && Sound(m, level, f, mask) && (proper ==> Proper(m, level, f, mask))
    && multiset{f} + AllFrames(level, View(m, level, f, mask)) <= taken
    && (f == root || root !in AllFrames(level, View(m, level, f, -1)))
    && (f == root ==> level == 4)
  }

  lemma {:induction false} WFPath(m: Memory, root: Frame, r: nat, own: Level, level: Level, f: Frame, v: nat,
                                  taken: multiset<Frame>)
    requires SelfMapped(m, root, r) && level <= own
    requires InHierarchy(m, root, r, own, f, taken, false) && InHierarchy(m, root, r, 4, root, taken, false)
    ensures PathOK(m, level, f, v, taken)
    decreases level
  {
    hide Idx, InHierarchy, SelfMapped, TableAt, IsSoundEntry;
    var i := Idx(level, v);
    var e := TableAt(m, f)[i];
    if f == root && i == r {
      SelfEntry(m, root, r, own, taken, false);
      LinkIsSound(level, e);
      if level > 1 { WFPath(m, root, r, 4, level - 1, root, v, taken); }
    } else {
      EntryInHierarchy(m, root, r, own, f, i, taken, false);
      SoundAtLowerLevel(level, own, e);
      if Links(level, e) { WFPath(m, root, r, own - 1, level - 1, e.addr, v, taken); }
    }
  }

  lemma SelfEntry(m: Memory, root: Frame, r: nat, own: Level, taken: multiset<Frame>, proper: bool)
    requires SelfMapped(m, root, r) && InHierarchy(m, root, r, own, root, taken, proper)
    ensures r < 512 && TableAt(m, root)[r].IsTable() && TableAt(m, root)[r].addr == root && root in taken
  {
    hide WF, View, Frames;
    assert root in multiset{root} + AllFrames(own, View(m, own, root, r));
  }

  lemma LinkIsSound(level: Level, e: Entry)
    requires e.IsTable()
    ensures IsSoundEntry(level, e) && IsProperEntry(level, e)
  {
  }

  lemma SoundAtLowerLevel(level: Level, own: Level, e: Entry)
    requires level <= own && IsSoundEntry(own, e)
    ensures IsSoundEntry(level, e)
    ensures IsProperEntry(own, e) ==> IsProperEntry(level, e)
  {
    hide LeafAligned;
    FrameIsAligned(e.addr);
    if LeafAligned(own, e.addr) { FinerAlignment(level, own, e.addr); }
  }

  lemma FinerAlignment(level: Level, own: Level, addr: nat)
    requires level <= own && LeafAligned(own, addr)
    ensures LeafAligned(level, addr)
  {
  }

  lemma FrameIsAligned(f: Frame)
    ensures LeafAligned(1, f)
  {
  }

  lemma EntryInHierarchy(m: Memory, root: Frame, r: nat, own: Level, f: Frame, i: nat, taken: multiset<Frame>, proper: bool)
    requires InHierarchy(m, root, r, own, f, taken, proper) && i < 512 && !(f == root && i == r)
    ensures var e := TableAt(m, f)[i];
            && f in taken && IsSoundEntry(own, e) && (proper ==> IsProperEntry(own, e))
            && (Links(own, e) ==> InHierarchy(m, root, r, own - 1, e.addr, taken, proper))
  {
    hide WF, View, Frames, LeafAligned;
    var mask := if f == root then r else -1;
    EntryOnPath(m, own, f, mask, i);
    NodeAtIsView(m, own, TableAt(m, f)[i]);
    var kids := View(m, own, f, mask);
    assert f in multiset{f} + AllFrames(own, kids);
    if Links(own, TableAt(m, f)[i]) {
      ChildWF(m, own, f, mask, i);
      RootElsewhere(m, root, r, own, f, i);
    }
  }

  lemma RootElsewhere(m: Memory, root: Frame, r: nat, own: Level, f: Frame, i: nat)
    requires WF(m, own, f, if f == root then r else -1) && i < 512 && i != (if f == root then r else -1)
    requires f == root || root !in AllFrames(own, View(m, own, f, -1))
    requires Links(own, TableAt(m, f)[i])
    ensures var g := TableAt(m, f)[i].addr; g != root && root !in AllFrames(own - 1, View(m, own - 1, g, -1))
  {
    hide WF, View, Frames;
    ChildWF(m, own, f, if f == root then r else -1, i);
  }

  /** The root is met on every path of a recursively mapped memory at the top, and possibly again. */
  lemma RecursivePathOK(m: Memory, root: Frame, r: nat, v: nat)
    requires RecursiveWF(m, root, r)
    ensures PathOK(m, 4, root, v, multiset{root} + AllFrames(4, View(m, 4, root, r)))
  {
    hide WF, Sound, View, Frames;
    WFPath(m, root, r, 4, 4, root, v, multiset{root} + AllFrames(4, View(m, 4, root, r)));
  }

  /** A translation that neither panics nor reports an invalid frame, to an address of 52 bits; if the
      hierarchy is proper, the one of the processor. */
  ghost predicate GoodTranslation(m: Memory, level: Level, f: Frame, a: VirtAddr, proper: bool) {
    var t := TranslateIn(m, level, f, a);
    && (t.NotTranslated? || (t.Translated? && t.frame + t.offset < 0x10_0000_0000_0000))
    && (proper ==> TranslateAddr(t) == HardwareWalk(m, level, f, a))
  }

  lemma {:induction false} TranslateOnPath(m: Memory, root: Frame, r: nat, own: Level, level: Level, f: Frame, a: VirtAddr,
                                           taken: multiset<Frame>, proper: bool)
    requires SelfMapped(m, root, r) && level <= own
    requires InHierarchy(m, root, r, own, f, taken, proper) && InHierarchy(m, root, r, 4, root, taken, proper)
    ensures GoodTranslation(m, level, f, a, proper)
    decreases level
  {
    hide Idx, InHierarchy, SelfMapped, TableAt, IsSoundEntry, IsProperEntry, GoodTranslation;
    var i := Idx(level, Vpn(a));
    var e := TableAt(m, f)[i];
    if f == root && i == r {
      SelfEntry(m, root, r, own, taken, proper);
      LinkIsSound(level, e);
      if level > 1 { TranslateOnPath(m, root, r, 4, level - 1, root, a, taken, proper); }
    } else {
      EntryInHierarchy(m, root, r, own, f, i, taken, proper);
      SoundAtLowerLevel(level, own, e);
      if Links(level, e) { TranslateOnPath(m, root, r, own - 1, level - 1, e.addr, a, taken, proper); }
    }
    TranslateEntry(m, level, f, a, proper);
  }

  lemma TranslateEntry(m: Memory, level: Level, f: Frame, a: VirtAddr, proper: bool)
    requires var e := TableAt(m, f)[Idx(level, Vpn(a))];
             && IsSoundEntry(level, e) && (proper ==> IsProperEntry(level, e))
             && (Links(level, e) ==> GoodTranslation(m, level - 1, e.addr, a, proper))
    ensures GoodTranslation(m, level, f, a, proper)
  {
    hide Idx, TableAt, LeafAligned, FrameContaining, LeafBytes;
    var e := TableAt(m, f)[Idx(level, Vpn(a))];
    AlignedContains(1, e.addr);
    if level <= 3 {
      AlignedContains(level, e.addr);
      SumFits(level, e.addr, a % LeafBytes(level));
    }
  }

  /** In a recursively mapped memory `translate` never panics, and if every leaf is present and aligned
      it is the processor's walk for every address, those below the recursive entry included. */
  lemma RecursiveTranslateIsHardwareWalk(m: Memory, root: Frame, r: nat, a: VirtAddr)
    requires RecursiveWF(m, root, r)
    ensures var t := TranslateIn(m, 4, root, a);
            && (t.NotTranslated? || (t.Translated? && t.frame + t.offset < 0x10_0000_0000_0000))
            && (Proper(m, 4, root, r) ==> TranslateAddr(t) == HardwareWalk(m, 4, root, a))
  {
    hide WF, Sound, Proper, View, Frames, TranslateIn, HardwareWalk;
    TranslateOnPath(m, root, r, 4, 4, root, a, multiset{root} + AllFrames(4, View(m, 4, root, r)), Proper(m, 4, root, r));
  }

  // ---------------------------------------------------------------- while map_to rewrites tables

  /** Entry `i` of table `f` links to table `g`. */
  predicate Linked(m: Memory, f: Frame, i: nat, g: Frame) {
    i < 512 && TableAt(m, f)[i].IsTable() && TableAt(m, f)[i].addr == g
  }

  /** Memories that differ at most in the flags of links. */
  ghost predicate SameLinks(m: Memory, m': Memory) {
    forall g: Frame, i: nat :: i < 512 ==>
      var e, e' := TableAt(m, g)[i], TableAt(m', g)[i];
      e' == e || (e.IsTable() && e'.IsTable() && e'.addr == e.addr)
  }

  lemma {:induction false} PathFrame(m: Memory, m': Memory, level: Level, f: Frame, v: nat, taken: multiset<Frame>)
    requires PathOK(m, level, f, v, taken) && SameLinks(m, m')
    ensures PathOK(m', level, f, v, taken)
    decreases level
  {
    hide Idx, TableAt, LeafAligned;
    var e, e' := TableAt(m, f)[Idx(level, v)], TableAt(m', f)[Idx(level, v)];
    assert e' == e || (e.IsTable() && e'.IsTable() && e'.addr == e.addr);
    if Links(level, e) {
      PathFrame(m, m', level - 1, e.addr, v, taken);
    }
  }

  /** After `create_next_table` the rest of the path is as it has to be, and the links from tables
      there were before still lead where they led. */
  ghost predicate PathGoesOn(m: Memory, c: Created, level: Level, f: Frame, v: nat, taken: multiset<Frame>, n: nat)
    requires level > 1 && n > 0 && c.res.Ok?
  {
    && PathOK(c.m, level - 1, c.res.value, v, taken + multiset(c.used))
    && Fresh(c.answers, n - 1, taken + multiset(c.used))
    && Linked(c.m, f, Idx(level, v), c.res.value)
    && (forall g, i, h :: g in taken && Linked(m, g, i, h) ==> Linked(c.m, g, i, h))
  }

  lemma PathAfterCreate(m: Memory, level: Level, f: Frame, v: nat, link: Flags, add: Flags,
                        answers: Answers, taken: multiset<Frame>, n: nat)
    requires level > 1 && n > 0 && PathOK(m, level, f, v, taken) && Fresh(answers, n, taken)
    requires PRESENT in link
    ensures var c := CreateNext(m, f, Idx(level, v), link, add, answers);
            c.res.Ok? ==> PathGoesOn(m, c, level, f, v, taken, n)
  {
    var i := Idx(level, v);
    if TableAt(m, f)[i].IsUnused() {
      PathAfterNew(m, level, f, v, link, add, answers, taken, n);
    } else {
      PathAfterOld(m, level, f, v, link, add, answers, taken, n);
    }
  }

  lemma PathAfterNew(m: Memory, level: Level, f: Frame, v: nat, link: Flags, add: Flags,
                     answers: Answers, taken: multiset<Frame>, n: nat)
    requires level > 1 && n > 0 && f in taken && Fresh(answers, n, taken)
    requires TableAt(m, f)[Idx(level, v)].IsUnused() && PRESENT in link
    ensures var c := CreateNext(m, f, Idx(level, v), link, add, answers);
            c.res.Ok? ==> PathGoesOn(m, c, level, f, v, taken, n)
  {
    hide Idx;
    var c := CreateNext(m, f, Idx(level, v), link, add, answers);
    if c.res.Ok? {
      assert answers != [] && answers[0].Some?;
      assert multiset(c.used) == multiset{c.res.value};
      assert c.res.value != f;
      assert TableAt(c.m, c.res.value)[Idx(level - 1, v)] == UNUSED;
      forall g, i, h | g in taken && Linked(m, g, i, h) ensures Linked(c.m, g, i, h) {
        assert g != c.res.value;
      }
    }
  }

  lemma PathAfterOld(m: Memory, level: Level, f: Frame, v: nat, link: Flags, add: Flags,
                     answers: Answers, taken: multiset<Frame>, n: nat)
    requires level > 1 && n > 0 && PathOK(m, level, f, v, taken) && Fresh(answers, n, taken)
    requires !TableAt(m, f)[Idx(level, v)].IsUnused()
    ensures var c := CreateNext(m, f, Idx(level, v), link, add, answers);
            c.res.Ok? ==> PathGoesOn(m, c, level, f, v, taken, n)
  {
    hide Idx, Fresh, LeafAligned;
    var i := Idx(level, v);
    var e := TableAt(m, f)[i];
    var c := CreateNext(m, f, i, link, add, answers);
    if c.res.Ok? {
      assert PathOK(m, level - 1, e.addr, v, taken);
      assert taken + multiset(c.used) == taken;
      FreshForFewer(answers, n, n - 1, taken, taken);
      WideningKeepsLinks(m, f, i, add);
      PathFrame(m, c.m, level - 1, e.addr, v, taken);
    }
  }

  lemma WideningKeepsLinks(m: Memory, f: Frame, i: nat, add: Flags)
    requires i < 512 && TableAt(m, f)[i].Present() && !Widened(TableAt(m, f)[i], add).Huge()
    ensures var m' := Write(m, f, i, Widened(TableAt(m, f)[i], add));
            && SameLinks(m, m') && SameLinks(m, m)
            && (forall g, j, h :: Linked(m, g, j, h) ==> Linked(m', g, j, h))
  {
  }

  // ---------------------------------------------------------------- landing

  /** Whatever link is written to entry `i` of table `f`, the address `p` reaches the linked table.
      A link that is there already may only be rewritten with its own address. */
  ghost predicate Lands(m: Memory, root: Frame, f: Frame, i: nat, p: Page4KiB)
    requires i < 512
  {
    var was := TableAt(m, f)[i];
    && (forall e: Entry :: e.IsTable() && (was.IsUnused() || e.addr == was.addr)
                       ==> TableOf(Write(m, f, i, e), root, p) == Some(e.addr))
    && (was.IsTable() ==> TableOf(m, root, p) == Some(was.addr))
  }

  /** Rewriting an entry keeps a link, when it does not point the link elsewhere. */
  lemma LinkKept(m: Memory, f: Frame, i: nat, e: Entry, g: Frame, j: nat, h: Frame)
    requires Linked(m, g, j, h) && i < 512 && e.IsTable()
    requires TableAt(m, f)[i].IsUnused() || e.addr == TableAt(m, f)[i].addr
    ensures Linked(Write(m, f, i, e), g, j, h) && Linked(Write(m, f, i, e), f, i, e.addr)
  {
  }

  lemma SelfMappedIsLink(m: Memory, root: Frame, r: nat)
    ensures SelfMapped(m, root, r) <==> Linked(m, root, r, root)
  {
  }

  lemma LandsP3(m: Memory, root: Frame, r: nat, page: VirtAddr)
    requires Linked(m, root, r, root)
    ensures Lands(m, root, root, P4Index(page), P3Page(page, r))
  {
    hide TableOf, P3Page, P4Index;
    var was := TableAt(m, root)[P4Index(page)];
    forall e: Entry | e.IsTable() && (was.IsUnused() || e.addr == was.addr)
      ensures TableOf(Write(m, root, P4Index(page), e), root, P3Page(page, r)) == Some(e.addr)
    {
      LinkKept(m, root, P4Index(page), e, root, r, root);
      P3PageIsP3Table(Write(m, root, P4Index(page), e), root, r, page);
    }
    if was.IsTable() { P3PageIsP3Table(m, root, r, page); }
  }

  lemma LandsP2(m: Memory, root: Frame, r: nat, page: VirtAddr, p3: Frame)
    requires Linked(m, root, r, root) && Linked(m, root, P4Index(page), p3)
    ensures Lands(m, root, p3, P3Index(page), P2Page(page, r))
  {
    hide TableOf, P2Page, P4Index, P3Index;
    var i := P3Index(page);
    var was := TableAt(m, p3)[i];
    forall e: Entry | e.IsTable() && (was.IsUnused() || e.addr == was.addr)
      ensures TableOf(Write(m, p3, i, e), root, P2Page(page, r)) == Some(e.addr)
    {
      LinkKept(m, p3, i, e, root, r, root);
      LinkKept(m, p3, i, e, root, P4Index(page), p3);
      hide TableAt, Write;
      P2PageIsP2Table(Write(m, p3, i, e), root, r, page);
    }
    if was.IsTable() { P2PageIsP2Table(m, root, r, page); }
  }

  lemma LandsP1(m: Memory, root: Frame, r: nat, page: VirtAddr, p3: Frame, p2: Frame)
    requires Linked(m, root, r, root) && Linked(m, root, P4Index(page), p3) && Linked(m, p3, P3Index(page), p2)
    ensures Lands(m, root, p2, P2Index(page), P1Page(page, r))
  {
    hide TableOf, P1Page, P4Index, P3Index, P2Index;
    var i := P2Index(page);
    var was := TableAt(m, p2)[i];
    forall e: Entry | e.IsTable() && (was.IsUnused() || e.addr == was.addr)
      ensures TableOf(Write(m, p2, i, e), root, P1Page(page, r)) == Some(e.addr)
    {
      LinkKept(m, p2, i, e, root, r, root);
      LinkKept(m, p2, i, e, root, P4Index(page), p3);
      LinkKept(m, p2, i, e, p3, P3Index(page), p2);
      hide TableAt, Write;
      P1PageIsP1Table(Write(m, p2, i, e), root, r, page);
    }
    if was.IsTable() { P1PageIsP1Table(m, root, r, page); }
  }
}
