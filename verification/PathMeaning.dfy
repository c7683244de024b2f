/** What `unmap`, `update_flags`, `set_flags_p*_entry` and `translate_page` answer, and what they mean
for the address space. */
module PathMeaning {
  import opened Wrappers
  import opened Levels
  import opened PageTable
  import opened PageTree
  import opened MemoryTree
  import opened PathOps

  /** The leaf that maps page `v` in the hierarchy below frame `root`. */
  function LeafIn(m: Memory, root: Frame, mask: int, v: nat): Option<Mapping> {
    Leaf(4, View(m, 4, root, mask), v)
  }

  /** The pages of one leaf have that leaf. */
  lemma SameLeafInBlock(m: Memory, root: Frame, mask: int, w: nat, v: nat)
    requires w < PAGES && v < PAGES
    ensures var leaf := LeafIn(m, root, mask, w);
            leaf.Some? && Block(leaf.value.level, w) == Block(leaf.value.level, v) ==> LeafIn(m, root, mask, v) == leaf
  {
    hide View, Block, Leaf;
    SameLeafInTree(4, View(m, 4, root, mask), w, v);
  }

  lemma {:induction false} SameLeafInTree(level: Level, kids: seq<Node>, w: nat, v: nat)
    ensures var leaf := Leaf(level, kids, w);
            leaf.Some? && Block(leaf.value.level, w) == Block(leaf.value.level, v) ==> Leaf(level, kids, v) == leaf
    ensures Leaf(level, kids, w).Some? ==> Leaf(level, kids, w).value.level <= level
    decreases level
  {
    var i := Idx(level, w);
    if i < |kids| {
      if Links(level, kids[i].entry) { SameLeafInTree(level - 1, kids[i].kids, w, v); }
      var leaf := Leaf(level, kids, w);
      if leaf.Some? && Block(leaf.value.level, w) == Block(leaf.value.level, v) {
        CoarserBlock(leaf.value.level, level, w, v);
      }
    }
  }

  ghost predicate SameTables(m: Memory, m': Memory, root: Frame, mask: int) {
    && WF(m', 4, root, mask)
    && AllFrames(4, View(m', 4, root, mask)) == AllFrames(4, View(m, 4, root, mask))
  }

  /** What was sound or proper still is. */
  ghost predicate StaysGood(m: Memory, m': Memory, root: Frame, mask: int, sound: bool, proper: bool) {
    && (sound && Sound(m, 4, root, mask) ==> Sound(m', 4, root, mask))
    && (proper && Proper(m, 4, root, mask) ==> Proper(m', 4, root, mask))
  }

  /** Rewriting one reachable entry as `e`, where `e` has the frames of the old entry. */
  lemma RewriteNode(m: Memory, root: Frame, mask: int, target: Level, v: nat, e: Entry, w: nat)
    requires WF(m, 4, root, mask) && Idx(4, v) != mask && v < PAGES && w < PAGES
    requires WalkTo(m, 4, root, target, v).Ok?
    requires var was := TableAt(m, WalkTo(m, 4, root, target, v).value)[Idx(target, v)];
             (Links(target, e) <==> Links(target, was)) && (Links(target, e) ==> e.addr == was.addr)
    ensures var g := WalkTo(m, 4, root, target, v).value;
            var m' := Write(m, g, Idx(target, v), e);
            && SameTables(m, m', root, mask)
            && StaysGood(m, m', root, mask, IsSoundEntry(target, e), IsProperEntry(target, e))
            && LeafIn(m', root, mask, w) ==
               if Block(target, w) == Block(target, v) && !Links(target, e) then LeafOf(target, e)
               else LeafIn(m, root, mask, w)
  {
    hide Place, Tree, At, WalkTo, Idx, Frames, Leaf, SoundTable, ProperTable, View, Unique, LeafOf, IsSoundEntry, IsProperEntry;
    var kids := View(m, 4, root, mask);
    WalkIsAt(m, 4, root, mask, target, v);
    WriteIsPlace(m, 4, root, mask, target, v, e);
    KeepsKids(m, 4, root, mask, target, v, e);
    var was := At(4, kids, target, v).value;
    RewriteInTree(kids, target, v, Node(e, if Links(target, e) then was.kids else []), w);
  }

  /** An entry as it may stand in a sound table. */
  predicate IsSoundEntry(level: Level, e: Entry) {
    Links(level, e) || e.IsUnused() || (level <= 3 && IsLeafEntry(level, e))
  }

  /** An entry as it may stand in a proper table. */
  predicate IsProperEntry(level: Level, e: Entry) {
    Links(level, e) || e.IsUnused() || IsProperLeaf(level, e)
  }

  lemma RewriteInTree(kids: seq<Node>, target: Level, v: nat, n: Node, w: nat)
    requires v < PAGES && w < PAGES && At(4, kids, target, v).Some?
    requires var was := At(4, kids, target, v).value;
             && (Links(target, n.entry) <==> Links(target, was.entry))
             && (if Links(target, n.entry) then n.entry.addr == was.entry.addr && n.kids == was.kids else n.kids == [])
    ensures var kids' := Place(4, kids, target, v, n);
            && AllFrames(4, kids') == AllFrames(4, kids)
            && (SoundTable(4, kids) && IsSoundEntry(target, n.entry) ==> SoundTable(4, kids'))
            && (ProperTable(4, kids) && IsProperEntry(target, n.entry) ==> ProperTable(4, kids'))
            && Leaf(4, kids', w) ==
               if Block(target, w) == Block(target, v) && !Links(target, n.entry) then LeafOf(target, n.entry)
               else Leaf(4, kids, w)
  {
    hide Place, At, Idx, Frames, Leaf, SoundTable, ProperTable;
    var was := At(4, kids, target, v).value;
    FramesOfPlace(4, kids, target, v, n);
    SameNodeFrames(target, was, n);
    Cancel(AllFrames(4, Place(4, kids, target, v, n)), AllFrames(4, kids), NodeFrames(target, n));
    LeafOfPlace(4, kids, target, v, n, w);
    if SoundTable(4, kids) { PlaceKeepsSound(4, kids, target, v, n); }
    if ProperTable(4, kids) { PlaceKeepsProper(4, kids, target, v, n); }
  }

  lemma SameNodeFrames(level: Level, was: Node, n: Node)
    requires (Links(level, n.entry) <==> Links(level, was.entry))
    requires Links(level, n.entry) ==> n.entry.addr == was.entry.addr && n.kids == was.kids
    ensures NodeFrames(level, n) == NodeFrames(level, was)
  {
  }

  lemma Cancel(a: multiset<Frame>, b: multiset<Frame>, x: multiset<Frame>)
    requires a + x == b + x
    ensures a == b
  {
    forall f ensures a[f] == b[f] {
      assert (a + x)[f] == (b + x)[f];
    }
  }

  // ---------------------------------------------------------------- entries and leaves

  /** The leaf of the pages of one entry when the walk to that entry succeeds. */
  lemma LeafAtEntry(m: Memory, root: Frame, mask: int, target: Level, v: nat, w: nat)
    requires Idx(4, v) != mask && v < PAGES && w < PAGES
    requires WalkTo(m, 4, root, target, v).Ok? && Block(target, w) == Block(target, v)
    ensures var e := TableAt(m, WalkTo(m, 4, root, target, v).value)[Idx(target, v)];
            var leaf := LeafIn(m, root, mask, w);
            && (Links(target, e) ==> leaf.Some? ==> leaf.value.level < target)
            && (!Links(target, e) ==> leaf == LeafOf(target, e))
  {
    hide Tree, At, WalkTo, Idx, Leaf, View, LeafOf;
    WalkIsAt(m, 4, root, mask, target, v);
    LeafAtNode(View(m, 4, root, mask), target, v, w);
  }

  lemma LeafAtNode(kids: seq<Node>, target: Level, v: nat, w: nat)
    requires v < PAGES && w < PAGES && At(4, kids, target, v).Some?
    requires Block(target, w) == Block(target, v)
    ensures var e, leaf := At(4, kids, target, v).value.entry, Leaf(4, kids, w);
            && (Links(target, e) ==> leaf.Some? ==> leaf.value.level < target)
            && (!Links(target, e) ==> leaf == LeafOf(target, e))
  {
    hide At, Idx, Leaf, LeafOf;
    var n := At(4, kids, target, v).value;
    LeafOfPlace(4, kids, target, v, n, w);
    if Links(target, n.entry) { LeafLevel(target - 1, n.kids, w); }
  }

  lemma {:induction false} LeafLevel(level: Level, kids: seq<Node>, v: nat)
    ensures Leaf(level, kids, v).Some? ==> Leaf(level, kids, v).value.level <= level
    decreases level
  {
    var i := Idx(level, v);
    if i < |kids| && Links(level, kids[i].entry) {
      LeafLevel(level - 1, kids[i].kids, v);
    }
  }

  /** Where the walk to the entry of level `target` gets, told by the leaf and the link of the page.
      An entry that is neither is unused or, above level 1, ignored for want of both PRESENT and
      HUGE_PAGE. */
  lemma WalkByLeaf(m: Memory, root: Frame, mask: int, target: Level, v: nat)
    requires Idx(4, v) != mask && v < PAGES
    ensures var walk, leaf := WalkTo(m, 4, root, target, v), LeafIn(m, root, mask, v);
            var entry, link := EntryOn(m, root, mask, target, v), LinkAt(m, root, mask, target, v);
            && (walk == Err(MappedToHugePage) <==> leaf.Some? && leaf.value.level > target)
            && (walk.Err? ==> leaf == None || leaf.value.level > target)
            && (walk == Err(NotMapped) ==> leaf == None)
            && (walk.Ok? <==> entry.Some?)
            && (walk.Ok? ==> entry.value == TableAt(m, walk.value)[Idx(target, v)])
            && (link.Some? ==> entry == link && Links(target, link.value) && (leaf.Some? ==> leaf.value.level < target))
            && (entry.Some? && link == None ==> !Links(target, entry.value) && leaf == LeafOf(target, entry.value))
  {
    hide View, WalkTo, Leaf, Idx, TableAt;
    WalkIsPath(m, root, mask, target, v);
    if WalkTo(m, 4, root, target, v).Ok? {
      LeafAtEntry(m, root, mask, target, v, v);
    } else {
      WalkFailure(m, 4, root, mask, target, v);
    }
  }

  // ---------------------------------------------------------------- unmap

  /** What `unmap` answers, on any memory: an error below a larger leaf or on a link, an error where
      nothing is mapped or the leaf is not present, and otherwise the frame, if it is aligned. */
  lemma UnmapAnswer(m: Memory, root: Frame, mask: int, size: Level, v: nat)
    requires Idx(4, v) != mask && v < PAGES && size <= 3
    ensures var leaf := LeafIn(m, root, mask, v);
            UnmapIn(m, 4, root, size, v).res ==
            if LinkAt(m, root, mask, size, v).Some? then Err(UnmapParentEntryHugePage)
            else if leaf == None then Err(UnmapPageNotMapped)
            else if leaf.value.level > size then Err(UnmapParentEntryHugePage)
            else if PRESENT !in leaf.value.entry.flags then Err(UnmapPageNotMapped)
            else if !LeafAligned(size, leaf.value.entry.addr) then Err(UnmapInvalidFrameAddress(leaf.value.entry.addr))
            else Ok(leaf.value.entry.addr)
  {
    hide WalkTo, Idx, TableAt, LeafIn, LinkAt, EntryOn, LeafAligned;
    WalkByLeaf(m, root, mask, size, v);
  }

  /** On a proper hierarchy `unmap` succeeds exactly on a page mapped at its size, and never reports an
      invalid frame address. */
  lemma UnmapSucceedsIff(m: Memory, root: Frame, mask: int, size: Level, v: nat)
    requires Proper(m, 4, root, mask) && Idx(4, v) != mask && v < PAGES && size <= 3
    ensures var res, leaf := UnmapIn(m, 4, root, size, v).res, LeafIn(m, root, mask, v);
            && (res.Ok? <==> leaf.Some? && leaf.value.level == size)
            && !(res.Err? && res.error.UnmapInvalidFrameAddress?)
  {
    hide Leaf, Idx, View, UnmapIn, LinkAt, ProperTable;
    UnmapAnswer(m, root, mask, size, v);
    LeafIsProper(4, View(m, 4, root, mask), v);
    if LeafIn(m, root, mask, v).Some? { LinkHidesLeaf(m, root, mask, size, v); }
  }

  lemma LinkHidesLeaf(m: Memory, root: Frame, mask: int, size: Level, v: nat)
    requires Idx(4, v) != mask && v < PAGES && LeafIn(m, root, mask, v).Some?
    ensures LinkAt(m, root, mask, size, v).Some? <==> LeafIn(m, root, mask, v).value.level < size
  {
    hide LeafIn, Idx, WalkTo, TableAt, LinkAt, EntryOn;
    WalkByLeaf(m, root, mask, size, v);
  }

  lemma {:induction false} LeafIsProper(level: Level, kids: seq<Node>, v: nat)
    requires ProperTable(level, kids)
    ensures var leaf := Leaf(level, kids, v);
            leaf.Some? ==> leaf.value.level <= level && IsProperLeaf(leaf.value.level, leaf.value.entry)
    decreases level
  {
    hide Idx, LeafAligned;
    var i := Idx(level, v);
    if i < |kids| {
      assert ProperNode(level, kids[i]);
      if Links(level, kids[i].entry) { LeafIsProper(level - 1, kids[i].kids, v); }
    }
  }

  /** What `unmap` writes, on any memory: it clears the entry of the page, or nothing. */
  lemma UnmapWrites(m: Memory, root: Frame, mask: int, size: Level, v: nat)
    requires Idx(4, v) != mask && size <= 3
    ensures var out, table := UnmapIn(m, 4, root, size, v), TableOn(m, root, mask, size, v);
            if out.res.Ok? then table.Some? && out.m == Write(m, table.value, Idx(size, v), Entry(0, {}))
            else out.m == m
  {
    hide WalkTo, Idx, TableAt, TableOn, EntryOn, LeafAligned;
    WalkIsPath(m, root, mask, size, v);
  }

  /** A successful `unmap` removes exactly the pages of the unmapped span and keeps every table;
      a failed one changes no memory. */
  lemma UnmapRemovesOnePage(m: Memory, root: Frame, mask: int, size: Level, v: nat, w: nat)
    requires WF(m, 4, root, mask) && Idx(4, v) != mask && v < PAGES && w < PAGES && size <= 3
    ensures var out := UnmapIn(m, 4, root, size, v);
            if out.res.Ok? then
              && SameTables(m, out.m, root, mask)
              && StaysGood(m, out.m, root, mask, true, true)
              && LeafIn(out.m, root, mask, w) ==
                 if Block(size, w) == Block(size, v) then None else LeafIn(m, root, mask, w)
            else out.m == m
  {
    hide WF, SameTables, LeafIn, StaysGood;
    if UnmapIn(m, 4, root, size, v).res.Ok? { RewriteNode(m, root, mask, size, v, UNUSED, w); }
  }

  // ---------------------------------------------------------------- flags

  /** What `update_flags` and `set_flags_p*_entry` answer, on any memory, told by the entry of their
      level: they succeed on every used one, and otherwise report a larger leaf or nothing mapped. */
  lemma SetFlagsAnswer(m: Memory, root: Frame, mask: int, target: Level, v: nat, flags: Flags)
    requires Idx(4, v) != mask && v < PAGES
    ensures var entry, leaf := EntryOn(m, root, mask, target, v), LeafIn(m, root, mask, v);
            SetFlagsIn(m, 4, root, target, v, flags).res ==
            if entry.Some? && entry.value != Entry(0, {}) then Ok(())
            else if leaf.Some? && leaf.value.level > target then Err(FlagsParentEntryHugePage)
            else Err(FlagsPageNotMapped)
  {
    hide WalkTo, Idx, TableAt, LeafIn, LinkAt, EntryOn;
    WalkByLeaf(m, root, mask, target, v);
  }

  /** What they write, on any memory: the entry keeps its address and has exactly the given flags. */
  lemma SetFlagsWrites(m: Memory, root: Frame, mask: int, target: Level, v: nat, flags: Flags)
    requires Idx(4, v) != mask
    ensures var out, table := SetFlagsIn(m, 4, root, target, v, flags), TableOn(m, root, mask, target, v);
            var entry := EntryOn(m, root, mask, target, v);
            if out.res.Ok? then
              && table.Some? && entry.Some?
              && out.m == Write(m, table.value, Idx(target, v), Entry(entry.value.addr, flags))
            else out.m == m
  {
    hide WalkTo, Idx, TableAt, TableOn, EntryOn;
    WalkIsPath(m, root, mask, target, v);
  }

  /** In the hierarchy: the entry of the page is the one written, and the entries above it, and those
      of every level off its span, are as they were. */
  lemma SetFlagsSetsOneEntry(m: Memory, root: Frame, mask: int, target: Level, v: nat, flags: Flags, t: Level, w: nat)
    requires WF(m, 4, root, mask) && Idx(4, v) != mask && v < PAGES && w < PAGES
    requires t >= target || Block(target, w) != Block(target, v)
    requires EntryOn(m, root, mask, target, v).Some? && EntryOn(m, root, mask, target, v).value != Entry(0, {})
    ensures var m' := SetFlagsIn(m, 4, root, target, v, flags).m;
            EntryOn(m', root, mask, t, w) ==
            if t == target && Block(target, w) == Block(target, v)
            then Some(Entry(EntryOn(m, root, mask, target, v).value.addr, flags))
            else EntryOn(m, root, mask, t, w)
  {
    hide WF, View, Idx, WalkTo, At, Place, NodeAt, TableAt, Block;
    OneSpace(w, v);
    WalkIsPath(m, root, mask, target, v);
    var e := Entry(EntryOn(m, root, mask, target, v).value.addr, flags);
    WriteIsPlace(m, 4, root, mask, target, v, e);
    AtOfPlace(4, View(m, 4, root, mask), target, v, NodeAt(SetFlagsIn(m, 4, root, target, v, flags).m, target, e), t, w);
    EntryOfNode(SetFlagsIn(m, 4, root, target, v, flags).m, target, e);
  }

  lemma OneSpace(v: nat, w: nat)
    requires v < PAGES && w < PAGES
    ensures Block(5, v) == Block(5, w)
  {
  }

  lemma EntryOfNode(m: Memory, level: Level, e: Entry)
    ensures NodeAt(m, level, e).entry == e
  {
  }

  /** Replacing a node replaces no other entry of its level, and none above. */
  lemma {:induction false} AtOfPlace(level: Level, kids: seq<Node>, target: Level, v: nat, n: Node, t: Level, w: nat)
    requires target <= level && t <= level && At(level, kids, target, v).Some?
    requires t >= target || Block(target, w) != Block(target, v)
    requires Block(level + 1, w) == Block(level + 1, v)
    ensures var was, now := At(level, kids, t, w), At(level, Place(level, kids, target, v, n), t, w);
            if t == target && Block(target, w) == Block(target, v) then now == Some(n)
            else (was.Some? <==> now.Some?) && (was.Some? ==> now.value.entry == was.value.entry)
    decreases level
  {
    var i := Idx(level, v);
    SameEntry(level, w, v);
    if Block(target, w) == Block(target, v) { CoarserBlock(target, level, w, v); }
    var kids' := Place(level, kids, target, v, n);
    if Idx(level, w) != i {
      assert |kids'| == |kids| && forall j :: 0 <= j < |kids| && j != i ==> kids'[j] == kids[j];
    } else if level > t && level > target {
      AtOfPlace(level - 1, kids[i].kids, target, v, n, t, w);
    }
  }

  /** The flags a reachable entry may be given without changing what kind of entry it is: a link
      stays a link, a leaf no link. */
  predicate KeepsKind(target: Level, e: Entry, flags: Flags) {
    if Links(target, e) then PRESENT in flags && HUGE_PAGE !in flags
    else e.IsUnused() || target == 1 || HUGE_PAGE in flags
  }

  /** A leaf with other flags; at level 1 it may be no leaf any more. */
  function Reflagged(leaf: Mapping, flags: Flags): Option<Mapping> {
    LeafOf(leaf.level, Entry(leaf.entry.addr, flags))
  }

  /** Setting flags that keep the kind of the entry changes the flags of the leaf rewritten, if it
      is one, and nothing else; on an unused or unreachable entry memory is unchanged. */
  lemma SetFlagsChangesFlagsOnly(m: Memory, root: Frame, mask: int, target: Level, v: nat, flags: Flags, w: nat)
    requires WF(m, 4, root, mask) && Sound(m, 4, root, mask) && Idx(4, v) != mask && v < PAGES && w < PAGES
    requires EntryOn(m, root, mask, target, v).Some? ==> KeepsKind(target, EntryOn(m, root, mask, target, v).value, flags)
    ensures var out, leaf := SetFlagsIn(m, 4, root, target, v, flags), LeafIn(m, root, mask, w);
            if out.res.Ok? then
              && SameTables(m, out.m, root, mask)
              && StaysGood(m, out.m, root, mask, true, PRESENT in flags)
              && LeafIn(out.m, root, mask, w) ==
                 if leaf.Some? && leaf.value.level == target && Block(target, w) == Block(target, v)
                 then Reflagged(leaf.value, flags)
                 else leaf
            else out.m == m
  {
    hide WF, Sound, SameTables, LeafIn, StaysGood, Idx, WalkTo, TableAt, IsProperEntry, LeafAligned, EntryOn, Block;
    var out := SetFlagsIn(m, 4, root, target, v, flags);
    if out.res.Ok? {
      WalkIsPath(m, root, mask, target, v);
      var e := EntryOn(m, root, mask, target, v).value;
      EntryIsSound(m, root, mask, target, v);
      LeafAtEntry(m, root, mask, target, v, v);
      if Block(target, w) == Block(target, v) { LeafAtEntry(m, root, mask, target, v, w); }
      RewriteNode(m, root, mask, target, v, Entry(e.addr, flags), w);
      KindKept(m, out.m, root, mask, target, v, e, flags);
    }
  }

  lemma EntryIsSound(m: Memory, root: Frame, mask: int, target: Level, v: nat)
    requires EntryOn(m, root, mask, target, v).Some?
    ensures Sound(m, 4, root, mask) ==> IsSoundEntry(target, EntryOn(m, root, mask, target, v).value)
    ensures Proper(m, 4, root, mask) ==> IsProperEntry(target, EntryOn(m, root, mask, target, v).value)
  {
    hide View, At, LeafAligned;
    var kids := View(m, 4, root, mask);
    var n := At(4, kids, target, v).value;
    if Sound(m, 4, root, mask) { PlaceKeepsSound(4, kids, target, v, n); }
    if Proper(m, 4, root, mask) { PlaceKeepsProper(4, kids, target, v, n); }
  }

  /** Flags that keep the kind of a used entry keep it sound, and with PRESENT proper. */
  lemma KindKept(m: Memory, m': Memory, root: Frame, mask: int, target: Level, v: nat, e: Entry, flags: Flags)
    requires Sound(m, 4, root, mask) && !e.IsUnused() && KeepsKind(target, e, flags)
    requires EntryOn(m, root, mask, target, v) == Some(e)
    requires StaysGood(m, m', root, mask, IsSoundEntry(target, Entry(e.addr, flags)), IsProperEntry(target, Entry(e.addr, flags)))
    ensures StaysGood(m, m', root, mask, true, PRESENT in flags)
  {
    hide Sound, Proper, EntryOn, LeafAligned;
    EntryIsSound(m, root, mask, target, v);
  }

  /** Whatever flags are set, the pages outside the span of the entry keep their mapping, and those
      inside have what the rewritten entry stands for: nothing, a leaf, or what its table maps. */
  lemma SetFlagsRewritesOneSpan(m: Memory, root: Frame, mask: int, target: Level, v: nat, flags: Flags, w: nat)
    requires WF(m, 4, root, mask) && Idx(4, v) != mask && v < PAGES && w < PAGES
    requires EntryOn(m, root, mask, target, v).Some? && EntryOn(m, root, mask, target, v).value != Entry(0, {})
    ensures var m' := SetFlagsIn(m, 4, root, target, v, flags).m;
            LeafIn(m', root, mask, w) ==
            if Block(target, w) == Block(target, v)
            then NodeLeaf(target, NodeAt(m', target, Entry(EntryOn(m, root, mask, target, v).value.addr, flags)), w)
            else LeafIn(m, root, mask, w)
  {
    hide WF, View, Idx, WalkTo, At, Place, Leaf, NodeAt, NodeLeaf, TableAt, Block;
    OneSpace(w, v);
    WalkIsPath(m, root, mask, target, v);
    var e := Entry(EntryOn(m, root, mask, target, v).value.addr, flags);
    WriteIsPlace(m, 4, root, mask, target, v, e);
    LeafOfPlace(4, View(m, 4, root, mask), target, v, NodeAt(SetFlagsIn(m, 4, root, target, v, flags).m, target, e), w);
  }

  /** Unless they turn a leaf into a link, new flags keep the hierarchy a tree; it stays sound if and
      only if the rewritten entry is a link, a leaf or unused. */
  lemma SetFlagsKeepsTreeIff(m: Memory, root: Frame, mask: int, target: Level, v: nat, flags: Flags)
    requires WF(m, 4, root, mask) && Sound(m, 4, root, mask)
    requires Idx(4, v) != mask
    requires EntryOn(m, root, mask, target, v).Some? && EntryOn(m, root, mask, target, v).value != Entry(0, {})
    requires var was := EntryOn(m, root, mask, target, v).value;
             Links(target, Entry(was.addr, flags)) ==> Links(target, was)
    ensures var m' := SetFlagsIn(m, 4, root, target, v, flags).m;
            && WF(m', 4, root, mask)
            && (Sound(m', 4, root, mask) <==> IsSoundEntry(target, Entry(EntryOn(m, root, mask, target, v).value.addr, flags)))
  {
    hide Place, Tree, At, WalkTo, Idx, Frames, SoundTable, View, IsSoundEntry;
    var kids := View(m, 4, root, mask);
    WalkIsPath(m, root, mask, target, v);
    var was := EntryOn(m, root, mask, target, v).value;
    var e := Entry(was.addr, flags);
    WriteIsPlace(m, 4, root, mask, target, v, e);
    KeepsKids(m, 4, root, mask, target, v, e);
    PlaceIsSoundIff(4, kids, target, v, Node(e, if Links(target, e) then At(4, kids, target, v).value.kids else []));
    FewerFramesInPlace(m, root, mask, target, v, e);
  }

  lemma FewerFramesInPlace(m: Memory, root: Frame, mask: int, target: Level, v: nat, e: Entry)
    requires WF(m, 4, root, mask) && At(4, View(m, 4, root, mask), target, v).Some?
    requires KeepsLink(target, At(4, View(m, 4, root, mask), target, v).value.entry, e)
    ensures var kids := View(m, 4, root, mask);
            var n := Node(e, if Links(target, e) then At(4, kids, target, v).value.kids else []);
            Unique(multiset{root} + AllFrames(4, Place(4, kids, target, v, n)))
  {
    hide Place, Tree, At, Idx, Frames, View;
    var kids := View(m, 4, root, mask);
    var was := At(4, kids, target, v).value;
    var n := Node(e, if Links(target, e) then was.kids else []);
    FramesOfPlace(4, kids, target, v, n);
    FewerIsUnique(root, AllFrames(4, Place(4, kids, target, v, n)), AllFrames(4, kids),
                  NodeFrames(target, was), NodeFrames(target, n));
  }

  lemma FewerIsUnique(root: Frame, a: multiset<Frame>, b: multiset<Frame>, x: multiset<Frame>, y: multiset<Frame>)
    requires a + x == b + y && y <= x && Unique(multiset{root} + b)
    ensures Unique(multiset{root} + a)
  {
    forall f ensures (multiset{root} + a)[f] <= 1 {
      assert (a + x)[f] == (b + y)[f];
      assert (multiset{root} + b)[f] <= 1;
    }
  }

  lemma {:induction false} PlaceIsSoundIff(level: Level, kids: seq<Node>, target: Level, v: nat, n: Node)
    requires target <= level && SoundTable(level, kids) && At(level, kids, target, v).Some?
    requires Links(target, n.entry) ==>
               Links(target, At(level, kids, target, v).value.entry) && n.kids == At(level, kids, target, v).value.kids
    requires !Links(target, n.entry) ==> n.kids == []
    ensures SoundTable(level, Place(level, kids, target, v, n)) <==> IsSoundEntry(target, n.entry)
    decreases level
  {
    hide Idx, LeafAligned;
    var i := Idx(level, v);
    NodeOf(level, kids, i);
    PlaceKeepsSound(level, kids, target, v, n);
    assert IsSoundEntry(target, n.entry) <==> SoundNode(target, n);
    var kids' := Place(level, kids, target, v, n);
    if SoundTable(level, kids') {
      NodeOf(level, kids', i);
      if level > target { PlaceIsSoundIff(level - 1, kids[i].kids, target, v, n); }
    }
  }

  /** Rewriting an entry on the path of `v` touches no other entry of the root table. */
  lemma WriteKeepsRootEntry(m: Memory, root: Frame, mask: int, target: Level, v: nat, e: Entry, j: nat)
    requires WF(m, 4, root, mask) && Idx(4, v) != mask && WalkTo(m, 4, root, target, v).Ok?
    requires j < 512 && j != Idx(4, v)
    ensures TableAt(Write(m, WalkTo(m, 4, root, target, v).value, Idx(target, v), e), root)[j] == TableAt(m, root)[j]
  {
    hide WF, View, Idx;
    WalkStaysInside(m, 4, root, mask, target, v);
    if target < 4 {
      UnfoldFirst(m, root, target, v);
      ChildWF(m, 4, root, mask, Idx(4, v));
    }
  }

  lemma UnfoldFirst(m: Memory, root: Frame, target: Level, v: nat)
    requires target < 4 && WalkTo(m, 4, root, target, v).Ok?
    ensures Links(4, TableAt(m, root)[Idx(4, v)])
  {
  }

  // ---------------------------------------------------------------- translate_page

  /** What `translate_page` answers, on any memory.  The code does not look at HUGE_PAGE in the entry
      it ends at, so on a link it answers with the frame of the table whenever that is aligned,
      although the documentation promises an error. */
  lemma TranslatePageAnswer(m: Memory, root: Frame, mask: int, size: Level, v: nat)
    requires Idx(4, v) != mask && v < PAGES && size <= 3
    ensures var entry, leaf := EntryOn(m, root, mask, size, v), LeafIn(m, root, mask, v);
            TranslatePageIn(m, 4, root, size, v) ==
            if entry.Some? && entry.value != Entry(0, {}) then
              (if LeafAligned(size, entry.value.addr) then Ok(entry.value.addr) else Err(InvalidFrameAddress(entry.value.addr)))
            else if leaf.Some? && leaf.value.level > size then Err(ParentEntryHugePage)
            else Err(PageNotMapped)
  {
    hide WalkTo, Idx, TableAt, LeafIn, LinkAt, EntryOn, LeafAligned;
    WalkByLeaf(m, root, mask, size, v);
  }

  /** On a proper hierarchy: the frame of a mapping of this size, except on a link. */
  lemma TranslatePageIff(m: Memory, root: Frame, mask: int, size: Level, v: nat)
    requires Proper(m, 4, root, mask) && Idx(4, v) != mask && v < PAGES && size <= 3
    ensures var leaf := LeafIn(m, root, mask, v);
            TranslatePageIn(m, 4, root, size, v) ==
            match LinkAt(m, root, mask, size, v)
            case Some(link) => if LeafAligned(size, link.addr) then Ok(link.addr) else Err(InvalidFrameAddress(link.addr))
            case None =>
              if leaf == None then Err(PageNotMapped)
              else if leaf.value.level > size then Err(ParentEntryHugePage)
              else Ok(leaf.value.entry.addr)
  {
    hide WalkTo, Idx, TableAt, LeafIn, LinkAt, EntryOn, LeafAligned, TranslatePageIn, Proper;
    WalkByLeaf(m, root, mask, size, v);
    TranslatePageAnswer(m, root, mask, size, v);
    if EntryOn(m, root, mask, size, v).Some? { EntryIsSound(m, root, mask, size, v); }
    LinkIsUsed(m, root, mask, size, v);
  }

  lemma LinkIsUsed(m: Memory, root: Frame, mask: int, target: Level, v: nat)
    ensures LinkAt(m, root, mask, target, v).Some? ==> LinkAt(m, root, mask, target, v).value != Entry(0, {})
  {
  }

  /** `update_flags` of a huge page keeps where page `v` is mapped exactly when the entry it ends at
      does not link to a table.  The code sets HUGE_PAGE without looking, so on a link it turns the
      table's frame into a huge mapping. */
  lemma UpdateFlagsKeepsMappingIff(m: Memory, root: Frame, mask: int, size: Level, v: nat, flags: Flags)
    requires WF(m, 4, root, mask) && Sound(m, 4, root, mask) && Idx(4, v) != mask && v < PAGES && 1 < size <= 3
    requires HUGE_PAGE in flags && SetFlagsIn(m, 4, root, size, v, flags).res.Ok?
    ensures var out := SetFlagsIn(m, 4, root, size, v, flags);
            var before, after := LeafIn(m, root, mask, v), LeafIn(out.m, root, mask, v);
            LinkAt(m, root, mask, size, v).None? <==>
            (before.Some? && after.Some? && before.value.level == after.value.level
             && before.value.entry.addr == after.value.entry.addr)
  {
    hide WF, Sound, Idx, LeafIn, WalkTo, EntryOn, LinkAt, SetFlagsIn, TableAt, NodeAt;
    WalkByLeaf(m, root, mask, size, v);
    SetFlagsAnswer(m, root, mask, size, v, flags);
    EntryIsSound(m, root, mask, size, v);
    var e := Entry(EntryOn(m, root, mask, size, v).value.addr, flags);
    SetFlagsRewritesOneSpan(m, root, mask, size, v, flags, v);
    EntryOfNode(SetFlagsIn(m, 4, root, size, v, flags).m, size, e);
    LinkIsEntry(m, root, mask, size, v);
  }

  lemma LinkIsEntry(m: Memory, root: Frame, mask: int, target: Level, v: nat)
    ensures LinkAt(m, root, mask, target, v) ==
            if EntryOn(m, root, mask, target, v).Some? && Links(target, EntryOn(m, root, mask, target, v).value)
            then EntryOn(m, root, mask, target, v) else None
  {
  }
}
