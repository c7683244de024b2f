/** What the recursive mapper's operations mean: they are the direct mapper's on the hierarchy
without the recursive entry, and they keep the memory recursively mapped.  `map_to` is also told by
the arguments of the call. */
module RecursiveMeaning {
  import opened Wrappers
  import opened Levels
  import opened PageTable
  import opened PageTree
  import opened MemoryTree
  import opened MapTo
  import opened MapToMeaning
  import opened PathOps
  import opened PathMeaning
  import opened CleanUp
  import opened CleanUpMeaning
  import opened Addr
  import opened MappingMeaning
  import opened Page
  import opened Translate
  import opened Mapped
  import opened DefaultMapTo
  import opened MapToCalls
  import opened Recursive
  import opened Runs
  import opened RecursiveWalk
  import opened RecursivePath
  import opened RecursiveEntry
  import opened RecursiveClean

  /** Memory with entry `r` of the root table cleared. */
  function WithoutEntry(m: Memory, root: Frame, r: nat): Memory
    requires r < 512
  {
    Write(m, root, r, UNUSED)
  }

  /** A table of the hierarchy whose entry `r` of `root` is ignored: `root` itself, or a table
      from which `root` cannot be reached. */
  ghost predicate Ignores(m: Memory, root: Frame, r: nat, level: Level, f: Frame, mask: int) {
    && r < 512 && WF(m, level, f, mask)
    && mask == (if f == root then r else -1)
    && root !in AllFrames(level, View(m, level, f, mask))
  }

  ghost function Cleared(out: CleanOut, root: Frame, r: nat): CleanOut
    requires r < 512
  {
    CleanOut(WithoutEntry(out.m, root, r), out.log)
  }

  /** Clearing the recursive entry before a clean-up that skips it, or after, is the same. */
  lemma {:induction false} CleanCommutes(m: Memory, root: Frame, r: nat, level: Level, f: Frame, mask: int,
                                         base: nat, lo: nat, hi: nat, n: nat)
    requires Ignores(m, root, r, level, f, mask) && n <= 512
    ensures CleanUpto(WithoutEntry(m, root, r), level, f, -1, base, lo, hi, n)
         == Cleared(CleanUpto(m, level, f, mask, base, lo, hi, n), root, r)
    decreases level, n + 1
  {
    hide Ignores, WithoutEntry, CleanEntry, Offset;
    if n > 0 {
      CleanCommutes(m, root, r, level, f, mask, base, lo, hi, n - 1);
      StillIgnores(m, root, r, level, f, mask, base, lo, hi, n - 1);
      var s := CleanUpto(m, level, f, mask, base, lo, hi, n - 1);
      EntryCommutes(s.m, root, r, level, f, mask, base + Offset(level, n - 1), lo, hi, n - 1);
    }
  }

  lemma {:induction false} EntryCommutes(m: Memory, root: Frame, r: nat, level: Level, f: Frame, mask: int,
                                         b: nat, lo: nat, hi: nat, i: nat)
    requires Ignores(m, root, r, level, f, mask) && i < 512
    ensures CleanEntry(WithoutEntry(m, root, r), level, f, -1, b, lo, hi, i)
         == Cleared(CleanEntry(m, level, f, mask, b, lo, hi, i), root, r)
    decreases level, 0
  {
    hide WF, View, Frames, CleanUpto, Width, Meets;
    var e := TableAt(m, f)[i];
    if i != mask && Links(level, e) {
      ChildWF(m, level, f, mask, i);
      CleanCommutes(m, root, r, level - 1, e.addr, -1, b, lo, hi, 512);
      WritesCommute(CleanUpto(m, level - 1, e.addr, -1, b, lo, hi, 512).m, root, r, f, i);
    }
  }

  lemma WritesCommute(m: Memory, root: Frame, r: nat, f: Frame, i: nat)
    requires r < 512 && i < 512 && (f == root ==> i != r)
    ensures Write(WithoutEntry(m, root, r), f, i, UNUSED) == WithoutEntry(Write(m, f, i, UNUSED), root, r)
  {
    if f == root {
      var t := TableAt(m, f);
      assert t[r := UNUSED][i := UNUSED] == t[i := UNUSED][r := UNUSED];
    }
  }

  lemma StillIgnores(m: Memory, root: Frame, r: nat, level: Level, f: Frame, mask: int, base: nat, lo: nat, hi: nat, n: nat)
    requires Ignores(m, root, r, level, f, mask) && n <= 512
    ensures Ignores(CleanUpto(m, level, f, mask, base, lo, hi, n).m, root, r, level, f, mask)
  {
    hide WF, View, Frames, CleanUpto, CleanedUpto;
    CleanIsPrune(m, level, f, mask, base, lo, hi, n);
    CleanedIsWF(m, level, f, mask, base, lo, hi, n, CleanUpto(m, level, f, mask, base, lo, hi, n));
    FewerFrames(m, level, f, mask, base, lo, hi, n);
  }

  /** The recursive clean-up does to the hierarchy without the recursive entry exactly what the
      direct clean-up does, gives back the same frames in the same order, never gives back the
      root table and never changes the recursive entry. */
  lemma RecursiveCleanUpIsDirect(m: Memory, root: Frame, r: nat, lo: nat, hi: nat)
    requires SelfMapped(m, root, r) && WF(m, 4, root, r)
    ensures var out := CleanRange(m, root, r, lo, hi);
            && CleanRange(WithoutEntry(m, root, r), root, -1, lo, hi) == CleanOut(WithoutEntry(out.m, root, r), out.log)
            && TableAt(out.m, root)[r] == TableAt(m, root)[r]
            && root !in out.log
            && SelfMapped(out.m, root, r) && WF(out.m, 4, root, r) && StaysGood(m, out.m, root, r, true, true)
  {
    hide WF, View, Frames, CleanUpto, StaysGood;
    RootOutside(m, root, r);
    CleanCommutes(m, root, r, 4, root, r, 0, lo, hi, 512);
    CleanRangeIsPrune(m, root, r, lo, hi);
    CleanUpIsSafe(m, root, r, lo, hi, 0);
  }

  lemma RootOutside(m: Memory, root: Frame, r: nat)
    requires WF(m, 4, root, r)
    ensures root !in AllFrames(4, View(m, 4, root, r))
  {
    assert (multiset{root} + AllFrames(4, View(m, 4, root, r)))[root] <= 1;
  }

  /** In every state of every run of a recursive mapper the root table is still recursively
      mapped at the same entry and the rest of the hierarchy is a tree. */
  lemma EveryRunStaysRecursive(states: seq<State>, root: Frame, r: nat, ops: seq<Op>, i: nat)
    requires IsRun(states, root, r, ops) && Initial(states[0], root, r) && i <= |ops|
    requires SelfMapped(states[0].m, root, r)
    ensures RecursiveWF(states[i].m, root, r)
  {
    hide IsRun, Initial, WF, Sound;
    EveryRunKeepsInv(states, root, r, ops, i);
    EveryRunKeepsMaskedEntry(states, root, r, ops, i);
  }

  /** A step of the recursive mapper: its flag updates are its own. */
  function RecursiveStep(s: State, root: Frame, r: nat, op: Op): State {
    match op
    case UpdateFlags(target, v, flags) => s.(m := RecursiveSetFlags(s.m, root, target, v, flags).m)
    case _ => Step(s, root, r, op)
  }

  /** In every state of every run the methods of the recursive mapper may be called, and their steps
      are the steps of the run. */
  lemma EveryRunIsRecursive(states: seq<State>, root: Frame, r: nat, ops: seq<Op>, i: nat)
    requires IsRun(states, root, r, ops) && Initial(states[0], root, r) && i < |ops|
    requires SelfMapped(states[0].m, root, r)
    ensures RecursiveWF(states[i].m, root, r)
    ensures ops[i].MapPage? ==>
              Fresh(ops[i].answers, 4 - ops[i].r.size, multiset{root} + AllFrames(4, View(states[i].m, 4, root, r)))
    ensures ops[i].UpdateFlags? ==> Enters(states[i].m, 4, root, ops[i].target, ops[i].v)
    ensures states[i + 1] == RecursiveStep(states[i], root, r, ops[i])
  {
    hide Initial, WF, Sound, View, Frames, Fresh, KeepsKind, WalkTo, MapIn, Idx, Linkable, EntryOn, Enters;
    EveryRunStaysRecursive(states, root, r, ops, i);
    var op := ops[i];
    assert OpPre(states[i], root, r, op);
    if op.UpdateFlags? {
      UncheckedAgreesIff(states[i].m, root, r, op.target, op.v, op.flags);
      MayEnter(states[i].m, root, r, op.target, op.v);
    }
  }

  // ---------------------------------------------------------------- map_to

  /** Two calls that differ only in the flags of new links do the same, as far as results,
      allocator and leaves go. */
  ghost predicate SameButLinks(level: Level, a: MapTreeOut, b: MapTreeOut, w: nat) {
    && a.res == b.res && a.answers == b.answers && a.used == b.used
    && Leaf(level, a.kids, w) == Leaf(level, b.kids, w)
  }

  lemma {:induction false} LinkFlagsDoNotMatter(level: Level, kids: seq<Node>, r: Request, link: Flags, answers: Answers, w: nat)
    requires r.size <= level && Legal(r) && Legal(r.(link := link)) && SoundTable(level, kids)
    ensures SameButLinks(level, MapTree(level, kids, r, answers), MapTree(level, kids, r.(link := link), answers), w)
    decreases level
  {
    hide MapTree, Idx, SoundTable, Frames, Legal, Leaf, SameButLinks;
    var i := Idx(level, r.v);
    var q := r.(link := link);
    NodeOf(level, kids, i);
    if StopsHere(level, kids, r, answers) {
      SameStop(level, kids, r, link, answers, w);
    } else {
      if kids[i].entry.IsUnused() {
        EmptyTableTree(level - 1);
        LinkFlagsDoNotMatter(level - 1, NoKids(), r, link, Later(answers), w);
      } else {
        EntriesBelow(level, kids, i, r.add);
        LinkFlagsDoNotMatter(level - 1, kids[i].kids, r, link, answers, w);
      }
      SameThrough(level, kids, r, link, answers, w);
    }
  }

  lemma SameStop(level: Level, kids: seq<Node>, r: Request, link: Flags, answers: Answers, w: nat)
    requires r.size <= level && |kids| == 512 && StopsHere(level, kids, r, answers)
    ensures SameButLinks(level, MapTree(level, kids, r, answers), MapTree(level, kids, r.(link := link), answers), w)
  {
    hide Idx, Leaf;
  }

  lemma SameThrough(level: Level, kids: seq<Node>, r: Request, link: Flags, answers: Answers, w: nat)
    requires r.size < level && Legal(r) && Legal(r.(link := link)) && SoundTable(level, kids)
    requires |kids| == 512 && !StopsHere(level, kids, r, answers)
    requires var q, n := r.(link := link), kids[Idx(level, r.v)];
             var below, rest := if n.entry.IsUnused() then NoKids() else n.kids,
                                if n.entry.IsUnused() then Later(answers) else answers;
             SameButLinks(level - 1, MapTree(level - 1, below, r, rest), MapTree(level - 1, below, q, rest), w)
    ensures SameButLinks(level, MapTree(level, kids, r, answers), MapTree(level, kids, r.(link := link), answers), w)
  {
    hide MapTree, Idx, SoundTable, Frames, Legal, Leaf;
    var q := r.(link := link);
    ThroughEntry(level, kids, r, answers);
    ThroughEntry(level, kids, q, answers);
    if Idx(level, w) == Idx(level, r.v) {
      LeafThrough(level, kids, r, answers, w);
      LeafThrough(level, kids, q, answers, w);
    } else {
      OffPath(level, kids, r, answers, w);
      OffPath(level, kids, q, answers, w);
    }
  }

  /** `map_to` of the recursive mapper, which makes new links PRESENT and WRITABLE whatever the
      parent flags, gives the result of the direct mapper, makes the same allocator calls and maps
      every page to the same leaf.  With both flags among the parent flags even memory is the same. */
  lemma RecursiveMapToIsDirect(m: Memory, root: Frame, r: nat, size: Level, page: VirtAddr, frame: Frame,
                               flags: Flags, parentFlags: Flags, answers: Answers, w: nat)
    requires SelfMapped(m, root, r) && w < PAGES
    requires MapPre(m, root, r, RequestFor(size, page, frame, flags, parentFlags), answers)
    ensures var direct := MapIn(m, 4, root, RequestFor(size, page, frame, flags, parentFlags), answers);
            var recursive := MapIn(m, 4, root, RecursiveRequest(size, page, frame, flags, parentFlags), answers);
            && recursive.res == direct.res && recursive.answers == direct.answers && recursive.used == direct.used
            && LeafIn(recursive.m, root, r, w) == LeafIn(direct.m, root, r, w)
            && ({PRESENT, WRITABLE} <= parentFlags ==> recursive == direct)
  {
    hide MapIn, MapTree, View, Frames, SoundTable, Fresh, Linkable, Idx, Leaf, WF;
    var q := RequestFor(size, page, frame, flags, parentFlags);
    var q' := RecursiveRequest(size, page, frame, flags, parentFlags);
    AsLegal(m, root, r, q, answers);
    LegalRecursively(size, page, frame, flags, parentFlags);
    LinkFlagsDoNotMatter(4, View(m, 4, root, r), WithPresent(q), q'.link, answers, w);
    MapInIsMapTree(m, 4, root, r, WithPresent(q), answers, Tables(m, root, r));
    MapInIsMapTree(m, 4, root, r, q', answers, Tables(m, root, r));
    if {PRESENT, WRITABLE} <= parentFlags { RequestsAgree(size, page, frame, flags, parentFlags); }
  }

  lemma LegalRecursively(size: Level, page: VirtAddr, frame: Frame, flags: Flags, parentFlags: Flags)
    requires Linkable(RequestFor(size, page, frame, flags, parentFlags))
    ensures Legal(RecursiveRequest(size, page, frame, flags, parentFlags))
    ensures WithPresent(RequestFor(size, page, frame, flags, parentFlags)).(link := parentFlags + {PRESENT, WRITABLE})
         == RecursiveRequest(size, page, frame, flags, parentFlags)
  {
  }

  // ---------------------------------------------------------------- map_to by its arguments

  /** What the recursive `map_to_with_table_flags` answers: as the direct one, but new links can always
      be followed, so it never panics. */
  lemma RecursiveMapToAnswer(m: Memory, root: Frame, r: nat, size: Level, page: VirtAddr, frame: Frame, flags: Flags,
                             parentFlags: Flags, answers: Answers)
    requires SelfMapped(m, root, r) && Callable(m, root, r, size, page, frame, answers)
    ensures var entry, leaf := EntryOn(m, root, r, size, Vpn(page)), LeafIn(m, root, r, Vpn(page));
            MapIn(m, 4, root, RecursiveRequest(size, page, frame, flags, parentFlags), answers).res ==
            if HUGE_PAGE in parentFlags then
              (if TableAt(m, root)[P4Index(page)] == Entry(0, {}) && Answer(answers).None? then FrameAllocationFailed
               else MapResult.ParentEntryHugePage)
            else if entry.Some? then (if entry.value == Entry(0, {}) then MapResult.Mapped else PageAlreadyMapped)
            else if leaf.Some? then MapResult.ParentEntryHugePage
            else if Enough(answers, MissingTables(m, root, size, Vpn(page))) then MapResult.Mapped
            else FrameAllocationFailed
  {
    hide Callable, MapIn, EntryOn, LeafIn, Vpn, Enough, MissingTables, TableAt, P4Index;
    RequestAnswer(m, root, r, RecursiveRequest(size, page, frame, flags, parentFlags), page, frame, answers);
  }

  /** After a successful recursive call every address of the page translates to the frame plus its
      offset, with the flags of the call, and every other address as before. */
  lemma RecursiveMapToMapsFrame(m: Memory, root: Frame, r: nat, size: Level, page: VirtAddr, frame: Frame, flags: Flags,
                                parentFlags: Flags, answers: Answers, a: VirtAddr)
    requires SelfMapped(m, root, r) && Callable(m, root, r, size, page, frame, answers) && P4Index(a) != r
    requires MapIn(m, 4, root, RecursiveRequest(size, page, frame, flags, parentFlags), answers).res == MapResult.Mapped
    ensures var m' := MapIn(m, 4, root, RecursiveRequest(size, page, frame, flags, parentFlags), answers).m;
            TranslateIn(m', 4, root, a) ==
            if !(page <= a < page + LeafBytes(size)) then TranslateIn(m, 4, root, a)
            else if size == 1 && frame == 0 && flags == {} then NotTranslated
            else Translated(size, frame, a - page, if size > 1 then flags + {HUGE_PAGE} else flags)
  {
    hide Callable, MapIn, TranslateIn, LeafBytes, Vpn;
    RequestTranslates(m, root, r, RecursiveRequest(size, page, frame, flags, parentFlags), page, frame, answers, a);
  }

  /** After a successful recursive call the entry of the page holds the frame and the flags of the call.
      Above it, a link that was there has the parent flags besides its own, and a new one has exactly
      the parent flags, PRESENT and WRITABLE. */
  lemma RecursiveMapToWritesPath(m: Memory, root: Frame, r: nat, size: Level, page: VirtAddr, frame: Frame, flags: Flags,
                                 parentFlags: Flags, answers: Answers, t: Level)
    requires SelfMapped(m, root, r) && Callable(m, root, r, size, page, frame, answers) && size <= t
    requires MapIn(m, 4, root, RecursiveRequest(size, page, frame, flags, parentFlags), answers).res == MapResult.Mapped
    ensures var out := MapIn(m, 4, root, RecursiveRequest(size, page, frame, flags, parentFlags), answers);
            var was, now := EntryOn(m, root, r, t, Vpn(page)), EntryOn(out.m, root, r, t, Vpn(page));
            && now.Some?
            && (t == size ==> now.value == Entry(frame, if size > 1 then flags + {HUGE_PAGE} else flags))
            && (t > size ==>
                  if was.Some? && was.value != Entry(0, {})
                  then now.value == Entry(was.value.addr, was.value.flags + parentFlags)
                  else now.value.flags == parentFlags + {PRESENT, WRITABLE} && now.value.addr in out.used)
  {
    hide Callable, MapIn, EntryOn, Vpn;
    RequestWritesPath(m, root, r, RecursiveRequest(size, page, frame, flags, parentFlags), page, frame, answers, t);
  }

  /** A recursive call that fails maps and unmaps nothing; if it reports a larger mapping in the way,
      that mapping has gained the parent flags. */
  lemma RecursiveMapToFailureMeans(m: Memory, root: Frame, r: nat, size: Level, page: VirtAddr, frame: Frame, flags: Flags,
                                   parentFlags: Flags, answers: Answers, w: nat)
    requires SelfMapped(m, root, r) && Callable(m, root, r, size, page, frame, answers)
    requires HUGE_PAGE !in parentFlags && w < PAGES
    requires MapIn(m, 4, root, RecursiveRequest(size, page, frame, flags, parentFlags), answers).res != MapResult.Mapped
    ensures var out := MapIn(m, 4, root, RecursiveRequest(size, page, frame, flags, parentFlags), answers);
            var before, after := LeafIn(m, root, r, w), LeafIn(out.m, root, r, w);
            if before.Some? && before.value.level > size && Block(before.value.level, w) == Block(before.value.level, Vpn(page))
            then
              after == Some(Mapping(before.value.level,
                                    Entry(before.value.entry.addr, before.value.entry.flags + parentFlags)))
            else after == before
  {
    hide Callable, MapIn, EntryOn, LeafIn, Vpn, Enough, MissingTables, TableAt, P4Index, Block;
    RecursiveMapToAnswer(m, root, r, size, page, frame, flags, parentFlags, answers);
    RequestFailureMeans(m, root, r, RecursiveRequest(size, page, frame, flags, parentFlags), page, frame, answers, w);
  }
}
