/** Clean-up through recursive addresses: why the table pointers of the loop stay right while the
loop unlinks tables. */
module RecursiveClean {
  import opened Wrappers
  import opened Levels
  import opened Page
  import opened RangeSplit
  import opened PageTable
  import opened PageTree
  import opened MemoryTree
  import opened Prune
  import opened CleanUp
  import opened CleanUpSteps
  import opened RecursiveWalk

  /** The recursive entry is masked in the root table only. */
  function MaskAt(level: Level, r: nat): int {
    if level == 4 then r else -1
  }

  /** The address of the table below the entry of `page`: `[p1_ptr, p2_ptr, p3_ptr][level - 2]`. */
  function ChildPage(level: Level, page: Page4KiB, r: nat): Page4KiB
    requires level > 1 && r < 512
  {
    if level == 4 then P3Page(page, r) else if level == 3 then P2Page(page, r) else P1Page(page, r)
  }

  function Entry4(m: Memory, root: Frame, page: Page4KiB): Entry {
    TableAt(m, root)[P4Index(page)]
  }

  function Entry3(m: Memory, root: Frame, page: Page4KiB): Entry {
    TableAt(m, Entry4(m, root, page).addr)[P3Index(page)]
  }

  function Entry2(m: Memory, root: Frame, page: Page4KiB): Entry {
    TableAt(m, Entry3(m, root, page).addr)[P2Index(page)]
  }

  /** `f` is the table of this level on the path of `page`. */
  ghost predicate Reaches(m: Memory, root: Frame, r: nat, level: Level, f: Frame, page: Page4KiB) {
    && SelfMapped(m, root, r)
    && (level == 4 ==> f == root)
    && (level <= 3 ==> Entry4(m, root, page).IsTable())
    && (level == 3 ==> Entry4(m, root, page).addr == f)
    && (level <= 2 ==> Entry3(m, root, page).IsTable())
    && (level == 2 ==> Entry3(m, root, page).addr == f)
    && (level == 1 ==> Entry2(m, root, page).IsTable() && Entry2(m, root, page).addr == f)
  }

  /** The tables above it on the path. */
  function Above(m: Memory, root: Frame, level: Level, page: Page4KiB): set<Frame> {
    if level == 4 then {}
    else if level == 3 then {root}
    else if level == 2 then {root, Entry4(m, root, page).addr}
    else {root, Entry4(m, root, page).addr, Entry3(m, root, page).addr}
  }

  ghost predicate AboveOutside(m: Memory, root: Frame, r: nat, level: Level, f: Frame, page: Page4KiB) {
    forall a :: a in Above(m, root, level, page) ==>
      a != f && a !in AllFrames(level, View(m, level, f, MaskAt(level, r)))
  }

  lemma RootReached(m: Memory, root: Frame, r: nat, page: Page4KiB)
    requires SelfMapped(m, root, r)
    ensures Reaches(m, root, r, 4, root, page) && AboveOutside(m, root, r, 4, root, page)
  {
  }

  /** The path above a table is read from the tables above it. */
  lemma ReachesFrame(m: Memory, m': Memory, root: Frame, r: nat, level: Level, f: Frame, page: Page4KiB)
    requires Reaches(m, root, r, level, f, page)
    requires forall a :: a in Above(m, root, level, page) ==> TableAt(m', a) == TableAt(m, a)
    requires level == 4 ==> TableAt(m', root)[r] == TableAt(m, root)[r]
    ensures Reaches(m', root, r, level, f, page) && Above(m', root, level, page) == Above(m, root, level, page)
  {
    hide P4Index, P3Index, P2Index, TableAt;
    if level == 3 { assert root in Above(m, root, level, page); }
    if level <= 2 {
      assert root in Above(m, root, level, page);
      assert Entry4(m, root, page).addr in Above(m, root, level, page);
    }
    if level == 1 { assert Entry3(m, root, page).addr in Above(m, root, level, page); }
  }

  /** Pages of one table share the indices of the levels above it. */
  lemma SharedIndices(level: Level, p: Page4KiB, q: Page4KiB)
    requires SpanStart(level + 1, Vpn(p)) == SpanStart(level + 1, Vpn(q))
    ensures level < 4 ==> P4Index(p) == P4Index(q)
    ensures level < 3 ==> P3Index(p) == P3Index(q)
    ensures level < 2 ==> P2Index(p) == P2Index(q)
  {
    hide Vpn, P4Index, P3Index, P2Index;
    IndicesAreDigits(p);
    IndicesAreDigits(q);
    SpanIsBlock(level + 1, Vpn(p));
    SpanIsBlock(level + 1, Vpn(q));
    InSpan(level + 1, Vpn(p), Vpn(q));
    hide SpanStart;
    CoarserBlock(level + 1, 4 + 1, Vpn(p), Vpn(q));
    if level < 4 { CoarserBlock(level + 1, 4, Vpn(p), Vpn(q)); }
    if level < 3 { CoarserBlock(level + 1, 3, Vpn(p), Vpn(q)); }
  }

  /** One step further down the path. */
  lemma StepDown(m: Memory, root: Frame, r: nat, level: Level, f: Frame, page: Page4KiB, next: Page4KiB, i: nat)
    requires level > 1 && i < 512 && Reaches(m, root, r, level, f, page)
    requires level < 4 ==> P4Index(page) == P4Index(next)
    requires level < 3 ==> P3Index(page) == P3Index(next)
    requires i == (if level == 4 then P4Index(next) else if level == 3 then P3Index(next) else P2Index(next))
    requires TableAt(m, f)[i].IsTable()
    ensures Reaches(m, root, r, level - 1, TableAt(m, f)[i].addr, next)
    ensures Above(m, root, level - 1, next) == Above(m, root, level, page) + {f}
    ensures TableOf(m, root, ChildPage(level, next, r)) == Some(TableAt(m, f)[i].addr)
  {
    hide P4Index, P3Index, P2Index, TableAt, TableOf, P3Page, P2Page, P1Page;
    if level == 4 {
      P3PageIsP3Table(m, root, r, next);
    } else if level == 3 {
      P2PageIsP2Table(m, root, r, next);
    } else {
      P1PageIsP1Table(m, root, r, next);
    }
  }

  /** During the loop: the child table is where its address says, and is reached from it. */
  lemma ChildReached(m: Memory, root: Frame, r: nat, level: Level, f: Frame, start: Page4KiB, end: Page4KiB, i: nat)
    requires level > 1 && WF(m, level, f, MaskAt(level, r)) && start <= end && SameTable(level, start, end)
    requires Reaches(m, root, r, level, f, start) && AboveOutside(m, root, r, level, f, start)
    requires LevelIndex(level, start) <= i <= LevelIndex(level, end) && i != MaskAt(level, r)
    requires Links(level, TableAt(CleanPages(m, level, f, MaskAt(level, r), start, end, i).m, f)[i])
    ensures var s := CleanPages(m, level, f, MaskAt(level, r), start, end, i);
            var g, from := TableAt(s.m, f)[i].addr, ChildRange(level, start, end, i).0;
            && TableOf(s.m, root, ChildPage(level, from, r)) == Some(g)
            && Reaches(s.m, root, r, level - 1, g, from) && AboveOutside(s.m, root, r, level - 1, g, from)
            && WF(s.m, level - 1, g, MaskAt(level - 1, r))
  {
    hide WF, Reaches, AboveOutside, CleanUpto, TableAt, SpanStart, Offset, Width, Vpn, LevelIndex,
      ChildRange, Idx, Above, View, AllFrames, P4Index, P3Index, P2Index, ChildPage, TableOf;
    var mask := MaskAt(level, r);
    var base := SpanStart(level + 1, Vpn(start));
    var s := CleanPages(m, level, f, mask, start, end, i);
    var g, from := TableAt(s.m, f)[i].addr, ChildRange(level, start, end, i).0;
    WFAlong(m, level, f, mask, base, Vpn(start), Vpn(end), i);
    ChildIsWF(s.m, level, f, mask, i);
    AboveKept(m, root, r, level, f, start, end, i);
    FromIndices(level, start, end, i);
    StepDown(s.m, root, r, level, f, start, from, i);
    OutsideBelow(s.m, root, r, level, f, start, from, i);
  }

  /** The first page of a sub-range has the index of its entry. */
  lemma FromIndices(level: Level, start: Page4KiB, end: Page4KiB, i: nat)
    requires level > 1 && start <= end && SameTable(level, start, end) && LevelIndex(level, start) <= i <= LevelIndex(level, end)
    ensures var from := ChildRange(level, start, end, i).0;
            && (level < 4 ==> P4Index(start) == P4Index(from))
            && (level < 3 ==> P3Index(start) == P3Index(from))
            && i == (if level == 4 then P4Index(from) else if level == 3 then P3Index(from) else P2Index(from))
  {
    hide SpanStart, Offset, Width, Vpn, LevelIndex, ChildRange, Idx, P4Index, P3Index, P2Index;
    var from := ChildRange(level, start, end, i).0;
    ChildRangeIs(level, start, end, i);
    SpanIsAligned(level + 1, Vpn(start));
    SpanOfEntry(level, Vpn(from));
    EntrySpan(level, SpanStart(level + 1, Vpn(start)), i, Vpn(from));
    InTableSpan(level, Vpn(start), Vpn(from), i);
    SharedIndices(level, start, from);
    IndicesAreDigits(from);
  }

  lemma InTableSpan(level: Level, v: nat, w: nat, i: nat)
    requires i < 512 && SpanStart(level, w) == SpanStart(level + 1, v) + Offset(level, i)
    ensures SpanStart(level + 1, v) == SpanStart(level + 1, w)
  {
    hide Idx;
    SpanOfEntry(level, w);
    EntryFits(level, i);
    SpanIsBlock(level + 1, v);
    SpanIsBlock(level + 1, w);
    InSpan(level + 1, v, w);
    hide SpanStart, Offset;
  }

  /** What the loop has done so far leaves the tables above alone. */
  lemma AboveKept(m: Memory, root: Frame, r: nat, level: Level, f: Frame, start: Page4KiB, end: Page4KiB, i: nat)
    requires WF(m, level, f, MaskAt(level, r)) && i <= 512
    requires Reaches(m, root, r, level, f, start) && AboveOutside(m, root, r, level, f, start)
    ensures var s := CleanPages(m, level, f, MaskAt(level, r), start, end, i);
            Reaches(s.m, root, r, level, f, start) && AboveOutside(s.m, root, r, level, f, start)
  {
    hide CleanUpto, SpanStart, Vpn, SoundTable, Unique, Frames, PruneLog, PrunedUpto, View, Above, WF,
      LeftEmpty, TableAt;
    var mask := MaskAt(level, r);
    var base := SpanStart(level + 1, Vpn(start));
    var s := CleanPages(m, level, f, mask, start, end, i);
    CleanIsPrune(m, level, f, mask, base, Vpn(start), Vpn(end), i);
    if level == 4 { assert TableAt(s.m, root)[r] == TableAt(m, root)[r] by { RootIsF(m, root, r, f, start); } }
    ReachesFrame(m, s.m, root, r, level, f, start);
    FewerFrames(m, level, f, mask, base, Vpn(start), Vpn(end), i);
  }

  lemma RootIsF(m: Memory, root: Frame, r: nat, f: Frame, start: Page4KiB)
    requires Reaches(m, root, r, 4, f, start)
    ensures f == root && r < 512
  {
  }

  lemma FewerFrames(m: Memory, level: Level, f: Frame, mask: int, base: nat, lo: nat, hi: nat, n: nat)
    requires WF(m, level, f, mask) && n <= 512
    ensures AllFrames(level, View(CleanUpto(m, level, f, mask, base, lo, hi, n).m, level, f, mask))
         <= AllFrames(level, View(m, level, f, mask))
  {
    hide CleanUpto, Unique, Frames, PruneLog, PrunedUpto, View;
    CleanIsPrune(m, level, f, mask, base, lo, hi, n);
    PrunedFrames(level, base, View(m, level, f, mask), lo, hi, n);
  }

  lemma OutsideBelow(m: Memory, root: Frame, r: nat, level: Level, f: Frame, page: Page4KiB, next: Page4KiB, i: nat)
    requires level > 1 && WF(m, level, f, MaskAt(level, r)) && AboveOutside(m, root, r, level, f, page)
    requires i < 512 && i != MaskAt(level, r) && Links(level, TableAt(m, f)[i])
    requires Above(m, root, level - 1, next) == Above(m, root, level, page) + {f}
    ensures AboveOutside(m, root, r, level - 1, TableAt(m, f)[i].addr, next)
  {
    hide WF, View, Above, Frames, TableAt;
    ChildWF(m, level, f, MaskAt(level, r), i);
  }
}
