/** What `clean_up_addr_range` means for the whole hierarchy. */
module CleanUpMeaning {
  import opened Wrappers
  import opened Levels
  import opened PageTable
  import opened PageTree
  import opened MemoryTree
  import opened MapTo
  import opened MapToMeaning
  import opened PathMeaning
  import opened Prune
  import opened CleanUp

  /** The clean-up of the 4KiB pages `lo..=hi`. */
  function CleanRange(m: Memory, root: Frame, mask: int, lo: nat, hi: nat): CleanOut {
    CleanUpto(m, 4, root, mask, 0, lo, hi, 512)
  }

  lemma CleanRangeIsPrune(m: Memory, root: Frame, mask: int, lo: nat, hi: nat)
    requires WF(m, 4, root, mask)
    ensures var out, kids := CleanRange(m, root, mask, lo, hi), View(m, 4, root, mask);
            && View(out.m, 4, root, mask) == PruneTable(4, 0, kids, lo, hi)
            && out.log == PruneLog(4, 0, kids, lo, hi, 512)
            && WF(out.m, 4, root, mask)
            && Untouched(m, out.m, root, AllFrames(4, kids)) && LeftEmpty(out) && MaskKept(m, out.m, root, mask)
  {
    hide WF, View, CleanUpto, PruneLog, PruneTable, Frames, Untouched, LeftEmpty, MaskKept;
    var kids := View(m, 4, root, mask);
    CleanIsPrune(m, 4, root, mask, 0, lo, hi, 512);
    CleanedIsWF(m, 4, root, mask, 0, lo, hi, 512, CleanRange(m, root, mask, lo, hi));
    assert PrunedUpto(4, 0, kids, lo, hi, 512) == PruneTable(4, 0, kids, lo, hi);
  }

  /** Clean-up keeps the hierarchy a tree, sound and proper if it was, and every translation; the tables before are the
      tables after and the frames given back, none of which is given back twice. */
  lemma CleanUpIsSafe(m: Memory, root: Frame, mask: int, lo: nat, hi: nat, v: nat)
    requires WF(m, 4, root, mask)
    ensures var out, before := CleanRange(m, root, mask, lo, hi), AllFrames(4, View(m, 4, root, mask));
            && WF(out.m, 4, root, mask) && StaysGood(m, out.m, root, mask, true, true)
            && LeafIn(out.m, root, mask, v) == LeafIn(m, root, mask, v)
            && AllFrames(4, View(out.m, 4, root, mask)) + multiset(out.log) == before
            && Unique(multiset(out.log)) && root !in out.log
            && Untouched(m, out.m, root, before)
  {
    hide View, Frames, PruneLog, PruneTable, SoundTable, ProperTable, CleanRange;
    var kids := View(m, 4, root, mask);
    var log := CleanRange(m, root, mask, lo, hi).log;
    CleanRangeIsPrune(m, root, mask, lo, hi);
    PruneKeepsLeaves(4, 0, kids, lo, hi, v);
    if Sound(m, 4, root, mask) { PruneKeepsSound(4, 0, kids, lo, hi); }
    if Proper(m, 4, root, mask) { PruneKeepsProper(4, 0, kids, lo, hi); }
    PruneConserves(4, 0, kids, lo, hi, 512);
    forall g ensures multiset(log)[g] <= 1 && (g == root ==> multiset(log)[g] == 0) {
      assert (multiset{root} + AllFrames(4, kids))[g] <= 1;
    }
    assert root !in multiset(log);
  }

  /** A table given back comes after every table below it. */
  lemma CleanUpChildrenFirst(m: Memory, root: Frame, mask: int, lo: nat, hi: nat, h: Frame, g: Frame)
    requires WF(m, 4, root, mask) && IsBelow(4, View(m, 4, root, mask), h, g)
    requires g in CleanRange(m, root, mask, lo, hi).log
    ensures Before(CleanRange(m, root, mask, lo, hi).log, h, g)
  {
    hide View, Frames, PruneLog, PruneTable, SoundTable, CleanRange, IsBelow, Before;
    CleanRangeIsPrune(m, root, mask, lo, hi);
    UniquePart(multiset{root}, AllFrames(4, View(m, 4, root, mask)));
    ChildrenFirst(4, 0, View(m, 4, root, mask), lo, hi, h, g);
  }

  /** No table that is left meets the range and is empty; a second clean-up of the same range
      does nothing at all. */
  lemma CleanUpIsComplete(m: Memory, root: Frame, mask: int, lo: nat, hi: nat)
    requires WF(m, 4, root, mask)
    ensures var once := CleanRange(m, root, mask, lo, hi);
            && NoEmptyTable(4, 0, View(once.m, 4, root, mask), lo, hi)
            && CleanRange(once.m, root, mask, lo, hi) == CleanOut(once.m, [])
  {
    hide WF, View, PruneLog, PruneTable, CleanUpto, NoEmptyTable;
    var kids, once := View(m, 4, root, mask), CleanRange(m, root, mask, lo, hi);
    CleanRangeIsPrune(m, root, mask, lo, hi);
    PruneLeavesNoEmptyTable(4, 0, kids, lo, hi);
    PruneTwice(4, 0, kids, lo, hi);
    CleanRangeIsPrune(once.m, root, mask, lo, hi);
    NoFrameNoWrite(once.m, 4, root, mask, 0, lo, hi, 512);
  }

  /** A clean-up that gives no frame back writes nothing. */
  lemma {:induction false} NoFrameNoWrite(m: Memory, level: Level, f: Frame, mask: int, base: nat, lo: nat, hi: nat, n: nat)
    requires n <= 512 && CleanUpto(m, level, f, mask, base, lo, hi, n).log == []
    ensures CleanUpto(m, level, f, mask, base, lo, hi, n).m == m
    decreases level, n
  {
    hide Width, Offset, Meets;
    if n > 0 {
      var s := CleanUpto(m, level, f, mask, base, lo, hi, n - 1);
      NoFrameNoWrite(m, level, f, mask, base, lo, hi, n - 1);
      var e := TableAt(m, f)[n - 1];
      var b := base + Offset(level, n - 1);
      if n - 1 != mask && Links(level, e) && Meets(b, Width(level), lo, hi) {
        NoFrameNoWrite(m, level - 1, e.addr, -1, b, lo, hi, 512);
      }
    }
  }

  // ---------------------------------------------------------------- room for a huge page

  /** A table without mappings, over whose span no table is empty, is empty itself. */
  lemma UnmappedIsEmpty(level: Level, base: nat, kids: seq<Node>, lo: nat, hi: nat)
    requires SoundTable(level, kids) && base % Width(level + 1) == 0 && NoEmptyTable(level, base, kids, lo, hi)
    requires lo <= base && base + Width(level + 1) - 1 <= hi
    requires forall v :: base <= v < base + Width(level + 1) ==> Leaf(level, kids, v) == None
    ensures AllUnused(kids)
  {
    hide PruneTable, NoEmptyTable, SoundTable, Leaf;
    UnmappedIsPruned(level, base, kids, lo, hi);
    NothingToPrune(level, base, kids, lo, hi, 0);
  }

  ghost predicate Unmapped(level: Level, kids: seq<Node>, lo: nat, hi: nat) {
    forall v :: lo <= v <= hi ==> Leaf(level, kids, v) == None
  }

  /** Where no page of the requested span is mapped and no table over it is empty, `map_to` fails
      at most for want of a frame. */
  lemma {:induction false} MapsUnlessOutOfFrames(level: Level, kids: seq<Node>, r: Request, answers: Answers, lo: nat, hi: nat)
    requires r.size <= level && Legal(r) && SoundTable(level, kids)
    requires lo == SpanStart(r.size, r.v) && hi == lo + Width(r.size) - 1
    requires NoEmptyTable(level, SpanStart(level + 1, r.v), kids, lo, hi) && Unmapped(level, kids, lo, hi)
    requires |kids| == 512
    ensures MapTree(level, kids, r, answers).res in {Mapped, FrameAllocationFailed}
    decreases level
  {
    hide MapTree, Width, Offset, Idx, Leaf, SpanStart, SoundTable, NoEmptyTable, Unmapped, AllUnused;
    var i := Idx(level, r.v);
    var n := kids[i];
    PathEntry(level, kids, r, lo, hi);
    if Links(level, n.entry) {
      ThroughEntry(level, kids, r, answers);
      TableSize(level - 1, n.kids);
      MapsUnlessOutOfFrames(level - 1, n.kids, r, answers, lo, hi);
    } else if level == r.size {
      FreeEntry(level, kids, r, answers);
    } else if Answer(answers).Some? {
      ThroughEntry(level, kids, r, answers);
      NoEmptyInNoKids(level - 1, SpanStart(level, r.v), lo, hi);
      MapsUnlessOutOfFrames(level - 1, NoKids(), r, Later(answers), lo, hi);
    } else {
      NoFrame(level, kids, r, answers);
    }
  }

  /** The entry on the path is unused, or above the requested level a link. */
  lemma PathEntry(level: Level, kids: seq<Node>, r: Request, lo: nat, hi: nat)
    requires r.size <= level && Legal(r) && SoundTable(level, kids)
    requires lo == SpanStart(r.size, r.v) && hi == lo + Width(r.size) - 1
    requires NoEmptyTable(level, SpanStart(level + 1, r.v), kids, lo, hi) && Unmapped(level, kids, lo, hi)
    ensures var n := kids[Idx(level, r.v)];
            && (Links(level, n.entry) ==>
                  && level > r.size && !n.entry.IsUnused() && !Widened(n.entry, r.add).Huge()
                  && SoundTable(level - 1, n.kids) && NoEmptyTable(level - 1, SpanStart(level, r.v), n.kids, lo, hi)
                  && Unmapped(level - 1, n.kids, lo, hi))
            && (!Links(level, n.entry) ==> n.entry.IsUnused())
  {
    hide Width, Idx, Leaf, SpanStart, IsLeafEntry, NoEmptyTable, Unmapped, SoundTable;
    TableSize(level, kids);
    NodeOf(level, kids, Idx(level, r.v));
    var n := kids[Idx(level, r.v)];
    SpanOfEntry(r.size, r.v);
    SpanNested(r.size, level, r.v);
    EntryNotEmpty(level, kids, r.v, lo, hi);
    LeafAt(level, kids, r.v);
    NoLeaf(level, kids, lo, hi, r.v);
    if Links(level, n.entry) {
      SpanOfEntry(level, r.v);
      BelowUnmapped(level, kids, r.v, lo, hi);
      if level == r.size {
        SpanIsAligned(level, r.v);
        NoLeaves(level - 1, n.kids, lo, hi);
        UnmappedIsEmpty(level - 1, lo, n.kids, lo, hi);
      }
    }
  }

  lemma EntryNotEmpty(level: Level, kids: seq<Node>, v: nat, lo: nat, hi: nat)
    requires |kids| == 512 && NoEmptyTable(level, SpanStart(level + 1, v), kids, lo, hi)
    ensures NotEmpty(level, SpanStart(level, v), kids[Idx(level, v)], lo, hi)
  {
    hide Width, Idx, SpanStart, NotEmpty;
    SpanOfEntry(level, v);
  }

  lemma NoLeaf(level: Level, kids: seq<Node>, lo: nat, hi: nat, w: nat)
    requires Unmapped(level, kids, lo, hi) && lo <= w <= hi
    ensures Leaf(level, kids, w) == None
  {
  }

  lemma NoLeaves(level: Level, kids: seq<Node>, lo: nat, hi: nat)
    requires Unmapped(level, kids, lo, hi)
    ensures forall w :: lo <= w <= hi ==> Leaf(level, kids, w) == None
  {
  }

  lemma FreeEntry(level: Level, kids: seq<Node>, r: Request, answers: Answers)
    requires r.size == level && Idx(level, r.v) < |kids| && kids[Idx(level, r.v)].entry.IsUnused()
    ensures MapTree(level, kids, r, answers).res == Mapped
  {
  }

  lemma NoFrame(level: Level, kids: seq<Node>, r: Request, answers: Answers)
    requires r.size < level && Idx(level, r.v) < |kids| && kids[Idx(level, r.v)].entry.IsUnused()
    requires Answer(answers).None?
    ensures MapTree(level, kids, r, answers).res == FrameAllocationFailed
  {
  }

  lemma NoEmptyInNoKids(level: Level, base: nat, lo: nat, hi: nat)
    ensures SoundTable(level, NoKids()) && NoEmptyTable(level, base, NoKids(), lo, hi) && Unmapped(level, NoKids(), lo, hi)
  {
    EmptyTableTree(level);
  }

  lemma BelowUnmapped(level: Level, kids: seq<Node>, v: nat, lo: nat, hi: nat)
    requires |kids| == 512 && Links(level, kids[Idx(level, v)].entry) && Unmapped(level, kids, lo, hi)
    requires SpanStart(level, v) <= lo && hi < SpanStart(level, v) + Width(level)
    ensures Unmapped(level - 1, kids[Idx(level, v)].kids, lo, hi)
  {
    var next: Level, below := level - 1, kids[Idx(level, v)].kids;
    hide Width, Leaf, SpanStart;
    forall w | lo <= w <= hi ensures Leaf(next, below, w) == None {
      InSpan(level, v, w);
      LeafAt(level, kids, w);
      assert Leaf(level, kids, w) == None;
    }
  }

  /** Clean-up makes room for a huge page: if no page of its span is mapped, then after a clean-up
      over that span `map_to` can only succeed or run out of frames. */
  lemma CleanUpMakesRoom(m: Memory, root: Frame, mask: int, r: Request, answers: Answers)
    requires WF(m, 4, root, mask) && Sound(m, 4, root, mask) && Legal(r) && r.v < PAGES && Idx(4, r.v) != mask
    requires forall w :: SpanStart(r.size, r.v) <= w < SpanStart(r.size, r.v) + Width(r.size)
                     ==> LeafIn(m, root, mask, w) == None
    requires var out := CleanRange(m, root, mask, SpanStart(r.size, r.v), SpanStart(r.size, r.v) + Width(r.size) - 1);
             Fresh(answers, 4 - r.size, multiset{root} + AllFrames(4, View(out.m, 4, root, mask)))
    ensures var out := CleanRange(m, root, mask, SpanStart(r.size, r.v), SpanStart(r.size, r.v) + Width(r.size) - 1);
            MapIn(out.m, 4, root, r, answers).res in {Mapped, FrameAllocationFailed}
  {
    hide View, Frames, PruneLog, PruneTable, SoundTable, NoEmptyTable, CleanRange, MapIn, MapTree, Legal, Leaf,
      Width, Fresh, Idx;
    var lo, hi := SpanStart(r.size, r.v), SpanStart(r.size, r.v) + Width(r.size) - 1;
    var out := CleanRange(m, root, mask, lo, hi);
    var kids := View(out.m, 4, root, mask);
    CleanRangeIsPrune(m, root, mask, lo, hi);
    PruneKeepsSound(4, 0, View(m, 4, root, mask), lo, hi);
    CleanUpIsComplete(m, root, mask, lo, hi);
    forall w | lo <= w <= hi ensures Leaf(4, kids, w) == None {
      PruneKeepsLeaves(4, 0, View(m, 4, root, mask), lo, hi, w);
      assert LeafIn(m, root, mask, w) == None;
    }
    assert SpanStart(5, r.v) == 0;
    MapsUnlessOutOfFrames(4, kids, r, answers, lo, hi);
    MapInIsMapTree(out.m, 4, root, mask, r, answers, multiset{root} + AllFrames(4, kids));
  }
}
