/** One turn of the clean-up loop, in the terms in which the code computes it: page addresses
and clipped sub-ranges. */
module CleanUpSteps {
  import opened Levels
  import opened Page
  import opened RangeSplit
  import opened PageTable
  import opened PageTree
  import opened MemoryTree
  import opened CleanUp

  /** The clean-up of a table over the pages `start..=end` of its span. */
  function CleanPages(m: Memory, level: Level, f: Frame, mask: int, start: Page4KiB, end: Page4KiB, n: nat): CleanOut
    requires n <= 512
  {
    CleanUpto(m, level, f, mask, SpanStart(level + 1, Vpn(start)), Vpn(start), Vpn(end), n)
  }

  ghost predicate SameTable(level: Level, start: Page4KiB, end: Page4KiB) {
    SpanStart(level + 1, Vpn(start)) == SpanStart(level + 1, Vpn(end))
  }

  /** Entries before the first index and after the last are not visited. */
  lemma OnlyIndexed(m: Memory, level: Level, f: Frame, mask: int, start: Page4KiB, end: Page4KiB)
    requires start <= end && SameTable(level, start, end)
    ensures LevelIndex(level, start) <= LevelIndex(level, end)
    ensures CleanPages(m, level, f, mask, start, end, LevelIndex(level, start)) == CleanOut(m, [])
    ensures CleanPages(m, level, f, mask, start, end, LevelIndex(level, end) + 1) == CleanPages(m, level, f, mask, start, end, 512)
  {
    hide Idx, SpanStart, Offset, Width, Vpn, CleanUpto, Meets, LevelIndex;
    var lo, hi := Vpn(start), Vpn(end);
    var base := SpanStart(level + 1, lo);
    PageOrder(start, end);
    Between(level, lo, hi, hi, 0);
    NothingUpto(m, level, f, mask, base, lo, hi);
    forall j: nat | j < LevelIndex(level, start)
      ensures !Meets(base + Offset(level, j), Width(level), lo, hi)
    {
      BeforeFirst(level, lo, hi, j);
    }
    CleanSkips(m, level, f, mask, base, lo, hi, 0, LevelIndex(level, start));
    forall j: nat | LevelIndex(level, end) + 1 <= j < 512
      ensures !Meets(base + Offset(level, j), Width(level), lo, hi)
    {
      AfterLast(level, lo, hi, j);
    }
    CleanSkips(m, level, f, mask, base, lo, hi, LevelIndex(level, end) + 1, 512);
  }

  lemma BeforeFirst(level: Level, lo: nat, hi: nat, j: nat)
    requires j < Idx(level, lo)
    ensures !Meets(SpanStart(level + 1, lo) + Offset(level, j), Width(level), lo, hi)
  {
    hide Idx, SpanStart, Offset, Width;
    SpanOfEntry(level, lo);
    OffsetOrder(level, j, Idx(level, lo));
  }

  lemma AfterLast(level: Level, lo: nat, hi: nat, j: nat)
    requires Idx(level, hi) < j && SpanStart(level + 1, lo) == SpanStart(level + 1, hi)
    ensures !Meets(SpanStart(level + 1, lo) + Offset(level, j), Width(level), lo, hi)
  {
    hide Idx, SpanStart, Offset, Width;
    SpanOfEntry(level, hi);
    OffsetOrder(level, Idx(level, hi), j);
  }

  lemma NothingUpto(m: Memory, level: Level, f: Frame, mask: int, base: nat, lo: nat, hi: nat)
    ensures CleanUpto(m, level, f, mask, base, lo, hi, 0) == CleanOut(m, [])
  {
  }

  /** An empty range is left alone. */
  lemma NothingInEmptyRange(m: Memory, level: Level, f: Frame, mask: int, start: Page4KiB, end: Page4KiB)
    requires start > end
    ensures CleanPages(m, level, f, mask, start, end, 512) == CleanOut(m, [])
  {
    PageOrder(end, start);
    PageOrder(start, end);
    CleanSkips(m, level, f, mask, SpanStart(level + 1, Vpn(start)), Vpn(start), Vpn(end), 0, 512);
  }

  /** A level-1 table has no tables below it. */
  lemma {:induction false} NothingAtLevelOne(m: Memory, f: Frame, mask: int, base: nat, lo: nat, hi: nat, n: nat)
    requires n <= 512
    ensures CleanUpto(m, 1, f, mask, base, lo, hi, n) == CleanOut(m, [])
  {
    if n > 0 { NothingAtLevelOne(m, f, mask, base, lo, hi, n - 1); }
  }

  lemma NothingOnLevelOne(m: Memory, f: Frame, mask: int, start: Page4KiB, end: Page4KiB)
    ensures CleanPages(m, 1, f, mask, start, end, 512) == CleanOut(m, [])
  {
    NothingAtLevelOne(m, f, mask, SpanStart(2, Vpn(start)), Vpn(start), Vpn(end), 512);
  }

  /** A turn of the loop at an entry that is no link, or is masked. */
  lemma TurnWithoutLink(m: Memory, level: Level, f: Frame, mask: int, start: Page4KiB, end: Page4KiB, i: nat)
    requires i < 512
    requires var s := CleanPages(m, level, f, mask, start, end, i);
             i == mask || !Links(level, TableAt(s.m, f)[i])
    ensures CleanPages(m, level, f, mask, start, end, i + 1) == CleanPages(m, level, f, mask, start, end, i)
  {
    hide SpanStart, Vpn, Offset, Width, Meets;
    var s := CleanPages(m, level, f, mask, start, end, i);
    var base := SpanStart(level + 1, Vpn(start));
    UnfoldTurn(m, level, f, mask, base, Vpn(start), Vpn(end), i);
    assert CleanEntry(s.m, level, f, mask, base + Offset(level, i), Vpn(start), Vpn(end), i) == CleanOut(s.m, []);
    assert s.log + [] == s.log;
  }

  /** A turn of the loop at a link: the recursive call is on the sub-range of the entry, leaves the
      entry itself alone, and its table is given back exactly when it is empty afterwards. */
  lemma TurnAtLink(m: Memory, level: Level, f: Frame, mask: int, start: Page4KiB, end: Page4KiB, i: nat)
    requires WF(m, level, f, mask) && start <= end && SameTable(level, start, end)
    requires LevelIndex(level, start) <= i <= LevelIndex(level, end) && i != mask
    requires Links(level, TableAt(CleanPages(m, level, f, mask, start, end, i).m, f)[i])
    ensures var s := CleanPages(m, level, f, mask, start, end, i);
            var g := TableAt(s.m, f)[i].addr;
            var (from, to) := ChildRange(level, start, end, i);
            && from <= to && SameTable(level - 1, from, to) && WF(s.m, level - 1, g, -1)
            && var sub := CleanPages(s.m, level - 1, g, -1, from, to, 512);
               && TableAt(sub.m, f) == TableAt(s.m, f)
               && CleanPages(m, level, f, mask, start, end, i + 1) ==
                  if IsEmpty(TableAt(sub.m, g)) then CleanOut(Write(sub.m, f, i, UNUSED), s.log + (sub.log + [g]))
                  else CleanOut(sub.m, s.log + sub.log)
  {
    hide WF, SpanStart, Offset, Width, Vpn, CleanUpto, IsEmpty, LevelIndex, ChildRange, Idx, TableAt;
    var lo, hi := Vpn(start), Vpn(end);
    var base := SpanStart(level + 1, lo);
    var s := CleanPages(m, level, f, mask, start, end, i);
    var g := TableAt(s.m, f)[i].addr;
    var (from, to) := ChildRange(level, start, end, i);
    var b := base + Offset(level, i);
    WFAlong(m, level, f, mask, base, lo, hi, i);
    ChildIsWF(s.m, level, f, mask, i);
    ChildRangeIs(level, start, end, i);
    PageOrder(from, to);
    CleanWithin(s.m, level - 1, g, -1, b, lo, hi, b, b + Width(level) - 1, 512);
    KeepsParent(s.m, level, f, mask, b, lo, hi, i);
    MeetsClipped(level, b, lo, hi, Vpn(from), Vpn(to));
    UnfoldTurn(m, level, f, mask, base, lo, hi, i);
    UnfoldEntry(s.m, level, f, mask, b, lo, hi, i);
  }

  lemma WFAlong(m: Memory, level: Level, f: Frame, mask: int, base: nat, lo: nat, hi: nat, i: nat)
    requires WF(m, level, f, mask) && i <= 512
    ensures WF(CleanUpto(m, level, f, mask, base, lo, hi, i).m, level, f, mask)
  {
    hide WF, CleanedUpto, CleanUpto;
    CleanIsPrune(m, level, f, mask, base, lo, hi, i);
    CleanedIsWF(m, level, f, mask, base, lo, hi, i, CleanUpto(m, level, f, mask, base, lo, hi, i));
  }

  lemma ChildIsWF(m: Memory, level: Level, f: Frame, mask: int, i: nat)
    requires WF(m, level, f, mask) && i < 512 && i != mask && Links(level, TableAt(m, f)[i])
    ensures WF(m, level - 1, TableAt(m, f)[i].addr, -1)
  {
    hide WF, View;
    ChildWF(m, level, f, mask, i);
  }

  lemma MeetsClipped(level: Level, b: nat, lo: nat, hi: nat, from: nat, to: nat)
    requires from <= to
    requires from == if lo <= b then b else lo
    requires to == if hi <= b + Width(level) - 1 then hi else b + Width(level) - 1
    requires lo <= hi
    ensures Meets(b, Width(level), lo, hi)
  {
  }

  lemma UnfoldEntry(m: Memory, level: Level, f: Frame, mask: int, b: nat, lo: nat, hi: nat, i: nat)
    requires i < 512 && i != mask && Links(level, TableAt(m, f)[i]) && Meets(b, Width(level), lo, hi)
    ensures var g := TableAt(m, f)[i].addr;
            var sub := CleanUpto(m, level - 1, g, -1, b, lo, hi, 512);
            CleanEntry(m, level, f, mask, b, lo, hi, i) ==
            if IsEmpty(TableAt(sub.m, g)) then CleanOut(Write(sub.m, f, i, UNUSED), sub.log + [g]) else sub
  {
  }

  lemma UnfoldTurn(m: Memory, level: Level, f: Frame, mask: int, base: nat, lo: nat, hi: nat, i: nat)
    requires i < 512
    ensures var s := CleanUpto(m, level, f, mask, base, lo, hi, i);
            var t := CleanEntry(s.m, level, f, mask, base + Offset(level, i), lo, hi, i);
            CleanUpto(m, level, f, mask, base, lo, hi, i + 1) == CleanOut(t.m, s.log + t.log)
  {
  }

  lemma KeepsParent(m: Memory, level: Level, f: Frame, mask: int, b: nat, lo: nat, hi: nat, i: nat)
    requires WF(m, level, f, mask) && i < 512 && i != mask && Links(level, TableAt(m, f)[i])
    ensures TableAt(CleanUpto(m, level - 1, TableAt(m, f)[i].addr, -1, b, lo, hi, 512).m, f) == TableAt(m, f)
  {
    hide WF, View, Frames, PrunedUpto, LeftEmpty;
    ChildWF(m, level, f, mask, i);
    CleanIsPrune(m, level - 1, TableAt(m, f)[i].addr, -1, b, lo, hi, 512);
  }
}
