/** How `clean_up` splits a range of pages among the entries of a table. */
module RangeSplit {
  import opened Wrappers
  import opened Bits
  import opened Addr
  import opened Levels
  import opened Page

  /** `table_address_space_alignment`: the bytes below a table of this level. */
  function TableAlignment(level: Level): (a: u64)
    ensures a == 0x1000 * Width(level + 1) && IsPowerOfTwo(a)
  {
    AlignmentIs(level + 1);
    Shl(1, level * 9 + 12)
  }

  /** `entry_address_space_alignment`: the bytes below one of its entries. */
  function EntryAlignment(level: Level): (a: u64)
    ensures a == 0x1000 * Width(level) && IsPowerOfTwo(a)
  {
    AlignmentIs(level);
    Shl(1, (level - 1) * 9 + 12)
  }

  lemma AlignmentIs(level: nat)
    requires 1 <= level <= 5
    ensures Shl(1, (level - 1) * 9 + 12) == 0x1000 * Width(level) < U64
    ensures IsPowerOfTwo(Shl(1, (level - 1) * 9 + 12))
  {
    Pow2Constants();
    ShlIsProduct(1, (level - 1) * 9 + 12);
    assert Shl(1, (level - 1) * 9 + 12) == Pow2((level - 1) * 9 + 12);
  }

  lemma ChildOffset(level: Level, i: nat)
    requires i < 512
    ensures EntryAlignment(level) * i == 0x1000 * Offset(level, i) < 0x1_0000_0000_0000
  {
    hide EntryAlignment;
    if level == 1 {
      assert EntryAlignment(level) == 0x1000;
    } else if level == 2 {
      assert EntryAlignment(level) == 0x20_0000;
    } else if level == 3 {
      assert EntryAlignment(level) == 0x4000_0000;
    } else {
      assert EntryAlignment(level) == 0x80_0000_0000;
    }
  }

  /** Where the span of entry `i` starts; `None` is the failing `unwrap`. */
  function ChildStart(level: Level, start: VirtAddr, i: nat): Option<VirtAddr>
    requires i < 512
  {
    ChildOffset(level, i);
    ForwardChecked(VirtAlignDown(start, TableAlignment(level)), EntryAlignment(level) * i)
  }

  /** Its last address; `None` is the panicking addition. */
  function ChildEnd(level: Level, start: VirtAddr, i: nat): Option<VirtAddr>
    requires i < 512
  {
    match ChildStart(level, start, i)
    case None => None
    case Some(s) => Plus(s, EntryAlignment(level) - 1)
  }

  lemma SamePage(a: VirtAddr)
    ensures Vpn(Containing4KiB(a)) == Vpn(a)
  {
    LinParts(a);
    LinParts(Containing4KiB(a));
  }

  /** The start of the table's span, as an address. */
  lemma TableStart(level: Level, start: Page4KiB)
    ensures Lin(VirtAlignDown(start, TableAlignment(level))) == 0x1000 * SpanStart(level + 1, Vpn(start))
  {
    PageRank(start);
    hide TableAlignment;
    VirtAlignDownIsRankFloor(start, TableAlignment(level));
    FloorOfPages(level + 1, Vpn(start));
  }

  lemma FloorOfPages(level: nat, v: nat)
    requires 2 <= level <= 5
    ensures 0x1000 * v - 0x1000 * v % (0x1000 * Width(level)) == 0x1000 * SpanStart(level, v)
  {
    SpanIsBlock(level, v);
    hide SpanStart, Block;
    var s := SpanStart(level, v);
    SpanIsAligned(level, v);
    var q := s / Width(level);
    Floor(s, Width(level));
    assert 0x1000 * Width(level) * q == 0x1000 * (Width(level) * q);
    DivIs(0x1000 * v, 0x1000 * Width(level), q, 0x1000 * (v - s));
  }

  /** Neither the `unwrap` nor the addition fails, and the addresses are the ends of the span. */
  lemma ChildBounds(level: Level, start: Page4KiB, i: nat)
    requires i < 512
    ensures var b := SpanStart(level + 1, Vpn(start)) + Offset(level, i);
            var cs, ce := ChildStart(level, start, i), ChildEnd(level, start, i);
            && cs.Some? && Vpn(cs.value) == b && cs.value % 0x1000 == 0
            && ce.Some? && Vpn(ce.value) == b + Width(level) - 1
  {
    hide TableAlignment, EntryAlignment, SpanStart, Offset, Width, VirtAlignDown;
    var v := Vpn(start);
    var base := SpanStart(level + 1, v);
    var b := base + Offset(level, i);
    TableStart(level, start);
    ChildOffset(level, i);
    SpanFits(level, v, i);
    var table := VirtAlignDown(start, TableAlignment(level));
    ForwardIsRankAddition(table, EntryAlignment(level) * i);
    var s := FromLin(0x1000 * b);
    LinIsIso(s, s, 0x1000 * b);
    SameHalf(b, Width(level));
    PlusIs(s, EntryAlignment(level) - 1);
    EndOfSpan(s, b, Width(level));
  }

  lemma SpanFits(level: Level, v: nat, i: nat)
    requires v < PAGES && i < 512
    ensures var b := SpanStart(level + 1, v) + Offset(level, i);
            && b + Width(level) <= PAGES
            && (b < 0x8_0000_0000 ==> b + Width(level) <= 0x8_0000_0000)
  {
    var base := SpanStart(level + 1, v);
    SpanIsAligned(level + 1, v);
    SpanIsBlock(level + 1, v);
    hide SpanStart;
    if level == 4 {
      assert base == 0;
    } else {
      WithinHalf(level, base, i);
    }
  }

  lemma WithinHalf(level: Level, base: nat, i: nat)
    requires level < 4 && base % Width(level + 1) == 0 && base < PAGES && i < 512
    ensures base + Width(level + 1) <= PAGES
    ensures base < 0x8_0000_0000 ==> base + Width(level + 1) <= 0x8_0000_0000
    ensures base + Offset(level, i) + Width(level) <= base + Width(level + 1)
  {
  }

  lemma SameHalf(b: nat, w: nat)
    requires w > 0 && b + w <= PAGES && (b < 0x8_0000_0000 ==> b + w <= 0x8_0000_0000)
    ensures Canonical(FromLin(0x1000 * b) + (0x1000 * w - 1))
  {
  }

  lemma EndOfSpan(s: VirtAddr, b: nat, w: nat)
    requires w > 0 && b + w <= PAGES && (b < 0x8_0000_0000 ==> b + w <= 0x8_0000_0000)
    requires s == FromLin(0x1000 * b)
    ensures Canonical(s + (0x1000 * w - 1)) && Vpn(s + (0x1000 * w - 1)) == b + w - 1
    ensures s % 0x1000 == 0
  {
    SameHalf(b, w);
    var e: VirtAddr := s + (0x1000 * w - 1);
    LinParts(e);
  }

  /** The part of `start..=end` that lies below entry `i`. */
  function ChildRange(level: Level, start: Page4KiB, end: Page4KiB, i: nat): (r: (Page4KiB, Page4KiB))
    requires i < 512
  {
    ChildBounds(level, start, i);
    var s: Page4KiB := ChildStart(level, start, i).value;
    var e := Containing4KiB(ChildEnd(level, start, i).value);
    (if s < start then start else s, if end < e then end else e)
  }

  /** The sub-ranges are exact: for the indices the loop visits they are not empty, and each is
      what the range and the span of its entry have in common. */
  lemma ChildRangeIs(level: Level, start: Page4KiB, end: Page4KiB, i: nat)
    requires start <= end && SpanStart(level + 1, Vpn(start)) == SpanStart(level + 1, Vpn(end))
    requires LevelIndex(level, start) <= i <= LevelIndex(level, end)
    ensures var b := SpanStart(level + 1, Vpn(start)) + Offset(level, i);
            var (s, e) := ChildRange(level, start, end, i);
            && s <= e && SpanStart(level, Vpn(s)) == b == SpanStart(level, Vpn(e))
            && Vpn(s) == (if Vpn(start) <= b then b else Vpn(start))
            && Vpn(e) == (if Vpn(end) <= b + Width(level) - 1 then Vpn(end) else b + Width(level) - 1)
  {
    hide ChildStart, ChildEnd, Containing4KiB, SpanStart, Offset, Width, Vpn, Idx;
    ChildBounds(level, start, i);
    var b := SpanStart(level + 1, Vpn(start)) + Offset(level, i);
    var s: Page4KiB := ChildStart(level, start, i).value;
    var e := Containing4KiB(ChildEnd(level, start, i).value);
    SamePage(ChildEnd(level, start, i).value);
    PageOrder(s, start);
    PageOrder(end, e);
    PageOrder(ChildRange(level, start, end, i).0, ChildRange(level, start, end, i).1);
    PageOrder(start, end);
    ClippedSpan(level, Vpn(start), Vpn(end), i);
  }

  /** The index of a page at a level, as the loop computes it. */
  function LevelIndex(level: Level, p: Page4KiB): (i: nat)
    ensures i < 512 && i == Idx(level, Vpn(p))
  {
    PageTableIndexAgrees(p, level);
    PageTableIndex(p, level)
  }

  lemma ClippedSpan(level: Level, lo: nat, hi: nat, i: nat)
    requires lo <= hi && SpanStart(level + 1, lo) == SpanStart(level + 1, hi)
    requires Idx(level, lo) <= i <= Idx(level, hi)
    ensures var b := SpanStart(level + 1, lo) + Offset(level, i);
            var s, e := if lo <= b then b else lo, if hi <= b + Width(level) - 1 then hi else b + Width(level) - 1;
            && s <= e && SpanStart(level, s) == b == SpanStart(level, e)
  {
    hide Idx, SpanStart, Offset, Width;
    var b := SpanStart(level + 1, lo) + Offset(level, i);
    SpanOfEntry(level, lo);
    SpanOfEntry(level, hi);
    SpanIsAligned(level + 1, lo);
    EntrySpan(level, SpanStart(level + 1, lo), i, b);
    OffsetOrder(level, Idx(level, lo), i);
    OffsetOrder(level, i, Idx(level, hi));
    SpanHere(level, b, if lo <= b then b else lo);
    SpanHere(level, b, if hi <= b + Width(level) - 1 then hi else b + Width(level) - 1);
  }

  lemma OffsetOrder(level: Level, i: nat, j: nat)
    requires i <= j
    ensures Offset(level, i) <= Offset(level, j)
    ensures i < j ==> Offset(level, i) + Width(level) <= Offset(level, j)
  {
  }

  lemma SpanHere(level: Level, b: nat, s: nat)
    requires b % Width(level) == 0 && b <= s < b + Width(level)
    ensures SpanStart(level, s) == b
  {
  }

  /** The sub-ranges tile the range: a page of the range is in the sub-range of its own index and
      in no other, and no sub-range reaches outside the range. */
  lemma ChildRangesTile(level: Level, start: Page4KiB, end: Page4KiB, i: nat, p: Page4KiB)
    requires start <= end && SpanStart(level + 1, Vpn(start)) == SpanStart(level + 1, Vpn(end))
    requires LevelIndex(level, start) <= i <= LevelIndex(level, end)
    ensures var (s, e) := ChildRange(level, start, end, i);
            s <= p <= e <==> start <= p <= end && LevelIndex(level, p) == i
    ensures start <= p <= end ==> LevelIndex(level, start) <= LevelIndex(level, p) <= LevelIndex(level, end)
  {
    hide ChildRange, SpanStart, Offset, Width, Idx, Vpn;
    ChildRangeIs(level, start, end, i);
    var (s, e) := ChildRange(level, start, end, i);
    PageOrder(s, p);
    PageOrder(p, e);
    PageOrder(start, p);
    PageOrder(p, end);
    PageOrder(start, end);
    Between(level, Vpn(start), Vpn(end), Vpn(p), i);
  }

  lemma Between(level: Level, lo: nat, hi: nat, v: nat, i: nat)
    requires lo <= hi && SpanStart(level + 1, lo) == SpanStart(level + 1, hi) && i < 512
    ensures var b := SpanStart(level + 1, lo) + Offset(level, i);
            lo <= v <= hi ==> (b <= v < b + Width(level) <==> Idx(level, v) == i)
    ensures lo <= v <= hi ==> Idx(level, lo) <= Idx(level, v) <= Idx(level, hi)
  {
    if lo <= v <= hi {
      SpanBetween(level + 1, lo, hi, v);
      SpanOfEntry(level, lo);
      SpanOfEntry(level, v);
      SpanOfEntry(level, hi);
      hide Idx, SpanStart, Offset, Width;
      var i', il, ih := Idx(level, v), Idx(level, lo), Idx(level, hi);
      if i' < i { OffsetOrder(level, i', i); } else if i < i' { OffsetOrder(level, i, i'); }
      if i' < il { OffsetOrder(level, i', il); }
      if ih < i' { OffsetOrder(level, ih, i'); }
    }
  }

  lemma SpanBetween(level: nat, lo: nat, hi: nat, v: nat)
    requires 1 <= level <= 5 && lo <= v <= hi && SpanStart(level, lo) == SpanStart(level, hi)
    ensures SpanStart(level, v) == SpanStart(level, lo)
  {
    SpanIsBlock(level, lo);
    SpanIsBlock(level, v);
    SpanIsBlock(level, hi);
    InSpan(level, lo, v);
    hide SpanStart, Block;
  }
}
