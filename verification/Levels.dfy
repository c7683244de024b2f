/** The radix-512 shape of the four paging levels.

A 4KiB page is numbered by its virtual page number `v`, the rank of its address divided by
4096.  An entry of a level-L table covers `Width(L)` consecutive page numbers.
 */
module Levels {

  type Level = l: int | 1 <= l <= 4 witness 1

  const PAGES: nat := 0x10_0000_0000

  /** 4KiB pages below one entry of a table of this level. */
  function Width(level: nat): (w: nat)
    requires 1 <= level <= 5
    ensures w > 0
  {
    if level == 1 then 1
    else if level == 2 then 0x200
    else if level == 3 then 0x4_0000
    else if level == 4 then 0x800_0000
    else 0x10_0000_0000
  }

  /** The number of the level-`level` entry span that contains page `v`: `v / Width(level)`. */
  function Block(level: nat, v: nat): nat
    requires 1 <= level <= 5
  {
    if level == 1 then v
    else if level == 2 then v / 0x200
    else if level == 3 then v / 0x4_0000
    else if level == 4 then v / 0x800_0000
    else v / 0x10_0000_0000
  }

  /** The index of page `v` in the table of this level on its path. */
  function Idx(level: Level, v: nat): (i: nat)
    ensures i < 512
  {
    Block(level, v) % 512
  }

  lemma BlockIsOuterBlockAndIndex(level: Level, v: nat)
    ensures Block(level, v) == 512 * Block(level + 1, v) + Idx(level, v)
  {
  }

  /** Within one table, two pages share an entry exactly when they share its index. */
  lemma SameEntry(level: Level, v: nat, w: nat)
    requires Block(level + 1, v) == Block(level + 1, w)
    ensures Idx(level, v) == Idx(level, w) <==> Block(level, v) == Block(level, w)
  {
    BlockIsOuterBlockAndIndex(level, v);
    BlockIsOuterBlockAndIndex(level, w);
  }

  /** A finer common span is also a coarser one. */
  lemma {:induction false} CoarserBlock(lo: nat, hi: nat, v: nat, w: nat)
    requires 1 <= lo <= hi <= 5
    requires Block(lo, v) == Block(lo, w)
    ensures Block(hi, v) == Block(hi, w)
    decreases hi - lo
  {
    if lo < hi {
      BlockIsOuterBlockAndIndex(lo, v);
      BlockIsOuterBlockAndIndex(lo, w);
      CoarserBlock(lo + 1, hi, v, w);
    }
  }

  /** `i * Width(level)`: where the span of entry `i` starts within the span of its table. */
  function Offset(level: Level, i: nat): nat {
    if level == 1 then i
    else if level == 2 then i * 0x200
    else if level == 3 then i * 0x4_0000
    else i * 0x800_0000
  }

  /** The pages `start..start + width` share a page with `lo..=hi`. */
  predicate Meets(start: nat, width: nat, lo: nat, hi: nat) {
    lo <= hi && start <= hi && lo < start + width
  }

  /** The pages whose index in a table is `i` are the span of entry `i`. */
  lemma EntrySpan(level: Level, base: nat, i: nat, v: nat)
    requires i < 512 && base % Width(level + 1) == 0
    requires base + Offset(level, i) <= v < base + Offset(level, i) + Width(level)
    ensures Idx(level, v) == i
    ensures base <= v < base + Width(level + 1)
    ensures (base + Offset(level, i)) % Width(level) == 0
  {
    if level == 2 {
      EntrySpan2(base, i, v);
    } else if level == 3 {
      EntrySpan3(base, i, v);
    } else if level == 4 {
      EntrySpan4(base, i, v);
    }
  }

  lemma EntrySpan2(base: nat, i: nat, v: nat)
    requires base % 0x4_0000 == 0 && i < 512 && base + i * 0x200 <= v < base + i * 0x200 + 0x200
    ensures v / 0x200 % 512 == i && (base + i * 0x200) % 0x200 == 0 && base <= v < base + 0x4_0000
  {
    assert v / 0x200 == 512 * (base / 0x4_0000) + i;
  }

  lemma EntrySpan3(base: nat, i: nat, v: nat)
    requires base % 0x800_0000 == 0 && i < 512 && base + i * 0x4_0000 <= v < base + i * 0x4_0000 + 0x4_0000
    ensures v / 0x4_0000 % 512 == i && (base + i * 0x4_0000) % 0x4_0000 == 0 && base <= v < base + 0x800_0000
  {
    assert v / 0x4_0000 == 512 * (base / 0x800_0000) + i;
  }

  lemma EntrySpan4(base: nat, i: nat, v: nat)
    requires base % 0x10_0000_0000 == 0 && i < 512
    requires base + i * 0x800_0000 <= v < base + i * 0x800_0000 + 0x800_0000
    ensures v / 0x800_0000 % 512 == i && (base + i * 0x800_0000) % 0x800_0000 == 0 && base <= v < base + 0x10_0000_0000
  {
    assert v / 0x800_0000 == 512 * (base / 0x10_0000_0000) + i;
  }

  /** The first page of the entry span that contains page `v`. */
  function SpanStart(level: nat, v: nat): nat
    requires 1 <= level <= 5
  {
    if level == 1 then v
    else if level == 2 then v / 0x200 * 0x200
    else if level == 3 then v / 0x4_0000 * 0x4_0000
    else if level == 4 then v / 0x800_0000 * 0x800_0000
    else v / 0x10_0000_0000 * 0x10_0000_0000
  }

  /** A span is cut into its entries' spans, and pages share a span exactly when they share its
      block number. */
  lemma SpanOfEntry(level: Level, v: nat)
    ensures SpanStart(level, v) == SpanStart(level + 1, v) + Offset(level, Idx(level, v))
    ensures SpanStart(level + 1, v) % Width(level + 1) == 0
    ensures SpanStart(level, v) <= v < SpanStart(level, v) + Width(level)
    ensures SpanStart(level + 1, v) <= SpanStart(level, v)
    ensures SpanStart(level, v) + Width(level) <= SpanStart(level + 1, v) + Width(level + 1)
  {
    BlockIsOuterBlockAndIndex(level, v);
    SpanIsBlock(level, v);
    SpanIsBlock(level + 1, v);
    SpanIsAligned(level + 1, v);
    hide Idx, Block, SpanStart;
    Nested(level, Block(level, v), Block(level + 1, v), Idx(level, v));
  }

  lemma Nested(level: Level, inner: nat, outer: nat, i: nat)
    requires inner == 512 * outer + i && i < 512
    ensures if level == 1 then inner == 0x200 * outer + Offset(1, i) && inner + 1 <= 0x200 * outer + 0x200
            else if level == 2 then 0x200 * inner == 0x4_0000 * outer + Offset(2, i)
                 && 0x200 * inner + 0x200 <= 0x4_0000 * outer + 0x4_0000
            else if level == 3 then 0x4_0000 * inner == 0x800_0000 * outer + Offset(3, i)
                 && 0x4_0000 * inner + 0x4_0000 <= 0x800_0000 * outer + 0x800_0000
            else 0x800_0000 * inner == 0x10_0000_0000 * outer + Offset(4, i)
                 && 0x800_0000 * inner + 0x800_0000 <= 0x10_0000_0000 * outer + 0x10_0000_0000
  {
  }

  lemma SpanIsBlock(level: nat, v: nat)
    requires 1 <= level <= 5
    ensures level == 1 ==> SpanStart(level, v) == Block(level, v)
    ensures level == 2 ==> SpanStart(level, v) == 0x200 * Block(level, v)
    ensures level == 3 ==> SpanStart(level, v) == 0x4_0000 * Block(level, v)
    ensures level == 4 ==> SpanStart(level, v) == 0x800_0000 * Block(level, v)
    ensures level == 5 ==> SpanStart(level, v) == 0x10_0000_0000 * Block(level, v)
    ensures SpanStart(level, v) <= v < SpanStart(level, v) + Width(level)
  {
  }

  lemma SpanIsAligned(level: nat, v: nat)
    requires 1 <= level <= 5
    ensures SpanStart(level, v) % Width(level) == 0
  {
  }

  lemma InSpan(level: nat, v: nat, w: nat)
    requires 1 <= level <= 5
    ensures SpanStart(level, v) <= w < SpanStart(level, v) + Width(level) <==> Block(level, w) == Block(level, v)
  {
  }

  lemma {:induction false} SpanNested(lo: nat, hi: nat, v: nat)
    requires 1 <= lo <= hi <= 5
    ensures SpanStart(hi, v) <= SpanStart(lo, v)
    ensures SpanStart(lo, v) + Width(lo) <= SpanStart(hi, v) + Width(hi)
    decreases hi - lo
  {
    if lo < hi {
      SpanOfEntry(lo, v);
      SpanNested(lo + 1, hi, v);
    }
  }
}
