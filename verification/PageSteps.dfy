/** Stepping by whole pages, for every page size.

Pages of one size are numbered by rank; the steps of the source are arithmetic on these numbers,
including across the hole in the middle of the address space.
 */
module PageSteps {
  import opened Wrappers
  import opened Bits
  import opened Addr
  import Levels
  import Page

  type PageSize = s: int | s == 0x1000 || s == 0x20_0000 || s == 0x4000_0000 witness 0x1000

  predicate IsPage(size: PageSize, a: int) {
    Canonical(a) && a % size == 0
  }

  /** The number of the page that starts at `p`. */
  function Num(size: PageSize, p: VirtAddr): (n: nat)
    ensures n < Count(size)
  {
    NumFits(size, p);
    Lin(p) / size
  }

  /** The pages of this size, in both halves together. */
  function Count(size: PageSize): (n: nat)
    ensures n > 0
  {
    if size == 0x1000 then 0x10_0000_0000 else if size == 0x20_0000 then 0x800_0000 else 0x4_0000
  }

  /** The number of the first page of the upper half. */
  function Half(size: PageSize): nat {
    Count(size) / 2
  }

  /** The page of a number. */
  function PageOf(size: PageSize, n: nat): VirtAddr
    requires n < Count(size)
  {
    NumberFits(size, n);
    FromLin(n * size)
  }

  lemma NumFits(size: PageSize, p: VirtAddr)
    ensures Lin(p) / size < Count(size)
  {
  }

  lemma NumberFits(size: PageSize, n: nat)
    ensures n < Count(size) <==> n * size < ADDRESS_SPACE_SIZE
    ensures n * size >= 0
  {
    if size == 0x1000 {
    } else if size == 0x20_0000 {
    } else {
    }
  }

  /** A page and its number: `Num` and `PageOf` are inverse, keep the order, and the lower half
      comes first. */
  lemma PageNumber(size: PageSize, p: VirtAddr)
    requires IsPage(size, p)
    ensures Lin(p) == Num(size, p) * size && PageOf(size, Num(size, p)) == p
    ensures p < 0x8000_0000_0000 <==> Num(size, p) < Half(size)
  {
    LinParts(p);
    LinIsIso(p, p, 0);
    hide FromLin;
    if size == 0x1000 {
      Number4KiB(p, Lin(p));
    } else if size == 0x20_0000 {
      Number2MiB(p, Lin(p));
    } else {
      Number1GiB(p, Lin(p));
    }
  }

  lemma Number4KiB(p: int, n: nat)
    requires p % 0x1000 == 0 && n == if p < 0x8000_0000_0000 then p else p - 0xffff_0000_0000_0000
    ensures n == n / 0x1000 * 0x1000
    ensures n < 0x8000_0000_0000 <==> n / 0x1000 < 0x8_0000_0000
  {
  }

  lemma Number2MiB(p: int, n: nat)
    requires p % 0x20_0000 == 0 && n == if p < 0x8000_0000_0000 then p else p - 0xffff_0000_0000_0000
    ensures n == n / 0x20_0000 * 0x20_0000
    ensures n < 0x8000_0000_0000 <==> n / 0x20_0000 < 0x400_0000
  {
  }

  lemma Number1GiB(p: int, n: nat)
    requires p % 0x4000_0000 == 0 && n == if p < 0x8000_0000_0000 then p else p - 0xffff_0000_0000_0000
    ensures n == n / 0x4000_0000 * 0x4000_0000
    ensures n < 0x8000_0000_0000 <==> n / 0x4000_0000 < 0x2_0000
  {
  }

  lemma NumberedPage(size: PageSize, n: nat)
    requires n < Count(size)
    ensures IsPage(size, PageOf(size, n)) && Num(size, PageOf(size, n)) == n
    ensures PageOf(size, n) == if n < Half(size) then n * size else n * size + 0xffff_0000_0000_0000
  {
    NumberFits(size, n);
    HalfIs(size, n);
    LinIsIso(0, 0, n * size);
    hide Lin;
    Multiples(size, n);
  }

  /** The upper half starts at a multiple of every page size. */
  lemma Multiples(size: PageSize, n: nat)
    ensures n * size % size == 0 && (n * size + 0xffff_0000_0000_0000) % size == 0
    ensures n * size / size == n
  {
    DivIs(n * size, size, n, 0);
    if size == 0x1000 {
    } else if size == 0x20_0000 {
    } else {
    }
  }

  lemma HalfIs(size: PageSize, t: nat)
    ensures t < Half(size) <==> t * size < 0x8000_0000_0000
  {
    if size == 0x1000 {
    } else if size == 0x20_0000 {
    } else {
    }
  }

  lemma PageOrder(size: PageSize, p: VirtAddr, q: VirtAddr)
    requires IsPage(size, p) && IsPage(size, q)
    ensures p <= q <==> Num(size, p) <= Num(size, q)
    ensures p == q <==> Num(size, p) == Num(size, q)
  {
    hide Num, PageOf;
    PageNumber(size, p);
    PageNumber(size, q);
    LinIsIso(p, q, 0);
    var i, j := Num(size, p), Num(size, q);
    Scaled(size, i, j);
    Scaled(size, j, i);
  }

  lemma Scaled(size: PageSize, i: nat, j: nat)
    ensures i < j <==> i * size < j * size
  {
    if size == 0x1000 {
    } else if size == 0x20_0000 {
    } else {
    }
  }

  /** The level whose entries span a page of this size. */
  function LevelOf(size: PageSize): Levels.Level {
    if size == 0x1000 then 1 else if size == 0x20_0000 then 2 else 3
  }

  /** The number of a page is the number of its span among the spans of its level. */
  lemma NumIsBlock(size: PageSize, p: VirtAddr)
    ensures Num(size, p) == Levels.Block(LevelOf(size), Page.Vpn(p))
  {
    QuotientsAgree(Lin(p));
  }

  lemma QuotientsAgree(n: nat)
    ensures n / 0x1000 / 0x200 == n / 0x20_0000 && n / 0x1000 / 0x4_0000 == n / 0x4000_0000
  {
  }

  // ---------------------------------------------------------------- steps

  /** `steps_between_impl`. */
  function StepsBetween(size: PageSize, start: VirtAddr, end: VirtAddr): (nat, Option<nat>) {
    match Addr.StepsBetween(start, end)
    case Some(steps) => (steps / size, Some(steps / size))
    case None => (0, None)
  }

  function CheckedMul(a: u64, b: u64): Option<nat> {
    if a * b < U64 then Some(a * b) else None
  }

  /** `forward_checked_impl` and `backward_checked`. */
  function ForwardChecked(size: PageSize, start: VirtAddr, count: u64): Option<VirtAddr> {
    match CheckedMul(count, size)
    case None => None
    case Some(bytes) => if 0 <= bytes < U64 then Addr.ForwardChecked(start, bytes) else None
  }

  function BackwardChecked(size: PageSize, start: VirtAddr, count: u64): Option<VirtAddr> {
    match CheckedMul(count, size)
    case None => None
    case Some(bytes) => if 0 <= bytes < U64 then Addr.BackwardChecked(start, bytes) else None
  }

  lemma Product(size: PageSize, count: u64)
    ensures count * size >= 0
    ensures count * size <= ADDRESS_SPACE_SIZE <==> count <= Count(size)
  {
    if size == 0x1000 {
    } else if size == 0x20_0000 {
    } else {
    }
  }

  /** A step forward adds to the page number; it fails exactly when there is no such page. */
  lemma ForwardIsAddition(size: PageSize, p: VirtAddr, count: u64)
    requires IsPage(size, p)
    ensures ForwardChecked(size, p, count) ==
            if Num(size, p) + count < Count(size) then Some(PageOf(size, Num(size, p) + count)) else None
  {
    hide Num, PageOf, FromLin, Addr.ForwardChecked;
    var n := Num(size, p);
    PageNumber(size, p);
    Product(size, count);
    SumOfPages(size, n, count);
    NumberFits(size, n + count);
    if count * size < U64 { ForwardIsRankAddition(p, count * size); }
    if n + count < Count(size) { PageOfIs(size, n + count); }
  }

  lemma PageOfIs(size: PageSize, n: nat)
    requires n < Count(size)
    ensures 0 <= n * size < ADDRESS_SPACE_SIZE && PageOf(size, n) == FromLin(n * size)
  {
    NumberFits(size, n);
  }

  lemma SumOfPages(size: PageSize, n: int, k: int)
    ensures n * size + k * size == (n + k) * size
    ensures n * size - k * size == (n - k) * size
  {
  }

  lemma BackwardIsSubtraction(size: PageSize, p: VirtAddr, count: u64)
    requires IsPage(size, p)
    ensures BackwardChecked(size, p, count) ==
            if count <= Num(size, p) then Some(PageOf(size, Num(size, p) - count)) else None
  {
    hide Num, PageOf, FromLin, Addr.BackwardChecked;
    var n := Num(size, p);
    PageNumber(size, p);
    Product(size, count);
    SumOfPages(size, n, count);
    Scaled(size, n, count);
    if count * size < U64 { BackwardIsRankSubtraction(p, count * size); }
    if count <= n {
      PageOfIs(size, n - count);
      PageOfIs(size, n);
    }
  }

  /** The distance between two pages is the difference of their numbers. */
  lemma StepsBetweenIsDifference(size: PageSize, p: VirtAddr, q: VirtAddr)
    requires IsPage(size, p) && IsPage(size, q)
    ensures StepsBetween(size, p, q) ==
            if p <= q then (Num(size, q) - Num(size, p), Some(Num(size, q) - Num(size, p))) else (0, None)
  {
    hide Num, PageOf, Lin;
    StepsBetweenIsRankDifference(p, q);
    PageNumber(size, p);
    PageNumber(size, q);
    PageOrder(size, p, q);
    var d := Num(size, q) - Num(size, p);
    SumOfPages(size, Num(size, q), Num(size, p));
    DivIs(d * size, size, d, 0);
  }

  /** Steps keep to pages, compose, are undone by stepping back, keep the order and are measured
      by `StepsBetween`. */
  lemma StepsCompose(size: PageSize, p: VirtAddr, m: u64, n: u64)
    requires IsPage(size, p) && m + n < U64 && ForwardChecked(size, p, m).Some?
    ensures var q := ForwardChecked(size, p, m).value;
            && IsPage(size, q) && p <= q
            && BackwardChecked(size, q, m) == Some(p)
            && StepsBetween(size, p, q) == (m, Some(m))
            && ForwardChecked(size, q, n) == ForwardChecked(size, p, m + n)
  {
    hide Num, PageOf, Addr.StepsBetween, CheckedMul;
    ForwardIsAddition(size, p, m);
    ForwardIsAddition(size, p, m + n);
    var q := ForwardChecked(size, p, m).value;
    NumberedPage(size, Num(size, p) + m);
    ForwardIsAddition(size, q, n);
    BackwardIsSubtraction(size, q, m);
    PageNumber(size, p);
    PageOrder(size, p, q);
    StepsBetweenIsDifference(size, p, q);
  }

  // ---------------------------------------------------------------- adding and subtracting

  /** `page + n`; `None` is a panic, by overflow or by an address that is not canonical. */
  function Plus(size: PageSize, p: VirtAddr, n: u64): Option<VirtAddr> {
    match CheckedMul(n, size)
    case None => None
    case Some(bytes) => if 0 <= bytes < U64 then Addr.Plus(p, bytes) else None
  }

  function Minus(size: PageSize, p: VirtAddr, n: u64): Option<VirtAddr> {
    match CheckedMul(n, size)
    case None => None
    case Some(bytes) => if 0 <= bytes < U64 then Addr.Minus(p, bytes) else None
  }

  /** `page + n` is the step forward as long as it stays in the lower half or starts in the upper
      half.  Where the step crosses the hole, `page + n` panics. */
  lemma PlusDoesNotCross(size: PageSize, p: VirtAddr, n: u64)
    requires IsPage(size, p)
    ensures var t := Num(size, p) + n;
            && (t < Half(size) || Half(size) <= Num(size, p) ==> Plus(size, p, n) == ForwardChecked(size, p, n))
            && (Num(size, p) < Half(size) <= t < Count(size) ==>
                  Plus(size, p, n) == None && ForwardChecked(size, p, n) == Some(PageOf(size, t)))
  {
    hide Num, PageOf, Lin, ForwardChecked, FromLin;
    var t := Num(size, p) + n;
    ForwardIsAddition(size, p, n);
    PageNumber(size, p);
    Product(size, n);
    LinParts(p);
    SumOfPages(size, Num(size, p), n);
    NumberFits(size, t);
    HalfIs(size, t);
    HalfIs(size, Num(size, p));
    if t < Count(size) { NumberedPage(size, t); }
    if n * size < U64 { PlusIs(p, n * size); }
  }
}
