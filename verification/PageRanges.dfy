/** `PageRange` and `PageRangeInclusive`: iteration over pages of one size. */
module PageRanges {
  import opened Wrappers
  import opened Bits
  import opened Addr
  import opened PageSteps

  /** What a call of `next` does: yield a page, end the iteration, or panic. */
  datatype Next = Item(page: VirtAddr) | Done | Panicked

  /** The iterator after a call of `next`, and the answer. */
  datatype Stepped = Stepped(start: VirtAddr, end: VirtAddr, next: Next)

  /** The pages numbered `from` up to `upto`, in order. */
  function Pages(size: PageSize, from: nat, upto: nat): (s: seq<VirtAddr>)
    requires upto <= Count(size)
    ensures from <= upto ==> |s| == upto - from
    ensures from >= upto ==> s == []
  {
    if from >= upto then []
    else seq<VirtAddr>(upto - from, i requires 0 <= i < upto - from => PageOf(size, from + i))
  }

  lemma FirstPage(size: PageSize, from: nat, upto: nat)
    requires from < upto <= Count(size)
    ensures Pages(size, from, upto) == [PageOf(size, from)] + Pages(size, from + 1, upto)
  {
  }

  function LastPage(size: PageSize): VirtAddr {
    0xffff_ffff_ffff_ffff - (size - 1)
  }

  /** Adding one panics on the last page of either half. */
  lemma NextPage(size: PageSize, p: VirtAddr)
    requires IsPage(size, p)
    ensures var n := Num(size, p) + 1;
            && PageSteps.Plus(size, p, 1) == (if n == Half(size) || n == Count(size) then None else Some(PageOf(size, n)))
            && (n != Half(size) && n != Count(size) ==> PageOf(size, n) == p + size && IsPage(size, p + size)
                                                        && Num(size, p + size) == n)
    ensures p == LastPage(size) <==> Num(size, p) + 1 == Count(size)
    ensures p <= LastPage(size)
  {
    var n := Num(size, p) + 1;
    hide Num, PageOf, FromLin, PageSteps.Plus, Lin;
    PageNumber(size, p);
    LinParts(p);
    PlusDoesNotCross(size, p, 1);
    ForwardIsAddition(size, p, 1);
    SumOfPages(size, Num(size, p), 1);
    if n < Count(size) { NumberedPage(size, n); }
    Last(size, p, Num(size, p));
  }

  lemma Last(size: PageSize, p: VirtAddr, n: nat)
    requires n < Count(size) && Lin(p) == n * size && p % size == 0
    ensures p == LastPage(size) <==> n + 1 == Count(size)
    ensures p <= LastPage(size)
  {
    LinParts(p);
    hide Lin;
    if size == 0x1000 {
    } else if size == 0x20_0000 {
    } else {
    }
  }

  lemma PreviousOfLast(size: PageSize)
    ensures IsPage(size, LastPage(size)) && IsPage(size, LastPage(size) - size)
    ensures PageSteps.Minus(size, LastPage(size), 1) == Some(LastPage(size) - size)
  {
    MinusIs(LastPage(size), size);
  }

  // ---------------------------------------------------------------- inclusive ranges

  /** `PageRangeInclusive::next`. */
  function NextInclusive(size: PageSize, start: VirtAddr, end: VirtAddr): Stepped {
    if start <= end then
      if start < LastPage(size) then
        match PageSteps.Plus(size, start, 1)
        case Some(s) => Stepped(s, end, Item(start))
        case None => Stepped(start, end, Panicked)
      else
        match PageSteps.Minus(size, end, 1)
        case Some(e) => Stepped(start, e, Item(start))
        case None => Stepped(start, end, Panicked)
    else Stepped(start, end, Done)
  }

  /** `PageRangeInclusive::len`. */
  function LenInclusive(size: PageSize, start: VirtAddr, end: VirtAddr): nat {
    if start <= end then (end - start) / size + 1 else 0
  }

  /** The pages of the range. */
  function Inclusive(size: PageSize, start: VirtAddr, end: VirtAddr): seq<VirtAddr> {
    Pages(size, Num(size, start), Num(size, end) + 1)
  }

  predicate SameHalf(start: VirtAddr, end: VirtAddr) {
    start < 0x8000_0000_0000 <==> end < 0x8000_0000_0000
  }

  /** The last page of the lower half is in the range: the iteration panics when it gets there. */
  predicate MeetsHole(size: PageSize, start: VirtAddr, end: VirtAddr) {
    Num(size, start) < Half(size) <= Num(size, end) + 1
  }

  /** A call of `next` panics exactly at the last page of the lower half; otherwise it takes the
      first page off the range and one off its length. */
  lemma NextInclusiveTakesFirst(size: PageSize, start: VirtAddr, end: VirtAddr)
    requires IsPage(size, start) && IsPage(size, end)
    ensures var was, n := Inclusive(size, start, end), NextInclusive(size, start, end);
            && IsPage(size, n.start) && IsPage(size, n.end)
            && (n.next == Done <==> was == [])
            && (n.next == Panicked <==> start <= end && Num(size, start) + 1 == Half(size))
            && (n.next.Item? ==> was == [n.next.page] + Inclusive(size, n.start, n.end)
                                 && LenInclusive(size, n.start, n.end) == LenInclusive(size, start, end) - 1
                                 && MeetsHole(size, n.start, n.end) == MeetsHole(size, start, end))
            && (!n.next.Item? ==> n.start == start && n.end == end)
  {
    hide Num, PageOf, PageSteps.Plus, PageSteps.Minus, LastPage;
    PageOrder(size, start, end);
    NextPage(size, start);
    if start <= end {
      if start < LastPage(size) {
        PageNumber(size, start);
        FirstPage(size, Num(size, start), Num(size, end) + 1);
        OneLess(size, start, end);
      } else {
        NextPage(size, end);
        NextAtLast(size, start);
      }
    }
  }

  /** At the last page of the address space `next` lowers `end` instead of raising `start`. */
  lemma NextAtLast(size: PageSize, p: VirtAddr)
    requires p == LastPage(size)
    ensures IsPage(size, p) && NextInclusive(size, p, p) == Stepped(p, p - size, Item(p)) && IsPage(size, p - size)
    ensures Inclusive(size, p, p) == [p] && Inclusive(size, p, p - size) == []
    ensures !MeetsHole(size, p, p) && !MeetsHole(size, p, p - size)
    ensures LenInclusive(size, p, p) == 1 && LenInclusive(size, p, p - size) == 0
    ensures Num(size, p) + 1 != Half(size)
  {
    hide Num, PageOf, PageSteps.Plus, PageSteps.Minus;
    PreviousOfLast(size);
    NextPage(size, p);
    NextPage(size, p - size);
    PageNumber(size, p);
    PageOrder(size, p - size, p);
  }

  lemma OneLess(size: PageSize, start: int, end: int)
    requires start % size == 0 && end % size == 0 && start <= end
    ensures start + size <= end ==> (end - (start + size)) / size == (end - start) / size - 1
    ensures start + size > end ==> start == end && (end - start) / size == 0
  {
    if size == 0x1000 {
    } else if size == 0x20_0000 {
    } else {
    }
  }

  /** Calling `next` until it ends or panics: the pages yielded, and whether it panicked. */
  ghost function IterateInclusive(size: PageSize, start: VirtAddr, end: VirtAddr): (seq<VirtAddr>, bool)
    requires IsPage(size, start) && IsPage(size, end)
    decreases |Inclusive(size, start, end)|
  {
    NextInclusiveTakesFirst(size, start, end);
    var n := NextInclusive(size, start, end);
    match n.next
    case Item(p) => var (rest, panicked) := IterateInclusive(size, n.start, n.end); ([p] + rest, panicked)
    case Done => ([], false)
    case Panicked => ([], true)
  }

  /** Iteration yields every page of the range once, in ascending order, unless the last page of
      the lower half is in the range.  Then it yields the pages before that one and panics. */
  lemma {:induction false} InclusiveYieldsEveryPage(size: PageSize, start: VirtAddr, end: VirtAddr)
    requires IsPage(size, start) && IsPage(size, end)
    ensures var stops := MeetsHole(size, start, end);
            IterateInclusive(size, start, end) ==
            (if stops then Pages(size, Num(size, start), Half(size) - 1) else Inclusive(size, start, end), stops)
    decreases |Inclusive(size, start, end)|
  {
    hide Num, PageOf, NextInclusive, IsPage;
    NextInclusiveTakesFirst(size, start, end);
    var n := NextInclusive(size, start, end);
    PageOrder(size, start, end);
    if n.next.Item? {
      InclusiveYieldsEveryPage(size, n.start, n.end);
      if MeetsHole(size, start, end) { StepToHole(size, start, end); }
    }
  }

  lemma StepToHole(size: PageSize, start: VirtAddr, end: VirtAddr)
    requires IsPage(size, start) && IsPage(size, end) && NextInclusive(size, start, end).next.Item?
    requires MeetsHole(size, start, end)
    ensures var n := NextInclusive(size, start, end);
            Pages(size, Num(size, start), Half(size) - 1) == [n.next.page] + Pages(size, Num(size, n.start), Half(size) - 1)
  {
    hide Num, PageOf, PageSteps.Plus, PageSteps.Minus;
    NextPage(size, start);
    PageNumber(size, start);
    NextInclusiveTakesFirst(size, start, end);
    FirstPage(size, Num(size, start), Half(size) - 1);
  }

  /** `len` is the number of pages exactly when the range does not span the hole; otherwise it
      also counts the pages the hole would have. */
  lemma LenInclusiveIsCountIff(size: PageSize, start: VirtAddr, end: VirtAddr)
    requires IsPage(size, start) && IsPage(size, end)
    ensures LenInclusive(size, start, end) == |Inclusive(size, start, end)| <==> start > end || SameHalf(start, end)
  {
    hide Num, PageOf;
    PageOrder(size, start, end);
    if start <= end { LenInPages(size, start, end); }
  }

  lemma LenInPages(size: PageSize, start: VirtAddr, end: VirtAddr)
    requires IsPage(size, start) && IsPage(size, end) && start <= end
    ensures (end - start) / size == Num(size, end) - Num(size, start) <==> SameHalf(start, end)
  {
    LinParts(start);
    LinParts(end);
    PageNumber(size, start);
    PageNumber(size, end);
    hide Lin, Num, PageOf;
    var d := Num(size, end) - Num(size, start);
    SumOfPages(size, Num(size, end), Num(size, start));
    if SameHalf(start, end) {
      DivIs(end - start, size, d, 0);
    } else {
      HoleInPages(size, d);
    }
  }

  lemma HoleInPages(size: PageSize, d: int)
    ensures (d * size + 0xffff_0000_0000_0000) / size > d
  {
    if size == 0x1000 {
    } else if size == 0x20_0000 {
    } else {
    }
  }

  class PageRangeInclusive {
    const size: PageSize
    var start: VirtAddr
    var end: VirtAddr

    ghost predicate Valid()
      reads this
    {
      IsPage(size, start) && IsPage(size, end)
    }

    /** The pages still to come. */
    ghost function Left(): seq<VirtAddr>
      reads this
    {
      Inclusive(size, start, end)
    }

    constructor (size: PageSize, start: VirtAddr, end: VirtAddr)
      requires IsPage(size, start) && IsPage(size, end)
      ensures Valid() && this.size == size && Left() == Inclusive(size, start, end)
    {
      this.size := size;
      this.start := start;
      this.end := end;
    }

    function IsEmpty(): (r: bool)
      requires Valid()
      reads this
      ensures r <==> Left() == []
    {
      PageOrder(size, start, end);
      start > end
    }

    function Len(): (n: nat)
      requires Valid()
      reads this
      ensures start > end || SameHalf(start, end) <==> n == |Left()|
    {
      LenInclusiveIsCountIff(size, start, end);
      LenInclusive(size, start, end)
    }

    method Next() returns (r: Next)
      requires Valid()
      modifies this
      ensures Valid()
      ensures r.Item? ==> old(Left()) == [r.page] + Left() && Len() == old(Len()) - 1
      ensures r == Done <==> old(Left()) == []
      ensures Stepped(start, end, r) == NextInclusive(size, old(start), old(end))
    {
      NextInclusiveTakesFirst(size, start, end);
      if start <= end {
        var page := start;
        if start < LastPage(size) {
          var s := PageSteps.Plus(size, start, 1);
          if s.None? {
            return Panicked;
          }
          start := s.value;
        } else {
          var e := PageSteps.Minus(size, end, 1);
          if e.None? {
            return Panicked;
          }
          end := e.value;
        }
        return Item(page);
      } else {
        return Done;
      }
    }
  }

  // ---------------------------------------------------------------- ranges without their end

  /** `PageRange::next`. */
  function NextExclusive(size: PageSize, start: VirtAddr, end: VirtAddr): Stepped {
    if start < end then
      match PageSteps.Plus(size, start, 1)
      case Some(s) => Stepped(s, end, Item(start))
      case None => Stepped(start, end, Panicked)
    else Stepped(start, end, Done)
  }

  /** `PageRange::len`. */
  function LenExclusive(size: PageSize, start: VirtAddr, end: VirtAddr): nat {
    if start < end then (end - start) / size else 0
  }

  /** The pages of the range. */
  function Exclusive(size: PageSize, start: VirtAddr, end: VirtAddr): seq<VirtAddr> {
    Pages(size, Num(size, start), Num(size, end))
  }

  /** The range has pages in the lower half and ends in the upper one. */
  predicate SpansHole(size: PageSize, start: VirtAddr, end: VirtAddr) {
    Num(size, start) < Half(size) <= Num(size, end)
  }

  lemma NextExclusiveTakesFirst(size: PageSize, start: VirtAddr, end: VirtAddr)
    requires IsPage(size, start) && IsPage(size, end)
    ensures var was, n := Exclusive(size, start, end), NextExclusive(size, start, end);
            && IsPage(size, n.start) && n.end == end
            && (n.next == Done <==> was == [])
            && (n.next == Panicked <==> start < end && Num(size, start) + 1 == Half(size))
            && (n.next.Item? ==> was == [n.next.page] + Exclusive(size, n.start, end)
                                 && LenExclusive(size, n.start, end) == LenExclusive(size, start, end) - 1
                                 && SpansHole(size, n.start, end) == SpansHole(size, start, end))
            && (!n.next.Item? ==> n.start == start)
  {
    hide Num, PageOf, PageSteps.Plus, LastPage;
    PageOrder(size, start, end);
    NextPage(size, start);
    PageNumber(size, start);
    if start < end {
      FirstPage(size, Num(size, start), Num(size, end));
      OneLess(size, start, end);
    }
  }

  ghost function IterateExclusive(size: PageSize, start: VirtAddr, end: VirtAddr): (seq<VirtAddr>, bool)
    requires IsPage(size, start) && IsPage(size, end)
    decreases |Exclusive(size, start, end)|
  {
    NextExclusiveTakesFirst(size, start, end);
    var n := NextExclusive(size, start, end);
    match n.next
    case Item(p) => var (rest, panicked) := IterateExclusive(size, n.start, end); ([p] + rest, panicked)
    case Done => ([], false)
    case Panicked => ([], true)
  }

  /** Iteration yields every page of the range once, in ascending order, unless the range spans the
      hole.  Then it yields the pages before the last page of the lower half and panics. */
  lemma {:induction false} ExclusiveYieldsEveryPage(size: PageSize, start: VirtAddr, end: VirtAddr)
    requires IsPage(size, start) && IsPage(size, end)
    ensures var stops := SpansHole(size, start, end);
            IterateExclusive(size, start, end) ==
            (if stops then Pages(size, Num(size, start), Half(size) - 1) else Exclusive(size, start, end), stops)
    decreases |Exclusive(size, start, end)|
  {
    hide Num, PageOf, NextExclusive, IsPage;
    NextExclusiveTakesFirst(size, start, end);
    var n := NextExclusive(size, start, end);
    PageOrder(size, start, end);
    if n.next.Item? {
      ExclusiveYieldsEveryPage(size, n.start, end);
      if SpansHole(size, start, end) { ExclusiveStepToHole(size, start, end); }
    }
  }

  lemma ExclusiveStepToHole(size: PageSize, start: VirtAddr, end: VirtAddr)
    requires IsPage(size, start) && IsPage(size, end) && NextExclusive(size, start, end).next.Item?
    requires SpansHole(size, start, end)
    ensures var n := NextExclusive(size, start, end);
            Pages(size, Num(size, start), Half(size) - 1) == [n.next.page] + Pages(size, Num(size, n.start), Half(size) - 1)
  {
    hide Num, PageOf, PageSteps.Plus;
    NextPage(size, start);
    PageNumber(size, start);
    FirstPage(size, Num(size, start), Half(size) - 1);
  }

  lemma LenExclusiveIsCountIff(size: PageSize, start: VirtAddr, end: VirtAddr)
    requires IsPage(size, start) && IsPage(size, end)
    ensures LenExclusive(size, start, end) == |Exclusive(size, start, end)| <==> start >= end || SameHalf(start, end)
  {
    hide Num, PageOf;
    PageOrder(size, start, end);
    if start < end { LenInPages(size, start, end); }
  }

  class PageRange {
    const size: PageSize
    var start: VirtAddr
    var end: VirtAddr

    ghost predicate Valid()
      reads this
    {
      IsPage(size, start) && IsPage(size, end)
    }

    /** The pages still to come. */
    ghost function Left(): seq<VirtAddr>
      reads this
    {
      Exclusive(size, start, end)
    }

    constructor (size: PageSize, start: VirtAddr, end: VirtAddr)
      requires IsPage(size, start) && IsPage(size, end)
      ensures Valid() && this.size == size && Left() == Exclusive(size, start, end)
    {
      this.size := size;
      this.start := start;
      this.end := end;
    }

    function IsEmpty(): (r: bool)
      requires Valid()
      reads this
      ensures r <==> Left() == []
    {
      PageOrder(size, start, end);
      start >= end
    }

    function Len(): (n: nat)
      requires Valid()
      reads this
      ensures start >= end || SameHalf(start, end) <==> n == |Left()|
    {
      LenExclusiveIsCountIff(size, start, end);
      LenExclusive(size, start, end)
    }

    method Next() returns (r: Next)
      requires Valid()
      modifies this
      ensures Valid()
      ensures r.Item? ==> old(Left()) == [r.page] + Left() && Len() == old(Len()) - 1
      ensures r == Done <==> old(Left()) == []
      ensures Stepped(start, end, r) == NextExclusive(size, old(start), old(end))
    {
      NextExclusiveTakesFirst(size, start, end);
      if start < end {
        var page := start;
        var s := PageSteps.Plus(size, start, 1);
        if s.None? {
          return Panicked;
        }
        start := s.value;
        return Item(page);
      } else {
        return Done;
      }
    }
  }
}
