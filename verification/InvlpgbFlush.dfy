/** `InvlpgbFlushBuilder::flush`: a range of pages flushed by a sequence of bounded commands.

The log of commands stands for the `invlpgb` instructions; a command that names a count of zero
flushes one page.
 */
module InvlpgbFlush {
  import opened Wrappers
  import opened Bits
  import opened Addr
  import Page
  import PageSteps

  /** The sizes `flush` exists for. */
  type FlushSize = s: int | s == 0x1000 || s == 0x20_0000 witness 0x1000

  const U16_MAX: nat := 0xffff

  datatype Command = FlushAll | FlushPages(start: VirtAddr, count: nat)

  /** The pages a command flushes. */
  function Run(c: Command): nat
    requires c.FlushPages?
  {
    if c.count == 0 then 1 else c.count
  }

  function Least(a: nat, b: nat): nat {
    if a <= b then a else b
  }

  /** The commands' runs follow each other without gap or overlap, from page number `from` up to
      page number `to`. */
  ghost predicate Tiles(size: FlushSize, log: seq<Command>, from: nat, to: nat) {
    if log == [] then from == to
    else
      var c := log[|log| - 1];
      && c.FlushPages? && PageSteps.IsPage(size, c.start)
      && Tiles(size, log[..|log| - 1], from, PageSteps.Num(size, c.start))
      && to == PageSteps.Num(size, c.start) + Run(c)
  }

  /** No command is over its limit or straddles the hole, and one falls short of the limit only
      where the range or the lower half ends. */
  ghost predicate Bounded(size: FlushSize, c: Command, countMax: nat, to: nat) {
    && c.FlushPages? && c.count <= countMax && c.count <= 0xffff
    && var n := PageSteps.Num(size, c.start);
       && (n < PageSteps.Half(size) ==> n + Run(c) <= PageSteps.Half(size))
       && (c.count < countMax && c.count < 0xffff ==> n + Run(c) in {to, PageSteps.Half(size)})
  }

  /** Page number `n` is in the run of the command. */
  ghost predicate Flushes(size: FlushSize, c: Command, n: nat)
    requires c.FlushPages?
  {
    PageSteps.Num(size, c.start) <= n < PageSteps.Num(size, c.start) + Run(c)
  }

  /** With tiling commands every page of the range is flushed by exactly one command, and no page
      outside the range is flushed. */
  lemma {:induction false} TilesFlushOnce(size: FlushSize, log: seq<Command>, from: nat, to: nat, n: nat)
    requires Tiles(size, log, from, to)
    ensures from <= to
    ensures forall i :: 0 <= i < |log| ==> log[i].FlushPages?
    ensures forall i, j :: 0 <= i < j < |log| && Flushes(size, log[i], n) ==> !Flushes(size, log[j], n)
    ensures from <= n < to <==> exists i :: 0 <= i < |log| && Flushes(size, log[i], n)
    decreases |log|
  {
    hide PageSteps.Num;
    if log != [] {
      var c := log[|log| - 1];
      TilesFlushOnce(size, log[..|log| - 1], from, PageSteps.Num(size, c.start), n);
    }
  }

  /** The pages still to flush at `start`, up to the end of the range and of the lower half. */
  lemma Remaining(size: FlushSize, start: VirtAddr, end: VirtAddr)
    requires PageSteps.IsPage(size, start) && PageSteps.IsPage(size, end) && start < end
    ensures PageSteps.StepsBetween(size, start, end).0 == PageSteps.Num(size, end) - PageSteps.Num(size, start) > 0
    ensures PageSteps.IsPage(size, UPPER_HALF) && PageSteps.Num(size, UPPER_HALF) == PageSteps.Half(size)
    ensures start < UPPER_HALF <==> PageSteps.Num(size, start) < PageSteps.Half(size)
    ensures start < UPPER_HALF ==>
              PageSteps.StepsBetween(size, start, UPPER_HALF).0 == PageSteps.Half(size) - PageSteps.Num(size, start)
  {
    hide PageSteps.Num;
    PageSteps.StepsBetweenIsDifference(size, start, end);
    PageSteps.PageOrder(size, start, end);
    assert UPPER_HALF % 0x20_0000 == 0;
    PageSteps.NumberedPage(size, PageSteps.Half(size));
    PageSteps.PageOrder(size, start, UPPER_HALF);
    if start < UPPER_HALF { PageSteps.StepsBetweenIsDifference(size, start, UPPER_HALF); }
  }

  /** The `unwrap` of the step does not fail, and the step does not pass the end. */
  lemma Advance(size: FlushSize, start: VirtAddr, end: VirtAddr, n: u64)
    requires PageSteps.IsPage(size, start) && PageSteps.IsPage(size, end)
    requires PageSteps.Num(size, start) + n <= PageSteps.Num(size, end)
    ensures var next := PageSteps.ForwardChecked(size, start, n);
            && next.Some? && PageSteps.IsPage(size, next.value) && next.value <= end
            && PageSteps.Num(size, next.value) == PageSteps.Num(size, start) + n
  {
    hide PageSteps.Num, PageSteps.ForwardChecked, PageSteps.PageOf, PageSteps.IsPage;
    PageSteps.ForwardIsAddition(size, start, n);
    PageSteps.NumberedPage(size, PageSteps.Num(size, start) + n);
    PageSteps.PageOrder(size, PageSteps.ForwardChecked(size, start, n).value, end);
  }

  lemma NoneYet(size: FlushSize, n: nat)
    ensures Tiles(size, [], n, n)
  {
  }

  lemma OneMoreCommand(size: FlushSize, log: seq<Command>, from: nat, c: Command)
    requires c.FlushPages? && PageSteps.IsPage(size, c.start)
    requires Tiles(size, log, from, PageSteps.Num(size, c.start))
    ensures Tiles(size, log + [c], from, PageSteps.Num(size, c.start) + Run(c))
  {
    hide PageSteps.Num, PageSteps.IsPage;
    assert (log + [c])[..|log|] == log;
  }

  /** The count the loop arrives at, in page numbers. */
  lemma CountIsBounded(size: FlushSize, start: VirtAddr, count: nat, countMax: nat, to: nat)
    requires PageSteps.IsPage(size, start) && PageSteps.Num(size, start) < to
    requires var n, half := PageSteps.Num(size, start), PageSteps.Half(size);
             count == Least(Least(if n < half then Least(to - n, half - n) else to - n, U16_MAX), countMax)
    ensures Bounded(size, FlushPages(start, count), countMax, to)
    ensures PageSteps.Num(size, start) + Run(FlushPages(start, count)) <= to
  {
    hide PageSteps.Num, PageSteps.IsPage, PageSteps.Half;
  }

  /** `Page::containing_address`. */
  function PageContaining(size: FlushSize, a: VirtAddr): VirtAddr {
    if size == 0x1000 then Page.Containing4KiB(a) else Page.Containing2MiB(a)
  }

  lemma UpperHalfPage(size: FlushSize)
    ensures PageContaining(size, UPPER_HALF) == UPPER_HALF
  {
    assert UPPER_HALF % 0x1000 == 0 && UPPER_HALF % 0x20_0000 == 0;
  }

  /** The flush of an optional range: everything without one. */
  method Flush(range: Option<(VirtAddr, VirtAddr)>, size: FlushSize, countMax: nat) returns (log: seq<Command>)
    requires countMax <= U16_MAX
    requires range.Some? ==> PageSteps.IsPage(size, range.value.0) && PageSteps.IsPage(size, range.value.1)
    ensures range.None? ==> log == [FlushAll]
    ensures range.Some? ==>
              var (first, end) := range.value;
              if first >= end then log == []
              else
                && Tiles(size, log, PageSteps.Num(size, first), PageSteps.Num(size, end))
                && forall c :: c in log ==> Bounded(size, c, countMax, PageSteps.Num(size, end))
  {
    log := [];
    if range.None? {
      return [FlushAll];
    }
    hide PageSteps.Num, PageSteps.StepsBetween, PageSteps.ForwardChecked, PageSteps.PageOf, PageSteps.Half,
      PageSteps.Count,
      PageContaining, Tiles, Bounded, PageSteps.IsPage;
    var (first, end) := range.value;
    var start := first;
    NoneYet(size, PageSteps.Num(size, start));
    while start < end
      invariant PageSteps.IsPage(size, start)
      invariant Tiles(size, log, PageSteps.Num(size, first), PageSteps.Num(size, start))
      invariant if first < end then start <= end else start == first && log == []
      invariant forall c :: c in log ==> Bounded(size, c, countMax, PageSteps.Num(size, end))
      decreases PageSteps.Num(size, end) - PageSteps.Num(size, start)
    {
      Remaining(size, start, end);
      UpperHalfPage(size);
      var count := PageSteps.StepsBetween(size, start, end).0;
      var secondHalfStart := PageContaining(size, UPPER_HALF);
      if start < secondHalfStart {
        var countToSecondHalf := PageSteps.StepsBetween(size, start, secondHalfStart).0;
        count := Least(count, countToSecondHalf);
      }
      if count > U16_MAX {
        count := U16_MAX;
      }
      count := Least(count, countMax);
      CountIsBounded(size, start, count, countMax, PageSteps.Num(size, end));
      OneMoreCommand(size, log, PageSteps.Num(size, first), FlushPages(start, count));
      log := log + [FlushPages(start, count)];
      var incCount := if count >= 1 then count else 1;
      Advance(size, start, end, incCount);
      start := PageSteps.ForwardChecked(size, start, incCount).value;
    }
    PageSteps.PageOrder(size, start, end);
  }
}
