/** Whole runs: any sequence of `map_to`, `unmap`, flag updates and clean-ups, in any order.

`mask` is the recursive entry of a recursive mapper and -1 for the direct one, so every result
here is about both.  That the operations are those of the recursive mapper, in every state a run
reaches, is `RecursiveMeaning.EveryRunIsRecursive`.
 */
module Runs {
  import opened Wrappers
  import opened Addr
  import opened Levels
  import opened Page
  import opened PageTable
  import opened PageTree
  import opened MemoryTree
  import opened MapTo
  import opened MapToMeaning
  import opened PathOps
  import opened PathMeaning
  import opened Translate
  import opened CleanUpMeaning
  import opened MappingMeaning

  datatype Op =
    | MapPage(r: Request, answers: Answers)
    | UnmapPage(size: Level, v: nat)
    | UpdateFlags(target: Level, v: nat, flags: Flags)
    | CleanUpPages(lo: nat, hi: nat)

  /** Memory, the frames the allocator has handed out and the frames given back, in order. */
  datatype State = State(m: Memory, handed: seq<Frame>, freed: seq<Frame>)

  /** What an operation asks of its caller.  The flag methods of a recursive mapper do not look for a
      larger mapping in the way of the page, so there must be none. */
  ghost predicate OpPre(s: State, root: Frame, mask: int, op: Op) {
    match op
    case MapPage(r, answers) => MapPre(s.m, root, mask, r, answers)
    case UnmapPage(size, v) => size <= 3 && v < PAGES && Idx(4, v) != mask
    case UpdateFlags(target, v, flags) =>
      && v < PAGES && Idx(4, v) != mask
      && (EntryOn(s.m, root, mask, target, v).Some? ==> KeepsKind(target, EntryOn(s.m, root, mask, target, v).value, flags))
      && (0 <= mask < 512 ==> WalkTo(s.m, 4, root, target, v) != Err(MappedToHugePage))
    case CleanUpPages(_, _) => true
  }

  function Step(s: State, root: Frame, mask: int, op: Op): State {
    match op
    case MapPage(r, answers) =>
      var out := MapIn(s.m, 4, root, r, answers); State(out.m, s.handed + out.used, s.freed)
    case UnmapPage(size, v) => s.(m := UnmapIn(s.m, 4, root, size, v).m)
    case UpdateFlags(target, v, flags) => s.(m := SetFlagsIn(s.m, 4, root, target, v, flags).m)
    case CleanUpPages(lo, hi) =>
      var out := CleanRange(s.m, root, mask, lo, hi); State(out.m, s.handed, s.freed + out.log)
  }

  /** The hierarchy is a tree of tables whose used entries are links and leaves, and the frames handed
      out are its tables below the root and the frames given back. */
  ghost predicate Inv(s: State, root: Frame, mask: int) {
    && WF(s.m, 4, root, mask) && Sound(s.m, 4, root, mask)
    && multiset(s.handed) == AllFrames(4, View(s.m, 4, root, mask)) + multiset(s.freed)
  }

  /** A `map_to` that reports a larger mapping widens the flags of that mapping. */
  function MapsOver(r: Request, res: MapResult, leaf: Option<Mapping>, w: nat): Option<Mapping> {
    if res == Mapped && Block(r.size, w) == Block(r.size, r.v) then LeafOf(r.size, r.leaf)
    else if res == MapResult.ParentEntryHugePage && leaf.Some? && leaf.value.level > r.size
            && Block(leaf.value.level, w) == Block(leaf.value.level, r.v)
    then Some(WidenedLeaf(leaf.value, r.add))
    else leaf
  }

  /** New flags for the leaf of the span; a 4KiB leaf in frame 0 that loses all flags is none. */
  function FlagsOver(target: Level, v: nat, flags: Flags, leaf: Option<Mapping>, w: nat): Option<Mapping> {
    if leaf.Some? && leaf.value.level == target && Block(target, w) == Block(target, v)
    then Reflagged(leaf.value, flags)
    else leaf
  }

  /** A leaf that `unmap` removes: one of its size, present and aligned. */
  predicate Unmappable(size: Level, leaf: Option<Mapping>) {
    && leaf.Some? && leaf.value.level == size
    && PRESENT in leaf.value.entry.flags && LeafAligned(size, leaf.value.entry.addr)
  }

  /** The operation as a step of the abstract map from pages to leaves, with frame, size and flags:
      what it does to the mapping of page `w`. */
  ghost predicate MapStep(s: State, root: Frame, mask: int, op: Op, w: nat) {
    var before, after := LeafIn(s.m, root, mask, w), LeafIn(Step(s, root, mask, op).m, root, mask, w);
    match op
    case MapPage(r, answers) =>
      var res := MapIn(s.m, 4, root, r, answers).res;
      && (res == Mapped && Block(r.size, w) == Block(r.size, r.v) ==> before == None)
      && after == MapsOver(r, res, before, w)
    case UnmapPage(size, v) =>
      after == if Unmappable(size, LeafIn(s.m, root, mask, v)) && Block(size, w) == Block(size, v) then None else before
    case UpdateFlags(target, v, flags) => after == FlagsOver(target, v, flags, before, w)
    case CleanUpPages(_, _) => after == before
  }

  /** One operation keeps the invariant. */
  lemma StepKeepsInv(s: State, root: Frame, mask: int, op: Op)
    requires Inv(s, root, mask) && OpPre(s, root, mask, op)
    ensures Inv(Step(s, root, mask, op), root, mask)
  {
    hide WF, Sound, View, Frames, MapIn, UnmapIn, SetFlagsIn, CleanRange, MapPre, KeepsKind, WalkTo;
    match op
    case MapPage(r, answers) => MapStepKeepsInv(s, root, mask, r, answers);
    case UnmapPage(size, v) => UnmapRemovesOnePage(s.m, root, mask, size, v, 0);
    case UpdateFlags(target, v, flags) => SetFlagsChangesFlagsOnly(s.m, root, mask, target, v, flags, 0);
    case CleanUpPages(lo, hi) => CleanStepKeepsInv(s, root, mask, lo, hi);
  }

  lemma MapStepKeepsInv(s: State, root: Frame, mask: int, r: Request, answers: Answers)
    requires Inv(s, root, mask) && MapPre(s.m, root, mask, r, answers)
    ensures Inv(Step(s, root, mask, MapPage(r, answers)), root, mask)
  {
    hide WF, Sound, View, Frames, MapIn, MapPre;
    MapToKeepsTables(s.m, root, mask, r, answers);
    var out := MapIn(s.m, 4, root, r, answers);
    assert multiset(s.handed + out.used) == multiset(s.handed) + multiset(out.used);
    DropRoot(root, AllFrames(4, View(out.m, 4, root, mask)), AllFrames(4, View(s.m, 4, root, mask)), multiset(out.used));
  }

  lemma DropRoot(root: Frame, a: multiset<Frame>, b: multiset<Frame>, c: multiset<Frame>)
    requires multiset{root} + a == multiset{root} + b + c
    ensures a == b + c
  {
    forall f ensures a[f] == (b + c)[f] {
      assert (multiset{root} + a)[f] == (multiset{root} + b + c)[f];
    }
  }

  lemma CleanStepKeepsInv(s: State, root: Frame, mask: int, lo: nat, hi: nat)
    requires Inv(s, root, mask)
    ensures Inv(Step(s, root, mask, CleanUpPages(lo, hi)), root, mask)
  {
    hide WF, Sound, View, Frames, CleanRange;
    CleanUpIsSafe(s.m, root, mask, lo, hi, 0);
    var out := CleanRange(s.m, root, mask, lo, hi);
    assert multiset(s.freed + out.log) == multiset(s.freed) + multiset(out.log);
  }

  /** One operation is one step of the abstract map. */
  lemma StepIsMapStep(s: State, root: Frame, mask: int, op: Op, w: nat)
    requires Inv(s, root, mask) && OpPre(s, root, mask, op) && w < PAGES
    ensures MapStep(s, root, mask, op, w)
  {
    hide WF, Sound, View, Frames, MapIn, UnmapIn, SetFlagsIn, CleanRange, MapPre, KeepsKind, WalkTo, LeafIn, EntryOn, Block;
    match op
    case MapPage(r, answers) =>
      MapToMapsOnePage(s.m, root, mask, r, answers, w);
    case UnmapPage(size, v) =>
      UnmapByLeaf(s.m, root, mask, size, v);
      UnmapRemovesOnePage(s.m, root, mask, size, v, w);
    case UpdateFlags(target, v, flags) =>
      SetFlagsChangesFlagsOnly(s.m, root, mask, target, v, flags, w);
      LeafIsUpdated(s.m, root, mask, target, v, flags, w);
    case CleanUpPages(lo, hi) =>
      CleanUpIsSafe(s.m, root, mask, lo, hi, w);
  }

  /** The flags of a leaf of the span can be updated. */
  lemma LeafIsUpdated(m: Memory, root: Frame, mask: int, target: Level, v: nat, flags: Flags, w: nat)
    requires Idx(4, v) != mask && v < PAGES && w < PAGES
    ensures var leaf := LeafIn(m, root, mask, w);
            leaf.Some? && leaf.value.level == target && Block(target, w) == Block(target, v)
            ==> SetFlagsIn(m, 4, root, target, v, flags).res.Ok?
  {
    hide View, Idx, WalkTo, LeafIn, Block, SetFlagsIn, EntryOn, LinkAt;
    SameLeafInBlock(m, root, mask, w, v);
    WalkByLeaf(m, root, mask, target, v);
    SetFlagsAnswer(m, root, mask, target, v, flags);
  }

  lemma UnmapByLeaf(m: Memory, root: Frame, mask: int, size: Level, v: nat)
    requires size <= 3 && v < PAGES && Idx(4, v) != mask
    ensures UnmapIn(m, 4, root, size, v).res.Ok? <==> Unmappable(size, LeafIn(m, root, mask, v))
  {
    hide UnmapIn, LeafIn, Idx, LinkAt, LeafAligned;
    UnmapAnswer(m, root, mask, size, v);
    if LeafIn(m, root, mask, v).Some? { LinkHidesLeaf(m, root, mask, size, v); }
  }

  // ---------------------------------------------------------------- runs

  /** The states of a run; every operation's caller meets its obligations. */
  ghost predicate IsRun(states: seq<State>, root: Frame, mask: int, ops: seq<Op>) {
    && |states| == |ops| + 1
    && forall i :: 0 <= i < |ops| ==> OpPre(states[i], root, mask, ops[i]) && states[i + 1] == Step(states[i], root, mask, ops[i])
  }

  /** A machine before its first operation: the root table is empty except for a recursive entry. */
  ghost predicate Initial(s: State, root: Frame, mask: int) {
    s.handed == [] && s.freed == [] && IsEmpty(Masked(TableAt(s.m, root), mask))
  }

  lemma InitialInv(s: State, root: Frame, mask: int)
    requires Initial(s, root, mask)
    ensures Inv(s, root, mask) && Proper(s.m, 4, root, mask)
    ensures forall w: nat :: LeafIn(s.m, root, mask, w) == None
  {
    var kids := View(s.m, 4, root, mask);
    assert kids == NoKids() by {
      assert NodeAt(s.m, 4, UNUSED) == UNUSED_NODE;
      assert forall i :: 0 <= i < 512 ==> Masked(TableAt(s.m, root), mask)[i] == UNUSED;
    }
    EmptyTableTree(4);
  }

  /** In every state of every run the hierarchy is a tree of tables, each in a frame of its own,
      and no table frame is lost or given back twice: the frames handed out are exactly the tables
      below the root and the frames given back. */
  lemma {:induction false} EveryRunKeepsInv(states: seq<State>, root: Frame, mask: int, ops: seq<Op>, i: nat)
    requires IsRun(states, root, mask, ops) && Initial(states[0], root, mask) && i <= |ops|
    ensures Inv(states[i], root, mask)
    decreases i
  {
    hide Inv, OpPre, Initial, Step;
    if i == 0 {
      InitialInv(states[0], root, mask);
    } else {
      EveryRunKeepsInv(states, root, mask, ops, i - 1);
      assert states[i - 1 + 1] == Step(states[i - 1], root, mask, ops[i - 1]);
      StepKeepsInv(states[i - 1], root, mask, ops[i - 1]);
    }
  }

  /** The leaf of page `w` according to the history alone: the last successful `map_to` of a span
      that holds `w`, unless it was unmapped since, with the flags of the last update and those
      added by calls it was in the way of. */
  ghost function History(states: seq<State>, root: Frame, mask: int, ops: seq<Op>, i: nat, w: nat): Option<Mapping>
    requires IsRun(states, root, mask, ops) && i <= |ops|
    decreases i
  {
    if i == 0 then None
    else
      var last, s := History(states, root, mask, ops, i - 1, w), states[i - 1];
      match ops[i - 1]
      case MapPage(r, answers) => MapsOver(r, MapIn(s.m, 4, root, r, answers).res, last, w)
      case UnmapPage(size, v) =>
        if Unmappable(size, History(states, root, mask, ops, i - 1, v)) && Block(size, w) == Block(size, v) then None
        else last
      case UpdateFlags(target, v, flags) => FlagsOver(target, v, flags, last, w)
      case CleanUpPages(_, _) => last
  }

  /** In every state of every run a page has the leaf its history says: size, frame and flags. */
  lemma {:induction false} EveryRunTranslatesByHistory(states: seq<State>, root: Frame, mask: int, ops: seq<Op>, i: nat, w: nat)
    requires IsRun(states, root, mask, ops) && Initial(states[0], root, mask) && i <= |ops| && w < PAGES
    ensures LeafIn(states[i].m, root, mask, w) == History(states, root, mask, ops, i, w)
    decreases i
  {
    hide Inv, Initial, Step, LeafIn, WF, Idx, WalkTo, KeepsKind, MapIn, UnmapIn, Block, MapPre, MapsOver, FlagsOver;
    if i == 0 {
      InitialInv(states[0], root, mask);
    } else {
      var s, op := states[i - 1], ops[i - 1];
      EveryRunTranslatesByHistory(states, root, mask, ops, i - 1, w);
      EveryRunKeepsInv(states, root, mask, ops, i - 1);
      assert OpPre(s, root, mask, op) && states[i - 1 + 1] == Step(s, root, mask, op);
      StepIsMapStep(s, root, mask, op, w);
      if op.UnmapPage? { EveryRunTranslatesByHistory(states, root, mask, ops, i - 1, op.v); }
    }
  }

  /** In every state of every run `translate` gives what the history of the page says. */
  lemma EveryRunTranslates(states: seq<State>, root: Frame, mask: int, ops: seq<Op>, i: nat, a: VirtAddr)
    requires IsRun(states, root, mask, ops) && Initial(states[0], root, mask) && i <= |ops| && P4Index(a) != mask
    ensures TranslateIn(states[i].m, 4, root, a) == LeafResult(History(states, root, mask, ops, i, Vpn(a)), a)
  {
    hide OpPre, Step, Initial, LeafIn, LeafResult, TranslateIn, History, Vpn;
    PageNumber(a);
    EveryRunTranslatesByHistory(states, root, mask, ops, i, Vpn(a));
    TranslateIsLeaf(states[i].m, root, mask, a);
  }

  /** An operation whose caller wants the processor to reach what it maps: the leaf is present and
      aligned, and new flags contain PRESENT. */
  predicate MapsProperly(op: Op) {
    match op
    case MapPage(r, _) => IsProperLeaf(r.size, r.leaf)
    case UpdateFlags(_, _, flags) => PRESENT in flags
    case _ => true
  }

  lemma StepKeepsProper(s: State, root: Frame, mask: int, op: Op)
    requires Inv(s, root, mask) && OpPre(s, root, mask, op) && MapsProperly(op) && Proper(s.m, 4, root, mask)
    ensures Proper(Step(s, root, mask, op).m, 4, root, mask)
  {
    hide WF, Sound, Proper, View, Frames, MapIn, UnmapIn, SetFlagsIn, CleanRange, MapPre, KeepsKind, WalkTo, IsProperLeaf;
    match op
    case MapPage(r, answers) => MapToKeepsTables(s.m, root, mask, r, answers);
    case UnmapPage(size, v) => UnmapRemovesOnePage(s.m, root, mask, size, v, 0);
    case UpdateFlags(target, v, flags) => SetFlagsChangesFlagsOnly(s.m, root, mask, target, v, flags, 0);
    case CleanUpPages(lo, hi) => CleanUpIsSafe(s.m, root, mask, lo, hi, 0);
  }

  /** In every state of a run of such operations the processor reaches every mapping: `translate` never
      panics, and `translate_addr` is the processor's walk. */
  lemma {:induction false} EveryProperRunStaysProper(states: seq<State>, root: Frame, mask: int, ops: seq<Op>, i: nat)
    requires IsRun(states, root, mask, ops) && Initial(states[0], root, mask) && i <= |ops|
    requires forall k :: 0 <= k < i ==> MapsProperly(ops[k])
    ensures Proper(states[i].m, 4, root, mask)
    ensures forall a: VirtAddr :: P4Index(a) != mask ==>
              TranslateAddr(TranslateIn(states[i].m, 4, root, a)) == HardwareWalk(states[i].m, 4, root, a)
    decreases i
  {
    hide Inv, OpPre, Initial, Step, Proper, MapsProperly, TranslateIn, HardwareWalk;
    if i == 0 {
      InitialInv(states[0], root, mask);
    } else {
      EveryProperRunStaysProper(states, root, mask, ops, i - 1);
      EveryRunKeepsInv(states, root, mask, ops, i - 1);
      assert states[i - 1 + 1] == Step(states[i - 1], root, mask, ops[i - 1]);
      StepKeepsProper(states[i - 1], root, mask, ops[i - 1]);
    }
    forall a: VirtAddr | P4Index(a) != mask
      ensures TranslateAddr(TranslateIn(states[i].m, 4, root, a)) == HardwareWalk(states[i].m, 4, root, a)
    {
      TranslateIsHardwareWalk(states[i].m, root, mask, a);
    }
  }

  /** No operation touches the recursive entry of the root table. */
  lemma StepKeepsMaskedEntry(s: State, root: Frame, mask: nat, op: Op)
    requires mask < 512 && Inv(s, root, mask) && OpPre(s, root, mask, op)
    ensures TableAt(Step(s, root, mask, op).m, root)[mask] == TableAt(s.m, root)[mask]
  {
    hide WF, View, Frames, MapIn, CleanRange, MapPre, KeepsKind, WalkTo, Idx;
    match op
    case MapPage(r, answers) =>
      MaskInMapPre(s.m, root, mask, r, answers);
      MapToKeepsTables(s.m, root, mask, r, answers);
    case UnmapPage(size, v) =>
      if WalkTo(s.m, 4, root, size, v).Ok? { WriteKeepsRootEntry(s.m, root, mask, size, v, UNUSED, mask); }
    case UpdateFlags(target, v, flags) =>
      if WalkTo(s.m, 4, root, target, v).Ok? {
        var e := TableAt(s.m, WalkTo(s.m, 4, root, target, v).value)[Idx(target, v)];
        WriteKeepsRootEntry(s.m, root, mask, target, v, Entry(e.addr, flags), mask);
      }
    case CleanUpPages(lo, hi) =>
      CleanRangeIsPrune(s.m, root, mask, lo, hi);
  }

  lemma MaskInMapPre(m: Memory, root: Frame, mask: int, r: Request, answers: Answers)
    requires MapPre(m, root, mask, r, answers)
    ensures Idx(4, r.v) != mask
  {
  }

  lemma {:induction false} EveryRunKeepsMaskedEntry(states: seq<State>, root: Frame, mask: nat, ops: seq<Op>, i: nat)
    requires mask < 512 && IsRun(states, root, mask, ops) && Initial(states[0], root, mask) && i <= |ops|
    ensures TableAt(states[i].m, root)[mask] == TableAt(states[0].m, root)[mask]
    decreases i
  {
    hide Inv, OpPre, Initial, Step, TableAt;
    if i > 0 {
      EveryRunKeepsMaskedEntry(states, root, mask, ops, i - 1);
      EveryRunKeepsInv(states, root, mask, ops, i - 1);
      assert states[i - 1 + 1] == Step(states[i - 1], root, mask, ops[i - 1]);
      StepKeepsMaskedEntry(states[i - 1], root, mask, ops[i - 1]);
    }
  }
}
