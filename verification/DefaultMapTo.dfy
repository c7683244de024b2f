/** What `map_to` answers in every case, and when a failing call changes a mapping. */
module DefaultMapTo {
  import opened Wrappers
  import opened Addr
  import opened Levels
  import opened PageTable
  import opened PageTree
  import opened MemoryTree
  import opened MapTo
  import opened PathOps
  import opened PathMeaning
  import opened Translate
  import opened MappingMeaning
  import opened Mapped

  /** A default `map_to` whose flags contain PRESENT makes followable links and a leaf, whatever
      its other flags are. */
  lemma DefaultMapToIsLegal(size: Level, page: VirtAddr, frame: Frame, flags: Flags)
    requires size <= 3 && PRESENT in flags
    ensures Legal(DefaultRequest(size, page, frame, flags))
  {
  }

  // ---------------------------------------------------------------- what map_to answers

  /** How far links lead towards the entry of level `target` for a page: to that entry, to an unused
      entry so that `n` tables are missing, or to a larger leaf. */
  datatype Path = Reaches(e: Entry) | LacksTables(n: nat) | BehindLeaf

  function PathTo(level: Level, kids: seq<Node>, target: Level, v: nat): Path
    requires target <= level
    decreases level
  {
    var i := Idx(level, v);
    if i >= |kids| then BehindLeaf
    else
      var n := kids[i];
      if level == target then Reaches(n.entry)
      else if n.entry.IsUnused() then LacksTables(level - target)
      else if Links(level, n.entry) then PathTo(level - 1, n.kids, target, v)
      else BehindLeaf
  }

  /** The next `n` answers are all frames. */
  predicate Enough(answers: Answers, n: nat) {
    n == 0 || (Answer(answers).Some? && Enough(Later(answers), n - 1))
  }

  function ResultOn(path: Path, r: Request, answers: Answers): MapResult {
    match path
    case Reaches(e) => if e.IsUnused() then MapResult.Mapped else PageAlreadyMapped
    case BehindLeaf => MapResult.ParentEntryHugePage
    case LacksTables(n) =>
      if PRESENT in r.link then (if Enough(answers, n) then MapResult.Mapped else FrameAllocationFailed)
      else (if n > 0 && Answer(answers).Some? then Panicked else FrameAllocationFailed)
  }

  /** From an empty table on, `map_to` with followable links needs one frame per level. */
  lemma {:induction false} ResultFromEmptyTable(m: Memory, level: Level, f: Frame, r: Request, answers: Answers)
    requires r.size <= level && TableAt(m, f) == EmptyTable() && PRESENT in r.link && HUGE_PAGE !in r.link
    ensures MapIn(m, level, f, r, answers).res ==
            if Enough(answers, level - r.size) then MapResult.Mapped else FrameAllocationFailed
    decreases level
  {
    hide Idx, MapIn;
    UnfoldMapIn(m, level, f, r, answers);
    if level > r.size && Answer(answers).Some? {
      var c := CreateNext(m, f, Idx(level, r.v), r.link, r.add, answers);
      ResultFromEmptyTable(c.m, level - 1, c.res.value, r, c.answers);
    }
  }

  lemma {:induction false} ResultIsByPath(m: Memory, level: Level, f: Frame, mask: int, r: Request, answers: Answers)
    requires r.size <= level && WF(m, level, f, mask) && Sound(m, level, f, mask) && Idx(level, r.v) != mask
    requires HUGE_PAGE !in r.link && HUGE_PAGE !in r.add
    ensures MapIn(m, level, f, r, answers).res == ResultOn(PathTo(level, View(m, level, f, mask), r.size, r.v), r, answers)
    decreases level
  {
    hide WF, Sound, View, Idx, TableAt, MapIn, PathTo, ResultOn, LeafAligned, CreateNext, NodeAt;
    var i := Idx(level, r.v);
    var e := TableAt(m, f)[i];
    EntryOnPath(m, level, f, mask, i);
    NodeAtIsView(m, level, e);
    EntryOfNode(m, level, e);
    if level == r.size || !Links(level, e) {
      ResultAtEntry(m, level, f, View(m, level, f, mask), r, answers);
    } else {
      var c := CreateNext(m, f, i, r.link, r.add, answers);
      FollowedLink(m, f, i, r, answers);
      WidenedChild(m, c.m, level, f, mask, i, e);
      UnfoldPath(level, View(m, level, f, mask), r.size, r.v);
      UnfoldMapIn(m, level, f, r, answers);
      ResultIsByPath(c.m, level - 1, e.addr, -1, r, answers);
    }
  }

  /** Where the path ends. */
  lemma {:induction false} ResultAtEntry(m: Memory, level: Level, f: Frame, kids: seq<Node>, r: Request, answers: Answers)
    requires r.size <= level && |kids| == 512 && kids[Idx(level, r.v)].entry == TableAt(m, f)[Idx(level, r.v)]
    requires HUGE_PAGE !in r.link && HUGE_PAGE !in r.add
    requires level == r.size || !Links(level, kids[Idx(level, r.v)].entry)
    requires SoundNode(level, kids[Idx(level, r.v)])
    ensures MapIn(m, level, f, r, answers).res == ResultOn(PathTo(level, kids, r.size, r.v), r, answers)
  {
    hide Idx, MapIn, PathTo, Enough, LeafAligned;
    var i := Idx(level, r.v);
    UnfoldPath(level, kids, r.size, r.v);
    UnfoldMapIn(m, level, f, r, answers);
    if level > r.size && kids[i].entry.IsUnused() {
      var c := CreateNext(m, f, i, r.link, r.add, answers);
      EnoughIs(answers, level - r.size);
      if c.res.Ok? { ResultFromEmptyTable(c.m, level - 1, c.res.value, r, c.answers); }
    }
  }

  lemma FollowedLink(m: Memory, f: Frame, i: nat, r: Request, answers: Answers)
    requires i < 512 && TableAt(m, f)[i].IsTable() && HUGE_PAGE !in r.add
    ensures var e, c := TableAt(m, f)[i], CreateNext(m, f, i, r.link, r.add, answers);
            && c.res == Ok(e.addr) && c.answers == answers
            && forall h :: h != f ==> TableAt(c.m, h) == TableAt(m, h)
  {
  }

  lemma UnfoldPath(level: Level, kids: seq<Node>, target: Level, v: nat)
    requires target <= level && |kids| == 512
    ensures PathTo(level, kids, target, v) ==
            var n := kids[Idx(level, v)];
            if level == target then Reaches(n.entry)
            else if n.entry.IsUnused() then LacksTables(level - target)
            else if Links(level, n.entry) then PathTo(level - 1, n.kids, target, v)
            else BehindLeaf
  {
  }

  lemma EnoughIs(answers: Answers, n: nat)
    requires n > 0
    ensures Enough(answers, n) == (Answer(answers).Some? && Enough(Later(answers), n - 1))
  {
  }

  /** The walk in memory sees the same path. */
  lemma {:induction false} PathIsWalk(m: Memory, level: Level, f: Frame, mask: int, target: Level, v: nat)
    requires target <= level && Sound(m, level, f, mask) && Idx(level, v) != mask
    ensures match PathTo(level, View(m, level, f, mask), target, v)
            case Reaches(e) =>
              WalkTo(m, level, f, target, v).Ok? && e == TableAt(m, WalkTo(m, level, f, target, v).value)[Idx(target, v)]
            case LacksTables(n) => WalkTo(m, level, f, target, v) == Err(NotMapped) && n > 0
            case BehindLeaf => WalkTo(m, level, f, target, v) == Err(MappedToHugePage)
    decreases level
  {
    hide View, Idx, Tree, TableAt, LeafAligned;
    var i := Idx(level, v);
    EntryOnPath(m, level, f, mask, i);
    NodeAtIsView(m, level, TableAt(m, f)[i]);
    if level > target && Links(level, TableAt(m, f)[i]) {
      PathIsWalk(m, level - 1, TableAt(m, f)[i].addr, -1, target, v);
    }
  }

  /** The tables missing on the path of page `v`, from the one that holds its entry upwards. */
  function MissingTables(m: Memory, root: Frame, size: Level, v: nat): nat
    decreases 4 - size
  {
    if size == 4 || WalkTo(m, 4, root, size, v).Ok? then 0 else 1 + MissingTables(m, root, size + 1, v)
  }

  lemma {:induction false} OneTableFewer(level: Level, kids: seq<Node>, target: Level, v: nat)
    requires target < level && PathTo(level, kids, target, v).LacksTables?
    ensures var n := PathTo(level, kids, target, v).n;
            && n > 0
            && (n == 1 ==> PathTo(level, kids, target + 1, v).Reaches?)
            && (n > 1 ==> PathTo(level, kids, target + 1, v) == LacksTables(n - 1))
    decreases level
  {
    hide Idx;
    var i := Idx(level, v);
    if !kids[i].entry.IsUnused() && target + 1 < level { OneTableFewer(level - 1, kids[i].kids, target, v); }
  }

  lemma {:induction false} MissingIsLacking(m: Memory, root: Frame, mask: int, size: Level, v: nat)
    requires Sound(m, 4, root, mask) && Idx(4, v) != mask && size < 4
    requires PathTo(4, View(m, 4, root, mask), size, v).LacksTables?
    ensures PathTo(4, View(m, 4, root, mask), size, v).n == MissingTables(m, root, size, v)
    decreases 4 - size
  {
    hide WF, View, Idx, WalkTo, PathTo, TableAt;
    var kids := View(m, 4, root, mask);
    PathIsWalk(m, 4, root, mask, size, v);
    OneTableFewer(4, kids, size, v);
    PathIsWalk(m, 4, root, mask, size + 1, v);
    if PathTo(4, kids, size, v).n > 1 {
      TopIsReached(kids, v);
      MissingIsLacking(m, root, mask, size + 1, v);
    }
  }

  lemma TopIsReached(kids: seq<Node>, v: nat)
    ensures !PathTo(4, kids, 4, v).LacksTables?
  {
  }

  /** The answer of `map_to` in every case: it succeeds on a free entry, reports a mapped entry or a
      larger mapping in the way, and where tables are missing it needs a frame for each of them.
      There it panics instead if the flags for parent entries lack PRESENT: the code cannot follow
      the first link it makes.  With HUGE_PAGE among these flags it never gets past level 4. */
  lemma MapToResultIs(m: Memory, root: Frame, mask: int, r: Request, answers: Answers)
    requires WF(m, 4, root, mask) && Sound(m, 4, root, mask) && r.size <= 3 && Idx(4, r.v) != mask
    requires HUGE_PAGE in r.link <==> HUGE_PAGE in r.add
    ensures MapIn(m, 4, root, r, answers).res ==
            if HUGE_PAGE in r.add then
              (if TableAt(m, root)[Idx(4, r.v)].IsUnused() && Answer(answers).None? then FrameAllocationFailed
               else MapResult.ParentEntryHugePage)
            else
              match WalkTo(m, 4, root, r.size, r.v)
              case Ok(g) => if TableAt(m, g)[Idx(r.size, r.v)].IsUnused() then MapResult.Mapped else PageAlreadyMapped
              case Err(MappedToHugePage) => MapResult.ParentEntryHugePage
              case Err(NotMapped) =>
                if PRESENT in r.link then
                  (if Enough(answers, MissingTables(m, root, r.size, r.v)) then MapResult.Mapped else FrameAllocationFailed)
                else (if Answer(answers).Some? then Panicked else FrameAllocationFailed)
  {
    if HUGE_PAGE in r.add {
      HugeParentFlagsCutOff(m, root, r, answers, 3);
    } else {
      hide WF, View, Idx, MapIn, WalkTo, PathTo, TableAt, MissingTables, Enough;
      ResultIsByPath(m, 4, root, mask, r, answers);
      PathIsWalk(m, 4, root, mask, r.size, r.v);
      if PathTo(4, View(m, 4, root, mask), r.size, r.v).LacksTables? { MissingIsLacking(m, root, mask, r.size, r.v); }
    }
  }

  /** HUGE_PAGE among the flags for parent entries: unless the allocator has no frame for it, the
      level-4 entry becomes one the code does not follow, so the whole span of that entry is cut
      off, and the call reports a huge page.  Nothing else is written. */
  lemma HugeParentFlagsCutOff(m: Memory, root: Frame, r: Request, answers: Answers, target: Level)
    requires r.size <= 3 && target <= 3 && HUGE_PAGE in r.link && HUGE_PAGE in r.add
    ensures var i := Idx(4, r.v);
            var was, out := TableAt(m, root)[i], MapIn(m, 4, root, r, answers);
            if was.IsUnused() && Answer(answers).None? then out.m == m && out.res == FrameAllocationFailed
            else
              var now := if was.IsUnused() then Entry(Answer(answers).value, r.link) else Widened(was, r.add);
              && out.res == MapResult.ParentEntryHugePage
              && TableAt(out.m, root) == TableAt(m, root)[i := now] && now.Huge()
              && (forall g :: g != root ==> TableAt(out.m, g) == TableAt(m, g))
              && WalkTo(out.m, 4, root, target, r.v) == Err(MappedToHugePage)
  {
    hide Idx;
  }

  /** A failing call changes some mapping if and only if a larger mapping was in its way and lacked
      some flag passed for parent entries. */
  lemma FailureKeepsLeavesIff(m: Memory, root: Frame, mask: int, r: Request, answers: Answers)
    requires MapPre(m, root, mask, r, answers) && MapIn(m, 4, root, r, answers).res != Mapped
    ensures var out, blocking := MapIn(m, 4, root, r, answers), LeafIn(m, root, mask, r.v);
            && (out.res == MapResult.ParentEntryHugePage ==> blocking.Some? && blocking.value.level > r.size)
            && ((forall w: nat :: w < PAGES ==> LeafIn(out.m, root, mask, w) == LeafIn(m, root, mask, w))
                <==> (out.res != MapResult.ParentEntryHugePage || r.add <= blocking.value.entry.flags))
  {
    hide WF, Idx, MapIn, Fresh, LeafIn, Block, Tables, Legal;
    var out, blocking := MapIn(m, 4, root, r, answers), LeafIn(m, root, mask, r.v);
    if out.res == MapResult.ParentEntryHugePage { FailureInLeaf(m, root, mask, r, answers); }
    MapToMapsOnePage(m, root, mask, r, answers, r.v);
    if out.res != MapResult.ParentEntryHugePage || r.add <= blocking.value.entry.flags {
      forall w: nat | w < PAGES ensures LeafIn(out.m, root, mask, w) == LeafIn(m, root, mask, w) {
        MapToMapsOnePage(m, root, mask, r, answers, w);
        SameLeafInBlock(m, root, mask, w, r.v);
      }
    }
  }

  /** The reported obstacle is the leaf of the page. */
  lemma FailureInLeaf(m: Memory, root: Frame, mask: int, r: Request, answers: Answers)
    requires MapPre(m, root, mask, r, answers) && MapIn(m, 4, root, r, answers).res == MapResult.ParentEntryHugePage
    ensures LeafIn(m, root, mask, r.v).Some? && LeafIn(m, root, mask, r.v).value.level > r.size
  {
    hide WF, Idx, MapIn, Fresh, View, Leaf, Tables, WalkTo, MissingTables, Enough, TableAt;
    MapToResultIs(m, root, mask, r, answers);
    WalkFailure(m, 4, root, mask, r.size, r.v);
  }
}
