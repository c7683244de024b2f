/** `map_to` for all three page sizes.

`MapIn` says what a mapper does to memory, level by level; both mappers are proved to do
exactly that.  `MapTree` is the same operation on the tree, and `MapInIsMapTree` connects them.
 */
module MapTo {
  import opened Wrappers
  import opened Levels
  import opened PageTable
  import opened PageTree
  import opened MemoryTree

  datatype MapResult =
    | Mapped
    | FrameAllocationFailed
    | ParentEntryHugePage
    | PageAlreadyMapped
    | Panicked   // "entry should be mapped at this point"

  /** One call: the level of the leaf (1, 2, 3 for 4KiB, 2MiB, 1GiB), the page, the leaf entry to
      store, the flags given to a new link and the flags added to an existing one. */
  datatype Request = Request(size: Level, v: nat, leaf: Entry, link: Flags, add: Flags)

  datatype Created = Created(m: Memory, answers: Answers, used: seq<Frame>, res: Result<Frame, MapResult>)

  datatype MapOut = MapOut(m: Memory, answers: Answers, used: seq<Frame>, res: MapResult)

  /** What following this entry yields after the flags have been written. */
  function Follow(e: Entry): Result<Frame, MapResult> {
    if e.Huge() then Err(ParentEntryHugePage)
    else if !e.Present() then Err(Panicked)
    else Ok(e.addr)
  }

  /** An existing link with the flags of the call added. */
  function Widened(e: Entry, add: Flags): Entry {
    if add <= e.flags then e else Entry(e.addr, e.flags + add)
  }

  /** `create_next_table` on entry `i` of the table in frame `f`. */
  function CreateNext(m: Memory, f: Frame, i: nat, link: Flags, add: Flags, answers: Answers): Created
    requires i < 512
  {
    var e := TableAt(m, f)[i];
    if e.IsUnused() then
      match Answer(answers)
      case None => Created(m, Later(answers), [], Err(FrameAllocationFailed))
      case Some(g) =>
        var e' := Entry(g, link);
        var m' := Write(m, f, i, e');
        var next := Follow(e');
        Created(if next.Ok? then m'[g := EmptyTable()] else m', Later(answers), [g], next)
    else
      var e' := Widened(e, add);
      Created(if e' == e then m else Write(m, f, i, e'), answers, [], Follow(e'))
  }

  function MapIn(m: Memory, level: Level, f: Frame, r: Request, answers: Answers): MapOut
    requires r.size <= level
    decreases level
  {
    var i := Idx(level, r.v);
    if level == r.size then
      if TableAt(m, f)[i].IsUnused() then MapOut(Write(m, f, i, r.leaf), answers, [], Mapped)
      else MapOut(m, answers, [], PageAlreadyMapped)
    else
      var c := CreateNext(m, f, i, r.link, r.add, answers);
      match c.res
      case Err(e) => MapOut(c.m, c.answers, c.used, e)
      case Ok(g) =>
        var out := MapIn(c.m, level - 1, g, r, c.answers);
        out.(used := c.used + out.used)
  }

  datatype MapTreeOut = MapTreeOut(kids: seq<Node>, answers: Answers, used: seq<Frame>, res: MapResult)

  function MapTree(level: Level, kids: seq<Node>, r: Request, answers: Answers): MapTreeOut
    requires r.size <= level
    decreases level
  {
    var i := Idx(level, r.v);
    if i >= |kids| then MapTreeOut(kids, answers, [], Panicked)
    else if level == r.size then
      if kids[i].entry.IsUnused() then MapTreeOut(kids[i := Node(r.leaf, [])], answers, [], Mapped)
      else MapTreeOut(kids, answers, [], PageAlreadyMapped)
    else if kids[i].entry.IsUnused() then
      match Answer(answers)
      case None => MapTreeOut(kids, Later(answers), [], FrameAllocationFailed)
      case Some(g) =>
        var below := MapTree(level - 1, NoKids(), r, Later(answers));
        MapTreeOut(kids[i := Node(Entry(g, r.link), below.kids)], below.answers, [g] + below.used, below.res)
    else
      var e := Widened(kids[i].entry, r.add);
      if e.Huge() then MapTreeOut(kids[i := Node(e, kids[i].kids)], answers, [], ParentEntryHugePage)
      else
        var below := MapTree(level - 1, kids[i].kids, r, answers);
        MapTreeOut(kids[i := Node(e, below.kids)], below.answers, below.used, below.res)
  }

  /** A call whose leaf is no link and whose flags for parents do not contain HUGE_PAGE. */
  predicate Linkable(r: Request) {
    && r.size <= 3 && (r.leaf.IsUnused() || IsLeafEntry(r.size, r.leaf)) && !Links(r.size, r.leaf)
    && HUGE_PAGE !in r.link && HUGE_PAGE !in r.add
  }

  /** And whose new links can be followed. */
  predicate Legal(r: Request) {
    Linkable(r) && PRESENT in r.link
  }

  function WithPresent(r: Request): Request {
    r.(link := r.link + {PRESENT})
  }

  /** Without PRESENT for new links a call either panics at the first one or makes none. */
  lemma {:induction false} NoPanicNoLink(m: Memory, level: Level, f: Frame, r: Request, answers: Answers)
    requires r.size <= level && HUGE_PAGE !in r.link && PRESENT !in r.link
    requires MapIn(m, level, f, r, answers).res != Panicked
    ensures MapIn(m, level, f, WithPresent(r), answers) == MapIn(m, level, f, r, answers)
    ensures MapIn(m, level, f, r, answers).used == []
    decreases level
  {
    hide Idx;
    if level > r.size {
      var c := CreateNext(m, f, Idx(level, r.v), r.link, r.add, answers);
      if c.res.Ok? { NoPanicNoLink(c.m, level - 1, c.res.value, r, c.answers); }
    }
  }

  /** `out` does to memory what `tree` does to the hierarchy, changes only entry `i` of the root
      table, and writes outside the hierarchy only to frames it was just given. */
  ghost predicate Agrees(m: Memory, level: Level, f: Frame, mask: int, i: nat, out: MapOut, tree: MapTreeOut,
                         taken: multiset<Frame>)
  {
    && View(out.m, level, f, mask) == tree.kids
    && out.answers == tree.answers && out.used == tree.used && out.res == tree.res
    && (forall g :: g != f && g !in AllFrames(level, View(m, level, f, mask)) && g !in out.used
            ==> TableAt(out.m, g) == TableAt(m, g))
    && (forall g :: g in out.used ==> g !in taken)
    && OnlyEntry(m, out.m, f, i)
  }

  ghost predicate OnlyEntry(m: Memory, m': Memory, f: Frame, i: nat) {
    forall j :: 0 <= j < 512 && j != i ==> TableAt(m', f)[j] == TableAt(m, f)[j]
  }

  lemma LeafCase(m: Memory, level: Level, f: Frame, mask: int, r: Request, answers: Answers, taken: multiset<Frame>)
    requires r.size == level && Legal(r) && WF(m, level, f, mask) && Idx(level, r.v) != mask
    ensures Agrees(m, level, f, mask, Idx(level, r.v), MapIn(m, level, f, r, answers),
                   MapTree(level, View(m, level, f, mask), r, answers), taken)
  {
    var i := Idx(level, r.v);
    var kids := View(m, level, f, mask);
    assert kids[i] == NodeAt(m, level, TableAt(m, f)[i]);
    if TableAt(m, f)[i].IsUnused() {
      ViewAfter(m, Write(m, f, i, r.leaf), level, f, mask, i, r.leaf, []);
    }
  }

  lemma EmptyTree(m: Memory, level: Level, g: Frame)
    requires TableAt(m, g) == EmptyTable()
    ensures View(m, level, g, -1) == NoKids() && WF(m, level, g, -1) && Sound(m, level, g, -1)
    ensures AllFrames(level, NoKids()) == multiset{}
  {
    EmptyTableTree(level);
    assert NodeAt(m, level, UNUSED) == UNUSED_NODE;
    assert forall j :: 0 <= j < 512 ==> View(m, level, g, -1)[j] == NoKids()[j];
  }

  /** Everything below the link, before the call continues there, is what was below entry `i` or
      was just created. */
  ghost predicate Within(level: Level, n: Node, g: Frame, below: seq<Node>, created: seq<Frame>)
    requires level > 1
  {
    forall h :: h == g || h in AllFrames(level - 1, below) ==> h in NodeFrames(level, n) || h in created
  }

  /** A call that went through entry `i`: `m1` is memory once that entry is `e`, and `below` is
      what happened from there on, at entry `k` of the table `e` links to.  `created` lists that
      table when the call created it. */
  lemma ThroughLink(m: Memory, m1: Memory, level: Level, f: Frame, mask: int, i: nat, e: Entry, k: nat,
                    below: MapOut, tree: MapTreeOut, created: seq<Frame>, taken: multiset<Frame>)
    requires level > 1 && WF(m, level, f, mask) && i < 512 && i != mask && Links(level, e)
    requires multiset{f} + AllFrames(level, View(m, level, f, mask)) <= taken
    requires forall g :: g in created ==> g !in taken
    requires TableAt(m1, f) == TableAt(m, f)[i := e]
    requires forall g :: g != f && g !in created ==> TableAt(m1, g) == TableAt(m, g)
    requires f != e.addr && f !in AllFrames(level - 1, View(m1, level - 1, e.addr, -1))
    requires Within(level, View(m, level, f, mask)[i], e.addr, View(m1, level - 1, e.addr, -1), created)
    requires Agrees(m1, level - 1, e.addr, -1, k, below, tree, taken)
    ensures Agrees(m, level, f, mask, i, MapOut(below.m, below.answers, created + below.used, below.res),
                   MapTreeOut(View(m, level, f, mask)[i := Node(e, tree.kids)], tree.answers, created + tree.used, tree.res),
                   taken)
  {
    var kids := View(m, level, f, mask);
    var used := created + below.used;
    assert f in taken;
    assert TableAt(below.m, f) == TableAt(m, f)[i := e];
    forall h | h != f && h !in NodeFrames(level, kids[i]) && h !in used
      ensures TableAt(below.m, h) == TableAt(m, h)
    {
      assert h != e.addr && h !in AllFrames(level - 1, View(m1, level - 1, e.addr, -1));
    }
    forall h | h in used ensures h !in AllFrames(level, kids) {
      assert h !in taken;
    }
    ViewAfter(m, below.m, level, f, mask, i, e, used);
    FramesInclude(level, kids, i, 512);
  }

  /** Rewriting a link's flags leaves the hierarchy below it alone. */
  lemma WidenedChild(m: Memory, m': Memory, level: Level, f: Frame, mask: int, i: nat, e: Entry)
    requires WF(m, level, f, mask) && i < 512 && i != mask
    requires Links(level, TableAt(m, f)[i]) && e.addr == TableAt(m, f)[i].addr
    requires forall h :: h != f ==> TableAt(m', h) == TableAt(m, h)
    ensures View(m', level - 1, e.addr, -1) == View(m, level, f, mask)[i].kids
    ensures WF(m', level - 1, e.addr, -1)
    ensures Sound(m, level, f, mask) ==> Sound(m', level - 1, e.addr, -1)
    ensures f != e.addr && f !in AllFrames(level - 1, View(m', level - 1, e.addr, -1))
    ensures Within(level, View(m, level, f, mask)[i], e.addr, View(m', level - 1, e.addr, -1), [])
    ensures multiset{e.addr} + AllFrames(level - 1, View(m', level - 1, e.addr, -1))
         <= AllFrames(level, View(m, level, f, mask))
  {
    ChildWF(m, level, f, mask, i);
    TreeFrame(m, m', level - 1, TableAt(m, e.addr));
    if Sound(m, level, f, mask) { NodeOf(level, View(m, level, f, mask), i); }
  }

  /** The memory operation is the tree operation on the hierarchy, and touches nothing else. */
  lemma {:induction false} MapInIsMapTree(m: Memory, level: Level, f: Frame, mask: int, r: Request, answers: Answers,
                                          taken: multiset<Frame>)
    requires r.size <= level && Legal(r) && WF(m, level, f, mask) && Sound(m, level, f, mask) && Idx(level, r.v) != mask
    requires multiset{f} + AllFrames(level, View(m, level, f, mask)) <= taken
    requires Fresh(answers, level - r.size, taken)
    ensures Agrees(m, level, f, mask, Idx(level, r.v), MapIn(m, level, f, r, answers),
                   MapTree(level, View(m, level, f, mask), r, answers), taken)
    decreases level, 2
  {
    var i := Idx(level, r.v);
    if level == r.size {
      LeafCase(m, level, f, mask, r, answers, taken);
    } else if TableAt(m, f)[i].IsUnused() {
      NewLinkCase(m, level, f, mask, r, answers, taken);
    } else {
      OldLinkCase(m, level, f, mask, r, answers, taken);
    }
  }

  lemma {:induction false} NewLinkCase(m: Memory, level: Level, f: Frame, mask: int, r: Request, answers: Answers,
                                       taken: multiset<Frame>)
    requires r.size < level && Legal(r) && WF(m, level, f, mask) && Sound(m, level, f, mask) && Idx(level, r.v) != mask
    requires multiset{f} + AllFrames(level, View(m, level, f, mask)) <= taken
    requires Fresh(answers, level - r.size, taken)
    requires TableAt(m, f)[Idx(level, r.v)].IsUnused()
    ensures Agrees(m, level, f, mask, Idx(level, r.v), MapIn(m, level, f, r, answers),
                   MapTree(level, View(m, level, f, mask), r, answers), taken)
    decreases level, 1
  {
    hide Agrees, WF, Sound, Frames, Tree, Idx;
    var i := Idx(level, r.v);
    if Answer(answers).Some? {
      var g, e := answers[0].value, Entry(answers[0].value, r.link);
      var m1 := Write(m, f, i, e)[g := EmptyTable()];
      assert g !in taken && Fresh(answers[1..], level - 1 - r.size, taken + multiset{g});
      NewLinkBelow(m, m1, level, f, mask, r, answers, taken, e);
      UnfoldNewLink(m, level, f, mask, r, answers);
    } else {
      UnfoldNewLink(m, level, f, mask, r, answers);
      NothingDone(m, level, f, mask, i, Later(answers), FrameAllocationFailed, taken);
    }
  }

  lemma NothingDone(m: Memory, level: Level, f: Frame, mask: int, i: nat, answers: Answers, res: MapResult,
                    taken: multiset<Frame>)
    ensures Agrees(m, level, f, mask, i, MapOut(m, answers, [], res),
                   MapTreeOut(View(m, level, f, mask), answers, [], res), taken)
  {
  }

  lemma UnfoldNewLink(m: Memory, level: Level, f: Frame, mask: int, r: Request, answers: Answers)
    requires r.size < level && Idx(level, r.v) != mask
    requires TableAt(m, f)[Idx(level, r.v)].IsUnused() && PRESENT in r.link && HUGE_PAGE !in r.link
    ensures var i := Idx(level, r.v);
            var kids := View(m, level, f, mask);
            if Answer(answers).None? then
              && MapIn(m, level, f, r, answers) == MapOut(m, Later(answers), [], FrameAllocationFailed)
              && MapTree(level, kids, r, answers) == MapTreeOut(kids, Later(answers), [], FrameAllocationFailed)
            else
              var e := Entry(answers[0].value, r.link);
              var below := MapIn(Write(m, f, i, e)[e.addr := EmptyTable()], level - 1, e.addr, r, answers[1..]);
              var tree := MapTree(level - 1, NoKids(), r, answers[1..]);
              && MapIn(m, level, f, r, answers)
                 == MapOut(below.m, below.answers, [e.addr] + below.used, below.res)
              && MapTree(level, kids, r, answers)
                 == MapTreeOut(kids[i := Node(e, tree.kids)], tree.answers, [e.addr] + tree.used, tree.res)
  {
    var i := Idx(level, r.v);
    assert View(m, level, f, mask)[i] == NodeAt(m, level, TableAt(m, f)[i]);
  }

  lemma {:induction false} NewLinkBelow(m: Memory, m1: Memory, level: Level, f: Frame, mask: int, r: Request,
                                        answers: Answers, taken: multiset<Frame>, e: Entry)
    requires r.size < level && Legal(r) && WF(m, level, f, mask) && Sound(m, level, f, mask) && Idx(level, r.v) != mask
    requires multiset{f} + AllFrames(level, View(m, level, f, mask)) <= taken
    requires answers != [] && e.addr !in taken && Fresh(answers[1..], level - 1 - r.size, taken + multiset{e.addr})
    requires e.flags == r.link && m1 == Write(m, f, Idx(level, r.v), e)[e.addr := EmptyTable()]
    ensures var i := Idx(level, r.v);
            var kids := View(m, level, f, mask);
            var below := MapIn(m1, level - 1, e.addr, r, answers[1..]);
            var tree := MapTree(level - 1, NoKids(), r, answers[1..]);
            Agrees(m, level, f, mask, i, MapOut(below.m, below.answers, [e.addr] + below.used, below.res),
                   MapTreeOut(kids[i := Node(e, tree.kids)], tree.answers, [e.addr] + tree.used, tree.res), taken)
    decreases level, 0
  {
    hide WF, Sound, Agrees, Within, MapIn, MapTree, Frames, Tree, Idx, Fresh;
    var i := Idx(level, r.v);
    var g := e.addr;
    CreatedChild(m, m1, level, f, mask, i, e, taken);
    var below := MapIn(m1, level - 1, g, r, answers[1..]);
    var tree := MapTree(level - 1, NoKids(), r, answers[1..]);
    MapInIsMapTree(m1, level - 1, g, -1, r, answers[1..], taken + multiset{g});
    AgreesForFewer(m1, level - 1, g, -1, Idx(level - 1, r.v), below, tree, taken + multiset{g}, taken);
    ThroughLink(m, m1, level, f, mask, i, e, Idx(level - 1, r.v), below, tree, [g], taken);
  }

  lemma AgreesForFewer(m: Memory, level: Level, f: Frame, mask: int, i: nat, out: MapOut, tree: MapTreeOut,
                       taken: multiset<Frame>, less: multiset<Frame>)
    requires Agrees(m, level, f, mask, i, out, tree, taken) && less <= taken
    ensures Agrees(m, level, f, mask, i, out, tree, less)
  {
  }

  /** The hierarchy below a link that was just created is empty. */
  lemma CreatedChild(m: Memory, m1: Memory, level: Level, f: Frame, mask: int, i: nat, e: Entry, taken: multiset<Frame>)
    requires level > 1 && i < 512 && f in taken && e.addr !in taken
    requires m1 == Write(m, f, i, e)[e.addr := EmptyTable()]
    ensures View(m1, level - 1, e.addr, -1) == NoKids() && WF(m1, level - 1, e.addr, -1) && Sound(m1, level - 1, e.addr, -1)
    ensures f != e.addr && AllFrames(level - 1, NoKids()) == multiset{}
    ensures Within(level, View(m, level, f, mask)[i], e.addr, NoKids(), [e.addr])
    ensures TableAt(m1, f) == TableAt(m, f)[i := e]
    ensures forall g :: g != f && g !in [e.addr] ==> TableAt(m1, g) == TableAt(m, g)
  {
    EmptyTree(m1, level - 1, e.addr);
  }

  lemma {:induction false} OldLinkCase(m: Memory, level: Level, f: Frame, mask: int, r: Request, answers: Answers,
                                       taken: multiset<Frame>)
    requires r.size < level && Legal(r) && WF(m, level, f, mask) && Sound(m, level, f, mask) && Idx(level, r.v) != mask
    requires multiset{f} + AllFrames(level, View(m, level, f, mask)) <= taken
    requires Fresh(answers, level - r.size, taken)
    requires !TableAt(m, f)[Idx(level, r.v)].IsUnused()
    ensures Agrees(m, level, f, mask, Idx(level, r.v), MapIn(m, level, f, r, answers),
                   MapTree(level, View(m, level, f, mask), r, answers), taken)
    decreases level, 1
  {
    hide Agrees, WF, Sound, Frames, Fresh, Tree, View, Idx, SoundTable, IsLeafEntry, TableAt;
    var i := Idx(level, r.v);
    var was := TableAt(m, f)[i];
    var e := Widened(was, r.add);
    var m1 := CreateNext(m, f, i, r.link, r.add, answers).m;
    OldEntry(m, level, f, mask, i, r.add);
    WidenedTable(m, f, i, r, answers);
    if e.Huge() {
      BlockedCase(m, level, f, mask, r, answers, taken);
    } else {
      OldLinkBelow(m, m1, level, f, mask, r, answers, taken, e);
      UnfoldOldLink(m, level, f, mask, r, answers);
    }
  }

  /** A used entry above the leaf stays what it is when flags are added: a link or a leaf. */
  lemma OldEntry(m: Memory, level: Level, f: Frame, mask: int, i: nat, add: Flags)
    requires Sound(m, level, f, mask) && i < 512 && i != mask && level > 1 && HUGE_PAGE !in add
    requires !TableAt(m, f)[i].IsUnused()
    ensures var was, e := TableAt(m, f)[i], Widened(TableAt(m, f)[i], add);
            if e.Huge() then !Links(level, was) else Links(level, was) && Links(level, e) && e.addr == was.addr
  {
    hide Tree, TableAt;
    ViewEntry(m, level, f, mask, i);
    NodeOf(level, View(m, level, f, mask), i);
  }

  lemma WidenedTable(m: Memory, f: Frame, i: nat, r: Request, answers: Answers)
    requires i < 512 && !TableAt(m, f)[i].IsUnused()
    ensures var m1 := CreateNext(m, f, i, r.link, r.add, answers).m;
            && TableAt(m1, f) == TableAt(m, f)[i := Widened(TableAt(m, f)[i], r.add)]
            && (forall g :: g != f ==> TableAt(m1, g) == TableAt(m, g))
  {
  }

  lemma BlockedCase(m: Memory, level: Level, f: Frame, mask: int, r: Request, answers: Answers, taken: multiset<Frame>)
    requires r.size < level && WF(m, level, f, mask) && Idx(level, r.v) != mask
    requires var e := TableAt(m, f)[Idx(level, r.v)];
             !e.IsUnused() && Widened(e, r.add).Huge()
    requires !Links(level, TableAt(m, f)[Idx(level, r.v)])
    ensures Agrees(m, level, f, mask, Idx(level, r.v), MapIn(m, level, f, r, answers),
                   MapTree(level, View(m, level, f, mask), r, answers), taken)
  {
    var i := Idx(level, r.v);
    var m1 := CreateNext(m, f, i, r.link, r.add, answers).m;
    var e := Widened(TableAt(m, f)[i], r.add);
    assert View(m, level, f, mask)[i] == NodeAt(m, level, TableAt(m, f)[i]);
    ViewAfter(m, m1, level, f, mask, i, e, []);
  }

  lemma UnfoldOldLink(m: Memory, level: Level, f: Frame, mask: int, r: Request, answers: Answers)
    requires r.size < level && Idx(level, r.v) != mask
    requires var e := TableAt(m, f)[Idx(level, r.v)];
             !e.IsUnused() && Links(level, e) && Links(level, Widened(e, r.add))
    ensures var i := Idx(level, r.v);
            var kids, e := View(m, level, f, mask), Widened(TableAt(m, f)[i], r.add);
            var m1 := CreateNext(m, f, i, r.link, r.add, answers).m;
            var below := MapIn(m1, level - 1, e.addr, r, answers);
            var tree := MapTree(level - 1, kids[i].kids, r, answers);
            && MapIn(m, level, f, r, answers) == MapOut(below.m, below.answers, [] + below.used, below.res)
            && MapTree(level, kids, r, answers)
               == MapTreeOut(kids[i := Node(e, tree.kids)], tree.answers, [] + tree.used, tree.res)
  {
    var i := Idx(level, r.v);
    var kids := View(m, level, f, mask);
    assert kids[i] == NodeAt(m, level, TableAt(m, f)[i]);
    assert forall s: seq<Frame> :: [] + s == s;
  }

  lemma {:induction false} OldLinkBelow(m: Memory, m1: Memory, level: Level, f: Frame, mask: int, r: Request,
                                        answers: Answers, taken: multiset<Frame>, e: Entry)
    requires r.size < level && Legal(r) && WF(m, level, f, mask) && Sound(m, level, f, mask) && Idx(level, r.v) != mask
    requires multiset{f} + AllFrames(level, View(m, level, f, mask)) <= taken
    requires Fresh(answers, level - r.size, taken)
    requires Links(level, TableAt(m, f)[Idx(level, r.v)]) && Links(level, e)
    requires e.addr == TableAt(m, f)[Idx(level, r.v)].addr
    requires TableAt(m1, f) == TableAt(m, f)[Idx(level, r.v) := e]
    requires forall h :: h != f ==> TableAt(m1, h) == TableAt(m, h)
    ensures var i := Idx(level, r.v);
            var kids := View(m, level, f, mask);
            var below := MapIn(m1, level - 1, e.addr, r, answers);
            var tree := MapTree(level - 1, kids[i].kids, r, answers);
            Agrees(m, level, f, mask, i, MapOut(below.m, below.answers, [] + below.used, below.res),
                   MapTreeOut(kids[i := Node(e, tree.kids)], tree.answers, [] + tree.used, tree.res), taken)
    decreases level, 0
  {
    var i := Idx(level, r.v);
    hide Agrees, WF, Sound, Within, MapIn, MapTree, Frames, Fresh, Tree, Idx;
    WidenedChild(m, m1, level, f, mask, i, e);
    FreshForFewer(answers, level - r.size, level - 1 - r.size, taken, taken);
    MapInIsMapTree(m1, level - 1, e.addr, -1, r, answers, taken);
    ThroughLink(m, m1, level, f, mask, i, e, Idx(level - 1, r.v), MapIn(m1, level - 1, e.addr, r, answers),
                MapTree(level - 1, View(m, level, f, mask)[i].kids, r, answers), [], taken);
  }
}
