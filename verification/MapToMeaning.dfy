/** What `map_to` means for the hierarchy and for the address space it describes. */
module MapToMeaning {
  import opened Wrappers
  import opened Levels
  import opened PageTable
  import opened PageTree
  import opened MapTo
  import opened PathOps

  lemma WidenedKeepsKind(level: Level, n: Node, add: Flags)
    requires SoundNode(level, n) && !n.entry.IsUnused() && HUGE_PAGE !in add
    ensures var e := Widened(n.entry, add);
            && e.addr == n.entry.addr && n.entry.flags <= e.flags <= n.entry.flags + add
            && !e.IsUnused() && (Links(level, e) <==> Links(level, n.entry)) && (e.Huge() <==> n.entry.Huge())
            && SoundNode(level, Node(e, n.kids))
  {
  }

  /** The call goes no further down than this table. */
  predicate StopsHere(level: Level, kids: seq<Node>, r: Request, answers: Answers)
    requires r.size <= level && |kids| == 512
  {
    var n := kids[Idx(level, r.v)];
    level == r.size || (if n.entry.IsUnused() then Answer(answers).None? else Widened(n.entry, r.add).Huge())
  }

  /** One level of `MapTree` that goes on below. */
  lemma ThroughEntry(level: Level, kids: seq<Node>, r: Request, answers: Answers)
    requires r.size < level && |kids| == 512
    requires var n := kids[Idx(level, r.v)];
             if n.entry.IsUnused() then Answer(answers).Some? else !Widened(n.entry, r.add).Huge()
    ensures var i := Idx(level, r.v);
            var n, out := kids[i], MapTree(level, kids, r, answers);
            if n.entry.IsUnused() then
              var g, below := answers[0].value, MapTree(level - 1, NoKids(), r, Later(answers));
              out == MapTreeOut(kids[i := Node(Entry(g, r.link), below.kids)], below.answers, [g] + below.used, below.res)
            else
              var below := MapTree(level - 1, n.kids, r, answers);
              out == MapTreeOut(kids[i := Node(Widened(n.entry, r.add), below.kids)], below.answers, below.used, below.res)
  {
  }

  lemma UpdateKeepsSound(level: Level, kids: seq<Node>, i: nat, n: Node)
    requires SoundTable(level, kids) && i < 512 && SoundNode(level, n)
    ensures SoundTable(level, kids[i := n])
  {
  }

  lemma StopKeepsSound(level: Level, kids: seq<Node>, r: Request, answers: Answers)
    requires r.size <= level && Legal(r) && SoundTable(level, kids) && StopsHere(level, kids, r, answers)
    ensures var out := MapTree(level, kids, r, answers);
            SoundTable(level, out.kids) && out.res != Panicked
  {
    var i := Idx(level, r.v);
    var n := kids[i];
    assert SoundNode(level, n);
    if level == r.size {
      assert SoundNode(level, Node(r.leaf, []));
      UpdateKeepsSound(level, kids, i, Node(r.leaf, []));
    } else if !n.entry.IsUnused() {
      WidenedKeepsKind(level, n, r.add);
      UpdateKeepsSound(level, kids, i, Node(Widened(n.entry, r.add), n.kids));
    }
  }

  /** A legal call keeps the hierarchy sound and never panics. */
  lemma {:induction false} MapTreeKeepsSound(level: Level, kids: seq<Node>, r: Request, answers: Answers)
    requires r.size <= level && Legal(r) && SoundTable(level, kids)
    ensures var out := MapTree(level, kids, r, answers);
            SoundTable(level, out.kids) && out.res != Panicked
    decreases level
  {
    hide MapTree, Idx, LeafAligned;
    var i := Idx(level, r.v);
    NodeOf(level, kids, i);
    var n := kids[i];
    if StopsHere(level, kids, r, answers) {
      StopKeepsSound(level, kids, r, answers);
    } else {
      ThroughEntry(level, kids, r, answers);
      if n.entry.IsUnused() {
        EmptyTableTree(level - 1);
        MapTreeKeepsSound(level - 1, NoKids(), r, Later(answers));
        UpdateKeepsSound(level, kids, i, Node(Entry(answers[0].value, r.link), MapTree(level - 1, NoKids(), r, Later(answers)).kids));
      } else {
        WidenedKeepsKind(level, n, r.add);
        MapTreeKeepsSound(level - 1, n.kids, r, answers);
        UpdateKeepsSound(level, kids, i, Node(Widened(n.entry, r.add), MapTree(level - 1, n.kids, r, answers).kids));
      }
    }
  }

  /** And proper, if the leaf is. */
  lemma {:induction false} MapTreeKeepsProper(level: Level, kids: seq<Node>, r: Request, answers: Answers)
    requires r.size <= level && Legal(r) && SoundTable(level, kids) && ProperTable(level, kids)
    requires r.leaf.IsUnused() || IsProperLeaf(r.size, r.leaf)
    ensures ProperTable(level, MapTree(level, kids, r, answers).kids)
    decreases level
  {
    hide MapTree, Idx, SoundTable, ProperTable, LeafAligned, IsProperLeaf, Widened;
    var i := Idx(level, r.v);
    TableSize(level, kids);
    var n := kids[i];
    if StopsHere(level, kids, r, answers) {
      StopKeepsProper(level, kids, r, answers);
    } else {
      if n.entry.IsUnused() {
        EmptyTableTree(level - 1);
        NoKidsProper(level - 1);
        MapTreeKeepsProper(level - 1, NoKids(), r, Later(answers));
      } else {
        EntriesBelow(level, kids, i, r.add);
        ProperBelow(level, kids, i, r.add);
        MapTreeKeepsProper(level - 1, n.kids, r, answers);
      }
      ThroughKeepsProper(level, kids, r, answers);
    }
  }

  lemma ProperBelow(level: Level, kids: seq<Node>, i: nat, add: Flags)
    requires SoundTable(level, kids) && ProperTable(level, kids) && i < 512 && level > 1
    requires |kids| == 512 && !kids[i].entry.IsUnused() && !Widened(kids[i].entry, add).Huge()
    ensures ProperTable(level - 1, kids[i].kids)
  {
    NodeOf(level, kids, i);
    ProperNodeOf(level, kids, i);
  }

  lemma ThroughKeepsProper(level: Level, kids: seq<Node>, r: Request, answers: Answers)
    requires r.size < level && Legal(r) && SoundTable(level, kids) && ProperTable(level, kids)
    requires |kids| == 512 && !StopsHere(level, kids, r, answers)
    requires var n := kids[Idx(level, r.v)];
             var below := if n.entry.IsUnused() then MapTree(level - 1, NoKids(), r, Later(answers))
                          else MapTree(level - 1, n.kids, r, answers);
             ProperTable(level - 1, below.kids)
    ensures ProperTable(level, MapTree(level, kids, r, answers).kids)
  {
    hide MapTree, Idx, SoundTable, ProperTable, LeafAligned, IsProperLeaf;
    var i := Idx(level, r.v);
    NodeOf(level, kids, i);
    ThroughEntry(level, kids, r, answers);
    var n := kids[i];
    if n.entry.IsUnused() {
      UpdateKeepsProper(level, kids, i, Node(Entry(answers[0].value, r.link), MapTree(level - 1, NoKids(), r, Later(answers)).kids));
    } else {
      WidenedKeepsKind(level, n, r.add);
      UpdateKeepsProper(level, kids, i, Node(Widened(n.entry, r.add), MapTree(level - 1, n.kids, r, answers).kids));
    }
  }

  lemma ProperNodeOf(level: Level, kids: seq<Node>, i: nat)
    requires ProperTable(level, kids) && i < |kids|
    ensures ProperNode(level, kids[i])
  {
  }

  lemma NoKidsProper(level: Level)
    ensures ProperTable(level, NoKids())
  {
  }

  lemma UpdateKeepsProper(level: Level, kids: seq<Node>, i: nat, n: Node)
    requires ProperTable(level, kids) && i < |kids| && ProperNode(level, n)
    ensures ProperTable(level, kids[i := n])
  {
  }

  lemma StopKeepsProper(level: Level, kids: seq<Node>, r: Request, answers: Answers)
    requires r.size <= level && Legal(r) && SoundTable(level, kids) && ProperTable(level, kids)
    requires r.leaf.IsUnused() || IsProperLeaf(r.size, r.leaf)
    requires |kids| == 512 && StopsHere(level, kids, r, answers)
    ensures ProperTable(level, MapTree(level, kids, r, answers).kids)
  {
    hide Idx, SoundTable, ProperTable, LeafAligned;
    var i := Idx(level, r.v);
    NodeOf(level, kids, i);
    ProperNodeOf(level, kids, i);
    var n := kids[i];
    if level == r.size {
      UpdateKeepsProper(level, kids, i, Node(r.leaf, []));
    } else if !n.entry.IsUnused() {
      WidenedKeepsKind(level, n, r.add);
      UpdateKeepsProper(level, kids, i, Node(Widened(n.entry, r.add), n.kids));
    }
  }

  /** Every frame taken from the allocator is now a table of the hierarchy, exactly once; there
      are at most as many as levels between the root and the leaf. */
  lemma {:induction false} MapTreeFrames(level: Level, kids: seq<Node>, r: Request, answers: Answers)
    requires r.size <= level && Legal(r) && SoundTable(level, kids)
    ensures var out := MapTree(level, kids, r, answers);
            && |out.kids| == |kids|
            && AllFrames(level, out.kids) == AllFrames(level, kids) + multiset(out.used)
            && |out.used| <= level - r.size
    decreases level
  {
    hide MapTree, Idx, SoundTable, Frames, LeafAligned;
    var i := Idx(level, r.v);
    NodeOf(level, kids, i);
    var n := kids[i];
    if !n.entry.IsUnused() { WidenedKeepsKind(level, n, r.add); }
    if StopsHere(level, kids, r, answers) {
      StopFrames(level, kids, r, answers);
    } else if n.entry.IsUnused() {
      EmptyTableTree(level - 1);
      MapTreeFrames(level - 1, NoKids(), r, Later(answers));
      NewLinkFrames(level, kids, r, answers);
    } else {
      EntriesBelow(level, kids, i, r.add);
      MapTreeFrames(level - 1, n.kids, r, answers);
      OldLinkFrames(level, kids, r, answers);
    }
  }

  lemma NewLinkFrames(level: Level, kids: seq<Node>, r: Request, answers: Answers)
    requires r.size < level && |kids| == 512 && !StopsHere(level, kids, r, answers)
    requires kids[Idx(level, r.v)].entry.IsUnused() && PRESENT in r.link && HUGE_PAGE !in r.link
    requires var below := MapTree(level - 1, NoKids(), r, Later(answers));
             AllFrames(level - 1, below.kids) == multiset(below.used) && |below.used| < level - r.size
    ensures var out := MapTree(level, kids, r, answers);
            && |out.kids| == 512 && AllFrames(level, out.kids) == AllFrames(level, kids) + multiset(out.used)
            && |out.used| <= level - r.size
  {
    hide MapTree, Idx, Frames;
    ThroughEntry(level, kids, r, answers);
    var g, below := answers[0].value, MapTree(level - 1, NoKids(), r, Later(answers));
    assert multiset([g] + below.used) == multiset{g} + multiset(below.used);
    FramesGrow(level, kids, Idx(level, r.v), Node(Entry(g, r.link), below.kids), [g] + below.used);
  }

  lemma OldLinkFrames(level: Level, kids: seq<Node>, r: Request, answers: Answers)
    requires r.size < level && |kids| == 512 && !StopsHere(level, kids, r, answers)
    requires var n := kids[Idx(level, r.v)];
             var e, below := Widened(n.entry, r.add), MapTree(level - 1, n.kids, r, answers);
             && !n.entry.IsUnused() && Links(level, n.entry) && Links(level, e) && e.addr == n.entry.addr
             && AllFrames(level - 1, below.kids) == AllFrames(level - 1, n.kids) + multiset(below.used)
             && |below.used| < level - r.size
    ensures var out := MapTree(level, kids, r, answers);
            && |out.kids| == 512 && AllFrames(level, out.kids) == AllFrames(level, kids) + multiset(out.used)
            && |out.used| <= level - r.size
  {
    hide MapTree, Idx, Frames;
    ThroughEntry(level, kids, r, answers);
    var n := kids[Idx(level, r.v)];
    var below := MapTree(level - 1, n.kids, r, answers);
    FramesGrow(level, kids, Idx(level, r.v), Node(Widened(n.entry, r.add), below.kids), below.used);
  }

  lemma StopFrames(level: Level, kids: seq<Node>, r: Request, answers: Answers)
    requires r.size <= level && Legal(r) && SoundTable(level, kids) && StopsHere(level, kids, r, answers)
    ensures var out := MapTree(level, kids, r, answers);
            && |out.kids| == |kids| && AllFrames(level, out.kids) == AllFrames(level, kids) && out.used == []
  {
    hide Idx, Frames, LeafAligned, SoundTable;
    var i := Idx(level, r.v);
    NodeOf(level, kids, i);
    var n := kids[i];
    if level == r.size && n.entry.IsUnused() {
      FramesKept(level, kids, i, Node(r.leaf, []));
    } else if level > r.size && !n.entry.IsUnused() {
      FramesKept(level, kids, i, Node(Widened(n.entry, r.add), n.kids));
    }
  }

  lemma FramesKept(level: Level, kids: seq<Node>, i: nat, n: Node)
    requires i < |kids| && NodeFrames(level, n) == NodeFrames(level, kids[i])
    ensures AllFrames(level, kids[i := n]) == AllFrames(level, kids)
  {
    FramesGrow(level, kids, i, n, []);
  }

  lemma FramesGrow(level: Level, kids: seq<Node>, i: nat, n: Node, used: seq<Frame>)
    requires i < |kids| && NodeFrames(level, n) == NodeFrames(level, kids[i]) + multiset(used)
    ensures AllFrames(level, kids[i := n]) == AllFrames(level, kids) + multiset(used)
  {
    FramesOfUpdate(level, kids, i, n, |kids|);
    Moved(AllFrames(level, kids[i := n]), AllFrames(level, kids), NodeFrames(level, kids[i]), multiset(used));
  }

  lemma Moved(a: multiset<Frame>, b: multiset<Frame>, x: multiset<Frame>, y: multiset<Frame>)
    requires a + x == b + (x + y)
    ensures a == b + y
  {
    forall f ensures a[f] == (b + y)[f] {
      assert (a + x)[f] == (b + (x + y))[f];
    }
  }

  /** `out` took the first answers of the allocator, and the frames among them are its `used`. */
  ghost predicate Consumes(answers: Answers, out: MapTreeOut) {
    && |out.answers| <= |answers| && out.answers == answers[|answers| - |out.answers|..]
    && Given(answers[..|answers| - |out.answers|]) == out.used
  }

  /** The frames a call used are what the allocator answered, in order. */
  lemma {:induction false} MapTreeConsumes(level: Level, kids: seq<Node>, r: Request, answers: Answers)
    requires r.size <= level && SoundTable(level, kids)
    ensures Consumes(answers, MapTree(level, kids, r, answers))
    decreases level
  {
    hide Consumes, MapTree, Idx, Widened, Frames, Leaf;
    TableSize(level, kids);
    var n := kids[Idx(level, r.v)];
    if StopsHere(level, kids, r, answers) {
      StopConsumes(level, kids, r, answers);
    } else if n.entry.IsUnused() {
      EmptyTableTree(level - 1);
      MapTreeConsumes(level - 1, NoKids(), r, answers[1..]);
      ConsumesFirst(level, kids, r, answers);
    } else {
      EntriesBelow(level, kids, Idx(level, r.v), r.add);
      MapTreeConsumes(level - 1, n.kids, r, answers);
      ThroughEntry(level, kids, r, answers);
      SameConsumed(answers, MapTree(level - 1, n.kids, r, answers), MapTree(level, kids, r, answers));
    }
  }

  lemma SameConsumed(answers: Answers, out: MapTreeOut, out': MapTreeOut)
    requires Consumes(answers, out) && out'.answers == out.answers && out'.used == out.used
    ensures Consumes(answers, out')
  {
  }

  lemma StopConsumes(level: Level, kids: seq<Node>, r: Request, answers: Answers)
    requires r.size <= level && |kids| == 512 && StopsHere(level, kids, r, answers)
    ensures Consumes(answers, MapTree(level, kids, r, answers))
  {
    hide Idx;
    assert answers[..0] == [];
    if Answer(answers).None? { ConsumesNone(answers); }
  }

  lemma ConsumesNone(answers: Answers)
    requires Answer(answers).None?
    ensures var n := |answers| - |Later(answers)|;
            Given(answers[..n]) == [] && Later(answers) == answers[n..]
  {
    if answers != [] { assert answers[..1] == [None]; }
  }

  lemma ConsumesFirst(level: Level, kids: seq<Node>, r: Request, answers: Answers)
    requires r.size < level && |kids| == 512
    requires kids[Idx(level, r.v)].entry.IsUnused() && Answer(answers).Some?
    requires Consumes(answers[1..], MapTree(level - 1, NoKids(), r, answers[1..]))
    ensures Consumes(answers, MapTree(level, kids, r, answers))
  {
    hide MapTree, Idx;
    ThroughEntry(level, kids, r, answers);
    GivenFirst(answers, |answers| - |MapTree(level, kids, r, answers).answers|);
  }

  lemma EntriesBelow(level: Level, kids: seq<Node>, i: nat, add: Flags)
    requires SoundTable(level, kids) && i < 512 && level > 1
    requires !kids[i].entry.IsUnused() && !Widened(kids[i].entry, add).Huge()
    ensures SoundTable(level - 1, kids[i].kids)
  {
    assert SoundNode(level, kids[i]);
  }

  lemma GivenFirst(answers: Answers, n: nat)
    requires 0 < n <= |answers| && answers[0].Some?
    ensures Given(answers[..n]) == [answers[0].value] + Given(answers[1..][..n - 1])
  {
    assert answers[..n][1..] == answers[1..][..n - 1];
  }

  /** The frames among some answers of the allocator. */
  function Given(s: Answers): seq<Frame> {
    if s == [] then []
    else if s[0].None? then Given(s[1..])
    else [s[0].value] + Given(s[1..])
  }

  /** The mapping of a page below the entry on the path, before and after a call that goes on
      below. */
  lemma LeafThrough(level: Level, kids: seq<Node>, r: Request, answers: Answers, w: nat)
    requires r.size < level && Legal(r) && SoundTable(level, kids) && !StopsHere(level, kids, r, answers)
    requires Idx(level, w) == Idx(level, r.v)
    ensures var n, out := kids[Idx(level, r.v)], MapTree(level, kids, r, answers);
            if n.entry.IsUnused() then
              var below := MapTree(level - 1, NoKids(), r, Later(answers));
              && out.res == below.res && Leaf(level, kids, w) == None == Leaf(level - 1, NoKids(), w)
              && Leaf(level, out.kids, w) == Leaf(level - 1, below.kids, w)
            else
              var below := MapTree(level - 1, n.kids, r, answers);
              && SoundTable(level - 1, n.kids)
              && out.res == below.res && Leaf(level, kids, w) == Leaf(level - 1, n.kids, w)
              && Leaf(level, out.kids, w) == Leaf(level - 1, below.kids, w)
  {
    hide MapTree, Idx, SoundTable, Frames, LeafAligned, Leaf;
    var i := Idx(level, r.v);
    NodeOf(level, kids, i);
    ThroughEntry(level, kids, r, answers);
    LeafAt(level, kids, w);
    LeafAt(level, MapTree(level, kids, r, answers).kids, w);
    if kids[i].entry.IsUnused() {
      EmptyTableTree(level - 1);
    } else {
      WidenedKeepsKind(level, kids[i], r.add);
      EntriesBelow(level, kids, i, r.add);
    }
  }

  /** A successful call maps exactly the pages of its own span, all of which were unmapped. */
  lemma {:induction false} MapTreeMapsOnePage(level: Level, kids: seq<Node>, r: Request, answers: Answers, w: nat)
    requires r.size <= level && Legal(r) && SoundTable(level, kids)
    requires MapTree(level, kids, r, answers).res == Mapped
    requires Block(level + 1, w) == Block(level + 1, r.v)
    ensures var out := MapTree(level, kids, r, answers);
            if Block(r.size, w) == Block(r.size, r.v)
            then Leaf(level, out.kids, w) == LeafOf(r.size, r.leaf) && Leaf(level, kids, w) == None
            else Leaf(level, out.kids, w) == Leaf(level, kids, w)
    decreases level
  {
    hide MapTree, Idx, SoundTable, Frames, Legal, Leaf, Block;
    var i := Idx(level, r.v);
    SameEntry(level, w, r.v);
    NodeOf(level, kids, i);
    if Block(r.size, w) == Block(r.size, r.v) { CoarserBlock(r.size, level, w, r.v); }
    if Idx(level, w) != i {
      OffPath(level, kids, r, answers, w);
    } else if StopsHere(level, kids, r, answers) {
      LeafWritten(level, kids, r, answers, w);
    } else {
      LeafThrough(level, kids, r, answers, w);
      if kids[i].entry.IsUnused() {
        EmptyTableTree(level - 1);
        MapTreeMapsOnePage(level - 1, NoKids(), r, Later(answers), w);
      } else {
        MapTreeMapsOnePage(level - 1, kids[i].kids, r, answers, w);
      }
    }
  }

  lemma LeafWritten(level: Level, kids: seq<Node>, r: Request, answers: Answers, w: nat)
    requires r.size <= level && Legal(r) && |kids| == 512 && StopsHere(level, kids, r, answers)
    requires MapTree(level, kids, r, answers).res == Mapped && Idx(level, w) == Idx(level, r.v)
    ensures level == r.size
    ensures Leaf(level, MapTree(level, kids, r, answers).kids, w) == LeafOf(r.size, r.leaf)
    ensures Leaf(level, kids, w) == None
  {
    hide Idx, LeafAligned;
  }

  lemma OffPath(level: Level, kids: seq<Node>, r: Request, answers: Answers, w: nat)
    requires r.size <= level && |kids| == 512 && Idx(level, w) != Idx(level, r.v)
    ensures Leaf(level, MapTree(level, kids, r, answers).kids, w) == Leaf(level, kids, w)
  {
    assert |MapTree(level, kids, r, answers).kids| == 512;
    assert MapTree(level, kids, r, answers).kids[Idx(level, w)] == kids[Idx(level, w)];
  }

  /** The leaf with the flags of parents added, unless it has them all. */
  function WidenedLeaf(leaf: Mapping, add: Flags): Mapping {
    Mapping(leaf.level, Widened(leaf.entry, add))
  }

  /** A failed call leaves every mapping in place, except that the huge leaf that is reported as
      `ParentEntryHugePage` has gained the flags passed for parents. */
  lemma {:induction false} MapTreeFailureMapsNothing(level: Level, kids: seq<Node>, r: Request, answers: Answers, w: nat)
    requires r.size <= level && Legal(r) && SoundTable(level, kids)
    requires MapTree(level, kids, r, answers).res != Mapped
    requires Block(level + 1, w) == Block(level + 1, r.v)
    ensures var out := MapTree(level, kids, r, answers);
            var before, after := Leaf(level, kids, w), Leaf(level, out.kids, w);
            if out.res == MapResult.ParentEntryHugePage && before.Some? && before.value.level > r.size
               && Block(before.value.level, w) == Block(before.value.level, r.v)
            then after == Some(WidenedLeaf(before.value, r.add))
            else after == before
    decreases level
  {
    hide MapTree, Idx, SoundTable, Frames, Legal, Leaf, Block, WidenedLeaf;
    var i := Idx(level, r.v);
    SameEntry(level, w, r.v);
    NodeOf(level, kids, i);
    if Idx(level, w) != i {
      OffPath(level, kids, r, answers, w);
      OffPathLeaf(level, kids, w, r.v);
    } else if StopsHere(level, kids, r, answers) {
      StopsWithoutMapping(level, kids, r, answers, w);
    } else {
      LeafThrough(level, kids, r, answers, w);
      if kids[i].entry.IsUnused() {
        EmptyTableTree(level - 1);
        MapTreeFailureMapsNothing(level - 1, NoKids(), r, Later(answers), w);
      } else {
        MapTreeFailureMapsNothing(level - 1, kids[i].kids, r, answers, w);
      }
    }
  }

  lemma StopsWithoutMapping(level: Level, kids: seq<Node>, r: Request, answers: Answers, w: nat)
    requires r.size <= level && Legal(r) && SoundTable(level, kids) && StopsHere(level, kids, r, answers)
    requires MapTree(level, kids, r, answers).res != Mapped && Idx(level, w) == Idx(level, r.v)
    ensures var out := MapTree(level, kids, r, answers);
            var before, after := Leaf(level, kids, w), Leaf(level, out.kids, w);
            if out.res == MapResult.ParentEntryHugePage
            then before.Some? && before.value.level == level > r.size && after == Some(WidenedLeaf(before.value, r.add))
            else after == before
  {
    hide Idx, LeafAligned, SoundTable, Frames;
    var i := Idx(level, r.v);
    NodeOf(level, kids, i);
    LeafAt(level, kids, w);
    if level > r.size && !kids[i].entry.IsUnused() { WidenedKeepsKind(level, kids[i], r.add); }
  }

  /** A leaf met below another entry does not cover `v`. */
  lemma {:induction false} OffPathLeaf(level: Level, kids: seq<Node>, w: nat, v: nat)
    requires Block(level, w) != Block(level, v)
    ensures var leaf := Leaf(level, kids, w);
            leaf.Some? ==> leaf.value.level <= level && Block(leaf.value.level, w) != Block(leaf.value.level, v)
    decreases level
  {
    var i := Idx(level, w);
    if i < |kids| && !kids[i].entry.IsUnused() && Links(level, kids[i].entry) {
      if Block(level - 1, w) == Block(level - 1, v) { CoarserBlock(level - 1, level, w, v); }
      OffPathLeaf(level - 1, kids[i].kids, w, v);
    }
  }

  // ---------------------------------------------------------------- parent entries

  /** What `create_next_table` leaves in a parent entry: an existing link with the flags added, or a
      new link with the flags for new ones. */
  predicate IsParentOf(r: Request, was: Option<Node>, now: Entry) {
    && (r.add <= r.link ==> r.add <= now.flags)
    && (if was.Some? && !was.value.entry.IsUnused() then now == Widened(was.value.entry, r.add)
        else now.flags == r.link)
  }

  /** After a successful call every entry on the path above the leaf is a link with the flags passed
      for parents; a link that was there leads where it led, a new one to a frame of the allocator. */
  lemma {:induction false} MapTreeParents(level: Level, kids: seq<Node>, r: Request, answers: Answers, t: Level)
    requires r.size < t <= level && Legal(r) && SoundTable(level, kids) && MapTree(level, kids, r, answers).res == Mapped
    ensures var now := At(level, MapTree(level, kids, r, answers).kids, t, r.v);
            now.Some? && Links(t, now.value.entry) && IsParentOf(r, At(level, kids, t, r.v), now.value.entry)
    ensures var was, out := At(level, kids, t, r.v), MapTree(level, kids, r, answers);
            was.None? || was.value.entry.IsUnused() ==> At(level, out.kids, t, r.v).value.entry.addr in out.used
    decreases level
  {
    hide MapTree, Idx, SoundTable, Frames, LeafAligned, IsParentOf, At;
    var i := Idx(level, r.v);
    NodeOf(level, kids, i);
    var n := kids[i];
    GoesOn(level, kids, r, answers);
    ThroughEntry(level, kids, r, answers);
    if !n.entry.IsUnused() {
      WidenedKeepsKind(level, n, r.add);
      EntriesBelow(level, kids, i, r.add);
    }
    ParentHere(level, kids, r, answers);
    UnfoldAt(level, kids, t, r.v);
    UnfoldAt(level, MapTree(level, kids, r, answers).kids, t, r.v);
    if t < level {
      if n.entry.IsUnused() {
        EmptyTableTree(level - 1);
        MapTreeParents(level - 1, NoKids(), r, Later(answers), t);
        NothingBelow(level - 1, t, r.v);
        SameParent(r, At(level - 1, NoKids(), t, r.v), At(level, kids, t, r.v),
                   At(level, MapTree(level, kids, r, answers).kids, t, r.v).value.entry);
      } else {
        MapTreeParents(level - 1, n.kids, r, answers, t);
      }
    }
  }

  /** After a successful call the entry of the page is the leaf of the request. */
  lemma {:induction false} MapTreeStoresLeaf(level: Level, kids: seq<Node>, r: Request, answers: Answers)
    requires r.size <= level && Legal(r) && SoundTable(level, kids) && MapTree(level, kids, r, answers).res == Mapped
    ensures At(level, MapTree(level, kids, r, answers).kids, r.size, r.v) == Some(Node(r.leaf, []))
    decreases level
  {
    hide MapTree, Idx, SoundTable, Frames, LeafAligned, At;
    var i := Idx(level, r.v);
    NodeOf(level, kids, i);
    SizeKept(level, kids, r, answers);
    UnfoldAt(level, MapTree(level, kids, r, answers).kids, r.size, r.v);
    if level == r.size {
      LeafStored(level, kids, r, answers);
    } else {
      GoesOn(level, kids, r, answers);
      ThroughEntry(level, kids, r, answers);
      ParentHere(level, kids, r, answers);
      if kids[i].entry.IsUnused() {
        EmptyTableTree(level - 1);
        MapTreeStoresLeaf(level - 1, NoKids(), r, Later(answers));
      } else {
        EntriesBelow(level, kids, i, r.add);
        MapTreeStoresLeaf(level - 1, kids[i].kids, r, answers);
      }
    }
  }

  lemma LeafStored(level: Level, kids: seq<Node>, r: Request, answers: Answers)
    requires r.size == level && |kids| == 512 && MapTree(level, kids, r, answers).res == Mapped
    ensures MapTree(level, kids, r, answers).kids[Idx(level, r.v)] == Node(r.leaf, [])
  {
  }

  lemma UnfoldAt(level: Level, kids: seq<Node>, target: Level, v: nat)
    requires target <= level && |kids| == 512
    ensures At(level, kids, target, v) ==
            var n := kids[Idx(level, v)];
            if level == target then Some(n)
            else if !Links(level, n.entry) then None
            else At(level - 1, n.kids, target, v)
  {
  }

  lemma {:induction false} NothingBelow(level: Level, t: Level, v: nat)
    requires t <= level
    ensures At(level, NoKids(), t, v) == if t == level then Some(UNUSED_NODE) else None
  {
  }

  lemma SameParent(r: Request, a: Option<Node>, b: Option<Node>, now: Entry)
    requires a.None? || a.value.entry.IsUnused()
    requires b.None? || b.value.entry.IsUnused()
    ensures IsParentOf(r, a, now) <==> IsParentOf(r, b, now)
  {
  }

  lemma GoesOn(level: Level, kids: seq<Node>, r: Request, answers: Answers)
    requires r.size < level && |kids| == 512 && MapTree(level, kids, r, answers).res == Mapped
    ensures !StopsHere(level, kids, r, answers)
  {
  }

  lemma ParentHere(level: Level, kids: seq<Node>, r: Request, answers: Answers)
    requires r.size < level && |kids| == 512 && Legal(r) && !StopsHere(level, kids, r, answers)
    requires SoundNode(level, kids[Idx(level, r.v)])
    ensures |MapTree(level, kids, r, answers).kids| == 512
    ensures var was, now := kids[Idx(level, r.v)], MapTree(level, kids, r, answers).kids[Idx(level, r.v)].entry;
            Links(level, now) && IsParentOf(r, Some(was), now)
  {
    hide MapTree, Idx, Frames, LeafAligned;
    ThroughEntry(level, kids, r, answers);
    if !kids[Idx(level, r.v)].entry.IsUnused() { WidenedKeepsKind(level, kids[Idx(level, r.v)], r.add); }
  }

  /** Before and after a call at an entry off its path: the entry is as it was, and entries of new
      tables are unused. */
  predicate SameEntryOff(was: Option<Node>, now: Option<Node>) {
    if was.Some? then now.Some? && now.value.entry == was.value.entry
    else now.None? || now.value.entry.IsUnused()
  }

  /** No call changes an entry of any level off its path, whatever its result. */
  lemma {:induction false} MapTreeKeepsOtherEntries(level: Level, kids: seq<Node>, r: Request, answers: Answers,
                                                    t: Level, w: nat)
    requires r.size <= level && t <= level && Legal(r) && SoundTable(level, kids)
    requires Block(level + 1, w) == Block(level + 1, r.v) && Block(t, w) != Block(t, r.v)
    ensures SameEntryOff(At(level, kids, t, w), At(level, MapTree(level, kids, r, answers).kids, t, w))
    decreases level
  {
    hide MapTree, Idx, SoundTable, Frames, LeafAligned, Block, At, Legal;
    var i := Idx(level, r.v);
    SameEntry(level, w, r.v);
    NodeOf(level, kids, i);
    var out := MapTree(level, kids, r, answers);
    SizeKept(level, kids, r, answers);
    UnfoldAt(level, kids, t, w);
    UnfoldAt(level, out.kids, t, w);
    if Idx(level, w) == i {
      if StopsHere(level, kids, r, answers) {
        StopKeepsBelow(level, kids, r, answers);
      } else {
        ThroughEntry(level, kids, r, answers);
        if kids[i].entry.IsUnused() {
          EmptyTableTree(level - 1);
          MapTreeKeepsOtherEntries(level - 1, NoKids(), r, Later(answers), t, w);
          NothingBelow(level - 1, t, w);
        } else {
          WidenedLinks(level, kids[i], r);
          EntriesBelow(level, kids, i, r.add);
          MapTreeKeepsOtherEntries(level - 1, kids[i].kids, r, answers, t, w);
        }
      }
    }
  }

  lemma SizeKept(level: Level, kids: seq<Node>, r: Request, answers: Answers)
    requires r.size <= level && |kids| == 512
    ensures var out := MapTree(level, kids, r, answers);
            |out.kids| == 512 && forall j :: 0 <= j < 512 && j != Idx(level, r.v) ==> out.kids[j] == kids[j]
  {
  }

  lemma WidenedLinks(level: Level, n: Node, r: Request)
    requires SoundNode(level, n) && !n.entry.IsUnused() && Legal(r)
    ensures Links(level, Widened(n.entry, r.add)) <==> Links(level, n.entry)
  {
    WidenedKeepsKind(level, n, r.add);
  }

  lemma StopKeepsBelow(level: Level, kids: seq<Node>, r: Request, answers: Answers)
    requires r.size <= level && Legal(r) && SoundTable(level, kids) && StopsHere(level, kids, r, answers)
    ensures var i := Idx(level, r.v);
            var n, n' := kids[i], MapTree(level, kids, r, answers).kids[i];
            (Links(level, n'.entry) <==> Links(level, n.entry)) && (Links(level, n.entry) ==> n'.kids == n.kids)
  {
    hide Idx, LeafAligned, SoundTable, Frames;
    var i := Idx(level, r.v);
    NodeOf(level, kids, i);
    if level > r.size && !kids[i].entry.IsUnused() { WidenedKeepsKind(level, kids[i], r.add); }
  }
}
