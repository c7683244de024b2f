/** Operations on one entry of an existing table: `unmap`, `update_flags`, `set_flags_p*_entry`
and `translate_page`.

Each walks down the links to the table of some level and rewrites or reads one entry there.
 */
module PathOps {
  import opened Wrappers
  import opened Levels
  import opened PageTable
  import opened PageTree
  import opened MemoryTree

  datatype WalkError = NotMapped | MappedToHugePage

  /** `next_table` and `next_table_mut`. */
  function NextTable(e: Entry): Result<Frame, WalkError> {
    if e.Huge() then Err(MappedToHugePage)
    else if !e.Present() then Err(NotMapped)
    else Ok(e.addr)
  }

  /** The table of level `target` on the path of page `v`. */
  function WalkTo(m: Memory, level: Level, f: Frame, target: Level, v: nat): Result<Frame, WalkError>
    requires target <= level
    decreases level
  {
    if level == target then Ok(f)
    else
      match NextTable(TableAt(m, f)[Idx(level, v)])
      case Err(e) => Err(e)
      case Ok(g) => WalkTo(m, level - 1, g, target, v)
  }

  lemma UnfoldWalk(m: Memory, level: Level, f: Frame, target: Level, v: nat)
    requires target < level
    ensures WalkTo(m, level, f, target, v) ==
            match NextTable(TableAt(m, f)[Idx(level, v)])
            case Err(e) => Err(e)
            case Ok(g) => WalkTo(m, level - 1, g, target, v)
  {
  }

  lemma WalkEnds(m: Memory, level: Level, f: Frame, v: nat)
    ensures WalkTo(m, level, f, level, v) == Ok(f)
  {
  }

  datatype UnmapError = UnmapParentEntryHugePage | UnmapPageNotMapped | UnmapInvalidFrameAddress(Frame)

  function UnmapWalkError(e: WalkError): UnmapError {
    match e
    case NotMapped => UnmapPageNotMapped
    case MappedToHugePage => UnmapParentEntryHugePage
  }

  datatype UnmapOut = UnmapOut(m: Memory, res: Result<Frame, UnmapError>)

  /** `unmap` of a page whose leaf is an entry of a level-`size` table. */
  function UnmapIn(m: Memory, level: Level, f: Frame, size: Level, v: nat): UnmapOut
    requires size <= level
  {
    match WalkTo(m, level, f, size, v)
    case Err(e) => UnmapOut(m, Err(UnmapWalkError(e)))
    case Ok(g) =>
      var e := TableAt(m, g)[Idx(size, v)];
      if !e.Present() then UnmapOut(m, Err(UnmapPageNotMapped))
      else if size > 1 && !e.Huge() then UnmapOut(m, Err(UnmapParentEntryHugePage))
      else if !LeafAligned(size, e.addr) then UnmapOut(m, Err(UnmapInvalidFrameAddress(e.addr)))
      else UnmapOut(Write(m, g, Idx(size, v), UNUSED), Ok(e.addr))
  }

  datatype FlagUpdateError = FlagsPageNotMapped | FlagsParentEntryHugePage

  function FlagsWalkError(e: WalkError): FlagUpdateError {
    match e
    case NotMapped => FlagsPageNotMapped
    case MappedToHugePage => FlagsParentEntryHugePage
  }

  datatype FlagsOut = FlagsOut(m: Memory, res: Result<(), FlagUpdateError>)

  /** `update_flags` and `set_flags_p*_entry`: set the flags of the entry of level `target`. */
  function SetFlagsIn(m: Memory, level: Level, f: Frame, target: Level, v: nat, flags: Flags): FlagsOut
    requires target <= level
  {
    match WalkTo(m, level, f, target, v)
    case Err(e) => FlagsOut(m, Err(FlagsWalkError(e)))
    case Ok(g) =>
      var e := TableAt(m, g)[Idx(target, v)];
      if e.IsUnused() then FlagsOut(m, Err(FlagsPageNotMapped))
      else FlagsOut(Write(m, g, Idx(target, v), Entry(e.addr, flags)), Ok(()))
  }

  datatype TranslateError = PageNotMapped | ParentEntryHugePage | InvalidFrameAddress(Frame)

  function TranslateWalkError(e: WalkError): TranslateError {
    match e
    case NotMapped => PageNotMapped
    case MappedToHugePage => ParentEntryHugePage
  }

  function TranslatePageIn(m: Memory, level: Level, f: Frame, size: Level, v: nat): Result<Frame, TranslateError>
    requires size <= level
  {
    match WalkTo(m, level, f, size, v)
    case Err(e) => Err(TranslateWalkError(e))
    case Ok(g) =>
      var e := TableAt(m, g)[Idx(size, v)];
      if e.IsUnused() then Err(PageNotMapped)
      else if !LeafAligned(size, e.addr) then Err(InvalidFrameAddress(e.addr))
      else Ok(e.addr)
  }

  // ---------------------------------------------------------------- on the tree

  /** The node of level `target` on the path of page `v`, if links lead there. */
  function At(level: Level, kids: seq<Node>, target: Level, v: nat): Option<Node>
    requires target <= level
    decreases level
  {
    var i := Idx(level, v);
    if i >= |kids| then None
    else if level == target then Some(kids[i])
    else if !Links(level, kids[i].entry) then None
    else At(level - 1, kids[i].kids, target, v)
  }

  /** The hierarchy with that node replaced. */
  function Place(level: Level, kids: seq<Node>, target: Level, v: nat, n: Node): seq<Node>
    requires target <= level
    decreases level
  {
    var i := Idx(level, v);
    if i >= |kids| then kids
    else if level == target then kids[i := n]
    else kids[i := Node(kids[i].entry, Place(level - 1, kids[i].kids, target, v, n))]
  }

  /** The leaf that maps page `w` when its path goes through node `n`. */
  function NodeLeaf(level: Level, n: Node, w: nat): Option<Mapping> {
    if Links(level, n.entry) then Leaf(level - 1, n.kids, w) else LeafOf(level, n.entry)
  }

  /** Replacing a node changes the mappings of its own span only. */
  lemma {:induction false} LeafOfPlace(level: Level, kids: seq<Node>, target: Level, v: nat, n: Node, w: nat)
    requires target <= level && At(level, kids, target, v).Some?
    requires Block(level + 1, w) == Block(level + 1, v)
    ensures if Block(target, w) == Block(target, v)
            then && Leaf(level, Place(level, kids, target, v, n), w) == NodeLeaf(target, n, w)
                 && Leaf(level, kids, w) == NodeLeaf(target, At(level, kids, target, v).value, w)
            else Leaf(level, Place(level, kids, target, v, n), w) == Leaf(level, kids, w)
    decreases level
  {
    var i := Idx(level, v);
    SameEntry(level, w, v);
    if Block(target, w) == Block(target, v) { CoarserBlock(target, level, w, v); }
    var kids' := Place(level, kids, target, v, n);
    if Idx(level, w) != i {
      assert |kids'| == |kids| && forall j :: 0 <= j < |kids| && j != i ==> kids'[j] == kids[j];
    } else {
      LeafAt(level, kids, w);
      LeafAt(level, kids', w);
      if level > target {
        LeafOfPlace(level - 1, kids[i].kids, target, v, n, w);
      }
    }
  }

  lemma {:induction false} PlaceKeepsSound(level: Level, kids: seq<Node>, target: Level, v: nat, n: Node)
    requires target <= level && SoundTable(level, kids) && At(level, kids, target, v).Some?
    ensures SoundNode(target, At(level, kids, target, v).value)
    ensures SoundNode(target, n) ==> SoundTable(level, Place(level, kids, target, v, n))
    decreases level
  {
    var i := Idx(level, v);
    assert SoundNode(level, kids[i]);
    if level > target {
      PlaceKeepsSound(level - 1, kids[i].kids, target, v, n);
    }
  }

  lemma {:induction false} PlaceKeepsProper(level: Level, kids: seq<Node>, target: Level, v: nat, n: Node)
    requires target <= level && ProperTable(level, kids) && At(level, kids, target, v).Some?
    ensures ProperNode(target, At(level, kids, target, v).value)
    ensures ProperNode(target, n) ==> ProperTable(level, Place(level, kids, target, v, n))
    decreases level
  {
    var i := Idx(level, v);
    assert ProperNode(level, kids[i]);
    if level > target {
      PlaceKeepsProper(level - 1, kids[i].kids, target, v, n);
    }
  }

  lemma {:induction false} FramesOfPlace(level: Level, kids: seq<Node>, target: Level, v: nat, n: Node)
    requires target <= level && At(level, kids, target, v).Some?
    ensures AllFrames(level, Place(level, kids, target, v, n)) + NodeFrames(target, At(level, kids, target, v).value)
         == AllFrames(level, kids) + NodeFrames(target, n)
    decreases level
  {
    var i := Idx(level, v);
    if level == target {
      FramesOfUpdate(level, kids, i, n, |kids|);
    } else {
      var below := Place(level - 1, kids[i].kids, target, v, n);
      var n' := Node(kids[i].entry, below);
      FramesOfPlace(level - 1, kids[i].kids, target, v, n);
      FramesOfUpdate(level, kids, i, n', |kids|);
      var link := multiset{kids[i].entry.addr};
      assert NodeFrames(level, n') == link + AllFrames(level - 1, below);
      assert NodeFrames(level, kids[i]) == link + AllFrames(level - 1, kids[i].kids);
      Balance(AllFrames(level, kids[i := n']), AllFrames(level, kids), link, AllFrames(level - 1, below),
              AllFrames(level - 1, kids[i].kids), NodeFrames(target, n),
              NodeFrames(target, At(level, kids, target, v).value));
    }
  }

  lemma Balance(a: multiset<Frame>, b: multiset<Frame>, link: multiset<Frame>, x': multiset<Frame>, x: multiset<Frame>,
                y': multiset<Frame>, y: multiset<Frame>)
    requires a + (link + x) == b + (link + x') && x' + y == x + y'
    ensures a + y == b + y'
  {
    forall f ensures (a + y)[f] == (b + y')[f] {
      assert (a + (link + x))[f] == (b + (link + x'))[f];
      assert (x' + y)[f] == (x + y')[f];
    }
  }

  // ---------------------------------------------------------------- memory and tree

  /** The link of level `target` on the path of page `v`, if links lead there. */
  function LinkAt(m: Memory, root: Frame, mask: int, target: Level, v: nat): Option<Entry> {
    match At(4, View(m, 4, root, mask), target, v)
    case None => None
    case Some(n) => if Links(target, n.entry) then Some(n.entry) else None
  }

  /** The frame of the table of level `target` on the path of page `v`. */
  function TableOn(m: Memory, root: Frame, mask: int, target: Level, v: nat): Option<Frame> {
    if target == 4 then Some(root)
    else
      match LinkAt(m, root, mask, target + 1, v)
      case None => None
      case Some(e) => Some(e.addr)
  }

  /** The entry of level `target` on the path of page `v`. */
  function EntryOn(m: Memory, root: Frame, mask: int, target: Level, v: nat): Option<Entry> {
    match At(4, View(m, 4, root, mask), target, v)
    case None => None
    case Some(n) => Some(n.entry)
  }

  /** The walk in memory follows the links of the tree. */
  lemma {:induction false} WalkIsAt(m: Memory, level: Level, f: Frame, mask: int, target: Level, v: nat)
    requires target <= level && Idx(level, v) != mask
    ensures var at, walk := At(level, View(m, level, f, mask), target, v), WalkTo(m, level, f, target, v);
            && (walk.Ok? <==> at.Some?)
            && (walk.Ok? ==> at.value == NodeAt(m, target, TableAt(m, walk.value)[Idx(target, v)]))
    decreases level
  {
    hide Tree, Idx, View, TableAt;
    var e := TableAt(m, f)[Idx(level, v)];
    ViewEntry(m, level, f, mask, Idx(level, v));
    NodeAtIsView(m, level, e);
    if level > target && Links(level, e) { WalkIsAt(m, level - 1, e.addr, -1, target, v); }
  }

  lemma {:induction false} WalkUsesLinks(m: Memory, level: Level, f: Frame, mask: int, target: Level, v: nat)
    requires target < level && Idx(level, v) != mask
    ensures var at, walk := At(level, View(m, level, f, mask), target + 1, v), WalkTo(m, level, f, target, v);
            && (walk.Ok? <==> at.Some? && Links(target + 1, at.value.entry))
            && (walk.Ok? ==> at.value.entry.addr == walk.value)
    decreases level
  {
    hide Tree, Idx, View, TableAt;
    var e := TableAt(m, f)[Idx(level, v)];
    ViewEntry(m, level, f, mask, Idx(level, v));
    NodeAtIsView(m, level, e);
    if level > target + 1 && Links(level, e) { WalkUsesLinks(m, level - 1, e.addr, -1, target, v); }
  }

  /** The walk ends at the table and the entry on the path. */
  lemma WalkIsPath(m: Memory, root: Frame, mask: int, target: Level, v: nat)
    requires Idx(4, v) != mask
    ensures var walk := WalkTo(m, 4, root, target, v);
            && (walk.Ok? <==> TableOn(m, root, mask, target, v).Some?)
            && (walk.Ok? <==> EntryOn(m, root, mask, target, v).Some?)
            && (walk.Ok? ==> TableOn(m, root, mask, target, v) == Some(walk.value))
            && (walk.Ok? ==> EntryOn(m, root, mask, target, v) == Some(TableAt(m, walk.value)[Idx(target, v)]))
  {
    hide Tree, Idx, View, TableAt, WalkTo, At;
    WalkIsAt(m, 4, root, mask, target, v);
    if target < 4 { WalkUsesLinks(m, 4, root, mask, target, v); } else { WalkEnds(m, 4, root, v); }
  }

  /** The walk ends in the root table or in a table of the hierarchy. */
  lemma {:induction false} WalkStaysInside(m: Memory, level: Level, f: Frame, mask: int, target: Level, v: nat)
    requires target <= level && WF(m, level, f, mask) && Idx(level, v) != mask
    requires WalkTo(m, level, f, target, v).Ok?
    ensures var g := WalkTo(m, level, f, target, v).value;
            if level == target then g == f
            else g in NodeFrames(level, View(m, level, f, mask)[Idx(level, v)])
    decreases level
  {
    hide Tree, Frames, NodeFrames, SoundTable, Unique, Idx, WF, View, TableAt;
    var i := Idx(level, v);
    if level > target {
      ChildWF(m, level, f, mask, i);
      var h := TableAt(m, f)[i].addr;
      WalkStaysInside(m, level - 1, h, -1, target, v);
      if level - 1 > target {
        FramesInclude(level - 1, View(m, level - 1, h, -1), Idx(level - 1, v), 512);
      }
    }
  }

  /** Why a walk fails: the page is not mapped, or by a larger leaf. */
  lemma {:induction false} WalkFailure(m: Memory, level: Level, f: Frame, mask: int, target: Level, v: nat)
    requires target <= level && Idx(level, v) != mask
    requires WalkTo(m, level, f, target, v).Err?
    ensures var leaf := Leaf(level, View(m, level, f, mask), v);
            match WalkTo(m, level, f, target, v).error
            case NotMapped => leaf == None
            case MappedToHugePage => leaf.Some? && leaf.value.level > target
    decreases level
  {
    hide Tree, Idx, View, TableAt;
    var e := TableAt(m, f)[Idx(level, v)];
    ViewEntry(m, level, f, mask, Idx(level, v));
    NodeAtIsView(m, level, e);
    LeafAt(level, View(m, level, f, mask), v);
    if level > target && Links(level, e) { WalkFailure(m, level - 1, e.addr, -1, target, v); }
  }

  /** Rewriting one entry on the path of `v` in memory replaces that node of the tree, whatever is
      written. */
  lemma {:induction false} WriteIsPlace(m: Memory, level: Level, f: Frame, mask: int, target: Level, v: nat, e: Entry)
    requires target <= level && WF(m, level, f, mask) && Idx(level, v) != mask
    requires WalkTo(m, level, f, target, v).Ok?
    ensures var m' := Write(m, WalkTo(m, level, f, target, v).value, Idx(target, v), e);
            var kids := View(m, level, f, mask);
            && At(level, kids, target, v).Some?
            && View(m', level, f, mask) == Place(level, kids, target, v, NodeAt(m', target, e))
    decreases level
  {
    hide Tree, NodeAt, Frames, NodeFrames, SoundTable, Unique, Idx, WF, View, TableAt, Write;
    var i := Idx(level, v);
    if level == target {
      WriteReads(m, f, i, e);
      ViewAfter(m, Write(m, f, i, e), level, f, mask, i, e, []);
    } else {
      var h := TableAt(m, f)[i].addr;
      ChildWF(m, level, f, mask, i);
      WriteIsPlace(m, level - 1, h, -1, target, v, e);
      WriteStep(m, level, f, mask, target, v, e);
    }
  }

  lemma WriteReads(m: Memory, f: Frame, i: nat, e: Entry)
    requires i < 512
    ensures TableAt(Write(m, f, i, e), f) == TableAt(m, f)[i := e]
    ensures forall g :: g != f ==> TableAt(Write(m, f, i, e), g) == TableAt(m, g)
  {
  }

  lemma WriteStep(m: Memory, level: Level, f: Frame, mask: int, target: Level, v: nat, e: Entry)
    requires target < level && WF(m, level, f, mask) && Idx(level, v) != mask
    requires WalkTo(m, level, f, target, v).Ok?
    requires var h := TableAt(m, f)[Idx(level, v)].addr;
             var m' := Write(m, WalkTo(m, level, f, target, v).value, Idx(target, v), e);
             && At(level - 1, View(m, level - 1, h, -1), target, v).Some?
             && View(m', level - 1, h, -1) == Place(level - 1, View(m, level - 1, h, -1), target, v, NodeAt(m', target, e))
    ensures var m' := Write(m, WalkTo(m, level, f, target, v).value, Idx(target, v), e);
            var kids := View(m, level, f, mask);
            && At(level, kids, target, v).Some?
            && View(m', level, f, mask) == Place(level, kids, target, v, NodeAt(m', target, e))
  {
    var i := Idx(level, v);
    var g := WalkTo(m, level, f, target, v).value;
    ViewEntry(m, level, f, mask, i);
    hide Tree, Frames, NodeFrames, SoundTable, Unique, Idx, WF, View;
    ChildWF(m, level, f, mask, i);
    WalkStaysInside(m, level, f, mask, target, v);
    hide WalkTo;
    WriteBelow(m, level, f, mask, i, g, Idx(target, v), e);
  }

  /** An entry rewritten so that it either keeps its link or is none. */
  predicate KeepsLink(level: Level, e: Entry, e': Entry) {
    Links(level, e') ==> Links(level, e) && e'.addr == e.addr
  }

  /** A rewritten link that still leads to its table has the same hierarchy below it. */
  lemma {:induction false} KeepsKids(m: Memory, level: Level, f: Frame, mask: int, target: Level, v: nat, e: Entry)
    requires target <= level && WF(m, level, f, mask) && Idx(level, v) != mask
    requires WalkTo(m, level, f, target, v).Ok?
    requires KeepsLink(target, TableAt(m, WalkTo(m, level, f, target, v).value)[Idx(target, v)], e)
    ensures var m' := Write(m, WalkTo(m, level, f, target, v).value, Idx(target, v), e);
            var at := At(level, View(m, level, f, mask), target, v);
            && at.Some? && NodeAt(m', target, e) == Node(e, if Links(target, e) then at.value.kids else [])
    decreases level
  {
    hide Tree, Frames, NodeFrames, SoundTable, Unique, Idx, WF, View, TableAt, Write;
    var i := Idx(level, v);
    ViewEntry(m, level, f, mask, i);
    if level == target {
      if Links(level, e) {
        ChildWF(m, level, f, mask, i);
        WriteReads(m, f, i, e);
        NodeFrame(m, Write(m, f, i, e), level, TableAt(m, f)[i]);
      }
    } else {
      ChildWF(m, level, f, mask, i);
      KeepsKids(m, level - 1, TableAt(m, f)[i].addr, -1, target, v, e);
    }
  }

  /** A write below entry `i` shows in the tree at that entry only. */
  lemma WriteBelow(m: Memory, level: Level, f: Frame, mask: int, i: nat, g: Frame, k: nat, e: Entry)
    requires WF(m, level, f, mask) && i < 512 && k < 512 && i != mask && Links(level, TableAt(m, f)[i])
    requires g in NodeFrames(level, View(m, level, f, mask)[i])
    ensures var h, m' := TableAt(m, f)[i].addr, Write(m, g, k, e);
            && View(m', level, f, mask)
               == View(m, level, f, mask)[i := Node(TableAt(m, f)[i], View(m', level - 1, h, -1))]
            && TableAt(m', f) == TableAt(m, f)
  {
    ChildWF(m, level, f, mask, i);
    ViewAfter(m, Write(m, g, k, e), level, f, mask, i, TableAt(m, f)[i], []);
  }
}
