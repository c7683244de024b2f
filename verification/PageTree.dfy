/** The page-table hierarchy as a tree: the reference against which the mappers are proved. */
module PageTree {
  import opened Wrappers
  import opened Levels
  import opened PageTable

  /** An entry together with the table it links to; no kids when it links to none. */
  datatype Node = Node(entry: Entry, kids: seq<Node>)

  const UNUSED_NODE: Node := Node(UNUSED, [])

  function NoKids(): seq<Node> {
    seq(512, _ => UNUSED_NODE)
  }

  /** An entry of a level-`level` table that links to a table of the next level. */
  predicate Links(level: Level, e: Entry) {
    level > 1 && e.IsTable()
  }

  /** A frame address that can back a leaf of this level: 4KiB, 2MiB or 1GiB aligned. */
  predicate LeafAligned(level: Level, addr: nat) {
    if level == 1 then addr % 0x1000 == 0
    else if level == 2 then addr % 0x20_0000 == 0
    else addr % 0x4000_0000 == 0
  }

  /** An entry that maps memory: a used one in a level-1 table, a huge one above. */
  predicate IsLeafEntry(level: Level, e: Entry) {
    if level == 1 then !e.IsUnused() else e.Huge()
  }

  /** A leaf as the processor wants it: present, its frame aligned to its size, none at level 4. */
  predicate IsProperLeaf(level: Level, e: Entry) {
    level <= 3 && IsLeafEntry(level, e) && e.Present() && LeafAligned(level, e.addr)
  }

  /** Every used entry above level 1 is a link or, below level 4, a huge leaf. */
  ghost predicate SoundNode(level: Level, n: Node)
    decreases level, 0
  {
    if Links(level, n.entry) then SoundTable(level - 1, n.kids)
    else n.kids == [] && (n.entry.IsUnused() || (level <= 3 && IsLeafEntry(level, n.entry)))
  }

  ghost predicate SoundTable(level: Level, kids: seq<Node>)
    decreases level, 1
  {
    |kids| == 512 && forall i :: 0 <= i < 512 ==> SoundNode(level, kids[i])
  }

  /** Every leaf of the hierarchy is one for the processor as well. */
  ghost predicate ProperNode(level: Level, n: Node)
    decreases level, 0
  {
    if Links(level, n.entry) then ProperTable(level - 1, n.kids)
    else n.entry.IsUnused() || IsProperLeaf(level, n.entry)
  }

  ghost predicate ProperTable(level: Level, kids: seq<Node>)
    decreases level, 1
  {
    forall i :: 0 <= i < |kids| ==> ProperNode(level, kids[i])
  }

  lemma TableSize(level: Level, kids: seq<Node>)
    requires SoundTable(level, kids)
    ensures |kids| == 512
  {
  }

  /** The entries of a sound table. */
  lemma NodeOf(level: Level, kids: seq<Node>, i: nat)
    requires SoundTable(level, kids) && i < 512
    ensures |kids| == 512 && SoundNode(level, kids[i])
  {
  }

  /** The frames of all tables strictly below this entry, each as often as it is linked. */
  ghost function NodeFrames(level: Level, n: Node): multiset<Frame>
    decreases level, 0
  {
    if Links(level, n.entry)
    then multiset{n.entry.addr} + Frames(level - 1, n.kids, |n.kids|)
    else multiset{}
  }

  ghost function Frames(level: Level, kids: seq<Node>, upto: nat): multiset<Frame>
    requires upto <= |kids|
    decreases level, upto
  {
    if upto == 0 then multiset{}
    else Frames(level, kids, upto - 1) + NodeFrames(level, kids[upto - 1])
  }

  ghost function AllFrames(level: Level, kids: seq<Node>): multiset<Frame> {
    Frames(level, kids, |kids|)
  }

  ghost predicate Unique(s: multiset<Frame>) {
    forall f :: s[f] <= 1
  }

  /** A leaf and the level of the table that holds it. */
  datatype Mapping = Mapping(level: Level, entry: Entry)

  /** What an entry that is no link maps. */
  function LeafOf(level: Level, e: Entry): Option<Mapping> {
    if IsLeafEntry(level, e) then Some(Mapping(level, e)) else None
  }

  /** The leaf that maps page `v`, if any. */
  function Leaf(level: Level, kids: seq<Node>, v: nat): Option<Mapping>
    decreases level
  {
    var i := Idx(level, v);
    if i >= |kids| then None
    else
      var n := kids[i];
      if Links(level, n.entry) then Leaf(level - 1, n.kids, v) else LeafOf(level, n.entry)
  }

  lemma LeafAt(level: Level, kids: seq<Node>, w: nat)
    requires Idx(level, w) < |kids|
    ensures Leaf(level, kids, w) ==
            var n := kids[Idx(level, w)];
            if Links(level, n.entry) then Leaf(level - 1, n.kids, w) else LeafOf(level, n.entry)
  {
  }

  // ---------------------------------------------------------------- frames

  lemma {:induction false} FramesOfPrefix(level: Level, a: seq<Node>, b: seq<Node>, n: nat)
    requires n <= |a| && n <= |b| && forall j :: 0 <= j < n ==> a[j] == b[j]
    ensures Frames(level, a, n) == Frames(level, b, n)
    decreases n
  {
    if n > 0 {
      FramesOfPrefix(level, a, b, n - 1);
    }
  }

  /** Replacing one entry exchanges its frames. */
  lemma {:induction false} FramesOfUpdate(level: Level, kids: seq<Node>, i: nat, x: Node, n: nat)
    requires i < n <= |kids|
    ensures Frames(level, kids[i := x], n) + NodeFrames(level, kids[i])
         == Frames(level, kids, n) + NodeFrames(level, x)
    decreases n
  {
    var kids' := kids[i := x];
    if n == i + 1 {
      FramesOfPrefix(level, kids, kids', i);
      assert Frames(level, kids', n) == Frames(level, kids, i) + NodeFrames(level, x);
      assert Frames(level, kids, n) == Frames(level, kids, i) + NodeFrames(level, kids[i]);
    } else {
      FramesOfUpdate(level, kids, i, x, n - 1);
      var last := NodeFrames(level, kids[n - 1]);
      assert Frames(level, kids', n) == Frames(level, kids', n - 1) + last;
      assert Frames(level, kids, n) == Frames(level, kids, n - 1) + last;
      Exchange(Frames(level, kids', n - 1), Frames(level, kids, n - 1),
               NodeFrames(level, kids[i]), NodeFrames(level, x), last);
    }
  }

  lemma Exchange(a: multiset<Frame>, b: multiset<Frame>, x: multiset<Frame>, y: multiset<Frame>, c: multiset<Frame>)
    requires a + x == b + y
    ensures a + c + x == b + c + y
  {
    assert a + c + x == (a + x) + c;
    assert b + c + y == (b + y) + c;
  }

  lemma {:induction false} FramesInclude(level: Level, kids: seq<Node>, i: nat, n: nat)
    requires i < n <= |kids|
    ensures NodeFrames(level, kids[i]) <= Frames(level, kids, n)
    decreases n
  {
    if n > i + 1 {
      FramesInclude(level, kids, i, n - 1);
    }
  }

  /** Two different entries contribute their frames separately. */
  lemma {:induction false} FramesIncludeBoth(level: Level, kids: seq<Node>, i: nat, j: nat, n: nat)
    requires i < j < n <= |kids|
    ensures NodeFrames(level, kids[i]) + NodeFrames(level, kids[j]) <= Frames(level, kids, n)
    decreases n
  {
    hide NodeFrames;
    if n == j + 1 {
      FramesInclude(level, kids, i, j);
    } else {
      FramesIncludeBoth(level, kids, i, j, n - 1);
    }
  }

  lemma SiblingsDisjoint(level: Level, kids: seq<Node>, i: nat, j: nat, f: Frame)
    requires i < |kids| && j < |kids| && i != j && Unique(AllFrames(level, kids))
    ensures f in NodeFrames(level, kids[i]) ==> f !in NodeFrames(level, kids[j])
  {
    if i < j {
      FramesIncludeBoth(level, kids, i, j, |kids|);
    } else {
      FramesIncludeBoth(level, kids, j, i, |kids|);
    }
    var s := NodeFrames(level, kids[i]) + NodeFrames(level, kids[j]);
    assert s[f] <= AllFrames(level, kids)[f];
  }

  lemma {:induction false} NoFramesWithoutLinks(level: Level, kids: seq<Node>, n: nat)
    requires n <= |kids| && forall j :: 0 <= j < n ==> !Links(level, kids[j].entry)
    ensures Frames(level, kids, n) == multiset{}
    decreases n
  {
    if n > 0 {
      NoFramesWithoutLinks(level, kids, n - 1);
    }
  }

  lemma EmptyTableTree(level: Level)
    ensures SoundTable(level, NoKids())
    ensures AllFrames(level, NoKids()) == multiset{}
    ensures forall v: nat :: Leaf(level, NoKids(), v) == None
  {
    NoFramesWithoutLinks(level, NoKids(), 512);
  }
}
