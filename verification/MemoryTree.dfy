/** The tree a table in memory stands for. */
module MemoryTree {
  import opened Levels
  import opened PageTable
  import opened PageTree

  function NodeAt(m: Memory, level: Level, e: Entry): Node
    decreases level, 0
  {
    Node(e, if Links(level, e) then Tree(m, level - 1, TableAt(m, e.addr)) else [])
  }

  function Tree(m: Memory, level: Level, t: Table): (kids: seq<Node>)
    ensures |kids| == 512
    decreases level, 1
  {
    seq(512, i requires 0 <= i < 512 => NodeAt(m, level, t[i]))
  }

  /** The table without its recursive entry; `mask` outside 0..512 masks nothing. */
  function Masked(t: Table, mask: int): Table {
    if 0 <= mask < 512 then t[mask := UNUSED] else t
  }

  /** The hierarchy below the table in frame `f`. */
  function View(m: Memory, level: Level, f: Frame, mask: int): (kids: seq<Node>)
    ensures |kids| == 512
  {
    Tree(m, level, Masked(TableAt(m, f), mask))
  }

  lemma ViewEntry(m: Memory, level: Level, f: Frame, mask: int, i: nat)
    requires i < 512 && i != mask
    ensures View(m, level, f, mask)[i] == NodeAt(m, level, TableAt(m, f)[i])
  {
  }

  lemma NodeAtIsView(m: Memory, level: Level, e: Entry)
    ensures Links(level, e) ==> NodeAt(m, level, e) == Node(e, View(m, level - 1, e.addr, -1))
    ensures NodeAt(m, level, UNUSED) == UNUSED_NODE
  {
  }

  /** The hierarchy is a tree of tables, each in a frame of its own. */
  ghost predicate WF(m: Memory, level: Level, f: Frame, mask: int) {
    Unique(multiset{f} + AllFrames(level, View(m, level, f, mask)))
  }

  /** Its used entries are links and leaves: what calls leave behind that link tables present. */
  ghost predicate Sound(m: Memory, level: Level, f: Frame, mask: int) {
    SoundTable(level, View(m, level, f, mask))
  }

  /** The processor reaches every leaf of the hierarchy. */
  ghost predicate Proper(m: Memory, level: Level, f: Frame, mask: int) {
    ProperTable(level, View(m, level, f, mask))
  }

  ghost predicate SameOn(m: Memory, m': Memory, s: multiset<Frame>) {
    forall g :: g in s ==> TableAt(m', g) == TableAt(m, g)
  }

  /** A tree depends on the frames of its tables only. */
  lemma {:induction false} TreeFrame(m: Memory, m': Memory, level: Level, t: Table)
    requires SameOn(m, m', AllFrames(level, Tree(m, level, t)))
    ensures Tree(m', level, t) == Tree(m, level, t)
    decreases level, 1
  {
    var kids := Tree(m, level, t);
    forall i | 0 <= i < 512
      ensures NodeAt(m', level, t[i]) == NodeAt(m, level, t[i])
    {
      FramesInclude(level, kids, i, 512);
      assert kids[i] == NodeAt(m, level, t[i]);
      NodeFrame(m, m', level, t[i]);
    }
  }

  lemma {:induction false} NodeFrame(m: Memory, m': Memory, level: Level, e: Entry)
    requires SameOn(m, m', NodeFrames(level, NodeAt(m, level, e)))
    ensures NodeAt(m', level, e) == NodeAt(m, level, e)
    decreases level, 0
  {
    if Links(level, e) {
      var t := TableAt(m, e.addr);
      assert e.addr in NodeFrames(level, NodeAt(m, level, e));
      TreeFrame(m, m', level - 1, t);
    }
  }

  /** An unmasked link of a tree of tables leads to a tree of tables that does not
      contain the table it came from. */
  lemma ChildWF(m: Memory, level: Level, f: Frame, mask: int, i: nat)
    requires WF(m, level, f, mask) && i < 512 && i != mask
    requires Links(level, TableAt(m, f)[i])
    ensures var g, kids := TableAt(m, f)[i].addr, View(m, level, f, mask);
            && kids[i].kids == View(m, level - 1, g, -1)
            && WF(m, level - 1, g, -1)
            && NodeFrames(level, kids[i]) == multiset{g} + AllFrames(level - 1, kids[i].kids)
            && NodeFrames(level, kids[i]) <= AllFrames(level, kids)
            && f !in NodeFrames(level, kids[i])
  {
    var kids := View(m, level, f, mask);
    assert kids[i] == NodeAt(m, level, TableAt(m, f)[i]);
    FramesInclude(level, kids, i, 512);
    assert (multiset{f} + AllFrames(level, kids))[f] <= 1;
    forall g ensures NodeFrames(level, kids[i])[g] <= 1 {
      assert (multiset{f} + AllFrames(level, kids))[g] <= 1;
    }
  }

  /** The effect on the tree of rewriting entry `i` of its root table, when memory elsewhere
      changed only in the frames below that entry and in frames new to the tree. */
  lemma ViewAfter(m: Memory, m': Memory, level: Level, f: Frame, mask: int, i: nat, e: Entry, used: seq<Frame>)
    requires WF(m, level, f, mask) && i < 512 && i != mask
    requires TableAt(m', f) == TableAt(m, f)[i := e]
    requires forall g :: g != f && g !in NodeFrames(level, View(m, level, f, mask)[i]) && g !in used
                     ==> TableAt(m', g) == TableAt(m, g)
    requires forall g :: g in used ==> g !in AllFrames(level, View(m, level, f, mask))
    ensures View(m', level, f, mask) == View(m, level, f, mask)[i := NodeAt(m', level, e)]
  {
    var kids := View(m, level, f, mask);
    var t, t' := Masked(TableAt(m, f), mask), Masked(TableAt(m', f), mask);
    forall j | 0 <= j < 512 && j != i
      ensures NodeAt(m', level, t'[j]) == kids[j]
    {
      FramesInclude(level, kids, j, 512);
      assert (multiset{f} + AllFrames(level, kids))[f] <= 1;
      UniquePart(multiset{f}, AllFrames(level, kids));
      forall g | g in NodeFrames(level, kids[j])
        ensures TableAt(m', g) == TableAt(m, g)
      {
        SiblingsDisjoint(level, kids, i, j, g);
      }
      NodeFrame(m, m', level, t[j]);
    }
  }

  lemma UniquePart(a: multiset<Frame>, b: multiset<Frame>)
    requires Unique(a + b)
    ensures Unique(a) && Unique(b)
  {
    forall f ensures a[f] <= 1 && b[f] <= 1 {
      assert (a + b)[f] <= 1;
    }
  }
}
