/** `clean_up_addr_range` on the tree: remove the empty tables whose span meets a range of pages.

A table counts as empty once its own empty tables are gone.
 */
module Prune {
  import opened Wrappers
  import opened Levels
  import opened PageTable
  import opened PageTree

  predicate AllUnused(kids: seq<Node>) {
    forall i :: 0 <= i < |kids| ==> kids[i].entry.IsUnused()
  }

  /** The node whose span starts at page `b`, after the clean-up of pages `lo..=hi`. */
  function PruneNode(level: Level, b: nat, n: Node, lo: nat, hi: nat): Node
    decreases level, 0
  {
    if Links(level, n.entry) && Meets(b, Width(level), lo, hi) then
      var kids := PruneTable(level - 1, b, n.kids, lo, hi);
      if AllUnused(kids) then UNUSED_NODE else Node(n.entry, kids)
    else n
  }

  function PruneTable(level: Level, base: nat, kids: seq<Node>, lo: nat, hi: nat): (r: seq<Node>)
    ensures |r| == |kids|
    decreases level, 1
  {
    seq(|kids|, i requires 0 <= i < |kids| => PruneNode(level, base + Offset(level, i), kids[i], lo, hi))
  }

  /** The frames given back, in order. */
  function NodeLog(level: Level, b: nat, n: Node, lo: nat, hi: nat): seq<Frame>
    decreases level, 0
  {
    if Links(level, n.entry) && Meets(b, Width(level), lo, hi) then
      var log := PruneLog(level - 1, b, n.kids, lo, hi, |n.kids|);
      if AllUnused(PruneTable(level - 1, b, n.kids, lo, hi)) then log + [n.entry.addr] else log
    else []
  }

  function PruneLog(level: Level, base: nat, kids: seq<Node>, lo: nat, hi: nat, upto: nat): seq<Frame>
    requires upto <= |kids|
    decreases level, upto
  {
    if upto == 0 then []
    else PruneLog(level, base, kids, lo, hi, upto - 1)
         + NodeLog(level, base + Offset(level, upto - 1), kids[upto - 1], lo, hi)
  }

  // ---------------------------------------------------------------- mappings

  /** Clean-up changes no translation. */
  lemma {:induction false} PruneKeepsLeaves(level: Level, base: nat, kids: seq<Node>, lo: nat, hi: nat, v: nat)
    ensures Leaf(level, PruneTable(level, base, kids, lo, hi), v) == Leaf(level, kids, v)
    decreases level
  {
    hide Idx, Width;
    var i := Idx(level, v);
    var kids' := PruneTable(level, base, kids, lo, hi);
    if i < |kids| {
      var b := base + Offset(level, i);
      assert kids'[i] == PruneNode(level, b, kids[i], lo, hi);
      LeafAt(level, kids, v);
      LeafAt(level, kids', v);
      if Links(level, kids[i].entry) {
        PruneKeepsLeaves(level - 1, b, kids[i].kids, lo, hi, v);
        var below := PruneTable(level - 1, b, kids[i].kids, lo, hi);
        if AllUnused(below) { NoLeafInUnused(level - 1, below, v); }
      }
    }
  }

  lemma NoLeafInUnused(level: Level, kids: seq<Node>, v: nat)
    requires AllUnused(kids)
    ensures Leaf(level, kids, v) == None
  {
  }

  lemma {:induction false} PruneKeepsSound(level: Level, base: nat, kids: seq<Node>, lo: nat, hi: nat)
    requires SoundTable(level, kids)
    ensures SoundTable(level, PruneTable(level, base, kids, lo, hi))
    decreases level
  {
    hide Width;
    forall i | 0 <= i < 512
      ensures SoundNode(level, PruneNode(level, base + Offset(level, i), kids[i], lo, hi))
    {
      assert SoundNode(level, kids[i]);
      if Links(level, kids[i].entry) {
        PruneKeepsSound(level - 1, base + Offset(level, i), kids[i].kids, lo, hi);
      }
    }
  }

  lemma {:induction false} PruneKeepsProper(level: Level, base: nat, kids: seq<Node>, lo: nat, hi: nat)
    requires ProperTable(level, kids)
    ensures ProperTable(level, PruneTable(level, base, kids, lo, hi))
    decreases level
  {
    hide Width;
    forall i | 0 <= i < |kids|
      ensures ProperNode(level, PruneNode(level, base + Offset(level, i), kids[i], lo, hi))
    {
      assert ProperNode(level, kids[i]);
      if Links(level, kids[i].entry) {
        PruneKeepsProper(level - 1, base + Offset(level, i), kids[i].kids, lo, hi);
      }
    }
  }

  // ---------------------------------------------------------------- frames

  /** The table frames before are the table frames after and the frames given back. */
  lemma {:induction false} PruneConserves(level: Level, base: nat, kids: seq<Node>, lo: nat, hi: nat, n: nat)
    requires n <= |kids|
    ensures Frames(level, PruneTable(level, base, kids, lo, hi), n) + multiset(PruneLog(level, base, kids, lo, hi, n))
         == Frames(level, kids, n)
    decreases level, n
  {
    hide Width, Meets, PruneNode, NodeLog, PruneTable, NodeFrames, Offset;
    if n == 0 {
      assert PruneLog(level, base, kids, lo, hi, 0) == [];
    } else {
      PruneConserves(level, base, kids, lo, hi, n - 1);
      NodeConserves(level, base + Offset(level, n - 1), kids[n - 1], lo, hi);
      ConservesStep(level, base, kids, lo, hi, n);
    }
  }

  lemma ConservesStep(level: Level, base: nat, kids: seq<Node>, lo: nat, hi: nat, n: nat)
    requires 0 < n <= |kids|
    requires Frames(level, PruneTable(level, base, kids, lo, hi), n - 1) + multiset(PruneLog(level, base, kids, lo, hi, n - 1))
          == Frames(level, kids, n - 1)
    requires var b, x := base + Offset(level, n - 1), kids[n - 1];
             NodeFrames(level, PruneNode(level, b, x, lo, hi)) + multiset(NodeLog(level, b, x, lo, hi)) == NodeFrames(level, x)
    ensures Frames(level, PruneTable(level, base, kids, lo, hi), n) + multiset(PruneLog(level, base, kids, lo, hi, n))
         == Frames(level, kids, n)
  {
    var b := base + Offset(level, n - 1);
    var kids' := PruneTable(level, base, kids, lo, hi);
    assert kids'[n - 1] == PruneNode(level, b, kids[n - 1], lo, hi);
    hide PruneTable, PruneNode, NodeLog, NodeFrames, Offset;
    SumOfLogs(Frames(level, kids', n - 1), NodeFrames(level, kids'[n - 1]),
              PruneLog(level, base, kids, lo, hi, n - 1), NodeLog(level, b, kids[n - 1], lo, hi));
  }

  lemma SumOfLogs(a: multiset<Frame>, b: multiset<Frame>, log: seq<Frame>, last: seq<Frame>)
    ensures (a + multiset(log)) + (b + multiset(last)) == (a + b) + multiset(log + last)
  {
    assert multiset(log + last) == multiset(log) + multiset(last);
  }

  lemma {:induction false} NodeConserves(level: Level, b: nat, n: Node, lo: nat, hi: nat)
    ensures NodeFrames(level, PruneNode(level, b, n, lo, hi)) + multiset(NodeLog(level, b, n, lo, hi))
         == NodeFrames(level, n)
    decreases level, 0
  {
    hide Width, Meets, PruneTable, PruneLog;
    if Links(level, n.entry) {
      PruneConserves(level - 1, b, n.kids, lo, hi, |n.kids|);
      var kids := PruneTable(level - 1, b, n.kids, lo, hi);
      var log := PruneLog(level - 1, b, n.kids, lo, hi, |n.kids|);
      assert multiset(log + [n.entry.addr]) == multiset(log) + multiset{n.entry.addr};
      if AllUnused(kids) { NoFramesInUnused(level - 1, kids); }
    }
  }

  lemma NoFramesInUnused(level: Level, kids: seq<Node>)
    requires AllUnused(kids)
    ensures AllFrames(level, kids) == multiset{}
  {
    NoFramesWithoutLinks(level, kids, |kids|);
  }

  /** A table is given back last of its subtree: all tables below it come before it. */
  lemma FreedBottomUp(level: Level, b: nat, n: Node, lo: nat, hi: nat)
    requires Links(level, n.entry) && PruneNode(level, b, n, lo, hi) == UNUSED_NODE
    ensures var log := NodeLog(level, b, n, lo, hi);
            && |log| > 0 && log[|log| - 1] == n.entry.addr
            && multiset(log[..|log| - 1]) == AllFrames(level - 1, n.kids)
  {
    var kids := PruneTable(level - 1, b, n.kids, lo, hi);
    PruneConserves(level - 1, b, n.kids, lo, hi, |n.kids|);
    NoFramesInUnused(level - 1, kids);
    var log := NodeLog(level, b, n, lo, hi);
    assert log[..|log| - 1] == PruneLog(level - 1, b, n.kids, lo, hi, |n.kids|);
  }

  /** Frame `h` comes before frame `g`. */
  ghost predicate Before(log: seq<Frame>, h: Frame, g: Frame) {
    exists a, b :: 0 <= a < b < |log| && log[a] == h && log[b] == g
  }

  /** The table in frame `h` is somewhere below the table in frame `g`. */
  ghost predicate IsBelow(level: Level, kids: seq<Node>, h: Frame, g: Frame)
    decreases level
  {
    exists i :: 0 <= i < |kids| && Links(level, kids[i].entry) && BelowEntry(level, kids[i], h, g)
  }

  ghost predicate BelowEntry(level: Level, n: Node, h: Frame, g: Frame)
    requires Links(level, n.entry)
    decreases level, 0
  {
    || (n.entry.addr == g && h in AllFrames(level - 1, n.kids))
    || IsBelow(level - 1, n.kids, h, g)
  }

  lemma {:induction false} UpperIsFrame(level: Level, kids: seq<Node>, h: Frame, g: Frame)
    requires IsBelow(level, kids, h, g)
    ensures g in AllFrames(level, kids)
    decreases level
  {
    hide Frames;
    var i :| 0 <= i < |kids| && Links(level, kids[i].entry) && BelowEntry(level, kids[i], h, g);
    FramesInclude(level, kids, i, |kids|);
    if kids[i].entry.addr != g { UpperIsFrame(level - 1, kids[i].kids, h, g); }
    assert g in NodeFrames(level, kids[i]);
  }

  /** A frame given back comes from the entry it is below. */
  lemma {:induction false} LoggedBelowEntry(level: Level, base: nat, kids: seq<Node>, lo: nat, hi: nat, n: nat, i: nat, g: Frame)
    requires n <= |kids| && i < |kids| && Unique(AllFrames(level, kids))
    requires g in NodeFrames(level, kids[i]) && g in PruneLog(level, base, kids, lo, hi, n)
    ensures i < n && g in NodeLog(level, base + Offset(level, i), kids[i], lo, hi)
    decreases n
  {
    hide Frames, NodeFrames, NodeLog, PruneNode, Unique, Offset;
    if g in PruneLog(level, base, kids, lo, hi, n - 1) {
      LoggedBelowEntry(level, base, kids, lo, hi, n - 1, i, g);
    } else {
      NodeConserves(level, base + Offset(level, n - 1), kids[n - 1], lo, hi);
      assert g in multiset(NodeLog(level, base + Offset(level, n - 1), kids[n - 1], lo, hi));
      assert g in NodeFrames(level, kids[n - 1]);
      if i != n - 1 { SiblingsDisjoint(level, kids, i, n - 1, g); }
    }
  }

  /** The order within one entry is the order in the whole log. */
  lemma {:induction false} BeforeInWhole(level: Level, base: nat, kids: seq<Node>, lo: nat, hi: nat, n: nat, i: nat,
                                         h: Frame, g: Frame)
    requires i < n <= |kids| && Before(NodeLog(level, base + Offset(level, i), kids[i], lo, hi), h, g)
    ensures Before(PruneLog(level, base, kids, lo, hi, n), h, g)
    decreases n
  {
    hide NodeLog, Offset;
    var first := PruneLog(level, base, kids, lo, hi, n - 1);
    var last := NodeLog(level, base + Offset(level, n - 1), kids[n - 1], lo, hi);
    if i == n - 1 {
      BeforeInSum(first, last, h, g);
    } else {
      BeforeInWhole(level, base, kids, lo, hi, n - 1, i, h, g);
      BeforeInSum(first, last, h, g);
    }
  }

  lemma BeforeInSum(x: seq<Frame>, y: seq<Frame>, h: Frame, g: Frame)
    requires Before(x, h, g) || Before(y, h, g)
    ensures Before(x + y, h, g)
  {
    if Before(x, h, g) {
      var a, b :| 0 <= a < b < |x| && x[a] == h && x[b] == g;
      assert (x + y)[a] == h && (x + y)[b] == g;
    } else {
      var a, b :| 0 <= a < b < |y| && y[a] == h && y[b] == g;
      assert (x + y)[|x| + a] == h && (x + y)[|x| + b] == g;
    }
  }

  /** Children before parents: a table given back comes after every table below it. */
  lemma {:induction false} ChildrenFirst(level: Level, base: nat, kids: seq<Node>, lo: nat, hi: nat, h: Frame, g: Frame)
    requires Unique(AllFrames(level, kids)) && IsBelow(level, kids, h, g)
    requires g in PruneLog(level, base, kids, lo, hi, |kids|)
    ensures Before(PruneLog(level, base, kids, lo, hi, |kids|), h, g)
    decreases level, 1
  {
    hide Frames, PruneLog, NodeLog, Unique, Offset, BelowEntry;
    var i :| 0 <= i < |kids| && Links(level, kids[i].entry) && BelowEntry(level, kids[i], h, g);
    UpperInEntry(level, kids[i], h, g);
    LoggedBelowEntry(level, base, kids, lo, hi, |kids|, i, g);
    PartIsUnique(level, kids, i);
    EntryChildrenFirst(level, base + Offset(level, i), kids[i], lo, hi, h, g);
    BeforeInWhole(level, base, kids, lo, hi, |kids|, i, h, g);
  }

  lemma UpperInEntry(level: Level, n: Node, h: Frame, g: Frame)
    requires Links(level, n.entry) && BelowEntry(level, n, h, g)
    ensures g in NodeFrames(level, n)
  {
    hide Frames, IsBelow;
    if n.entry.addr != g { UpperIsFrame(level - 1, n.kids, h, g); }
  }

  lemma PartIsUnique(level: Level, kids: seq<Node>, i: nat)
    requires Unique(AllFrames(level, kids)) && i < |kids|
    ensures Unique(NodeFrames(level, kids[i]))
  {
    FramesInclude(level, kids, i, |kids|);
  }

  lemma {:induction false} EntryChildrenFirst(level: Level, b: nat, n: Node, lo: nat, hi: nat, h: Frame, g: Frame)
    requires Links(level, n.entry) && Unique(NodeFrames(level, n)) && BelowEntry(level, n, h, g)
    requires g in NodeLog(level, b, n, lo, hi)
    ensures Before(NodeLog(level, b, n, lo, hi), h, g)
    decreases level, 0
  {
    hide Frames, PruneLog, PruneTable, IsBelow, Width, Meets;
    var log := PruneLog(level - 1, b, n.kids, lo, hi, |n.kids|);
    PruneConserves(level - 1, b, n.kids, lo, hi, |n.kids|);
    OwnFrame(n.entry.addr, AllFrames(level - 1, n.kids), log);
    if IsBelow(level - 1, n.kids, h, g) {
      UpperIsFrame(level - 1, n.kids, h, g);
      ChildrenFirst(level - 1, b, n.kids, lo, hi, h, g);
      BeforeInSum(log, [n.entry.addr], h, g);
    } else {
      FreedBottomUp(level, b, n, lo, hi);
      LastAfterAll(NodeLog(level, b, n, lo, hi), h, g);
    }
  }

  lemma OwnFrame(f: Frame, below: multiset<Frame>, log: seq<Frame>)
    requires Unique(multiset{f} + below) && multiset(log) <= below
    ensures Unique(below) && f !in below && f !in log
  {
    assert (multiset{f} + below)[f] <= 1;
    assert f !in multiset(log);
    forall g ensures below[g] <= 1 {
      assert (multiset{f} + below)[g] <= 1;
    }
  }

  lemma LastAfterAll(log: seq<Frame>, h: Frame, g: Frame)
    requires |log| > 0 && log[|log| - 1] == g && h in multiset(log[..|log| - 1])
    ensures Before(log, h, g)
  {
    var a :| 0 <= a < |log| - 1 && log[..|log| - 1][a] == h;
    assert log[a] == h;
  }

  // ---------------------------------------------------------------- what is left

  /** No table whose span meets the range is empty. */
  ghost predicate NoEmptyTable(level: Level, base: nat, kids: seq<Node>, lo: nat, hi: nat)
    decreases level, 1
  {
    forall i :: 0 <= i < |kids| ==> NotEmpty(level, base + Offset(level, i), kids[i], lo, hi)
  }

  ghost predicate NotEmpty(level: Level, b: nat, n: Node, lo: nat, hi: nat)
    decreases level, 0
  {
    Links(level, n.entry) && Meets(b, Width(level), lo, hi) ==>
      !AllUnused(n.kids) && NoEmptyTable(level - 1, b, n.kids, lo, hi)
  }

  lemma {:induction false} PruneLeavesNoEmptyTable(level: Level, base: nat, kids: seq<Node>, lo: nat, hi: nat)
    ensures NoEmptyTable(level, base, PruneTable(level, base, kids, lo, hi), lo, hi)
    decreases level
  {
    hide Width, Meets;
    forall i | 0 <= i < |kids|
      ensures NotEmpty(level, base + Offset(level, i), PruneNode(level, base + Offset(level, i), kids[i], lo, hi), lo, hi)
    {
      if Links(level, kids[i].entry) {
        PruneLeavesNoEmptyTable(level - 1, base + Offset(level, i), kids[i].kids, lo, hi);
      }
    }
  }

  /** Where no table is empty, clean-up changes nothing and gives nothing back. */
  lemma {:induction false} NothingToPrune(level: Level, base: nat, kids: seq<Node>, lo: nat, hi: nat, n: nat)
    requires NoEmptyTable(level, base, kids, lo, hi) && n <= |kids|
    ensures PruneTable(level, base, kids, lo, hi) == kids
    ensures PruneLog(level, base, kids, lo, hi, n) == []
    decreases level, n
  {
    hide Width, Meets;
    forall i | 0 <= i < |kids|
      ensures PruneNode(level, base + Offset(level, i), kids[i], lo, hi) == kids[i]
    {
      assert NotEmpty(level, base + Offset(level, i), kids[i], lo, hi);
      if Links(level, kids[i].entry) && Meets(base + Offset(level, i), Width(level), lo, hi) {
        NothingToPrune(level - 1, base + Offset(level, i), kids[i].kids, lo, hi, |kids[i].kids|);
      }
    }
    if n > 0 {
      NothingToPrune(level, base, kids, lo, hi, n - 1);
      var k := kids[n - 1];
      assert NotEmpty(level, base + Offset(level, n - 1), k, lo, hi);
      if Links(level, k.entry) && Meets(base + Offset(level, n - 1), Width(level), lo, hi) {
        NothingToPrune(level - 1, base + Offset(level, n - 1), k.kids, lo, hi, |k.kids|);
      }
    }
  }

  /** A second clean-up of the same range gives nothing back. */
  lemma PruneTwice(level: Level, base: nat, kids: seq<Node>, lo: nat, hi: nat)
    ensures var once := PruneTable(level, base, kids, lo, hi);
            && PruneTable(level, base, once, lo, hi) == once
            && PruneLog(level, base, once, lo, hi, |once|) == []
  {
    PruneLeavesNoEmptyTable(level, base, kids, lo, hi);
    NothingToPrune(level, base, PruneTable(level, base, kids, lo, hi), lo, hi, |kids|);
  }

  /** A table without a mapping, its span inside the range, is emptied. */
  lemma {:induction false} UnmappedIsPruned(level: Level, base: nat, kids: seq<Node>, lo: nat, hi: nat)
    requires SoundTable(level, kids) && base % Width(level + 1) == 0
    requires lo <= base && base + Width(level + 1) - 1 <= hi
    requires forall v :: base <= v < base + Width(level + 1) ==> Leaf(level, kids, v) == None
    ensures AllUnused(PruneTable(level, base, kids, lo, hi))
    decreases level
  {
    forall i | 0 <= i < 512
      ensures PruneNode(level, base + Offset(level, i), kids[i], lo, hi).entry.IsUnused()
    {
      UnmappedEntry(level, base, kids, lo, hi, i);
    }
  }

  lemma {:induction false} UnmappedEntry(level: Level, base: nat, kids: seq<Node>, lo: nat, hi: nat, i: nat)
    requires SoundTable(level, kids) && base % Width(level + 1) == 0 && i < 512
    requires lo <= base && base + Width(level + 1) - 1 <= hi
    requires forall v :: base <= v < base + Width(level + 1) ==> Leaf(level, kids, v) == None
    ensures PruneNode(level, base + Offset(level, i), kids[i], lo, hi).entry.IsUnused()
    decreases level, 0
  {
    hide Width, Offset, Idx, PruneTable;
    var b := base + Offset(level, i);
    assert SoundNode(level, kids[i]);
    EntrySpan(level, base, i, b);
    LeafAt(level, kids, b);
    assert Leaf(level, kids, b) == None;
    if Links(level, kids[i].entry) {
      var next: Level, below := level - 1, kids[i].kids;
      forall v | b <= v < b + Width(level)
        ensures Leaf(next, below, v) == None
      {
        EntrySpan(level, base, i, v);
        LeafAt(level, kids, v);
        assert Leaf(level, kids, v) == None;
      }
      EntrySpan(level, base, i, b + Width(level) - 1);
      UnmappedIsPruned(next, b, below, lo, hi);
    }
  }
}
