/** Which entries a clean-up removes, told without the clean-up. */
module CleanUpEntries {
  import opened Wrappers
  import opened Levels
  import opened PageTable
  import opened PageTree
  import opened MemoryTree
  import opened PathOps
  import opened Prune
  import opened CleanUp
  import opened CleanUpMeaning

  /** The pages `b..b + width` have page `w` in common with `lo..=hi`. */
  predicate InBoth(w: nat, b: nat, width: nat, lo: nat, hi: nat) {
    b <= w < b + width && lo <= w <= hi
  }

  ghost predicate Shares(b: nat, width: nat, lo: nat, hi: nat) {
    exists w :: InBoth(w, b, width, lo, hi)
  }

  /** A table whose used entries all are links to hollow tables over the range. */
  ghost predicate Hollow(level: Level, base: nat, kids: seq<Node>, lo: nat, hi: nat)
    decreases level, 1
  {
    forall i :: 0 <= i < |kids| ==> kids[i].entry.IsUnused() || HollowNode(level, base + Offset(level, i), kids[i], lo, hi)
  }

  /** A link whose span, from page `b` on, has a page of the range, and whose table is hollow. */
  ghost predicate HollowNode(level: Level, b: nat, n: Node, lo: nat, hi: nat)
    decreases level, 0
  {
    && Links(level, n.entry) && Shares(b, Width(level), lo, hi)
    && Hollow(level - 1, b, n.kids, lo, hi)
  }

  lemma MeetsIsShare(b: nat, width: nat, lo: nat, hi: nat)
    requires width > 0
    ensures Meets(b, width, lo, hi) <==> Shares(b, width, lo, hi)
  {
    if Meets(b, width, lo, hi) {
      assert InBoth(if lo <= b then b else lo, b, width, lo, hi);
    }
  }

  /** A table is empty after the clean-up exactly if it was hollow. */
  lemma {:induction false} HollowIsPruned(level: Level, base: nat, kids: seq<Node>, lo: nat, hi: nat)
    ensures Hollow(level, base, kids, lo, hi) <==> AllUnused(PruneTable(level, base, kids, lo, hi))
    decreases level, 1
  {
    hide Width, Offset, PruneNode, HollowNode;
    var kids' := PruneTable(level, base, kids, lo, hi);
    forall i | 0 <= i < |kids|
      ensures kids'[i].entry.IsUnused()
              <==> kids[i].entry.IsUnused() || HollowNode(level, base + Offset(level, i), kids[i], lo, hi)
    {
      HollowNodeIsPruned(level, base + Offset(level, i), kids[i], lo, hi);
    }
  }

  lemma {:induction false} HollowNodeIsPruned(level: Level, b: nat, n: Node, lo: nat, hi: nat)
    ensures PruneNode(level, b, n, lo, hi).entry == if HollowNode(level, b, n, lo, hi) then UNUSED else n.entry
    ensures HollowNode(level, b, n, lo, hi) ==> Links(level, n.entry)
    decreases level, 0
  {
    hide Width, Meets, Shares, PruneTable, Hollow;
    MeetsIsShare(b, Width(level), lo, hi);
    if Links(level, n.entry) { HollowIsPruned(level - 1, b, n.kids, lo, hi); }
  }

  /** The entry of level `t` on the path of page `v` links to a hollow table. */
  ghost predicate Removed(level: Level, kids: seq<Node>, t: Level, v: nat, lo: nat, hi: nat)
    requires t <= level
  {
    var n := At(level, kids, t, v);
    n.Some? && HollowNode(t, SpanStart(t, v), n.value, lo, hi)
  }

  ghost predicate RemovedAbove(level: Level, kids: seq<Node>, t: Level, v: nat, lo: nat, hi: nat) {
    exists u: Level :: t < u <= level && Removed(level, kids, u, v, lo, hi)
  }

  ghost predicate AfterPrune(was: Option<Node>, now: Option<Node>, above: bool, here: bool) {
    if above then now == None
    else if here then now.Some? && now.value.entry == UNUSED
    else (now.Some? <==> was.Some?) && (was.Some? ==> now.value.entry == was.value.entry)
  }

  lemma {:induction false} AtOfPrune(level: Level, kids: seq<Node>, t: Level, v: nat, lo: nat, hi: nat)
    requires t <= level
    ensures AfterPrune(At(level, kids, t, v), At(level, PruneTable(level, SpanStart(level + 1, v), kids, lo, hi), t, v),
                       RemovedAbove(level, kids, t, v, lo, hi), Removed(level, kids, t, v, lo, hi))
    decreases level
  {
    hide Width, Offset, Idx, SpanStart, HollowNode, PruneTable, At, Meets, Shares, Removed, RemovedAbove;
    var i := Idx(level, v);
    var kids' := PruneTable(level, SpanStart(level + 1, v), kids, lo, hi);
    RemovedStep(level, kids, t, v, lo, hi);
    RemovedAboveStep(level, kids, t, v, lo, hi);
    PathStep(level, kids, t, v);
    PathStep(level, kids', t, v);
    if i < |kids| {
      var n, b := kids[i], SpanStart(level, v);
      SpanOfEntry(level, v);
      EntryPruned(level, kids, v, lo, hi);
      HollowNodeIsPruned(level, b, n, lo, hi);
      MeetsIsShare(b, Width(level), lo, hi);
      if t < level && Links(level, n.entry) {
        if Meets(b, Width(level), lo, hi) {
          AtOfPrune(level - 1, n.kids, t, v, lo, hi);
        } else {
          NothingRemoved(level, n.kids, t, v, lo, hi);
        }
      }
    }
  }

  lemma EntryPruned(level: Level, kids: seq<Node>, v: nat, lo: nat, hi: nat)
    requires Idx(level, v) < |kids|
    ensures PruneTable(level, SpanStart(level + 1, v), kids, lo, hi)[Idx(level, v)]
         == PruneNode(level, SpanStart(level, v), kids[Idx(level, v)], lo, hi)
  {
    hide Width, Offset, Idx, SpanStart, PruneNode;
    SpanOfEntry(level, v);
  }

  lemma PathStep(level: Level, kids: seq<Node>, t: Level, v: nat)
    requires t <= level
    ensures At(level, kids, t, v) ==
            if Idx(level, v) >= |kids| then None
            else if level == t then Some(kids[Idx(level, v)])
            else if !Links(level, kids[Idx(level, v)].entry) then None
            else At(level - 1, kids[Idx(level, v)].kids, t, v)
  {
  }

  /** `Removed` one level down. */
  lemma RemovedStep(level: Level, kids: seq<Node>, t: Level, v: nat, lo: nat, hi: nat)
    requires t <= level
    ensures Idx(level, v) >= |kids| ==> !Removed(level, kids, t, v, lo, hi)
    ensures Idx(level, v) < |kids| ==>
              var n := kids[Idx(level, v)];
              if t == level then Removed(level, kids, t, v, lo, hi) <==> HollowNode(level, SpanStart(level, v), n, lo, hi)
              else Removed(level, kids, t, v, lo, hi) <==> Links(level, n.entry) && Removed(level - 1, n.kids, t, v, lo, hi)
  {
    hide Idx, SpanStart, HollowNode, At, Links;
    PathStep(level, kids, t, v);
  }

  lemma RemovedAboveStep(level: Level, kids: seq<Node>, t: Level, v: nat, lo: nat, hi: nat)
    requires t <= level
    ensures t == level || Idx(level, v) >= |kids| ==> !RemovedAbove(level, kids, t, v, lo, hi)
    ensures t < level && Idx(level, v) < |kids| ==>
              var n := kids[Idx(level, v)];
              RemovedAbove(level, kids, t, v, lo, hi)
              <==> HollowNode(level, SpanStart(level, v), n, lo, hi)
                   || (Links(level, n.entry) && RemovedAbove(level - 1, n.kids, t, v, lo, hi))
  {
    hide Idx, SpanStart, HollowNode, Links, Removed;
    if t == level { return; }
    var i, below: Level := Idx(level, v), level - 1;
    forall u: Level | t < u <= level && Removed(level, kids, u, v, lo, hi)
      ensures i < |kids|
      ensures HollowNode(level, SpanStart(level, v), kids[i], lo, hi)
              || (Links(level, kids[i].entry) && RemovedAbove(below, kids[i].kids, t, v, lo, hi))
    {
      RemovedStep(level, kids, u, v, lo, hi);
    }
    RemovedStep(level, kids, level, v, lo, hi);
    if i < |kids| && Links(level, kids[i].entry) {
      forall u: Level | t < u <= below && Removed(below, kids[i].kids, u, v, lo, hi)
        ensures Removed(level, kids, u, v, lo, hi)
      {
        RemovedStep(level, kids, u, v, lo, hi);
      }
    }
  }

  lemma SharesNested(a: nat, narrow: nat, b: nat, wide: nat, lo: nat, hi: nat)
    requires b <= a && a + narrow <= b + wide
    ensures Shares(a, narrow, lo, hi) ==> Shares(b, wide, lo, hi)
  {
    if Shares(a, narrow, lo, hi) {
      var w :| InBoth(w, a, narrow, lo, hi);
      assert InBoth(w, b, wide, lo, hi);
    }
  }

  /** Below a link whose span has no page of the range nothing is removed. */
  lemma NothingRemoved(level: Level, kids: seq<Node>, t: Level, v: nat, lo: nat, hi: nat)
    requires t < level
    requires !Shares(SpanStart(level, v), Width(level), lo, hi)
    ensures !Removed(level - 1, kids, t, v, lo, hi) && !RemovedAbove(level - 1, kids, t, v, lo, hi)
  {
    hide Width, SpanStart, At, Hollow, Shares;
    var below: Level := level - 1;
    forall u: Level | u <= below
      ensures !Removed(below, kids, u, v, lo, hi)
    {
      SpanNested(u, level, v);
      SharesNested(SpanStart(u, v), Width(u), SpanStart(level, v), Width(level), lo, hi);
    }
  }

  /** What a clean-up does to the entry of every level `t` on the path of every page: it clears the
      links to hollow tables, what was below them cannot be reached any more, and every other entry
      is as it was. */
  lemma CleanUpRemovesHollow(m: Memory, root: Frame, mask: int, lo: nat, hi: nat, t: Level, v: nat)
    requires WF(m, 4, root, mask) && v < PAGES
    ensures var kids := View(m, 4, root, mask);
            var was, now := EntryOn(m, root, mask, t, v), EntryOn(CleanRange(m, root, mask, lo, hi).m, root, mask, t, v);
            if RemovedAbove(4, kids, t, v, lo, hi) then now == None
            else if Removed(4, kids, t, v, lo, hi) then now == Some(Entry(0, {}))
            else now == was
  {
    hide View, CleanRange, PruneTable, PruneLog, At, Removed, RemovedAbove, Untouched, LeftEmpty, MaskKept, WF,
      SpanStart, AllFrames;
    CleanRangeIsPrune(m, root, mask, lo, hi);
    WholeSpan(v);
    AtOfPrune(4, View(m, 4, root, mask), t, v, lo, hi);
  }

  lemma WholeSpan(v: nat)
    requires v < PAGES
    ensures SpanStart(5, v) == 0
  {
  }
}
