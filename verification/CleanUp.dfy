/** `clean_up_addr_range` on memory, and its agreement with `Prune`. */
module CleanUp {
  import opened Levels
  import opened PageTable
  import opened PageTree
  import opened MemoryTree
  import opened Prune

  datatype CleanOut = CleanOut(m: Memory, log: seq<Frame>)

  /** Clean-up of the first `n` entries of the table in frame `f`, whose span starts at `base`. */
  function CleanUpto(m: Memory, level: Level, f: Frame, mask: int, base: nat, lo: nat, hi: nat, n: nat): CleanOut
    requires n <= 512
    decreases level, n
  {
    if n == 0 then CleanOut(m, [])
    else
      var s := CleanUpto(m, level, f, mask, base, lo, hi, n - 1);
      var t := CleanEntry(s.m, level, f, mask, base + Offset(level, n - 1), lo, hi, n - 1);
      CleanOut(t.m, s.log + t.log)
  }

  function CleanEntry(m: Memory, level: Level, f: Frame, mask: int, b: nat, lo: nat, hi: nat, i: nat): CleanOut
    requires i < 512
    decreases level, 0
  {
    var e := TableAt(m, f)[i];
    if i == mask || !Links(level, e) || !Meets(b, Width(level), lo, hi) then CleanOut(m, [])
    else
      var s := CleanUpto(m, level - 1, e.addr, -1, b, lo, hi, 512);
      if IsEmpty(TableAt(s.m, e.addr)) then CleanOut(Write(s.m, f, i, UNUSED), s.log + [e.addr])
      else s
  }

  /** The hierarchy when the first `n` entries have been cleaned up. */
  function PrunedUpto(level: Level, base: nat, kids: seq<Node>, lo: nat, hi: nat, n: nat): (r: seq<Node>)
    requires n <= |kids|
    ensures |r| == |kids|
  {
    PruneTable(level, base, kids, lo, hi)[..n] + kids[n..]
  }

  /** `out` is `m` with the first `n` entries of the hierarchy cleaned up; only the tables of the
      hierarchy changed, and a table given back was left empty. */
  ghost predicate CleanedUpto(m: Memory, level: Level, f: Frame, mask: int, base: nat, lo: nat, hi: nat, n: nat,
                              out: CleanOut)
    requires n <= 512
  {
    var kids := View(m, level, f, mask);
    && View(out.m, level, f, mask) == PrunedUpto(level, base, kids, lo, hi, n)
    && out.log == PruneLog(level, base, kids, lo, hi, n)
    && Untouched(m, out.m, f, AllFrames(level, kids))
    && LeftEmpty(out)
    && MaskKept(m, out.m, f, mask)
  }

  ghost predicate Untouched(m: Memory, m': Memory, f: Frame, inside: multiset<Frame>) {
    forall g :: g != f && g !in inside ==> TableAt(m', g) == TableAt(m, g)
  }

  ghost predicate LeftEmpty(out: CleanOut) {
    forall g :: g in out.log ==> IsEmpty(TableAt(out.m, g))
  }

  ghost predicate MaskKept(m: Memory, m': Memory, f: Frame, mask: int) {
    0 <= mask < 512 ==> TableAt(m', f)[mask] == TableAt(m, f)[mask]
  }

  /** The frames of a partly cleaned hierarchy and those given back are the frames before. */
  lemma PrunedFrames(level: Level, base: nat, kids: seq<Node>, lo: nat, hi: nat, n: nat)
    requires |kids| == 512 && n <= 512
    ensures AllFrames(level, PrunedUpto(level, base, kids, lo, hi, n)) + multiset(PruneLog(level, base, kids, lo, hi, n))
         == AllFrames(level, kids)
  {
    hide Frames, PruneLog, PruneTable;
    PrunedFramesFrom(level, base, kids, lo, hi, n, 512);
  }

  lemma {:induction false} PrunedFramesFrom(level: Level, base: nat, kids: seq<Node>, lo: nat, hi: nat, n: nat, k: nat)
    requires n <= k <= |kids|
    ensures Frames(level, PrunedUpto(level, base, kids, lo, hi, n), k) + multiset(PruneLog(level, base, kids, lo, hi, n))
         == Frames(level, kids, k)
    decreases k
  {
    hide PruneTable, PruneLog, NodeFrames;
    var kids' := PrunedUpto(level, base, kids, lo, hi, n);
    if k == n {
      PruneConserves(level, base, kids, lo, hi, n);
      FramesOfPrefix(level, kids', PruneTable(level, base, kids, lo, hi), n);
    } else {
      PrunedFramesFrom(level, base, kids, lo, hi, n, k - 1);
      assert kids'[k - 1] == kids[k - 1];
      var log := multiset(PruneLog(level, base, kids, lo, hi, n));
      assert Frames(level, kids', k) == Frames(level, kids', k - 1) + NodeFrames(level, kids[k - 1]);
      Swap(Frames(level, kids', k - 1), NodeFrames(level, kids[k - 1]), log);
    }
  }

  lemma Swap(a: multiset<Frame>, b: multiset<Frame>, c: multiset<Frame>)
    ensures (a + b) + c == (a + c) + b
  {
  }

  /** A hierarchy with fewer frames is still a tree. */
  lemma FewerFramesWF(m: Memory, level: Level, f: Frame, mask: int, before: multiset<Frame>, log: multiset<Frame>)
    requires Unique(multiset{f} + before)
    requires AllFrames(level, View(m, level, f, mask)) + log == before
    ensures WF(m, level, f, mask)
  {
    hide Frames, View;
    forall g ensures (multiset{f} + AllFrames(level, View(m, level, f, mask)))[g] <= 1 {
      assert (multiset{f} + before)[g] <= 1;
    }
  }

  /** The memory clean-up is the tree clean-up. */
  lemma {:induction false} CleanIsPrune(m: Memory, level: Level, f: Frame, mask: int, base: nat, lo: nat, hi: nat, n: nat)
    requires WF(m, level, f, mask) && n <= 512
    ensures CleanedUpto(m, level, f, mask, base, lo, hi, n, CleanUpto(m, level, f, mask, base, lo, hi, n))
    decreases level, n + 1
  {
    hide WF, CleanedUpto, CleanEntry, View, Width, Offset;
    if n == 0 {
      NothingCleaned(m, level, f, mask, base, lo, hi);
    } else {
      CleanIsPrune(m, level, f, mask, base, lo, hi, n - 1);
      var s := CleanUpto(m, level, f, mask, base, lo, hi, n - 1);
      CleanedIsWF(m, level, f, mask, base, lo, hi, n - 1, s);
      var b := base + Offset(level, n - 1);
      CleanEntryIsPruneNode(s.m, level, f, mask, b, lo, hi, n - 1);
      CleanStep(m, level, f, mask, base, lo, hi, n, s, CleanEntry(s.m, level, f, mask, b, lo, hi, n - 1));
    }
  }

  lemma NothingCleaned(m: Memory, level: Level, f: Frame, mask: int, base: nat, lo: nat, hi: nat)
    ensures CleanedUpto(m, level, f, mask, base, lo, hi, 0, CleanOut(m, []))
  {
  }

  lemma CleanedIsWF(m: Memory, level: Level, f: Frame, mask: int, base: nat, lo: nat, hi: nat, n: nat, s: CleanOut)
    requires WF(m, level, f, mask) && n <= 512 && CleanedUpto(m, level, f, mask, base, lo, hi, n, s)
    ensures WF(s.m, level, f, mask)
  {
    hide View, Frames, PruneLog, Unique, PrunedUpto;
    var kids := View(m, level, f, mask);
    PrunedFrames(level, base, kids, lo, hi, n);
    FewerFramesWF(s.m, level, f, mask, AllFrames(level, kids), multiset(s.log));
  }

  /** `t` is `m` with entry `i` cleaned up. */
  ghost predicate EntryCleaned(m: Memory, level: Level, f: Frame, mask: int, b: nat, lo: nat, hi: nat, i: nat, t: CleanOut)
    requires i < 512
  {
    var kids := View(m, level, f, mask);
    && View(t.m, level, f, mask) == kids[i := PruneNode(level, b, kids[i], lo, hi)]
    && t.log == NodeLog(level, b, kids[i], lo, hi)
    && Untouched(m, t.m, f, NodeFrames(level, kids[i]))
    && LeftEmpty(t)
    && MaskKept(m, t.m, f, mask)
  }

  lemma CleanStep(m: Memory, level: Level, f: Frame, mask: int, base: nat, lo: nat, hi: nat, n: nat, s: CleanOut, t: CleanOut)
    requires WF(m, level, f, mask) && 0 < n <= 512
    requires CleanedUpto(m, level, f, mask, base, lo, hi, n - 1, s)
    requires EntryCleaned(s.m, level, f, mask, base + Offset(level, n - 1), lo, hi, n - 1, t)
    ensures CleanedUpto(m, level, f, mask, base, lo, hi, n, CleanOut(t.m, s.log + t.log))
  {
    hide View, Frames, PruneNode, NodeLog, NodeFrames, Offset, IsEmpty, WF, Unique;
    var kids := View(m, level, f, mask);
    var b := base + Offset(level, n - 1);
    assert View(s.m, level, f, mask)[n - 1] == kids[n - 1];
    StepsOnPruned(level, base, kids, lo, hi, n);
    KeptEmpty(m, level, f, mask, base, lo, hi, n, s, t);
    FramesInclude(level, kids, n - 1, 512);
  }

  lemma StepsOnPruned(level: Level, base: nat, kids: seq<Node>, lo: nat, hi: nat, n: nat)
    requires 0 < n <= |kids|
    ensures PrunedUpto(level, base, kids, lo, hi, n)
         == PrunedUpto(level, base, kids, lo, hi, n - 1)[n - 1 := PruneNode(level, base + Offset(level, n - 1), kids[n - 1], lo, hi)]
  {
  }

  /** Frames given back earlier are not touched again. */
  lemma KeptEmpty(m: Memory, level: Level, f: Frame, mask: int, base: nat, lo: nat, hi: nat, n: nat, s: CleanOut, t: CleanOut)
    requires WF(m, level, f, mask) && 0 < n <= 512
    requires CleanedUpto(m, level, f, mask, base, lo, hi, n - 1, s)
    requires EntryCleaned(s.m, level, f, mask, base + Offset(level, n - 1), lo, hi, n - 1, t)
    ensures LeftEmpty(CleanOut(t.m, s.log + t.log))
  {
    hide View, Frames, PruneNode, NodeLog, NodeFrames, Offset, PruneLog, PrunedUpto, IsEmpty;
    var kids, kids' := View(m, level, f, mask), View(s.m, level, f, mask);
    PrunedFrames(level, base, kids, lo, hi, n - 1);
    FramesInclude(level, kids', n - 1, 512);
    forall g | g in s.log ensures TableAt(t.m, g) == TableAt(s.m, g) {
      LoggedIsGone(f, AllFrames(level, kids'), s.log, AllFrames(level, kids), g);
    }
  }

  lemma LoggedIsGone(f: Frame, after: multiset<Frame>, log: seq<Frame>, before: multiset<Frame>, g: Frame)
    requires Unique(multiset{f} + before) && after + multiset(log) == before && g in log
    ensures g != f && g !in after
  {
    assert multiset(log)[g] > 0;
    assert (multiset{f} + before)[g] <= 1;
    assert (after + multiset(log))[g] == before[g];
  }

  lemma {:induction false} CleanEntryIsPruneNode(m: Memory, level: Level, f: Frame, mask: int, b: nat, lo: nat, hi: nat, i: nat)
    requires WF(m, level, f, mask) && i < 512
    ensures EntryCleaned(m, level, f, mask, b, lo, hi, i, CleanEntry(m, level, f, mask, b, lo, hi, i))
    decreases level, 0
  {
    hide WF, CleanUpto, CleanEntry, CleanedUpto, EntryCleaned, Width, View, TableAt;
    var e := TableAt(m, f)[i];
    if i == mask || !Links(level, e) || !Meets(b, Width(level), lo, hi) {
      EntrySkipped(m, level, f, mask, b, lo, hi, i);
    } else {
      ChildWF(m, level, f, mask, i);
      CleanIsPrune(m, level - 1, e.addr, -1, b, lo, hi, 512);
      EntryVisited(m, level, f, mask, b, lo, hi, i, CleanUpto(m, level - 1, e.addr, -1, b, lo, hi, 512));
    }
  }

  lemma EntrySkipped(m: Memory, level: Level, f: Frame, mask: int, b: nat, lo: nat, hi: nat, i: nat)
    requires i < 512
    requires i == mask || !Links(level, TableAt(m, f)[i]) || !Meets(b, Width(level), lo, hi)
    ensures EntryCleaned(m, level, f, mask, b, lo, hi, i, CleanEntry(m, level, f, mask, b, lo, hi, i))
  {
    hide Width;
    var kids := View(m, level, f, mask);
    assert kids[i] == NodeAt(m, level, Masked(TableAt(m, f), mask)[i]);
    assert kids[i := kids[i]] == kids;
  }

  lemma EntryVisited(m: Memory, level: Level, f: Frame, mask: int, b: nat, lo: nat, hi: nat, i: nat, s: CleanOut)
    requires WF(m, level, f, mask) && i < 512 && i != mask
    requires Links(level, TableAt(m, f)[i]) && Meets(b, Width(level), lo, hi)
    requires s == CleanUpto(m, level - 1, TableAt(m, f)[i].addr, -1, b, lo, hi, 512)
    requires CleanedUpto(m, level - 1, TableAt(m, f)[i].addr, -1, b, lo, hi, 512, s)
    ensures EntryCleaned(m, level, f, mask, b, lo, hi, i, CleanEntry(m, level, f, mask, b, lo, hi, i))
  {
    hide CleanUpto, Width, View, Unique, Frames, Tree, PruneTable, PruneLog;
    var e := TableAt(m, f)[i];
    var g := e.addr;
    var kids := View(m, level, f, mask);
    ViewEntry(m, level, f, mask, i);
    ChildWF(m, level, f, mask, i);
    var below := PruneTable(level - 1, b, kids[i].kids, lo, hi);
    assert PrunedUpto(level - 1, b, kids[i].kids, lo, hi, 512) == below;
    EmptyIsAllUnused(s.m, level - 1, g);
    var gone := IsEmpty(TableAt(s.m, g));
    var t := CleanEntry(m, level, f, mask, b, lo, hi, i);
    var e' := if gone then UNUSED else e;
    assert TableAt(s.m, f) == TableAt(m, f);
    assert TableAt(t.m, f) == TableAt(m, f)[i := e'];
    ViewAfter(m, t.m, level, f, mask, i, e', []);
    NodeAtIsView(t.m, level, e);
    LogInside(level - 1, b, kids[i].kids, lo, hi);
  }

  lemma EmptyIsAllUnused(m: Memory, level: Level, g: Frame)
    ensures IsEmpty(TableAt(m, g)) <==> AllUnused(View(m, level, g, -1))
  {
    forall i | 0 <= i < 512 ensures View(m, level, g, -1)[i].entry == TableAt(m, g)[i] {
      ViewEntry(m, level, g, -1, i);
    }
  }

  /** Only frames of the hierarchy are given back. */
  lemma LogInside(level: Level, base: nat, kids: seq<Node>, lo: nat, hi: nat)
    ensures forall g :: g in PruneLog(level, base, kids, lo, hi, |kids|) ==> g in AllFrames(level, kids)
  {
    PruneConserves(level, base, kids, lo, hi, |kids|);
  }

  /** Cutting the range at bounds outside the span of the table makes no difference. */
  lemma {:induction false} CleanWithin(m: Memory, level: Level, f: Frame, mask: int, base: nat, lo: nat, hi: nat,
                                       x: nat, y: nat, n: nat)
    requires n <= 512 && x <= base && base + Width(level + 1) <= y + 1
    ensures var lo', hi' := if lo <= x then x else lo, if hi <= y then hi else y;
            CleanUpto(m, level, f, mask, base, lo', hi', n) == CleanUpto(m, level, f, mask, base, lo, hi, n)
    decreases level, n
  {
    hide Width, Offset, CleanEntry;
    if n > 0 {
      CleanWithin(m, level, f, mask, base, lo, hi, x, y, n - 1);
      EntryFits(level, n - 1);
      var s := CleanUpto(m, level, f, mask, base, lo, hi, n - 1);
      CleanEntryWithin(s.m, level, f, mask, base + Offset(level, n - 1), lo, hi, x, y, n - 1);
    }
  }

  lemma {:induction false} CleanEntryWithin(m: Memory, level: Level, f: Frame, mask: int, b: nat, lo: nat, hi: nat,
                                            x: nat, y: nat, i: nat)
    requires i < 512 && x <= b && b + Width(level) <= y + 1
    ensures var lo', hi' := if lo <= x then x else lo, if hi <= y then hi else y;
            CleanEntry(m, level, f, mask, b, lo', hi', i) == CleanEntry(m, level, f, mask, b, lo, hi, i)
    decreases level, 0
  {
    hide Width, CleanUpto;
    var e := TableAt(m, f)[i];
    if Links(level, e) {
      CleanWithin(m, level - 1, e.addr, -1, b, lo, hi, x, y, 512);
    }
  }

  lemma EntryFits(level: Level, i: nat)
    requires i < 512
    ensures Offset(level, i) + Width(level) <= Width(level + 1)
  {
  }

  /** Entries whose spans do not meet the range are skipped. */
  lemma {:induction false} CleanSkips(m: Memory, level: Level, f: Frame, mask: int, base: nat, lo: nat, hi: nat, k: nat, n: nat)
    requires k <= n <= 512
    requires forall j :: k <= j < n ==> !Meets(base + Offset(level, j), Width(level), lo, hi)
    ensures CleanUpto(m, level, f, mask, base, lo, hi, n) == CleanUpto(m, level, f, mask, base, lo, hi, k)
    decreases n
  {
    hide Width, Offset, Meets;
    if k < n {
      CleanSkips(m, level, f, mask, base, lo, hi, k, n - 1);
      var s := CleanUpto(m, level, f, mask, base, lo, hi, n - 1);
      assert s.log + [] == s.log;
    }
  }
}
