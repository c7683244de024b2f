/** Page tables seen through one recursive level-4 entry.

The recursive mapper reaches a table at a virtual address; the processor's page walk of that
address decides which frame it is.  `TableOf` is that walk.
 */
module RecursiveWalk {
  import opened Wrappers
  import opened Addr
  import opened Levels
  import opened Page
  import opened PageTable
  import opened Translate

  /** `p3_page`, `p2_page` and `p1_page`. */
  function P3Page(page: VirtAddr, r: nat): Page4KiB
    requires r < 512
  {
    FromPageTableIndices(r, r, r, P4Index(page))
  }

  function P2Page(page: VirtAddr, r: nat): Page4KiB
    requires r < 512
  {
    FromPageTableIndices(r, r, P4Index(page), P3Index(page))
  }

  function P1Page(page: VirtAddr, r: nat): Page4KiB
    requires r < 512
  {
    FromPageTableIndices(r, P4Index(page), P3Index(page), P2Index(page))
  }

  /** The physical address behind a table pointer, when the root table is in CR3. */
  function TableOf(m: Memory, root: Frame, p: Page4KiB): Option<nat> {
    HardwareWalk(m, 4, root, p)
  }

  /** Entry `r` of the root table points back at the root table. */
  predicate SelfMapped(m: Memory, root: Frame, r: nat) {
    r < 512 && TableAt(m, root)[r].IsTable() && TableAt(m, root)[r].addr == root
  }

  /** The last step for a page address: the frame in the level-1 entry. */
  lemma WalkEnd(m: Memory, f: Frame, p: Page4KiB)
    requires TableAt(m, f)[Idx(1, Vpn(p))].Present()
    ensures HardwareWalk(m, 1, f, p) == Some(TableAt(m, f)[Idx(1, Vpn(p))].addr)
  {
  }

  /** The walk of `p3_page` ends at the level-3 table on the path of the page. */
  lemma P3PageIsP3Table(m: Memory, root: Frame, r: nat, page: VirtAddr)
    requires SelfMapped(m, root, r) && TableAt(m, root)[P4Index(page)].Present()
    ensures TableOf(m, root, P3Page(page, r)) == Some(TableAt(m, root)[P4Index(page)].addr)
  {
    hide Idx, Vpn, P4Index, P3Index, P2Index, P1Index, FromPageTableIndices, TableAt, HardwareWalk;
    var p := P3Page(page, r);
    IndicesOfPage(r, r, r, P4Index(page));
    WalkStep(m, 4, root, p);
    WalkStep(m, 3, root, p);
    WalkStep(m, 2, root, p);
    WalkEnd(m, root, p);
  }

  /** The walk of `p2_page` ends at the level-2 table on the path of the page. */
  lemma P2PageIsP2Table(m: Memory, root: Frame, r: nat, page: VirtAddr)
    requires SelfMapped(m, root, r) && TableAt(m, root)[P4Index(page)].IsTable()
    requires TableAt(m, TableAt(m, root)[P4Index(page)].addr)[P3Index(page)].Present()
    ensures TableOf(m, root, P2Page(page, r)) == Some(TableAt(m, TableAt(m, root)[P4Index(page)].addr)[P3Index(page)].addr)
  {
    hide Idx, Vpn, P4Index, P3Index, P2Index, P1Index, FromPageTableIndices, TableAt, HardwareWalk;
    var p := P2Page(page, r);
    IndicesOfPage(r, r, P4Index(page), P3Index(page));
    WalkStep(m, 4, root, p);
    WalkStep(m, 3, root, p);
    WalkStep(m, 2, root, p);
    WalkEnd(m, TableAt(m, root)[P4Index(page)].addr, p);
  }

  /** The walk of `p1_page` ends at the level-1 table on the path of the page. */
  lemma P1PageIsP1Table(m: Memory, root: Frame, r: nat, page: VirtAddr)
    requires SelfMapped(m, root, r) && TableAt(m, root)[P4Index(page)].IsTable()
    requires var p3 := TableAt(m, root)[P4Index(page)].addr;
             && TableAt(m, p3)[P3Index(page)].IsTable()
             && TableAt(m, TableAt(m, p3)[P3Index(page)].addr)[P2Index(page)].Present()
    ensures var p3 := TableAt(m, root)[P4Index(page)].addr;
            TableOf(m, root, P1Page(page, r)) == Some(TableAt(m, TableAt(m, p3)[P3Index(page)].addr)[P2Index(page)].addr)
  {
    hide Idx, Vpn, P4Index, P3Index, P2Index, P1Index, FromPageTableIndices, TableAt, HardwareWalk;
    var p := P1Page(page, r);
    var p3 := TableAt(m, root)[P4Index(page)].addr;
    IndicesOfPage(r, P4Index(page), P3Index(page), P2Index(page));
    WalkStep(m, 4, root, p);
    WalkStep(m, 3, root, p);
    WalkStep(m, 2, p3, p);
    WalkEnd(m, TableAt(m, p3)[P3Index(page)].addr, p);
  }
}
