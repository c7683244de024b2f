/** Pages of the three sizes and their page-table indices. */
module Page {
  import opened Bits
  import opened Addr
  import opened Levels

  type Page4KiB = a: int |
      (0 <= a < 0x8000_0000_0000 || 0xffff_8000_0000_0000 <= a < 0x1_0000_0000_0000_0000) && a % 0x1000 == 0

  type Page2MiB = a: Page4KiB | a % 0x20_0000 == 0

  type Page1GiB = a: Page4KiB | a % 0x4000_0000 == 0

  /** The number of the 4KiB page that contains an address. */
  function Vpn(a: VirtAddr): (v: nat)
    ensures v < PAGES
  {
    Lin(a) / 0x1000
  }

  lemma PageRank(p: Page4KiB)
    ensures Lin(p) == 0x1000 * Vpn(p) && Lin(p) % 0x1000 == 0
  {
    LinParts(p);
  }

  /** The order of pages is the order of their numbers. */
  lemma PageOrder(p: Page4KiB, q: Page4KiB)
    ensures p <= q <==> Vpn(p) <= Vpn(q)
    ensures p == q <==> Vpn(p) == Vpn(q)
  {
    PageRank(p);
    PageRank(q);
    LinIsIso(p, q, 0);
  }

  // ---------------------------------------------------------------- indices

  /** `PageTableIndex::new_truncate(x as u16)`. */
  function IndexTruncate(x: nat): (i: nat)
    ensures i < 512
  {
    x % 0x1_0000 % 512
  }

  function P1Index(a: VirtAddr): (i: nat)
    ensures i < 512
  {
    IndexTruncate(a / 0x1000)
  }

  function P2Index(a: VirtAddr): (i: nat)
    ensures i < 512
  {
    IndexTruncate(a / 0x1000 / 512)
  }

  function P3Index(a: VirtAddr): (i: nat)
    ensures i < 512
  {
    IndexTruncate(a / 0x1000 / 512 / 512)
  }

  function P4Index(a: VirtAddr): (i: nat)
    ensures i < 512
  {
    IndexTruncate(a / 0x1000 / 512 / 512 / 512)
  }

  /** `page_table_index(level)`: `a >> 12 >> ((level - 1) * 9)`. */
  function PageTableIndex(a: VirtAddr, level: Level): (i: nat)
    ensures i < 512
  {
    IndexTruncate(Shr(Shr(a, 12), (level - 1) * 9))
  }

  /** The four index functions are the radix-512 digits of the page number. */
  lemma IndicesAreDigits(a: VirtAddr)
    ensures P1Index(a) == Idx(1, Vpn(a))
    ensures P2Index(a) == Idx(2, Vpn(a))
    ensures P3Index(a) == Idx(3, Vpn(a))
    ensures P4Index(a) == Idx(4, Vpn(a))
  {
    LinParts(a);
    hide IndexTruncate;
    var q := a / 0x1000;
    TruncateIs(q);
    TruncateIs(q / 512);
    TruncateIs(q / 512 / 512);
    TruncateIs(q / 512 / 512 / 512);
    Quotients(q);
    if a >= 0x8000_0000_0000 {
      UpperHalf(Vpn(a), q);
    }
  }

  lemma TruncateIs(x: nat)
    ensures IndexTruncate(x) == x % 512
  {
  }

  /** The sign extension of an upper-half address does not reach the index digits. */
  lemma UpperHalf(v: nat, q: nat)
    requires q == v + 0xffff * 0x10_0000_0000
    ensures q % 512 == v % 512
    ensures q / 0x200 % 512 == v / 0x200 % 512
    ensures q / 0x4_0000 % 512 == v / 0x4_0000 % 512
    ensures q / 0x800_0000 % 512 == v / 0x800_0000 % 512
  {
    DivIs(q, 0x200, v / 0x200 + 0xffff * 0x800_0000, v % 0x200);
    DivIs(q, 0x4_0000, v / 0x4_0000 + 0xffff * 0x4_0000, v % 0x4_0000);
    DivIs(q, 0x800_0000, v / 0x800_0000 + 0xffff * 0x200, v % 0x800_0000);
    SameDigit(v, 0xffff * 0x800_0000);
    SameDigit(v / 0x200, 0xffff * 0x4_0000);
    SameDigit(v / 0x4_0000, 0xffff * 0x200);
    SameDigit(v / 0x800_0000, 0xffff);
  }

  lemma SameDigit(x: nat, c: nat)
    ensures (x + 512 * c) % 512 == x % 512
  {
  }

  lemma Quotients(q: nat)
    ensures q / 512 / 512 == q / 0x4_0000
    ensures q / 512 / 512 / 512 == q / 0x800_0000
  {
  }

  lemma PageTableIndexAgrees(a: VirtAddr, level: Level)
    ensures PageTableIndex(a, level) == Idx(level, Vpn(a))
    ensures level == 1 ==> PageTableIndex(a, level) == P1Index(a)
    ensures level == 2 ==> PageTableIndex(a, level) == P2Index(a)
    ensures level == 3 ==> PageTableIndex(a, level) == P3Index(a)
    ensures level == 4 ==> PageTableIndex(a, level) == P4Index(a)
  {
    IndicesAreDigits(a);
    hide IndexTruncate;
    ShrIsDivision(a, 12);
    ShrIsDivision(a / 0x1000, (level - 1) * 9);
    assert Pow2(0) == 1 && Pow2(9) == 0x200 && Pow2(12) == 0x1000 && Pow2(18) == 0x4_0000 && Pow2(27) == 0x800_0000;
    Quotients(a / 0x1000);
  }

  // ---------------------------------------------------------------- pages from indices

  function IndexWord(p4: nat, p3: nat, p2: nat, p1: nat): nat {
    BitOr(BitOr(BitOr(BitOr(0, Shl(p4, 39)), Shl(p3, 30)), Shl(p2, 21)), Shl(p1, 12))
  }

  /** Shifting four indices into place and or-ing them together adds them up. */
  lemma IndexWordIsSum(p4: nat, p3: nat, p2: nat, p1: nat)
    requires p4 < 512 && p3 < 512 && p2 < 512 && p1 < 512
    ensures IndexWord(p4, p3, p2, p1) == 0x1000 * (p4 * 0x800_0000 + p3 * 0x4_0000 + p2 * 0x200 + p1)
    ensures IndexWord(p4, p3, p2, p1) < ADDRESS_SPACE_SIZE
  {
    hide BitOr, Shl;
    Pow2Constants();
    ShlIsProduct(p4, 39);
    ShlIsProduct(p3, 30);
    ShlIsProduct(p2, 21);
    ShlIsProduct(p1, 12);
    OrZero(p4 * 0x80_0000_0000);
    OrFields(p4, p3, p2, p1);
  }

  lemma OrFields(p4: nat, p3: nat, p2: nat, p1: nat)
    requires p4 < 512 && p3 < 512 && p2 < 512 && p1 < 512
    ensures BitOr(BitOr(BitOr(p4 * 0x80_0000_0000, p3 * 0x4000_0000), p2 * 0x20_0000), p1 * 0x1000)
         == 0x1000 * (p4 * 0x800_0000 + p3 * 0x4_0000 + p2 * 0x200 + p1)
  {
    hide BitOr, Pow2;
    OrField(p4, 39, p3 * 0x4000_0000);
    OrField(p4 * 512 + p3, 30, p2 * 0x20_0000);
    OrField((p4 * 512 + p3) * 512 + p2, 21, p1 * 0x1000);
  }

  lemma OrField(hi: nat, k: nat, lo: nat)
    requires k in {21, 30, 39} && lo < (if k == 21 then 0x20_0000 else if k == 30 then 0x4000_0000 else 0x80_0000_0000)
    ensures var p := if k == 21 then 0x20_0000 else if k == 30 then 0x4000_0000 else 0x80_0000_0000;
            BitOr(hi * p, lo) == hi * p + lo
  {
    hide BitOr;
    Pow2Constants();
    OrDisjoint(hi, k, lo);
  }

  lemma SizesArePowers()
    ensures IsPowerOfTwo(0x1000) && IsPowerOfTwo(0x20_0000) && IsPowerOfTwo(0x4000_0000)
  {
    Pow2Constants();
    assert 0x1000 == Pow2(12) && 0x20_0000 == Pow2(21) && 0x4000_0000 == Pow2(30);
  }

  lemma CoarserAlignment(x: int)
    ensures x % 0x20_0000 == 0 || x % 0x4000_0000 == 0 ==> x % 0x1000 == 0
  {
  }

  /** `Page::containing_address`, for the three sizes. */
  function Containing4KiB(a: VirtAddr): (p: Page4KiB)
    ensures p == a - a % 0x1000
  {
    SizesArePowers();
    VirtAlignDownIsFloor(a, 0x1000);
    VirtAlignDown(a, 0x1000)
  }

  function Containing2MiB(a: VirtAddr): (p: Page2MiB)
    ensures p == a - a % 0x20_0000
  {
    SizesArePowers();
    VirtAlignDownIsFloor(a, 0x20_0000);
    CoarserAlignment(VirtAlignDown(a, 0x20_0000));
    VirtAlignDown(a, 0x20_0000)
  }

  function Containing1GiB(a: VirtAddr): (p: Page1GiB)
    ensures p == a - a % 0x4000_0000
  {
    SizesArePowers();
    VirtAlignDownIsFloor(a, 0x4000_0000);
    CoarserAlignment(VirtAlignDown(a, 0x4000_0000));
    VirtAlignDown(a, 0x4000_0000)
  }

  function FromPageTableIndices(p4: nat, p3: nat, p2: nat, p1: nat): Page4KiB
    requires p4 < 512 && p3 < 512 && p2 < 512 && p1 < 512
  {
    IndexWordIsSum(p4, p3, p2, p1);
    Containing4KiB(NewTruncate(IndexWord(p4, p3, p2, p1)))
  }

  function FromPageTableIndices2MiB(p4: nat, p3: nat, p2: nat): Page2MiB
    requires p4 < 512 && p3 < 512 && p2 < 512
  {
    IndexWordIsSum(p4, p3, p2, 0);
    Containing2MiB(NewTruncate(IndexWord(p4, p3, p2, 0)))
  }

  function FromPageTableIndices1GiB(p4: nat, p3: nat): Page1GiB
    requires p4 < 512 && p3 < 512
  {
    IndexWordIsSum(p4, p3, 0, 0);
    Containing1GiB(NewTruncate(IndexWord(p4, p3, 0, 0)))
  }

  /** A word below 2^48 becomes the canonical address of that rank. */
  lemma WordIsRank(w: nat)
    requires w < ADDRESS_SPACE_SIZE
    ensures NewTruncate(w) == FromLin(w) && Lin(NewTruncate(w)) == w
  {
    NewTruncateKeepsRank(w);
    LinIsIso(NewTruncate(w), NewTruncate(w), w);
  }

  lemma FromLinAligned(n: nat)
    requires n < ADDRESS_SPACE_SIZE
    ensures n % 0x1000 == 0 ==> FromLin(n) % 0x1000 == 0
    ensures n % 0x20_0000 == 0 ==> FromLin(n) % 0x20_0000 == 0
    ensures n % 0x4000_0000 == 0 ==> FromLin(n) % 0x4000_0000 == 0
  {
    AddAligned(n, 0x1000, 0xffff_0000_0000_0000);
    AddAligned(n, 0x20_0000, 0xffff_0000_0000_0000);
    AddAligned(n, 0x4000_0000, 0xffff_0000_0000_0000);
  }

  lemma AddAligned(n: nat, d: nat, c: nat)
    requires d in {0x1000, 0x20_0000, 0x4000_0000} && c == 0xffff_0000_0000_0000
    ensures n % d == 0 ==> (n + c) % d == 0
  {
    if d == 0x1000 {
    } else if d == 0x20_0000 {
    } else {
    }
  }

  /** The page of rank `0x1000 * v`. */
  lemma PageAt(v: nat)
    requires v < PAGES
    ensures var a := NewTruncate(0x1000 * v); a % 0x1000 == 0 && Lin(a) == 0x1000 * v && Vpn(a) == v
  {
    hide NewTruncate, FromLin;
    WordIsRank(0x1000 * v);
    FromLinAligned(0x1000 * v);
  }

  /** The page made from four indices has those indices. */
  lemma IndicesOfPage(p4: nat, p3: nat, p2: nat, p1: nat)
    requires p4 < 512 && p3 < 512 && p2 < 512 && p1 < 512
    ensures var p := FromPageTableIndices(p4, p3, p2, p1);
            && Vpn(p) == p4 * 0x800_0000 + p3 * 0x4_0000 + p2 * 0x200 + p1
            && P4Index(p) == Idx(4, Vpn(p)) == p4 && P3Index(p) == Idx(3, Vpn(p)) == p3
            && P2Index(p) == Idx(2, Vpn(p)) == p2 && P1Index(p) == Idx(1, Vpn(p)) == p1
  {
    hide IndexWord, NewTruncate, Vpn, Idx, P4Index, P3Index, P2Index, P1Index;
    var p := FromPageTableIndices(p4, p3, p2, p1);
    IndexWordIsSum(p4, p3, p2, p1);
    PageAt(p4 * 0x800_0000 + p3 * 0x4_0000 + p2 * 0x200 + p1);
    IndicesAreDigits(p);
    Digits(p4, p3, p2, p1);
  }

  /** A word aligned to a page size becomes the start of a page of that size. */
  lemma AlignedWord(w: nat)
    requires w < ADDRESS_SPACE_SIZE
    ensures w % 0x1000 == 0 ==> NewTruncate(w) % 0x1000 == 0
    ensures w % 0x20_0000 == 0 ==> NewTruncate(w) % 0x20_0000 == 0
    ensures w % 0x4000_0000 == 0 ==> NewTruncate(w) % 0x4000_0000 == 0
  {
    hide NewTruncate, FromLin;
    WordIsRank(w);
    FromLinAligned(w);
  }

  lemma WordWithoutLowIndices(p4: nat, p3: nat, p2: nat)
    requires p4 < 512 && p3 < 512 && p2 < 512
    ensures IndexWord(p4, p3, p2, 0) % 0x20_0000 == 0 && IndexWord(p4, p3, 0, 0) % 0x4000_0000 == 0
  {
    hide IndexWord;
    IndexWordIsSum(p4, p3, p2, 0);
    IndexWordIsSum(p4, p3, 0, 0);
    DivIs(IndexWord(p4, p3, p2, 0), 0x20_0000, p4 * 0x4_0000 + p3 * 0x200 + p2, 0);
    DivIs(IndexWord(p4, p3, 0, 0), 0x4000_0000, p4 * 0x200 + p3, 0);
  }

  /** Indices that are left out are zero. */
  lemma LeftOutIndicesAreZero(p4: nat, p3: nat, p2: nat)
    requires p4 < 512 && p3 < 512 && p2 < 512
    ensures FromPageTableIndices2MiB(p4, p3, p2) == FromPageTableIndices(p4, p3, p2, 0)
    ensures FromPageTableIndices1GiB(p4, p3) == FromPageTableIndices(p4, p3, 0, 0)
  {
    hide IndexWord, NewTruncate;
    IndexWordIsSum(p4, p3, p2, 0);
    IndexWordIsSum(p4, p3, 0, 0);
    WordWithoutLowIndices(p4, p3, p2);
    AlignedWord(IndexWord(p4, p3, p2, 0));
    AlignedWord(IndexWord(p4, p3, 0, 0));
    CoarserAlignment(NewTruncate(IndexWord(p4, p3, p2, 0)));
    CoarserAlignment(NewTruncate(IndexWord(p4, p3, 0, 0)));
  }

  /** The 2MiB page made from three indices has those indices. */
  lemma IndicesOfPage2MiB(p4: nat, p3: nat, p2: nat)
    requires p4 < 512 && p3 < 512 && p2 < 512
    ensures var p := FromPageTableIndices2MiB(p4, p3, p2);
            P4Index(p) == p4 && P3Index(p) == p3 && P2Index(p) == p2
  {
    hide FromPageTableIndices, FromPageTableIndices2MiB, Vpn, Idx, P4Index, P3Index, P2Index, P1Index;
    LeftOutIndicesAreZero(p4, p3, p2);
    IndicesOfPage(p4, p3, p2, 0);
  }

  /** The 1GiB page made from two indices has those indices. */
  lemma IndicesOfPage1GiB(p4: nat, p3: nat)
    requires p4 < 512 && p3 < 512
    ensures var p := FromPageTableIndices1GiB(p4, p3); P4Index(p) == p4 && P3Index(p) == p3
  {
    hide FromPageTableIndices, FromPageTableIndices1GiB, Vpn, Idx, P4Index, P3Index, P2Index, P1Index;
    LeftOutIndicesAreZero(p4, p3, 0);
    IndicesOfPage(p4, p3, 0, 0);
  }

  /** A page is made from its indices again, for all three sizes. */
  lemma PageOfIndices(p: Page4KiB)
    ensures FromPageTableIndices(P4Index(p), P3Index(p), P2Index(p), P1Index(p)) == p
    ensures p % 0x20_0000 == 0 ==> FromPageTableIndices2MiB(P4Index(p), P3Index(p), P2Index(p)) == p
    ensures p % 0x4000_0000 == 0 ==> FromPageTableIndices1GiB(P4Index(p), P3Index(p)) == p
  {
    hide IndexWord, NewTruncate, Vpn, Idx, P4Index, P3Index, P2Index, P1Index;
    IndicesAreDigits(p);
    DigitsOf(Vpn(p));
    IndexWordIsSum(P4Index(p), P3Index(p), P2Index(p), P1Index(p));
    IndexWordIsSum(P4Index(p), P3Index(p), P2Index(p), 0);
    IndexWordIsSum(P4Index(p), P3Index(p), 0, 0);
    PageOfRank(p);
    ZeroDigits(p);
  }

  lemma PageOfRank(p: Page4KiB)
    ensures NewTruncate(0x1000 * Vpn(p)) == p
  {
    PageRank(p);
    WordIsRank(Lin(p));
    LinIsIso(p, p, 0);
  }

  lemma ZeroDigits(p: Page4KiB)
    ensures p % 0x20_0000 == 0 ==> P1Index(p) == 0
    ensures p % 0x4000_0000 == 0 ==> P1Index(p) == 0 && P2Index(p) == 0
  {
    hide IndexTruncate;
    TruncateIs(p / 0x1000);
    TruncateIs(p / 0x1000 / 512);
    if p % 0x20_0000 == 0 { Zero2MiB(p); }
    if p % 0x4000_0000 == 0 { Zero1GiB(p); }
  }

  lemma Zero2MiB(p: nat)
    requires p % 0x20_0000 == 0
    ensures p / 0x1000 % 512 == 0
  {
    var q := p / 0x20_0000;
    DivIs(p, 0x1000, 512 * q, 0);
  }

  lemma Zero1GiB(p: nat)
    requires p % 0x4000_0000 == 0
    ensures p / 0x1000 % 512 == 0 && p / 0x1000 / 512 % 512 == 0
  {
    var q := p / 0x4000_0000;
    DivIs(p, 0x1000, 0x4_0000 * q, 0);
    DivIs(p / 0x1000, 512, 512 * q, 0);
  }

  lemma DigitsOf(v: nat)
    requires v < PAGES
    ensures v == Idx(4, v) * 0x800_0000 + Idx(3, v) * 0x4_0000 + Idx(2, v) * 0x200 + Idx(1, v)
  {
    Quotients(v);
  }

  /** The order of canonical pages is the lexicographic order of their indices. */
  lemma PageOrderIsLexicographic(p: Page4KiB, q: Page4KiB)
    ensures p < q <==>
            || P4Index(p) < P4Index(q)
            || (P4Index(p) == P4Index(q) && P3Index(p) < P3Index(q))
            || (P4Index(p) == P4Index(q) && P3Index(p) == P3Index(q) && P2Index(p) < P2Index(q))
            || (P4Index(p) == P4Index(q) && P3Index(p) == P3Index(q) && P2Index(p) == P2Index(q) && P1Index(p) < P1Index(q))
  {
    hide P1Index, P2Index, P3Index, P4Index, Idx, Vpn;
    IndicesAreDigits(p);
    IndicesAreDigits(q);
    DigitsOf(Vpn(p));
    DigitsOf(Vpn(q));
    PageOrder(q, p);
  }

  lemma Digits(p4: nat, p3: nat, p2: nat, p1: nat)
    requires p4 < 512 && p3 < 512 && p2 < 512 && p1 < 512
    ensures var v := p4 * 0x800_0000 + p3 * 0x4_0000 + p2 * 0x200 + p1;
            Idx(4, v) == p4 && Idx(3, v) == p3 && Idx(2, v) == p2 && Idx(1, v) == p1
  {
    var v := p4 * 0x800_0000 + p3 * 0x4_0000 + p2 * 0x200 + p1;
    DivIs(v, 0x200, p4 * 0x4_0000 + p3 * 0x200 + p2, p1);
    DivIs(v, 0x4_0000, p4 * 0x200 + p3, p2 * 0x200 + p1);
    DivIs(v, 0x800_0000, p4, p3 * 0x4_0000 + p2 * 0x200 + p1);
    SameDigit(p1, p4 * 0x4_0000 + p3 * 0x200 + p2);
    SameDigit(p2, p4 * 0x200 + p3);
    SameDigit(p3, p4);
  }
}
