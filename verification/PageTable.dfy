/** Page tables and their entries, as the mappers see them.

An entry is a 64-bit word whose bits 12..52 hold a frame address and whose remaining bits are
flags; `Entry` keeps the two fields apart.  Module `RawEntry` proves that this is the word of
the source and that the source's word operations are the ones used here.
 */
module PageTable {
  import opened Wrappers

  /** The flag bits that do not overlap the address field. */
  datatype Flag =
    | PRESENT | WRITABLE | USER_ACCESSIBLE | WRITE_THROUGH | NO_CACHE | ACCESSED | DIRTY
    | HUGE_PAGE | GLOBAL | BIT_9 | BIT_10 | BIT_11
    | BIT_52 | BIT_53 | BIT_54 | BIT_55 | BIT_56 | BIT_57 | BIT_58 | BIT_59 | BIT_60
    | BIT_61 | BIT_62 | NO_EXECUTE

  type Flags = set<Flag>

  /** The start address of a 4KiB physical frame. */
  type Frame = f: int | 0 <= f < 0x10_0000_0000_0000 && f % 4096 == 0

  datatype Entry = Entry(addr: Frame, flags: Flags) {
    predicate IsUnused() {
      addr == 0 && flags == {}
    }

    predicate Present() {
      PRESENT in flags
    }

    predicate Huge() {
      HUGE_PAGE in flags
    }

    /** `PageTableWalker::next_table` follows this entry. */
    predicate IsTable() {
      Present() && !Huge()
    }
  }

  const UNUSED: Entry := Entry(0, {})

  type Table = t: seq<Entry> | |t| == 512 witness seq(512, _ => Entry(0, {}))

  function EmptyTable(): Table {
    seq(512, _ => UNUSED)
  }

  /** `PageTable::is_empty`. */
  predicate IsEmpty(t: Table) {
    forall i :: 0 <= i < 512 ==> t[i].IsUnused()
  }

  /** Physical memory, read as page tables.  A frame that was never written reads as zero. */
  type Memory = map<Frame, Table>

  function TableAt(m: Memory, f: Frame): Table {
    if f in m then m[f] else EmptyTable()
  }

  function Write(m: Memory, f: Frame, i: nat, e: Entry): Memory
    requires i < 512
  {
    m[f := TableAt(m, f)[i := e]]
  }

  /** `PageTable::zero` on the table in frame `f`. */
  method ZeroTable(m: Memory, f: Frame) returns (zeroed: Memory)
    ensures zeroed == m[f := EmptyTable()]
  {
    zeroed := m;
    var i := 0;
    while i < 512
      invariant 0 <= i <= 512
      invariant if i == 0 then zeroed == m else zeroed == m[f := TableAt(zeroed, f)]
      invariant forall j :: 0 <= j < i ==> TableAt(zeroed, f)[j] == UNUSED
    {
      zeroed := Write(zeroed, f, i, UNUSED);
      i := i + 1;
    }
    assert TableAt(zeroed, f) == EmptyTable();
  }

  /** What an allocator will answer to its next calls; afterwards it answers `None`. */
  type Answers = seq<Option<Frame>>

  function Answer(s: Answers): Option<Frame> {
    if s == [] then None else s[0]
  }

  function Later(s: Answers): Answers {
    if s == [] then [] else s[1..]
  }

  /** The first `n` answers are pairwise different frames outside `taken`: the contract of
      `FrameAllocator`. */
  ghost predicate Fresh(s: Answers, n: nat, taken: multiset<Frame>) {
    if n == 0 || s == [] then true
    else if s[0].None? then Fresh(s[1..], n - 1, taken)
    else s[0].value !in taken && Fresh(s[1..], n - 1, taken + multiset{s[0].value})
  }

  lemma {:induction false} FreshForFewer(s: Answers, n: nat, k: nat, taken: multiset<Frame>, less: multiset<Frame>)
    requires Fresh(s, n, taken) && k <= n && less <= taken
    ensures Fresh(s, k, less)
    decreases n
  {
    if k > 0 && s != [] {
      if s[0].None? {
        FreshForFewer(s[1..], n - 1, k - 1, taken, less);
      } else {
        var f := multiset{s[0].value};
        FreshForFewer(s[1..], n - 1, k - 1, taken + f, less + f);
      }
    }
  }
}
