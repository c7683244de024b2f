/** `PageTableEntry`: the 64-bit word behind an `Entry`.

The mappers' model keeps the address and the flags of an entry apart.  Here the two are shown to
be the word, bit for bit, and the operations on the word to be the ones the mappers' model uses,
as long as flags keep clear of bits 12 and 51, which the source defines as flags although they
belong to the address.
 */
module RawEntry {
  import opened Bits
  import opened PageTable

  const ADDRESS_MASK: u64 := 0x000f_ffff_ffff_f000

  /** All flags the source defines: bits 0 to 12 and 51 to 63. */
  const ALL_FLAGS: u64 := 0xfff8_0000_0000_1fff

  const PAT_HUGE_PAGE: u64 := 0x1000
  const BIT_51: u64 := 0x8_0000_0000_0000

  /** The bit of a flag. */
  function Pos(f: Flag): (k: nat)
    ensures k < 12 || 52 <= k < 64
  {
    match f
    case PRESENT => 0
    case WRITABLE => 1
    case USER_ACCESSIBLE => 2
    case WRITE_THROUGH => 3
    case NO_CACHE => 4
    case ACCESSED => 5
    case DIRTY => 6
    case HUGE_PAGE => 7
    case GLOBAL => 8
    case BIT_9 => 9
    case BIT_10 => 10
    case BIT_11 => 11
    case BIT_52 => 52
    case BIT_53 => 53
    case BIT_54 => 54
    case BIT_55 => 55
    case BIT_56 => 56
    case BIT_57 => 57
    case BIT_58 => 58
    case BIT_59 => 59
    case BIT_60 => 60
    case BIT_61 => 61
    case BIT_62 => 62
    case NO_EXECUTE => 63
  }

  /** The flags of a word, apart from bits 12 and 51. */
  function FlagsIn(w: nat): Flags {
    set f: Flag | Bit(w, Pos(f))
  }

  /** `PageTableFlags::from_bits_truncate(entry)`. */
  function RawFlags(w: u64): u64 {
    AndAtMost(w, ALL_FLAGS);
    BitAnd(w, ALL_FLAGS)
  }

  function RawAddr(w: u64): nat {
    BitAnd(w, ADDRESS_MASK)
  }

  /** The entry a word stands for. */
  function Decode(w: u64): Entry {
    AddressFits(w);
    Entry(RawAddr(w), FlagsIn(w))
  }

  // ---------------------------------------------------------------- the masks

  lemma {:induction false} BitOfOnes(n: nat, k: nat)
    ensures Bit(Pow2(n) - 1, k) <==> k < n
    decreases n
  {
    if n == 0 {
      ZeroHasNoBits(k);
    } else if k > 0 {
      assert (Pow2(n) - 1) / 2 == Pow2(n - 1) - 1;
      BitOfOnes(n - 1, k - 1);
    }
  }

  lemma BitOfAddressMask(k: nat)
    ensures Bit(ADDRESS_MASK, k) <==> 12 <= k < 52
  {
    Pow2Constants();
    BitOfShl(Pow2(40) - 1, 12, k);
    if k >= 12 { BitOfOnes(40, k - 12); }
  }

  lemma BitOfAllFlags(k: nat)
    ensures Bit(ALL_FLAGS, k) <==> k < 13 || 51 <= k < 64
  {
    Pow2Constants();
    assert Pow2(13) == 0x2000;
    OrDisjoint(Pow2(13) - 1, 51, Pow2(13) - 1);
    BitOfOr((Pow2(13) - 1) * Pow2(51), Pow2(13) - 1, k);
    BitOfShl(Pow2(13) - 1, 51, k);
    BitOfOnes(13, k);
    if k >= 51 { BitOfOnes(13, k - 51); }
  }

  lemma BitOfAddr(w: u64, k: nat)
    ensures Bit(RawAddr(w), k) <==> 12 <= k < 52 && Bit(w, k)
  {
    BitOfAnd(w, ADDRESS_MASK, k);
    BitOfAddressMask(k);
  }

  lemma BitOfFlags(w: u64, k: nat)
    ensures Bit(RawFlags(w), k) <==> (k < 13 || 51 <= k < 64) && Bit(w, k)
  {
    BitOfAnd(w, ALL_FLAGS, k);
    BitOfAllFlags(k);
  }

  /** The address field of any word is a frame address: `PhysAddr::new` does not panic. */
  lemma AddressFits(w: u64)
    ensures RawAddr(w) < 0x10_0000_0000_0000 && RawAddr(w) % 0x1000 == 0
  {
    hide BitAnd;
    Pow2Constants();
    AndField(w, 40, 12, ADDRESS_MASK);
  }

  /** A frame address has its bits in the address field. */
  lemma BitOfFrame(a: Frame, k: nat)
    ensures Bit(a, k) ==> 12 <= k < 52
  {
    Pow2Constants();
    if k >= 52 {
      HighBitsClear(a, 52, k);
    } else if k < 12 {
      assert a == (a / 0x1000) * 0x1000;
      BitOfShl(a / 0x1000, 12, k);
    }
  }

  lemma BitOfWord(w: u64, k: nat)
    ensures Bit(w, k) ==> k < 64
  {
    Pow2Constants();
    if k >= 64 { HighBitsClear(w, 64, k); }
  }

  lemma SameWord(a: nat, b: nat)
    requires forall k: nat :: Bit(a, k) <==> Bit(b, k)
    ensures a == b
  {
    SameBits(a, b);
  }

  // ---------------------------------------------------------------- the bijection

  /** The flag of a bit outside the address field. */
  function FlagAt(k: nat): (f: Flag)
    requires k < 12 || 52 <= k < 64
    ensures Pos(f) == k
  {
    if k == 0 then PRESENT else if k == 1 then WRITABLE else if k == 2 then USER_ACCESSIBLE
    else if k == 3 then WRITE_THROUGH else if k == 4 then NO_CACHE else if k == 5 then ACCESSED
    else if k == 6 then DIRTY else if k == 7 then HUGE_PAGE else if k == 8 then GLOBAL
    else if k == 9 then BIT_9 else if k == 10 then BIT_10 else if k == 11 then BIT_11
    else if k == 52 then BIT_52 else if k == 53 then BIT_53 else if k == 54 then BIT_54
    else if k == 55 then BIT_55 else if k == 56 then BIT_56 else if k == 57 then BIT_57
    else if k == 58 then BIT_58 else if k == 59 then BIT_59 else if k == 60 then BIT_60
    else if k == 61 then BIT_61 else if k == 62 then BIT_62 else NO_EXECUTE
  }

  /** The word with one bit set is one flag. */
  lemma OneBitOneFlag(k: nat, f: Flag)
    requires Pos(f) == k
    ensures FlagsIn(Pow2(k)) == {f}
  {
    hide Bit, Pow2, FlagAt, Pos;
    forall g: Flag ensures Bit(Pow2(k), Pos(g)) <==> g == f {
      BitOfPow2(k, Pos(g));
      AtPos(f);
      AtPos(g);
    }
  }

  lemma AtPos(f: Flag)
    ensures FlagAt(Pos(f)) == f
  {
  }

  /** Every flag has the bit the source and the processor give it, and Pow2(12) and Pow2(51) are none:
      they are the flags the source has in the address field. */
  lemma FlagBits()
    ensures FlagsIn(Pow2(0)) == {PRESENT}
    ensures FlagsIn(Pow2(1)) == {WRITABLE}
    ensures FlagsIn(Pow2(2)) == {USER_ACCESSIBLE}
    ensures FlagsIn(Pow2(3)) == {WRITE_THROUGH}
    ensures FlagsIn(Pow2(4)) == {NO_CACHE}
    ensures FlagsIn(Pow2(5)) == {ACCESSED}
    ensures FlagsIn(Pow2(6)) == {DIRTY}
    ensures FlagsIn(Pow2(7)) == {HUGE_PAGE}
    ensures FlagsIn(Pow2(8)) == {GLOBAL}
    ensures FlagsIn(Pow2(9)) == {BIT_9}
    ensures FlagsIn(Pow2(10)) == {BIT_10}
    ensures FlagsIn(Pow2(11)) == {BIT_11}
    ensures FlagsIn(Pow2(52)) == {BIT_52}
    ensures FlagsIn(Pow2(53)) == {BIT_53}
    ensures FlagsIn(Pow2(54)) == {BIT_54}
    ensures FlagsIn(Pow2(55)) == {BIT_55}
    ensures FlagsIn(Pow2(56)) == {BIT_56}
    ensures FlagsIn(Pow2(57)) == {BIT_57}
    ensures FlagsIn(Pow2(58)) == {BIT_58}
    ensures FlagsIn(Pow2(59)) == {BIT_59}
    ensures FlagsIn(Pow2(60)) == {BIT_60}
    ensures FlagsIn(Pow2(61)) == {BIT_61}
    ensures FlagsIn(Pow2(62)) == {BIT_62}
    ensures FlagsIn(Pow2(63)) == {NO_EXECUTE}
    ensures FlagsIn(Pow2(12)) == {} == FlagsIn(Pow2(51)) && PAT_HUGE_PAGE == Pow2(12) && BIT_51 == Pow2(51)
  {
    hide FlagsIn;
    forall f: Flag ensures FlagsIn(Pow2(Pos(f))) == {f} {
      OneBitOneFlag(Pos(f), f);
    }
    NoFlag(12);
    NoFlag(51);
    Pow2Constants();
  }

  lemma NoFlag(k: nat)
    requires k == 12 || k == 51
    ensures FlagsIn(Pow2(k)) == {}
  {
    forall g: Flag ensures !Bit(Pow2(k), Pos(g)) {
      BitOfPow2(k, Pos(g));
    }
  }

  /** The word of a set of flags, from its lowest `n` bits. */
  function FlagWord(s: Flags, n: nat): (w: nat)
    requires n <= 64
    ensures w < Pow2(n)
  {
    if n == 0 then 0
    else FlagWord(s, n - 1) + (if HasBit(s, n - 1) then Pow2(n - 1) else 0)
  }

  predicate HasBit(s: Flags, k: nat) {
    (k < 12 || 52 <= k < 64) && FlagAt(k) in s
  }

  lemma {:induction false} BitOfFlagWord(s: Flags, n: nat, k: nat)
    requires n <= 64
    ensures Bit(FlagWord(s, n), k) <==> k < n && HasBit(s, k)
    decreases n
  {
    hide HasBit, BitOr;
    if n == 0 {
      ZeroHasNoBits(k);
    } else {
      hide Bit;
      BitOfFlagWord(s, n - 1, k);
      OrDisjoint(1, n - 1, FlagWord(s, n - 1));
      assert 1 * Pow2(n - 1) == Pow2(n - 1);
      BitOfOr(Pow2(n - 1), FlagWord(s, n - 1), k);
      BitOfPow2(n - 1, k);
    }
  }

  /** The word of an entry: its address and its flags, or-ed together. */
  function Encode(e: Entry): (w: u64)
  {
    EncodingFits(e);
    BitOr(e.addr, FlagWord(e.flags, 64))
  }

  lemma BitOfEncoding(e: Entry, k: nat)
    ensures Bit(BitOr(e.addr, FlagWord(e.flags, 64)), k) <==> Bit(e.addr, k) || (k < 64 && HasBit(e.flags, k))
  {
    BitOfOr(e.addr, FlagWord(e.flags, 64), k);
    BitOfFlagWord(e.flags, 64, k);
  }

  lemma EncodingFits(e: Entry)
    ensures BitOr(e.addr, FlagWord(e.flags, 64)) < U64
  {
    var w := BitOr(e.addr, FlagWord(e.flags, 64));
    Pow2Constants();
    forall k: nat | k >= 64 ensures !Bit(w, k) {
      BitOfEncoding(e, k);
      BitOfFrame(e.addr, k);
    }
    LowBitsBound(w, 64);
  }

  lemma {:induction false} LowBitsBound(w: nat, n: nat)
    requires forall k: nat :: k >= n ==> !Bit(w, k)
    ensures w < Pow2(n)
    decreases n
  {
    if n == 0 {
      forall k: nat ensures Bit(w, k) <==> Bit(0, k) { ZeroHasNoBits(k); }
      SameWord(w, 0);
    } else {
      forall k: nat | k >= n - 1 ensures !Bit(w / 2, k) {
        assert !Bit(w, k + 1);
      }
      LowBitsBound(w / 2, n - 1);
    }
  }

  /** An entry is read back from its word. */
  lemma DecodeEncode(e: Entry)
    ensures Decode(Encode(e)) == e
  {
    var w := Encode(e);
    forall k: nat ensures Bit(RawAddr(w), k) <==> Bit(e.addr, k) {
      BitOfAddr(w, k);
      BitOfEncoding(e, k);
      BitOfFrame(e.addr, k);
    }
    SameWord(RawAddr(w), e.addr);
    forall f: Flag ensures f in FlagsIn(w) <==> f in e.flags {
      BitOfEncoding(e, Pos(f));
      BitOfFrame(e.addr, Pos(f));
      assert FlagAt(Pos(f)) == f;
    }
  }

  /** Every word is the word of the entry read from it: nothing of it is lost. */
  lemma EncodeDecode(w: u64)
    ensures Encode(Decode(w)) == w
  {
    var e := Decode(w);
    forall k: nat ensures Bit(Encode(e), k) <==> Bit(w, k) {
      BitOfEncoding(e, k);
      BitOfAddr(w, k);
      BitOfWord(w, k);
      if k < 12 || 52 <= k < 64 { assert FlagAt(k) in e.flags <==> Bit(w, Pos(FlagAt(k))); }
    }
    SameWord(Encode(e), w);
  }

  // ---------------------------------------------------------------- bits 12 and 51

  /** A set of flags as the source has it. */
  ghost predicate IsFlags(flags: u64) {
    forall k: nat :: Bit(flags, k) ==> k < 13 || 51 <= k < 64
  }

  /** Flags that do not touch the address field. */
  ghost predicate Clean(flags: u64) {
    IsFlags(flags) && !Bit(flags, 12) && !Bit(flags, 51)
  }

  lemma BitsOfBoth(addr: Frame, flags: u64, w: u64, k: nat)
    requires w == BitOr(addr, flags)
    ensures Bit(RawAddr(w), k) <==> Bit(addr, k) || (12 <= k < 52 && Bit(flags, k))
    ensures Bit(RawFlags(w), k) <==> (k < 13 || 51 <= k < 64) && (Bit(flags, k) || Bit(addr, k))
  {
    hide Bit, BitOr, RawAddr, RawFlags;
    BitOfAddr(w, k);
    BitOfFlags(w, k);
    BitOfOr(addr, flags, k);
    BitOfFrame(addr, k);
  }

  /** `set_addr` keeps the address exactly when the flags set bits 12 and 51 only where the address
      has them; the flags are reported back exactly when the address sets those bits only where
      the flags do. */
  lemma AddressAndFlagsSurviveIff(addr: Frame, flags: u64, w: u64)
    requires IsFlags(flags) && w == BitOr(addr, flags)
    ensures RawAddr(w) == addr <==> (Bit(flags, 12) ==> Bit(addr, 12)) && (Bit(flags, 51) ==> Bit(addr, 51))
    ensures RawFlags(w) == flags <==> (Bit(addr, 12) ==> Bit(flags, 12)) && (Bit(addr, 51) ==> Bit(flags, 51))
  {
    hide Bit, BitOr, RawAddr, RawFlags;
    BitsOfBoth(addr, flags, w, 12);
    BitsOfBoth(addr, flags, w, 51);
    if (Bit(flags, 12) ==> Bit(addr, 12)) && (Bit(flags, 51) ==> Bit(addr, 51)) {
      forall k: nat ensures Bit(RawAddr(w), k) <==> Bit(addr, k) { BitsOfBoth(addr, flags, w, k); }
      SameWord(RawAddr(w), addr);
    }
    if (Bit(addr, 12) ==> Bit(flags, 12)) && (Bit(addr, 51) ==> Bit(flags, 51)) {
      forall k: nat ensures Bit(RawFlags(w), k) <==> Bit(flags, k) {
        BitsOfBoth(addr, flags, w, k);
        BitOfFrame(addr, k);
      }
      SameWord(RawFlags(w), flags);
    }
  }

  /** The PAT flag of a huge page moves the mapped frame by 4KiB. */
  lemma PatFlagMovesFrame(addr: Frame, w: u64)
    requires addr % 0x2000 == 0 && w == BitOr(addr, PAT_HUGE_PAGE)
    ensures IsFlags(PAT_HUGE_PAGE) && RawAddr(w) == addr + 0x1000
  {
    hide Bit, BitOr, RawAddr, RawFlags;
    forall k: nat ensures Bit(PAT_HUGE_PAGE, k) <==> k == 12 {
      Pow2Constants();
      BitOfPow2(12, k);
    }
    forall k: nat ensures Bit(RawAddr(w), k) <==> Bit(w, k) {
      BitsOfBoth(addr, PAT_HUGE_PAGE, w, k);
      BitOfOr(addr, PAT_HUGE_PAGE, k);
      BitOfFrame(addr, k);
    }
    SameWord(RawAddr(w), w);
    PatIsAdded(addr / 0x2000);
  }

  lemma PatIsAdded(n: nat)
    ensures BitOr(n * 0x2000, PAT_HUGE_PAGE) == n * 0x2000 + 0x1000
  {
    hide BitOr;
    assert Pow2(13) == 0x2000;
    OrDisjoint(n, 13, PAT_HUGE_PAGE);
  }

  /** An address and clean flags, or-ed together, are the entry made of them. */
  lemma CleanDecode(addr: Frame, flags: u64, w: u64)
    requires Clean(flags) && w == BitOr(addr, flags)
    ensures Decode(w) == Entry(addr, FlagsIn(flags)) && RawAddr(w) == addr
  {
    AddressAndFlagsSurviveIff(addr, flags, w);
    forall f: Flag ensures f in FlagsIn(w) <==> f in FlagsIn(flags) {
      BitOfOr(addr, flags, Pos(f));
      BitOfFrame(addr, Pos(f));
    }
  }

  lemma OrFits(addr: Frame, flags: u64)
    ensures BitOr(addr, flags) < U64
  {
    Pow2Constants();
    forall k: nat | k >= 64 ensures !Bit(BitOr(addr, flags), k) {
      BitOfOr(addr, flags, k);
      BitOfFrame(addr, k);
      BitOfWord(flags, k);
    }
    LowBitsBound(BitOr(addr, flags), 64);
  }

  /** The flags of a word are those of the entry, and where the address has bit 12 or 51 also
      these. */
  lemma ReportedFlags(w: u64)
    ensures FlagsIn(RawFlags(w)) == Decode(w).flags && IsFlags(RawFlags(w))
    ensures Bit(RawFlags(w), 12) <==> Bit(Decode(w).addr, 12)
    ensures Bit(RawFlags(w), 51) <==> Bit(Decode(w).addr, 51)
  {
    forall k: nat ensures Bit(RawFlags(w), k) <==> (k < 13 || 51 <= k < 64) && Bit(w, k) {
      BitOfFlags(w, k);
    }
    BitOfAddr(w, 12);
    BitOfAddr(w, 51);
  }

  class PageTableEntry {
    var entry: u64

    constructor ()
      ensures Decode(entry) == UNUSED
    {
      entry := 0;
      new;
      ZeroIsUnused(entry);
    }

    function IsUnused(): (r: bool)
      reads this
      ensures r <==> Decode(entry).IsUnused()
    {
      ZeroIsUnused(entry);
      entry == 0
    }

    method SetUnused()
      modifies this
      ensures Decode(entry) == UNUSED
    {
      entry := 0;
      ZeroIsUnused(entry);
    }

    function GetFlags(): (r: u64)
      reads this
      ensures FlagsIn(r) == Decode(entry).flags && IsFlags(r)
    {
      ReportedFlags(entry);
      RawFlags(entry)
    }

    function Addr(): (r: Frame)
      reads this
      ensures r == Decode(entry).addr
    {
      AddressFits(entry);
      RawAddr(entry)
    }

    /** `set_addr` and `set_frame`. */
    method SetAddr(addr: Frame, flags: u64)
      requires IsFlags(flags)
      modifies this
      ensures Clean(flags) ==> Decode(entry) == Entry(addr, FlagsIn(flags))
      ensures entry == BitOr(addr, flags)
    {
      OrFits(addr, flags);
      entry := BitOr(addr, flags);
      if Clean(flags) { CleanDecode(addr, flags, entry); }
    }

    method SetFlags(flags: u64)
      requires IsFlags(flags)
      modifies this
      ensures Clean(flags) ==> Decode(entry) == Entry(old(Decode(entry)).addr, FlagsIn(flags))
      ensures entry == BitOr(old(Addr()), flags)
    {
      var a := Addr();
      OrFits(a, flags);
      entry := BitOr(a, flags);
      if Clean(flags) { CleanDecode(a, flags, entry); }
    }

    /** What `create_next_table` does to an existing entry: `set_flags(flags() | insert_flags)` unless
        the flags are all there.  The address bits that `flags` reports go back to where they were. */
    method Widen(insert: u64)
      requires Clean(insert)
      modifies this
      ensures Decode(entry) == Entry(old(Decode(entry)).addr, old(Decode(entry)).flags + FlagsIn(insert))
    {
      var a, flags := Addr(), GetFlags();
      if insert != 0 && BitAnd(flags, insert) != insert {
        WidenedFlags(entry, insert);
        SetFlags(BitOr(flags, insert));
      } else {
        Contained(entry, insert);
      }
    }
  }

  lemma ZeroIsUnused(w: u64)
    ensures w == 0 <==> Decode(w).IsUnused()
    ensures w == 0 ==> Decode(w) == UNUSED
  {
    if w == 0 {
      forall k: nat ensures !Bit(0, k) { ZeroHasNoBits(k); }
      assert FlagsIn(0) == {};
    }
    if Decode(w).IsUnused() {
      EncodeDecode(w);
      forall k: nat ensures Bit(w, k) <==> Bit(0, k) {
        ZeroHasNoBits(k);
        BitOfEncoding(Decode(w), k);
      }
      SameWord(w, 0);
    }
  }

  /** Adding flags to the reported ones keeps the address and joins the flags. */
  lemma WidenedFlags(w: u64, insert: u64)
    requires Clean(insert)
    ensures var flags := BitOr(RawFlags(w), insert);
            && flags < U64 && IsFlags(flags) && BitOr(RawAddr(w), flags) < U64
            && Decode(BitOr(RawAddr(w), flags)) == Entry(Decode(w).addr, Decode(w).flags + FlagsIn(insert))
  {
    hide Bit, BitOr, BitAnd;
    var flags := BitOr(RawFlags(w), insert);
    Pow2Constants();
    forall k: nat
      ensures Bit(flags, k) <==> ((k < 13 || 51 <= k < 64) && Bit(w, k)) || Bit(insert, k)
    {
      BitOfOr(RawFlags(w), insert, k);
      BitOfFlags(w, k);
    }
    LowBitsBound(flags, 64);
    AddressFits(w);
    var a: Frame := RawAddr(w);
    OrFits(a, flags);
    var w' := BitOr(a, flags);
    BitOfAddr(w, 12);
    BitOfAddr(w, 51);
    AddressAndFlagsSurviveIff(a, flags, w');
    forall f: Flag ensures f in FlagsIn(w') <==> f in Decode(w).flags + FlagsIn(insert) {
      BitOfOr(a, flags, Pos(f));
      BitOfFrame(a, Pos(f));
    }
  }

  /** `contains` on the words is inclusion of the flags. */
  lemma Contained(w: u64, insert: u64)
    requires Clean(insert)
    ensures BitAnd(RawFlags(w), insert) == insert <==> FlagsIn(insert) <= Decode(w).flags
    ensures insert == 0 ==> FlagsIn(insert) == {}
  {
    ReportedFlags(w);
    forall k: nat ensures Bit(BitAnd(RawFlags(w), insert), k) <==> Bit(RawFlags(w), k) && Bit(insert, k) {
      BitOfAnd(RawFlags(w), insert, k);
    }
    if FlagsIn(insert) <= Decode(w).flags {
      forall k: nat | Bit(insert, k) ensures Bit(RawFlags(w), k) {
        assert FlagAt(k) in FlagsIn(insert);
        assert FlagAt(k) in FlagsIn(RawFlags(w));
      }
      SameWord(BitAnd(RawFlags(w), insert), insert);
    } else {
      var f :| f in FlagsIn(insert) && f !in Decode(w).flags;
      assert !Bit(RawFlags(w), Pos(f)) && Bit(insert, Pos(f));
    }
    if insert == 0 {
      forall k: nat ensures !Bit(0, k) { ZeroHasNoBits(k); }
    }
  }
}
