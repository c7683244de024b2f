/** Virtual addresses: canonical form, alignment, stepping and page-table indices.

`VirtAddr` is a 64-bit word whose bits 48..64 copy bit 47.  The ghost `Lin` numbers the
canonical addresses 0, 1, 2, ... in their order as words, skipping the hole in the middle of
the address space; every operation below is characterised by what it does to that rank.
 */
module Addr {
  import opened Wrappers
  import opened Bits

  const ADDRESS_SPACE_SIZE: nat := 0x1_0000_0000_0000

  /** Start of the upper canonical half. */
  const UPPER_HALF: nat := 0xffff_8000_0000_0000

  predicate Canonical(a: int) {
    0 <= a < 0x8000_0000_0000 || 0xffff_8000_0000_0000 <= a < 0x1_0000_0000_0000_0000
  }

  type VirtAddr = a: int |
      0 <= a < 0x8000_0000_0000 || 0xffff_8000_0000_0000 <= a < 0x1_0000_0000_0000_0000

  /** The rank of a canonical address. */
  function Lin(a: VirtAddr): (n: nat)
    ensures n < ADDRESS_SPACE_SIZE
  {
    a % ADDRESS_SPACE_SIZE
  }

  /** The canonical address of a rank. */
  function FromLin(n: nat): (a: VirtAddr)
    requires n < ADDRESS_SPACE_SIZE
  {
    if n < 0x8000_0000_0000 then n else n + (UPPER_HALF - 0x8000_0000_0000)
  }

  /** `Lin` and `FromLin` are inverse order isomorphisms. */
  lemma LinIsIso(a: VirtAddr, b: VirtAddr, n: nat)
    requires n < ADDRESS_SPACE_SIZE
    ensures FromLin(Lin(a)) == a && Lin(FromLin(n)) == n
    ensures a <= b <==> Lin(a) <= Lin(b)
    ensures a == b <==> Lin(a) == Lin(b)
  {
    LinParts(a);
    LinParts(b);
  }

  lemma LinParts(a: VirtAddr)
    ensures Lin(a) == if a < 0x8000_0000_0000 then a else a - (UPPER_HALF - 0x8000_0000_0000)
  {
    if a >= 0x8000_0000_0000 {
      DivIs(a, ADDRESS_SPACE_SIZE, 0xffff, a - 0xffff * ADDRESS_SPACE_SIZE);
    }
  }

  // ---------------------------------------------------------------- construction

  /** `((addr << 16) as i64 >> 16) as u64`. */
  function NewTruncate(addr: u64): (r: int)
    ensures Canonical(r)
  {
    var shl := addr * 0x1_0000 % U64;
    var signed := if shl < 0x8000_0000_0000_0000 then shl else shl - U64;
    var sar := signed / 0x1_0000;
    if sar < 0 then sar + U64 else sar
  }

  /** Truncation keeps exactly the low 48 bits and sign-extends them. */
  lemma NewTruncateKeepsRank(addr: u64)
    ensures NewTruncate(addr) == FromLin(addr % ADDRESS_SPACE_SIZE)
  {
    var q, r := addr / ADDRESS_SPACE_SIZE, addr % ADDRESS_SPACE_SIZE;
    assert addr * 0x1_0000 == U64 * q + r * 0x1_0000;
    DivIs(addr * 0x1_0000, U64, q, r * 0x1_0000);
  }

  function TryNew(addr: u64): Result<VirtAddr, u64> {
    var v := NewTruncate(addr);
    if v == addr then Ok(v) else Err(addr)
  }

  /** `try_new` accepts exactly the canonical words and returns them unchanged. */
  lemma TryNewAcceptsCanonical(addr: u64)
    ensures Canonical(addr) <==> TryNew(addr).Ok?
    ensures TryNew(addr) == if Canonical(addr) then Ok(addr) else Err(addr)
  {
    NewTruncateKeepsRank(addr);
    if Canonical(addr) {
      LinIsIso(addr, addr, 0);
    }
  }

  function CheckedAdd(a: u64, b: u64): Option<u64> {
    if a + b < U64 then Some(a + b) else None
  }

  function CheckedSub(a: u64, b: u64): Option<u64> {
    if a >= b then Some(a - b) else None
  }

  /** `addr + n`; `None` stands for the panic of the source. */
  function Plus(a: VirtAddr, n: u64): Option<VirtAddr> {
    match CheckedAdd(a, n)
    case None => None
    case Some(s) => (match TryNew(s) case Ok(v) => Some(v) case Err(_) => None)
  }

  function Minus(a: VirtAddr, n: u64): Option<VirtAddr> {
    match CheckedSub(a, n)
    case None => None
    case Some(s) => (match TryNew(s) case Ok(v) => Some(v) case Err(_) => None)
  }

  lemma PlusIs(a: VirtAddr, n: u64)
    ensures Plus(a, n) == if Canonical(a + n) then Some(a + n) else None
  {
    if a + n < U64 { TryNewAcceptsCanonical(a + n); }
  }

  lemma MinusIs(a: VirtAddr, n: u64)
    ensures Minus(a, n) == if Canonical(a - n) then Some(a - n) else None
  {
    if a >= n { TryNewAcceptsCanonical(a - n); }
  }

  // ---------------------------------------------------------------- stepping

  function StepsBetween(start: VirtAddr, end: VirtAddr): Option<u64> {
    match CheckedSub(end, start)
    case None => None
    case Some(steps) => Some(steps % ADDRESS_SPACE_SIZE)   // steps & 0xffff_ffff_ffff
  }

  function ForwardChecked(start: VirtAddr, count: u64): Option<VirtAddr> {
    if count > ADDRESS_SPACE_SIZE then None
    else
      match CheckedAdd(start, count)
      case None => None
      case Some(addr) =>
        var top := addr / 0x8000_0000_0000;                // addr.get_bits(47..)
        if top == 1 then Some(addr % 0x8000_0000_0000 + 0x1ffff * 0x8000_0000_0000)
        else if top == 2 then None
        else Some(addr)
  }

  function BackwardChecked(start: VirtAddr, count: u64): Option<VirtAddr> {
    if count > ADDRESS_SPACE_SIZE then None
    else
      match CheckedSub(start, count)
      case None => None
      case Some(addr) =>
        var top := addr / 0x8000_0000_0000;
        if top == 0x1fffe then Some(addr % 0x8000_0000_0000)
        else if top == 0x1fffd then None
        else Some(addr)
  }

  /** The mask in `StepsBetween` is the bitwise one of the source. */
  lemma StepMaskIsBitwise(steps: u64)
    ensures BitAnd(steps, 0xffff_ffff_ffff) == steps % ADDRESS_SPACE_SIZE
  {
    Pow2Constants();
    AndLowMask(steps, 48);
  }

  /** Stepping forward adds to the rank, and fails exactly when the rank would leave the space. */
  lemma ForwardIsRankAddition(start: VirtAddr, count: u64)
    ensures ForwardChecked(start, count)
         == if Lin(start) + count < ADDRESS_SPACE_SIZE then Some(FromLin(Lin(start) + count)) else None
  {
    LinParts(start);
  }

  /** Stepping backward subtracts from the rank, and fails exactly when the rank would be negative. */
  lemma BackwardIsRankSubtraction(start: VirtAddr, count: u64)
    ensures BackwardChecked(start, count)
         == if count <= Lin(start) then Some(FromLin(Lin(start) - count)) else None
  {
    LinParts(start);
  }

  lemma StepsBetweenIsRankDifference(start: VirtAddr, end: VirtAddr)
    ensures StepsBetween(start, end) == if start <= end then Some(Lin(end) - Lin(start)) else None
  {
    LinParts(start);
    LinParts(end);
    LinIsIso(start, end, 0);
    if start < 0x8000_0000_0000 && end >= 0x8000_0000_0000 {
      DivIs(end - start, ADDRESS_SPACE_SIZE, 0xffff, Lin(end) - Lin(start));
    }
  }

  /** Steps compose, are undone by stepping back, and are measured by `StepsBetween`. */
  lemma ForwardComposes(a: VirtAddr, m: u64, n: u64)
    requires m + n < U64 && ForwardChecked(a, m).Some?
    ensures var b := ForwardChecked(a, m).value;
            && BackwardChecked(b, m) == Some(a)
            && StepsBetween(a, b) == Some(m)
            && ForwardChecked(b, n) == ForwardChecked(a, m + n)
  {
    ForwardIsRankAddition(a, m);
    ForwardIsRankAddition(a, m + n);
    var b := ForwardChecked(a, m).value;
    LinIsIso(a, b, Lin(a) + m);
    BackwardIsRankSubtraction(b, m);
    StepsBetweenIsRankDifference(a, b);
    ForwardIsRankAddition(b, n);
  }

  lemma BackwardComposes(a: VirtAddr, m: u64, n: u64)
    requires m + n < U64 && BackwardChecked(a, m).Some?
    ensures var b := BackwardChecked(a, m).value;
            && ForwardChecked(b, m) == Some(a)
            && StepsBetween(b, a) == Some(m)
            && BackwardChecked(b, n) == BackwardChecked(a, m + n)
  {
    BackwardIsRankSubtraction(a, m);
    BackwardIsRankSubtraction(a, m + n);
    var b := BackwardChecked(a, m).value;
    LinIsIso(a, b, Lin(a) - m);
    ForwardIsRankAddition(b, m);
    StepsBetweenIsRankDifference(b, a);
    BackwardIsRankSubtraction(b, n);
  }

  // ---------------------------------------------------------------- alignment

  /** `is_power_of_two` for a 64-bit word. */
  predicate IsPowerOfTwo(align: u64) {
    exists k: nat :: k < 64 && align == Pow2(k)
  }

  function AlignDown(addr: u64, align: u64): nat
    requires IsPowerOfTwo(align)
  {
    BitAnd(addr, U64 - 1 - (align - 1))
  }

  /** `None` is the overflow panic. */
  function AlignUp(addr: u64, align: u64): Option<u64>
    requires IsPowerOfTwo(align)
  {
    if BitAnd(addr, align - 1) == 0 then Some(addr)
    else
      var filled := BitOr(addr, align - 1);
      if filled + 1 < U64 then Some(filled + 1) else None
  }

  lemma Pow2Below64(k: nat)
    requires k < 64
    ensures Pow2(k) < U64 && Pow2(k) * Pow2(64 - k) == U64
  {
    Pow2Constants();
    Pow2Add(k, 64 - k);
    assert Pow2(64 - k) == 2 * Pow2(63 - k);
    Apart(Pow2(k), 1, Pow2(64 - k));
  }

  lemma MaskOf(k: nat)
    requires k < 64
    ensures 0 < Pow2(k) < U64
    ensures (Pow2(64 - k) - 1) * Pow2(k) == U64 - Pow2(k)
  {
    Pow2Below64(k);
    Distribute(Pow2(64 - k), Pow2(k));
  }

  lemma Distribute(x: int, p: int)
    ensures (x - 1) * p == p * x - p
  {
  }

  /** The bitwise `align_down` is arithmetic rounding down. */
  lemma AlignDownIsFloor(addr: u64, align: u64)
    requires IsPowerOfTwo(align)
    ensures AlignDown(addr, align) == addr - addr % align
  {
    var k: nat :| k < 64 && align == Pow2(k);
    assert AlignDown(addr, align) == (addr / align % Pow2(64 - k)) * align by {
      MaskOf(k);
      AndField(addr, 64 - k, k, U64 - align);
    }
    assert addr < align * Pow2(64 - k) by { Pow2Below64(k); }
    WholeField(addr, align, Pow2(64 - k));
  }

  lemma WholeField(a: nat, d: nat, n: nat)
    requires d > 0 && n > 0 && a < d * n
    ensures (a / d % n) * d == a - a % d
  {
    QuotientBelow(a, d, n);
    SmallMod(a / d, n);
    Floor(a, d);
  }

  lemma SmallMod(x: nat, n: nat)
    requires x < n
    ensures x % n == x
  {
  }

  lemma Floor(a: nat, d: nat)
    requires d > 0
    ensures a / d * d == a - a % d
    ensures a == d * (a / d) + a % d
  {
  }

  /** No multiple of `d` lies strictly between the floor of `a` and the next multiple. */
  lemma MultipleBelow(x: nat, d: nat, a: nat)
    requires d > 0 && x % d == 0
    ensures x <= a ==> x <= a - a % d
    ensures a < x ==> a - a % d + d <= x
  {
    Floor(x, d);
    Floor(a, d);
    if x / d > a / d {
      Apart(d, a / d, x / d);
    } else {
      Mono(d, x / d, a / d);
    }
  }

  lemma QuotientBelow(a: nat, d: nat, n: nat)
    requires d > 0 && a < d * n
    ensures a / d < n
  {
    assert a == d * (a / d) + a % d;
    if a / d >= n {
      Mono(d, n, a / d);
    }
  }

  lemma Mono(d: nat, q: int, q': int)
    requires q <= q'
    ensures d * q <= d * q'
  {
    if q < q' && d > 0 { Apart(d, q, q'); }
  }

  /** `align_down` is the greatest aligned value not above `addr`. */
  lemma AlignDownIsGreatest(addr: u64, align: u64, x: nat)
    requires IsPowerOfTwo(align)
    ensures AlignDown(addr, align) <= addr && AlignDown(addr, align) % align == 0
    ensures x % align == 0 && x <= addr ==> x <= AlignDown(addr, align)
  {
    AlignDownIsFloor(addr, align);
    PreviousMultiple(addr, align);
    if x % align == 0 && x <= addr {
      MultipleBelow(x, align, addr);
    }
  }

  /** What `align_up` computes, as arithmetic. */
  lemma AlignUpIsCeiling(addr: u64, align: u64)
    requires IsPowerOfTwo(align)
    ensures AlignUp(addr, align) ==
            if addr % align == 0 then Some(addr)
            else if addr - addr % align + align < U64 then Some(addr - addr % align + align)
            else None
  {
    var k: nat :| k < 64 && align == Pow2(k);
    AndLowMask(addr, k);
    OrLowMask(addr, k);
  }

  /** `align_up` is the least aligned value not below `addr`; it panics exactly when that value
      does not fit in a word. */
  lemma AlignUpIsLeast(addr: u64, align: u64, x: nat)
    requires IsPowerOfTwo(align)
    ensures AlignUp(addr, align).Some? ==>
              var r := AlignUp(addr, align).value;
              && addr <= r && r % align == 0 && r < addr + align
              && (x % align == 0 && addr <= x ==> r <= x)
    ensures AlignUp(addr, align).None? && x % align == 0 && addr <= x ==> x >= U64
  {
    AlignUpIsCeiling(addr, align);
    if addr % align != 0 {
      NextMultiple(addr, align);
      if x % align == 0 && addr <= x {
        MultipleBelow(x, align, addr);
      }
    }
  }

  lemma PreviousMultiple(a: nat, d: nat)
    requires d > 0
    ensures (a - a % d) % d == 0
  {
    Floor(a, d);
    DivIs(d * (a / d), d, a / d, 0);
  }

  lemma NextMultiple(a: nat, d: nat)
    requires d > 0
    ensures (a - a % d + d) % d == 0
  {
    Floor(a, d);
    assert d * (a / d) + d == d * (a / d + 1);
    DivIs(d * (a / d + 1), d, a / d + 1, 0);
  }

  function VirtAlignDown(a: VirtAddr, align: u64): VirtAddr
    requires IsPowerOfTwo(align)
  {
    AlignDownIsGreatest(a, align, 0);
    NewTruncate(AlignDown(a, align))
  }

  /** `None` is the overflow panic. */
  function VirtAlignUp(a: VirtAddr, align: u64): Option<VirtAddr>
    requires IsPowerOfTwo(align)
  {
    match AlignUp(a, align)
    case None => None
    case Some(r) => Some(NewTruncate(r))
  }

  /** `VirtAddr::align_down` rounds the rank down, for every power of two. */
  lemma VirtAlignDownIsRankFloor(a: VirtAddr, align: u64)
    requires IsPowerOfTwo(align)
    ensures Lin(VirtAlignDown(a, align)) == Lin(a) - Lin(a) % align
  {
    AlignDownIsFloor(a, align);
    NewTruncateKeepsRank(AlignDown(a, align));
    var r := AlignDown(a, align);
    LinIsIso(a, a, r % ADDRESS_SPACE_SIZE);
    RankFloor(a, align);
  }

  lemma RankFloor(a: u64, align: u64)
    requires IsPowerOfTwo(align)
    ensures (a - a % align) % ADDRESS_SPACE_SIZE
         == a % ADDRESS_SPACE_SIZE - a % ADDRESS_SPACE_SIZE % align
  {
    var k: nat :| k < 64 && align == Pow2(k);
    Pow2Constants();
    if k <= 48 {
      Pow2Add(k, 48 - k);
      ModMod(a, align, Pow2(48 - k));
      FloorWithin(a, align);
    } else {
      Pow2Add(48, k - 48);
      BigFloor(a, Pow2(k - 48), align);
    }
  }

  lemma FloorWithin(a: nat, d: nat)
    requires d > 0 && a % ADDRESS_SPACE_SIZE % d == a % d
    ensures (a - a % d) % ADDRESS_SPACE_SIZE
         == a % ADDRESS_SPACE_SIZE - a % ADDRESS_SPACE_SIZE % d
  {
    var n, q, r := a % ADDRESS_SPACE_SIZE, a / ADDRESS_SPACE_SIZE, a % d;
    assert r <= n by { Floor(n, d); AtLeastZero(n / d, d); }
    DivIs(a - r, ADDRESS_SPACE_SIZE, q, n - r);
  }

  lemma BigFloor(a: nat, m: nat, d: nat)
    requires m > 0 && d == ADDRESS_SPACE_SIZE * m
    ensures (a - a % d) % ADDRESS_SPACE_SIZE
         == a % ADDRESS_SPACE_SIZE - a % ADDRESS_SPACE_SIZE % d == 0
  {
    Floor(a, d);
    assert d * (a / d) == ADDRESS_SPACE_SIZE * (m * (a / d));
    DivIs(d * (a / d), ADDRESS_SPACE_SIZE, m * (a / d), 0);
    SmallMod(a % ADDRESS_SPACE_SIZE, d);
  }

  lemma ModMod(a: nat, d: nat, m: nat)
    requires d > 0 && m > 0 && d * m > 0
    ensures a % (d * m) % d == a % d
  {
    var q, r := a / (d * m), a % (d * m);
    Floor(a, d * m);
    Floor(r, d);
    assert d * m * q == d * (m * q);
    assert a == d * (m * q + r / d) + r % d;
    DivIs(a, d, m * q + r / d, r % d);
  }

  /** `VirtAddr::align_up` returns the least canonical aligned address at or above its argument
      exactly for alignments up to 2^47 or a zero address.  For a larger alignment and any
      other address the result is address 0, below the argument. */
  lemma VirtAlignUpIsLeastIff(a: VirtAddr, align: u64)
    requires IsPowerOfTwo(align) && VirtAlignUp(a, align).Some?
    ensures (align <= 0x8000_0000_0000 || a == 0) <==>
              var r := VirtAlignUp(a, align).value;
              && a <= r && r % align == 0
              && forall x: VirtAddr :: x % align == 0 && a <= x ==> r <= x
  {
    hide NewTruncate, AlignUp;
    if align <= 0x8000_0000_0000 {
      var r := VirtAlignUp(a, align).value;
      forall x: VirtAddr | x % align == 0 && a <= x ensures r <= x { SmallAlignment(a, align, x); }
      SmallAlignment(a, align, 0);
    } else if a != 0 {
      LargeAlignment(a, align);
    } else {
      AlignUpIsCeiling(0, align);
      NewTruncateKeepsRank(0);
    }
  }

  /** Up to 2^47 an alignment divides both ends of the hole, so rounding up stops at them. */
  lemma SmallAlignment(a: VirtAddr, align: u64, x: VirtAddr)
    requires IsPowerOfTwo(align) && align <= 0x8000_0000_0000 && VirtAlignUp(a, align).Some?
    ensures var r := VirtAlignUp(a, align).value;
            && a <= r && r % align == 0
            && (x % align == 0 && a <= x ==> r <= x)
  {
    hide NewTruncate, AlignUp, IsPowerOfTwo;
    var r0 := AlignUp(a, align).value;
    HalfIsAligned(align);
    AlignUpIsLeast(a, align, 0x8000_0000_0000);
    AlignUpIsLeast(a, align, UPPER_HALF);
    AlignUpIsLeast(a, align, x);
    NewTruncateKeepsRank(r0);
    SkipsHole(r0);
  }

  /** Truncating a word moves it to the canonical address of its rank: the start of the hole goes
      to the start of the upper half. */
  lemma SkipsHole(w: u64)
    requires Canonical(w) || w == 0x8000_0000_0000
    ensures FromLin(w % ADDRESS_SPACE_SIZE) == if Canonical(w) then w else UPPER_HALF
  {
    if Canonical(w) { LinIsIso(w, w, 0); }
  }

  lemma HalfIsAligned(align: u64)
    requires IsPowerOfTwo(align) && align <= 0x8000_0000_0000
    ensures 0x8000_0000_0000 % align == 0 && UPPER_HALF % align == 0
  {
    var k: nat :| k < 64 && align == Pow2(k);
    Pow2Constants();
    if k > 47 {
      Pow2Add(48, k - 48);
    } else {
      Pow2Add(k, 47 - k);
      Divides(align, Pow2(47 - k));
    }
  }

  lemma Divides(d: nat, m: nat)
    requires d > 0 && d * m == 0x8000_0000_0000
    ensures 0x8000_0000_0000 % d == 0 && UPPER_HALF % d == 0
  {
    DivIs(0x8000_0000_0000, d, m, 0);
    assert d * (0x1ffff * m) == 0x1ffff * (d * m);
    DivIs(UPPER_HALF, d, 0x1ffff * m, 0);
  }

  lemma LargeAlignment(a: VirtAddr, align: u64)
    requires IsPowerOfTwo(align) && align > 0x8000_0000_0000 && a != 0
    requires AlignUp(a, align).Some?
    ensures NewTruncate(AlignUp(a, align).value) == 0
  {
    hide NewTruncate, AlignUp;
    var m := LargePower(align);
    var r0 := AlignUp(a, align).value;
    AlignUpIsLeast(a, align, 0);
    BigFloor(r0, m, align);
    NewTruncateKeepsRank(r0);
  }

  lemma LargePower(align: u64) returns (m: nat)
    requires IsPowerOfTwo(align) && align > 0x8000_0000_0000
    ensures m > 0 && align == ADDRESS_SPACE_SIZE * m
  {
    hide Pow2;
    var k: nat :| k < 64 && align == Pow2(k);
    Pow2Constants();
    if k < 48 { Pow2Grows(k, 47); }
    Pow2Add(48, k - 48);
    m := Pow2(k - 48);
  }

  lemma {:induction false} Pow2Grows(k: nat, n: nat)
    requires k <= n
    ensures Pow2(k) <= Pow2(n)
    decreases n
  {
    if k < n { Pow2Grows(k, n - 1); }
  }

  /** For alignments up to 2^47 rounding a canonical address down never leaves its half. */
  lemma VirtAlignDownIsFloor(a: VirtAddr, align: u64)
    requires IsPowerOfTwo(align) && align <= 0x8000_0000_0000
    ensures VirtAlignDown(a, align) == a - a % align
    ensures VirtAlignDown(a, align) % align == 0
  {
    HalfIsAligned(align);
    AlignDownIsFloor(a, align);
    AlignDownIsGreatest(a, align, UPPER_HALF);
    TryNewAcceptsCanonical(AlignDown(a, align));
  }
}
