/** Bitwise operators on unsigned words, modelled on natural numbers.

A 64-bit word is a natural number below `U64`.  The operators are defined bit by bit, so
they mean what `&`, `|`, `<<` and `>>` mean in the source, and the lemmas connect them with
the arithmetic (`/`, `%`, `+`) in which the rest of the model reasons.
 */
module Bits {

  const U64: nat := 0x1_0000_0000_0000_0000

  type u64 = x: int | 0 <= x < 0x1_0000_0000_0000_0000

  /** Bit `k` of `a`. */
  predicate Bit(a: nat, k: nat)
    decreases k
  {
    if k == 0 then a % 2 == 1 else Bit(a / 2, k - 1)
  }

  function BitAnd(a: nat, b: nat): nat {
    if a == 0 || b == 0 then 0
    else 2 * BitAnd(a / 2, b / 2) + (if a % 2 == 1 && b % 2 == 1 then 1 else 0)
  }

  function BitOr(a: nat, b: nat): nat
    decreases a + b
  {
    if a == 0 then b else if b == 0 then a
    else 2 * BitOr(a / 2, b / 2) + (if a % 2 == 1 || b % 2 == 1 then 1 else 0)
  }

  function Pow2(k: nat): (p: nat)
    ensures p > 0
  {
    if k == 0 then 1 else 2 * Pow2(k - 1)
  }

  /** `a >> k`. */
  function Shr(a: nat, k: nat): nat
    decreases k
  {
    if k == 0 then a else Shr(a / 2, k - 1)
  }

  /** `a << k`, on an unbounded word. */
  function Shl(a: nat, k: nat): nat {
    if k == 0 then a else 2 * Shl(a, k - 1)
  }

  lemma ZeroHasNoBits(k: nat)
    ensures !Bit(0, k)
  {
    if k > 0 { ZeroHasNoBits(k - 1); }
  }

  lemma {:induction false} BitOfAnd(a: nat, b: nat, k: nat)
    ensures Bit(BitAnd(a, b), k) <==> Bit(a, k) && Bit(b, k)
    decreases k
  {
    ZeroHasNoBits(k);
    if a != 0 && b != 0 && k > 0 {
      BitOfAnd(a / 2, b / 2, k - 1);
    }
  }

  lemma {:induction false} BitOfOr(a: nat, b: nat, k: nat)
    ensures Bit(BitOr(a, b), k) <==> Bit(a, k) || Bit(b, k)
    decreases k
  {
    ZeroHasNoBits(k);
    if a != 0 && b != 0 && k > 0 {
      BitOfOr(a / 2, b / 2, k - 1);
    }
  }

  /** A word is determined by its bits. */
  lemma {:induction false} SameBits(a: nat, b: nat)
    requires forall k: nat :: Bit(a, k) <==> Bit(b, k)
    ensures a == b
    decreases a + b
  {
    assert Bit(a, 0) <==> Bit(b, 0);
    if a + b > 0 {
      forall k: nat
        ensures Bit(a / 2, k) <==> Bit(b / 2, k)
      {
        assert Bit(a, k + 1) <==> Bit(b, k + 1);
      }
      if a / 2 + b / 2 < a + b {
        SameBits(a / 2, b / 2);
      }
    }
  }

  lemma {:induction false} BitOfPow2(k: nat, j: nat)
    ensures Bit(Pow2(k), j) <==> j == k
    decreases k
  {
    if k > 0 && j > 0 {
      BitOfPow2(k - 1, j - 1);
    } else if k == 0 && j > 0 {
      ZeroHasNoBits(j - 1);
    }
  }

  lemma {:induction false} AndAtMost(a: nat, b: nat)
    ensures BitAnd(a, b) <= a
    decreases a
  {
    if a != 0 && b != 0 {
      AndAtMost(a / 2, b / 2);
    }
  }

  /** A number below 2^n has no bit at or above n. */
  lemma {:induction false} HighBitsClear(a: nat, n: nat, k: nat)
    requires a < Pow2(n) && n <= k
    ensures !Bit(a, k)
    decreases n
  {
    if n == 0 {
      ZeroHasNoBits(k);
    } else {
      HighBitsClear(a / 2, n - 1, k - 1);
    }
  }

  /** Bit `j` of `a << k`. */
  lemma {:induction false} BitOfShl(a: nat, k: nat, j: nat)
    ensures Bit(a * Pow2(k), j) <==> k <= j && Bit(a, j - k)
    decreases k
  {
    if k > 0 {
      assert a * Pow2(k) == 2 * (a * Pow2(k - 1));
      if j > 0 {
        BitOfShl(a, k - 1, j - 1);
      }
    }
  }

  /** Halving first and dividing by `p` then is dividing by `2 * p`. */
  lemma HalveFirst(a: nat, p: nat)
    requires p > 0
    ensures a / (2 * p) == a / 2 / p
    ensures a % (2 * p) == 2 * (a / 2 % p) + a % 2
  {
    var q, r := a / 2 / p, a / 2 % p;
    assert a / 2 == p * q + r;
    assert (2 * p) * q == 2 * (p * q);
    DivIs(a, 2 * p, q, 2 * r + a % 2);
  }

  lemma {:induction false} ShrIsDivision(a: nat, k: nat)
    ensures Shr(a, k) == a / Pow2(k)
    decreases k
  {
    if k > 0 {
      ShrIsDivision(a / 2, k - 1);
      HalveFirst(a, Pow2(k - 1));
    }
  }

  lemma {:induction false} ShlIsProduct(a: nat, k: nat)
    ensures Shl(a, k) == a * Pow2(k)
  {
    if k > 0 {
      ShlIsProduct(a, k - 1);
      Reorder(a, Pow2(k - 1));
    }
  }

  /** Quotient and remainder are unique. */
  lemma DivIs(a: int, d: int, q: int, r: int)
    requires d > 0 && 0 <= r < d && a == d * q + r
    ensures a / d == q && a % d == r
  {
    DivUnique(a, d, a / d, a % d, q, r);
  }

  lemma DivUnique(a: int, d: int, q: int, r: int, q': int, r': int)
    requires 0 <= r < d && 0 <= r' < d && a == d * q + r && a == d * q' + r'
    ensures q == q' && r == r'
  {
    if q < q' {
      Apart(d, q, q');
    } else if q' < q {
      Apart(d, q', q);
    }
  }

  lemma Apart(d: int, q: int, q': int)
    requires d > 0 && q < q'
    ensures d * q' >= d * q + d
  {
    AtLeast(d, q' - q - 1);
    assert d * q' == d * q + d + d * (q' - q - 1);
  }

  lemma AtLeast(d: int, k: int)
    requires d > 0 && k >= 0
    ensures d * k >= 0
  {
  }

  lemma AndOdd(a: nat, b: nat)
    ensures BitAnd(a, 2 * b + 1) == 2 * BitAnd(a / 2, b) + a % 2
  {
    assert (2 * b + 1) / 2 == b && (2 * b + 1) % 2 == 1;
  }

  lemma OrOdd(a: nat, b: nat)
    ensures BitOr(a, 2 * b + 1) == 2 * BitOr(a / 2, b) + 1
  {
    assert (2 * b + 1) / 2 == b && (2 * b + 1) % 2 == 1;
  }

  lemma OrEven(x: nat, lo: nat)
    ensures BitOr(2 * x, lo) == 2 * BitOr(x, lo / 2) + lo % 2
    ensures BitOr(lo, 2 * x) == 2 * BitOr(lo / 2, x) + lo % 2
  {
    assert (2 * x) / 2 == x && (2 * x) % 2 == 0;
  }

  /** `a & (2^k - 1)` keeps the low `k` bits. */
  lemma {:induction false} AndLowMask(a: nat, k: nat)
    ensures BitAnd(a, Pow2(k) - 1) == a % Pow2(k)
    decreases k
  {
    if k > 0 {
      var p := Pow2(k - 1);
      AndLowMask(a / 2, k - 1);
      AndOdd(a, p - 1);
      HalveFirst(a, p);
    }
  }

  lemma AndEven(a: nat, b: nat)
    ensures BitAnd(a, 2 * b) == 2 * BitAnd(a / 2, b)
  {
    if a != 0 && b != 0 {
      assert (2 * b) / 2 == b && (2 * b) % 2 == 0;
    }
  }

  /** `a & (mask << s)`, for a field of `n` bits starting at bit `s`. */
  lemma {:induction false} AndField(a: nat, n: nat, s: nat, mask: nat)
    requires mask == (Pow2(n) - 1) * Pow2(s)
    ensures BitAnd(a, mask) == (a / Pow2(s) % Pow2(n)) * Pow2(s)
    decreases s
  {
    if s == 0 {
      AndLowMask(a, n);
    } else {
      var p, m := Pow2(s - 1), Pow2(n) - 1;
      Reorder(m, p);
      AtLeast(p, m);
      assert m * p == p * m;
      AndField(a / 2, n, s - 1, m * p);
      HalveFirst(a, p);
      AndEven(a, m * p);
      Reorder(a / 2 / p % Pow2(n), p);
    }
  }

  lemma Reorder(x: int, p: int)
    ensures x * (2 * p) == 2 * (x * p)
  {
  }

  /** `hi << k | lo`, where `lo` fits below bit `k`, is their sum. */
  lemma {:induction false} OrDisjoint(hi: nat, k: nat, lo: nat)
    requires lo < Pow2(k)
    ensures BitOr(hi * Pow2(k), lo) == hi * Pow2(k) + lo
    ensures BitOr(lo, hi * Pow2(k)) == hi * Pow2(k) + lo
    decreases k
  {
    if k > 0 {
      var p := Pow2(k - 1);
      Reorder(hi, p);
      OrDisjoint(hi, k - 1, lo / 2);
      AtLeastZero(hi, p);
      OrEven(hi * p, lo);
    }
  }

  lemma AtLeastZero(x: nat, d: nat)
    ensures x * d >= 0 && d * x >= 0
  {
  }

  /** `a | (2^k - 1)` sets the low `k` bits. */
  lemma {:induction false} OrLowMask(a: nat, k: nat)
    ensures BitOr(a, Pow2(k) - 1) == a - a % Pow2(k) + Pow2(k) - 1
    decreases k
  {
    hide BitOr;
    if k == 0 {
      OrZero(a);
    } else {
      OrLowMask(a / 2, k - 1);
      OrStep(a, Pow2(k - 1));
    }
  }

  lemma OrZero(a: nat)
    ensures BitOr(a, 0) == a && BitOr(0, a) == a
  {
  }

  lemma OrStep(a: nat, p: nat)
    requires p > 0 && BitOr(a / 2, p - 1) == a / 2 - a / 2 % p + p - 1
    ensures BitOr(a, 2 * p - 1) == a - a % (2 * p) + 2 * p - 1
  {
    hide BitOr;
    OrOdd(a, p - 1);
    HalveFirst(a, p);
  }

  lemma Pow2Add(a: nat, b: nat)
    ensures Pow2(a + b) == Pow2(a) * Pow2(b)
  {
    if a > 0 {
      Pow2Add(a - 1, b);
      assert Pow2(a + b) == 2 * (Pow2(a - 1) * Pow2(b));
    }
  }

  lemma Pow2Constants()
    ensures Pow2(12) == 0x1000 && Pow2(21) == 0x20_0000 && Pow2(30) == 0x4000_0000
    ensures Pow2(9) == 512 && Pow2(39) == 0x80_0000_0000 && Pow2(40) == 0x100_0000_0000
    ensures Pow2(47) == 0x8000_0000_0000 && Pow2(48) == 0x1_0000_0000_0000
    ensures Pow2(51) == 0x8_0000_0000_0000
    ensures Pow2(52) == 0x10_0000_0000_0000 && Pow2(64) == U64
  {
  }
}
