/**
 * Unsigned 32-bit arithmetic of the .NET runtime (System.UInt32, System.Byte, and the
 * non-negative System.Int64 values the IPv4 helpers compute with), modelled on
 * unbounded integers. The operators `&`, `|`, `~`, `<<` and `>>` are defined bit by
 * bit (halving and doubling), and the laws the IP code relies on are proved here.
 */
module Bits {

  /** 2^32, the number of System.UInt32 values. */
  const TwoTo32: int := 0x1_0000_0000
  /** System.UInt32.MaxValue, 0xffffffff. */
  const AllOnes: int := 0xffff_ffff

  /** A System.UInt32 value. */
  type uint = x: int | 0 <= x < 0x1_0000_0000
  /** A System.Byte value. */
  type byte = x: int | 0 <= x < 0x100

  function Pow2(k: nat): (r: nat)
    ensures r >= 1
  {
    if k == 0 then 1 else 2 * Pow2(k - 1)
  }

  lemma {:induction false} Pow2Plus8(k: nat)
    ensures Pow2(k + 8) == 256 * Pow2(k)
  {
    if k > 0 {
      Pow2Plus8(k - 1);
      assert Pow2(k + 8) == 2 * Pow2(k - 1 + 8);
    } else {
      assert Pow2(4) == 16;
      assert Pow2(8) == 256;
    }
  }

  /** The powers of two the 32-bit code names by their values. */
  lemma Pow2Values()
    ensures Pow2(8) == 0x100 && Pow2(16) == 0x1_0000 && Pow2(24) == 0x100_0000
    ensures Pow2(32) == TwoTo32
  {
    Pow2Plus8(8);
    Pow2Plus8(16);
    Pow2Plus8(24);
  }

  lemma {:induction false} Pow2Monotone(a: nat, b: nat)
    requires a <= b
    ensures Pow2(a) <= Pow2(b)
  {
    if a < b {
      Pow2Monotone(a, b - 1);
    }
  }

  /** `x << k` on unbounded integers. */
  function Shl(x: nat, k: nat): nat
  {
    if k == 0 then x else 2 * Shl(x, k - 1)
  }

  /** `x >> k` on unbounded integers. */
  function Shr(x: nat, k: nat): nat
  {
    if k == 0 then x else Shr(x / 2, k - 1)
  }

  /** `(x >> k) << k`: `x` with its low `k` bits cleared. */
  function ClearLow(x: nat, k: nat): nat
  {
    Shl(Shr(x, k), k)
  }

  /** The `&` operator on non-negative integers, bit by bit from the lowest bit. */
  function And(a: nat, b: nat): (r: nat)
    ensures r <= a && r <= b
  {
    if a == 0 || b == 0 then 0
    else 2 * And(a / 2, b / 2) + (if a % 2 == 1 && b % 2 == 1 then 1 else 0)
  }

  /** The `|` operator on non-negative integers, bit by bit from the lowest bit. */
  function Or(a: nat, b: nat): (r: nat)
    ensures a <= r && b <= r && r <= a + b
  {
    if a == 0 then b
    else if b == 0 then a
    else 2 * Or(a / 2, b / 2) + (if a % 2 == 1 || b % 2 == 1 then 1 else 0)
  }

  /** The `~` operator on System.UInt32. */
  function Not(x: uint): (r: uint)
    ensures And(x, r) == 0 && Or(x, r) == AllOnes
  {
    Pow2Values();
    ComplementBits(x, 32);
    AllOnes - x
  }

  /**
   * The `<<` operator on System.UInt32: the runtime uses only the low five bits of the
   * count, and bits shifted past bit 31 are lost.
   */
  function ShiftLeft(x: uint, count: nat): (r: uint)
    ensures count % 32 == 0 ==> r == x
  {
    Shl(x, count % 32) % TwoTo32
  }

  /** The `>>` operator on System.UInt32 (a logical shift; the count is taken modulo 32). */
  function ShiftRight(x: uint, count: nat): (r: uint)
    ensures r <= x
    ensures count % 32 == 0 ==> r == x
  {
    ShrAtMost(x, count % 32);
    Shr(x, count % 32)
  }

  /** Unchecked System.UInt32 addition, which wraps around modulo 2^32. */
  function AddWrap(x: uint, y: uint): (r: uint)
    ensures x + y < TwoTo32 ==> r == x + y
    ensures x + y >= TwoTo32 ==> r == x + y - TwoTo32
  {
    if x + y < TwoTo32 then x + y else x + y - TwoTo32
  }

  /** Unchecked System.UInt32 subtraction, which wraps around modulo 2^32. */
  function SubWrap(x: uint, y: uint): (r: uint)
    ensures y <= x ==> r == x - y
    ensures x < y ==> r == x - y + TwoTo32
  {
    if y <= x then x - y else x - y + TwoTo32
  }

  /** Unchecked System.UInt32 multiplication, which wraps around modulo 2^32. */
  function MulWrap(x: uint, y: uint): (r: uint)
    ensures x * y < TwoTo32 ==> r == x * y
  {
    if x * y < TwoTo32 then
      DivModUnique(x * y, TwoTo32, 0, x * y);
      (x * y) % TwoTo32
    else
      (x * y) % TwoTo32
  }

  lemma MulAtLeast(x: int, d: int)
    requires x >= 1 && d > 0
    ensures x * d >= d
  {
  }

  /** Quotient and remainder are the only pair that reassembles `a`. */
  lemma DivModUnique(a: int, d: int, q: int, r: int)
    requires d > 0 && 0 <= r < d && a == q * d + r
    ensures a / d == q && a % d == r
  {
    var q', r' := a / d, a % d;
    assert (q - q') * d == r' - r;
    if q > q' {
      MulAtLeast(q - q', d);
    } else if q < q' {
      MulAtLeast(q' - q, d);
    }
  }

  // ---------------------------------------------------------------------------------
  // Shifts

  lemma {:induction false} ShrAtMost(x: nat, k: nat)
    ensures Shr(x, k) <= x
  {
    if k > 0 {
      ShrAtMost(x / 2, k - 1);
    }
  }

  /** Shifting a number of `n` bits right by `k` leaves a number of `n - k` bits. */
  lemma {:induction false} ShrBelow(x: nat, n: nat, k: nat)
    requires k <= n && x < Pow2(n)
    ensures Shr(x, k) < Pow2(n - k)
  {
    if k > 0 {
      ShrBelow(x / 2, n - 1, k - 1);
    }
  }

  lemma {:induction false} ShlIsMul(x: nat, k: nat)
    ensures Shl(x, k) == x * Pow2(k)
  {
    if k > 0 {
      ShlIsMul(x, k - 1);
    }
  }

  /** `0xffffffff << k` is the netmask whose low `k` bits are clear. */
  lemma ShiftLeftAllOnes(k: nat)
    requires k < 32
    ensures ShiftLeft(AllOnes, k) == TwoTo32 - Pow2(k)
  {
    var p := Pow2(k);
    assert 1 <= p <= 0x8000_0000 by {
      Pow2Values();
      Pow2Monotone(k, 31);
    }
    var v := Shl(0xffff_ffff, k);
    assert v == (p - 1) * 0x1_0000_0000 + (0x1_0000_0000 - p) by {
      ShlIsMul(0xffff_ffff, k);
    }
    DivModUnique(v, 0x1_0000_0000, p - 1, 0x1_0000_0000 - p);
    assert k % 32 == k;
    assert ShiftLeft(AllOnes, k) == v % 0x1_0000_0000;
  }

  /** `(2^n - 1) >> c` is `2^(n - c) - 1`. */
  lemma {:induction false} ShrAllOnes(n: nat, c: nat)
    requires c <= n
    ensures Shr(Pow2(n) - 1, c) == Pow2(n - c) - 1
  {
    if c > 0 {
      ShrAllOnes(n - 1, c - 1);
    }
  }

  lemma ClearLowUnfold(x: nat, k: nat)
    requires k > 0
    ensures ClearLow(x, k) == 2 * ClearLow(x / 2, k - 1)
  {
  }

  /** A multiple of `2^k` has no low bits to clear. */
  lemma {:induction false} ClearLowOfMultiple(q: nat, k: nat)
    ensures ClearLow(q * Pow2(k), k) == q * Pow2(k)
  {
    if k > 0 {
      ClearLowOfMultiple(q, k - 1);
      assert q * Pow2(k) == 2 * (q * Pow2(k - 1));
      ClearLowUnfold(q * Pow2(k), k);
    }
  }

  /** `x` lies in the block of `2^k` numbers that starts at `ClearLow(x, k)`. */
  lemma {:induction false} ClearLowBounds(x: nat, k: nat)
    ensures ClearLow(x, k) <= x < ClearLow(x, k) + Pow2(k)
  {
    if k > 0 {
      ClearLowBounds(x / 2, k - 1);
    }
  }

  /** Every number of a block of `2^k` numbers starting at a cleared `base` clears to it. */
  lemma {:induction false} ClearLowOfBlock(x: nat, k: nat, base: nat)
    requires ClearLow(base, k) == base && base <= x < base + Pow2(k)
    ensures ClearLow(x, k) == base
  {
    if k > 0 {
      ClearLowOfBlock(x / 2, k - 1, base / 2);
    }
  }

  lemma {:induction false} ClearLowIdempotent(x: nat, k: nat)
    ensures ClearLow(ClearLow(x, k), k) == ClearLow(x, k)
  {
    if k > 0 {
      ClearLowIdempotent(x / 2, k - 1);
      ClearLowUnfold(ClearLow(x, k), k);
    }
  }

  /** A block of `2^k` numbers inside `[0, 2^n)` ends inside it. */
  lemma {:induction false} ClearLowBelow(x: nat, n: nat, k: nat)
    requires k <= n && x < Pow2(n)
    ensures ClearLow(x, k) + Pow2(k) <= Pow2(n)
  {
    if k > 0 {
      ClearLowBelow(x / 2, n - 1, k - 1);
    }
  }

  // ---------------------------------------------------------------------------------
  // Laws of the bitwise operators

  lemma AndUnfold(a: nat, b: nat)
    ensures And(a, b) == 2 * And(a / 2, b / 2) + (if a % 2 == 1 && b % 2 == 1 then 1 else 0)
  {
  }

  lemma OrUnfold(a: nat, b: nat)
    ensures Or(a, b) == 2 * Or(a / 2, b / 2) + (if a % 2 == 1 || b % 2 == 1 then 1 else 0)
  {
  }

  lemma {:induction false} AndComm(a: nat, b: nat)
    ensures And(a, b) == And(b, a)
  {
    if a != 0 && b != 0 {
      AndComm(a / 2, b / 2);
    }
  }

  lemma {:induction false} AndSelf(a: nat)
    ensures And(a, a) == a
  {
    if a != 0 {
      AndSelf(a / 2);
    }
  }

  /** Masking a number of `n` bits with `2^n - 1` keeps all of it. */
  lemma {:induction false} AndLowOnes(a: nat, n: nat)
    requires a < Pow2(n)
    ensures And(a, Pow2(n) - 1) == a
  {
    if n > 0 {
      AndLowOnes(a / 2, n - 1);
      AndUnfold(a, Pow2(n) - 1);
    }
  }

  /**
   * Masking a number of `n` bits with `m == 2^n - 2^k` (bits k..n-1 set) clears its low
   * `k` bits.
   */
  lemma {:induction false} AndHighMask(a: nat, n: nat, k: nat, m: nat)
    requires k <= n && a < Pow2(n) && m == Pow2(n) - Pow2(k)
    ensures And(a, m) == ClearLow(a, k)
  {
    if k == 0 {
      AndLowOnes(a, n);
    } else {
      AndHighMask(a / 2, n - 1, k - 1, m / 2);
      AndUnfold(a, m);
    }
  }

  /** A number with its low `k` bits cleared shares no bit with `2^k - 1`. */
  lemma {:induction false} AndClearedLow(a: nat, k: nat)
    ensures And(ClearLow(a, k), Pow2(k) - 1) == 0
  {
    if k > 0 {
      AndClearedLow(a / 2, k - 1);
      AndUnfold(ClearLow(a, k), Pow2(k) - 1);
    }
  }

  /** `|` of operands with no common bit is their sum. */
  lemma {:induction false} OrDisjoint(a: nat, b: nat)
    requires And(a, b) == 0
    ensures Or(a, b) == a + b
  {
    if a != 0 && b != 0 {
      AndUnfold(a, b);
      OrDisjoint(a / 2, b / 2);
    }
  }

  lemma {:induction false} ComplementBits(x: nat, n: nat)
    requires x < Pow2(n)
    ensures And(x, Pow2(n) - 1 - x) == 0 && Or(x, Pow2(n) - 1 - x) == Pow2(n) - 1
  {
    if n > 0 {
      var y := Pow2(n) - 1 - x;
      assert y / 2 == Pow2(n - 1) - 1 - x / 2 && y % 2 == 1 - x % 2;
      ComplementBits(x / 2, n - 1);
      AndUnfold(x, y);
      OrUnfold(x, y);
    }
  }

  /** A power of two: 1, 2, 4, ... */
  predicate IsPow2(x: nat)
  {
    x == 1 || (x > 1 && x % 2 == 0 && IsPow2(x / 2))
  }

  /**
   * `(x + 1) & x == 0` exactly when `x + 1` is a power of two, i.e. when `x` is a run of
   * low 1 bits: the test IPNetwork.ValidNetmask applies to the complement of a mask.
   */
  lemma {:induction false} AndSuccZero(x: nat)
    ensures And(x + 1, x) == 0 <==> IsPow2(x + 1)
  {
    AndUnfold(x + 1, x);
    if x % 2 == 0 {
      AndSelf(x / 2);
      assert (x + 1) / 2 == x / 2;
    } else {
      AndSuccZero(x / 2);
      assert (x + 1) / 2 == x / 2 + 1;
    }
  }

  /** The exponent of a power of two. */
  function Log2(x: nat): (k: nat)
    requires IsPow2(x)
    ensures Pow2(k) == x
  {
    if x == 1 then 0 else 1 + Log2(x / 2)
  }

  // ---------------------------------------------------------------------------------
  // Shifts by constant counts, and shifted fields

  lemma {:induction false} ShrSucc(x: nat, k: nat)
    ensures Shr(x, k + 1) == Shr(x, k) / 2
    decreases k
  {
    if k > 0 {
      ShrSucc(x / 2, k - 1);
    }
  }

  /** `>>` by the constant counts of the bit count in IPNetwork.BitsSet is division. */
  lemma ShrConstants(x: nat)
    ensures Shr(x, 1) == x / 2 && Shr(x, 2) == x / 4 && Shr(x, 4) == x / 16
    ensures Shr(x, 8) == x / 256
  {
    ShrSucc(x, 0);
    ShrSucc(x, 1);
    ShrSucc(x, 2);
    ShrSucc(x, 3);
    assert x / 2 / 2 == x / 4 && x / 4 / 2 / 2 == x / 16;
    ShrSucc(x, 4);
    ShrSucc(x, 5);
    ShrSucc(x, 6);
    ShrSucc(x, 7);
    assert x / 16 / 2 / 2 / 2 / 2 == x / 256;
  }

  lemma {:induction false} ShrAdd(x: nat, a: nat, b: nat)
    ensures Shr(x, a + b) == Shr(Shr(x, a), b)
    decreases a
  {
    if a > 0 {
      ShrAdd(x / 2, a - 1, b);
    }
  }

  lemma Shr24(x: nat)
    ensures Shr(x, 24) == x / 0x100_0000
  {
    ShrAdd(x, 8, 16);
    ShrAdd(x / 256, 8, 8);
    ShrConstants(x);
    ShrConstants(x / 256);
    ShrConstants(x / 256 / 256);
    assert x / 256 / 256 / 256 == x / 0x100_0000;
  }

  /** Shifting left and back right loses nothing. */
  lemma {:induction false} ShrShl(m: nat, k: nat)
    ensures Shr(Shl(m, k), k) == m
  {
    if k > 0 {
      ShrShl(m, k - 1);
      assert Shl(m, k) / 2 == Shl(m, k - 1);
    }
  }

  /** A value with its low `k` bits clear shares no bit with a value below `2^k`. */
  lemma {:induction false} AndAlignedLow(a: nat, b: nat, k: nat)
    requires ClearLow(a, k) == a && b < Pow2(k)
    ensures And(a, b) == 0
  {
    if k > 0 && a != 0 && b != 0 {
      ClearLowUnfold(a, k);
      AndUnfold(a, b);
      AndAlignedLow(a / 2, b / 2, k - 1);
    }
  }

  lemma Shr16(x: nat)
    ensures Shr(x, 16) == x / 0x1_0000
  {
    ShrAdd(x, 8, 8);
    ShrConstants(x);
    ShrConstants(x / 256);
    assert x / 256 / 256 == x / 0x1_0000;
  }

  lemma Shr20(x: nat)
    ensures Shr(x, 20) == x / 0x10_0000
  {
    ShrAdd(x, 16, 4);
    Shr16(x);
    ShrConstants(x / 0x1_0000);
    assert x / 0x1_0000 / 16 == x / 0x10_0000;
  }

  lemma Shr29(x: nat)
    ensures Shr(x, 29) == x / 0x2000_0000
  {
    ShrAdd(x, 24, 5);
    Shr24(x);
    var y := x / 0x100_0000;
    ShrAdd(y, 4, 1);
    ShrConstants(y);
    ShrConstants(y / 16);
    assert y / 16 / 2 == x / 0x2000_0000;
  }
}
