/**
 * Counting the 1 bits of a number, and the field-by-field facts that show the "SWAR"
 * count of IPNetwork.BitsSet computes it: first every 2-bit field holds its own bit
 * count, then every nibble, then every byte, and one multiplication adds the bytes.
 */
module Popcount {
  import opened Bits

  /** The number of 1 bits of `x`: the reference definition. */
  function Pop(x: nat): nat
  {
    if x == 0 then 0 else x % 2 + Pop(x / 2)
  }

  lemma PopUnfold(x: nat)
    ensures Pop(x) == x % 2 + Pop(x / 2)
  {
  }

  /** A number of `n` bits has at most `n` bits set. */
  lemma {:induction false} PopBound(x: nat, n: nat)
    requires x < Pow2(n)
    ensures Pop(x) <= n
  {
    if n > 0 {
      PopUnfold(x);
      PopBound(x / 2, n - 1);
    }
  }

  lemma {:induction false} PopAllOnes(n: nat)
    ensures Pop(Pow2(n) - 1) == n
  {
    if n > 0 {
      PopUnfold(Pow2(n) - 1);
      PopAllOnes(n - 1);
    }
  }

  /** `2^n - 2^k` (bits k..n-1 set) has `n - k` bits set. */
  lemma {:induction false} PopHighOnes(n: nat, k: nat)
    requires k <= n
    ensures Pow2(k) <= Pow2(n) && Pop(Pow2(n) - Pow2(k)) == n - k
    decreases k, 1
  {
    if k == 0 {
      Pow2Monotone(k, n);
      PopLowOnes(n, Pow2(n) - Pow2(k));
    } else {
      PopHighOnesStep(n, k);
    }
  }

  /** The base of `PopHighOnes`: `2^n - 1` has `n` bits set. */
  lemma PopLowOnes(n: nat, v: nat)
    requires v == Pow2(n) - Pow2(0)
    ensures Pop(v) == n
  {
    PopAllOnes(n);
  }

  /** The step of `PopHighOnes`: doubling `2^(n-1) - 2^(k-1)` keeps its bit count. */
  lemma {:induction false} PopHighOnesStep(n: nat, k: nat)
    requires 0 < k <= n
    ensures Pow2(k) <= Pow2(n) && Pop(Pow2(n) - Pow2(k)) == n - k
    decreases k, 0
  {
    PopHighOnes(n - 1, k - 1);
    Pow2Half(n);
    Pow2Half(k);
    PopDouble(Pow2(n - 1) - Pow2(k - 1), Pow2(n) - Pow2(k));
  }

  lemma Pow2Half(j: nat)
    requires j > 0
    ensures Pow2(j) == 2 * Pow2(j - 1)
  {
  }

  /** Doubling adds a 0 bit. */
  lemma PopDouble(w: nat, v: nat)
    requires v == 2 * w
    ensures Pop(v) == Pop(w)
  {
    if v > 0 {
      PopUnfold(v);
    }
  }

  lemma Digits2(x: nat)
    ensures x / 2 / 2 == x / 4 && (x % 4) / 2 == (x / 2) % 2 && (x % 4) % 2 == x % 2
    ensures (x % 4) / 2 / 2 == 0
  {
  }

  lemma Digits4(x: nat)
    ensures x / 4 / 4 == x / 16 && (x % 16) / 4 == (x / 4) % 4 && (x % 16) % 4 == x % 4
    ensures (x % 16) / 4 / 4 == 0
  {
  }

  lemma Digits8(x: nat)
    ensures x / 16 / 16 == x / 256 && (x % 256) / 16 == (x / 16) % 16 && (x % 256) % 16 == x % 16
    ensures (x % 256) / 16 / 16 == 0
  {
  }

  lemma Pow2Plus2(k: nat)
    ensures Pow2(k + 2) == 4 * Pow2(k)
  {
    assert Pow2(k + 2) == 2 * Pow2(k + 1);
  }

  lemma QuarterBelow(x: nat, k: nat)
    requires x < Pow2(k + 2)
    ensures x / 4 < Pow2(k)
  {
    Pow2Plus2(k);
    QuarterOf(x, Pow2(k));
  }

  lemma QuarterOf(x: nat, p: nat)
    requires x < 4 * p
    ensures x / 4 < p
  {
  }

  lemma PopSplit2(x: nat)
    ensures Pop(x) == Pop(x % 4) + Pop(x / 4)
  {
    Digits2(x);
    PopUnfold(x);
    PopUnfold(x / 2);
    PopUnfold(x % 4);
    PopUnfold((x % 4) / 2);
  }

  lemma PopSplit4(x: nat)
    ensures Pop(x) == Pop(x % 16) + Pop(x / 16)
  {
    Digits4(x);
    PopSplit2(x);
    PopSplit2(x / 4);
    PopSplit2(x % 16);
  }

  lemma PopSplit8(x: nat)
    ensures Pop(x) == Pop(x % 256) + Pop(x / 256)
  {
    Digits8(x);
    PopSplit4(x);
    PopSplit4(x / 16);
    PopSplit4(x % 256);
  }

  lemma PopFieldBounds(x: nat)
    ensures Pop(x % 4) <= 2 && Pop(x % 16) <= 4 && Pop(x % 256) <= 8
  {
    assert Pow2(2) == 4 && Pow2(4) == 16 && Pow2(8) == 256;
    PopBound(x % 4, 2);
    PopBound(x % 16, 4);
    PopBound(x % 256, 8);
  }

  // ---------------------------------------------------------------------------------
  // `&` on fields

  lemma AndLowBits(a: nat)
    ensures And(a, 1) == a % 2 && And(a, 3) == a % 4 && And(a, 15) == a % 16
  {
    assert Pow2(1) == 2 && Pow2(2) == 4 && Pow2(4) == 16;
    AndSplit1(a, 1);
    AndLowOnes(a % 2, 1);
    AndSplit2(a, 3);
    AndLowOnes(a % 4, 2);
    AndSplit4(a, 15);
    AndLowOnes(a % 16, 4);
  }

  lemma AndSplit1(a: nat, b: nat)
    ensures And(a, b) == 2 * And(a / 2, b / 2) + And(a % 2, b % 2)
  {
    AndUnfold(a, b);
    AndUnfold(a % 2, b % 2);
  }

  /** `&` works on 2-bit fields independently. */
  lemma AndSplit2(a: nat, b: nat)
    ensures And(a, b) == 4 * And(a / 4, b / 4) + And(a % 4, b % 4)
  {
    Digits2(a);
    Digits2(b);
    AndUnfold(a, b);
    AndUnfold(a / 2, b / 2);
    AndUnfold(a % 4, b % 4);
    AndUnfold((a % 4) / 2, (b % 4) / 2);
  }

  /** `&` works on nibbles independently. */
  lemma AndSplit4(a: nat, b: nat)
    ensures And(a, b) == 16 * And(a / 16, b / 16) + And(a % 16, b % 16)
  {
    Digits4(a);
    Digits4(b);
    AndSplit2(a, b);
    AndSplit2(a / 4, b / 4);
    AndSplit2(a % 16, b % 16);
  }

  /** `&` works on bytes independently. */
  lemma AndSplit8(a: nat, b: nat)
    ensures And(a, b) == 256 * And(a / 256, b / 256) + And(a % 256, b % 256)
  {
    Digits8(a);
    Digits8(b);
    AndSplit4(a, b);
    AndSplit4(a / 16, b / 16);
    AndSplit4(a % 256, b % 256);
  }

  // ---------------------------------------------------------------------------------
  // Fields

  /** `n` copies of the field `f`, each `unit` wide: the masks 0x55555555, 0x33333333, ... */
  function Repeat(f: nat, unit: nat, n: nat): nat
  {
    if n == 0 then 0 else f + unit * Repeat(f, unit, n - 1)
  }

  lemma RepeatValues()
    ensures Repeat(1, 4, 16) == 0x5555_5555
    ensures Repeat(3, 16, 8) == 0x3333_3333
    ensures Repeat(15, 256, 4) == 0x0f0f_0f0f
  {
    assert Repeat(1, 4, 4) == 0x55;
    assert Repeat(1, 4, 8) == 0x5555;
    assert Repeat(1, 4, 12) == 0x55_5555;
    assert Repeat(3, 16, 4) == 0x3333;
  }

  /** The bit count of each 2-bit field of the low `n` fields of `x`, kept in that field. */
  function PairPops(x: nat, n: nat): nat
  {
    if n == 0 then 0 else Pop(x % 4) + 4 * PairPops(x / 4, n - 1)
  }

  /** The bit count of each nibble of the low `n` nibbles of `x`, kept in that nibble. */
  function NibblePops(x: nat, n: nat): nat
  {
    if n == 0 then 0 else Pop(x % 16) + 16 * NibblePops(x / 16, n - 1)
  }

  /** The bit count of each byte of the low `n` bytes of `x`, kept in that byte. */
  function BytePops(x: nat, n: nat): nat
  {
    if n == 0 then 0 else Pop(x % 256) + 256 * BytePops(x / 256, n - 1)
  }

  /** The sums of the two 2-bit fields of each of the low `n` nibbles of `y`. */
  function NibbleFieldSums(y: nat, n: nat): nat
  {
    if n == 0 then 0 else y % 4 + (y / 4) % 4 + 16 * NibbleFieldSums(y / 16, n - 1)
  }

  /** The sums of the two nibbles of each of the low `n` bytes of `z`. */
  function ByteFieldSums(z: nat, n: nat): nat
  {
    if n == 0 then 0 else z % 16 + (z / 16) % 16 + 256 * ByteFieldSums(z / 256, n - 1)
  }

  // ---------------------------------------------------------------------------------
  // The stages of the SWAR count

  /** Stage one: `x - ((x >> 1) & 0x55555555)` holds the bit count of each 2-bit field. */
  lemma {:induction false} PairCounts(x: nat, n: nat)
    requires x < Pow2(2 * n)
    ensures x - And(x / 2, Repeat(1, 4, n)) == PairPops(x, n)
    decreases n
  {
    if n > 0 {
      var m, m' := Repeat(1, 4, n), Repeat(1, 4, n - 1);
      var q, r := x / 4, x % 4;
      PairMask(x, m, m');
      assert 2 * (n - 1) + 2 == 2 * n;
      QuarterBelow(x, 2 * (n - 1));
      PairCounts(q, n - 1);
      PopPair(r);
      assert PairPops(x, n) == Pop(r) + 4 * PairPops(q, n - 1);
      RegroupPairs(x, q, r, And(x / 2, m), And(q / 2, m'), PairPops(q, n - 1), Pop(r));
    } else {
      assert x == 0;
    }
  }

  /** The low 2-bit field of `(x >> 1) & m`, for a mask `m` whose low field is 1. */
  lemma PairMask(x: nat, m: nat, m': nat)
    requires m == 1 + 4 * m'
    ensures And(x / 2, m) == 4 * And(x / 4 / 2, m') + (x % 4) / 2
  {
    Field4(m, m', 1);
    assert x / 2 / 4 == x / 4 / 2 && (x / 2) % 4 % 2 == (x % 4) / 2;
    AndSplit2(x / 2, m);
    AndLowBits((x / 2) % 4);
  }

  lemma PopPair(r: nat)
    requires r < 4
    ensures Pop(r) == r % 2 + r / 2
  {
    PopUnfold(r);
    PopUnfold(r / 2);
  }

  lemma RegroupPairs(x: int, q: int, r: int, a: int, b: int, p: int, pr: int)
    requires 0 <= r < 4 && x == 4 * q + r && a == 4 * b + r / 2 && q - b == p
    requires pr == r % 2 + r / 2
    ensures x - a == pr + 4 * p
  {
  }

  /** Two numbers whose low fields are `u` and `v` and whose high parts add up to `s'`. */
  /**
   * Stage two: `(y & 0x33333333) + ((y >> 2) & 0x33333333)` adds the two 2-bit fields of
   * each nibble.
   */
  lemma {:induction false} NibbleSums(y: nat, n: nat)
    ensures And(y, Repeat(3, 16, n)) + And(y / 4, Repeat(3, 16, n)) == NibbleFieldSums(y, n)
    decreases n
  {
    if n > 0 {
      NibbleSums(y / 16, n - 1);
      NibbleSumsStep(y, n);
    } else {
      assert Repeat(3, 16, n) == 0;
    }
  }

  lemma NibbleSumsStep(y: nat, n: nat)
    requires n > 0
    requires var m' := Repeat(3, 16, n - 1);
      And(y / 16, m') + And(y / 16 / 4, m') == NibbleFieldSums(y / 16, n - 1)
    ensures And(y, Repeat(3, 16, n)) + And(y / 4, Repeat(3, 16, n)) == NibbleFieldSums(y, n)
  {
    NibbleMasks(y, Repeat(3, 16, n), Repeat(3, 16, n - 1));
    NibbleFieldSumsUnfold(y, n);
  }

  lemma NibbleFieldSumsUnfold(y: nat, n: nat)
    requires n > 0
    ensures NibbleFieldSums(y, n) == y % 4 + (y / 4) % 4 + 16 * NibbleFieldSums(y / 16, n - 1)
  {
  }

  lemma ByteFieldSumsStep(z: nat, z': nat, f0: nat, f1: nat, n: nat)
    requires n > 0 && z % 16 == f0 && (z / 16) % 16 == f1 && z / 256 == z'
    ensures ByteFieldSums(z, n) == f0 + f1 + 256 * ByteFieldSums(z', n - 1)
  {
  }

  lemma Field4(m: int, high: int, low: int)
    requires m == low + 4 * high && 0 <= low < 4
    ensures m / 4 == high && m % 4 == low
  {
  }

  lemma Field16(m: int, high: int, low: int)
    requires m == low + 16 * high && 0 <= low < 16
    ensures m / 16 == high && m % 16 == low
  {
  }

  lemma Field256(m: int, high: int, low: int)
    requires m == low + 256 * high && 0 <= low < 256
    ensures m / 256 == high && m % 256 == low
  {
  }

  /** The low nibble of `y & m`, for a mask `m` whose low nibble is 3. */
  lemma NibbleMask(y: nat, m: nat, m': nat)
    requires m == 3 + 16 * m'
    ensures And(y, m) == 16 * And(y / 16, m') + y % 4
  {
    Field16(m, m', 3);
    Digits4(y);
    AndSplit4(y, m);
    AndLowBits(y % 16);
  }

  lemma NibbleMasks(y: nat, m: nat, m': nat)
    requires m == 3 + 16 * m'
    ensures And(y, m) == 16 * And(y / 16, m') + y % 4
    ensures And(y / 4, m) == 16 * And(y / 16 / 4, m') + (y / 4) % 4
  {
    NibbleMask(y, m, m');
    NibbleMask(y / 4, m, m');
    assert y / 4 / 16 == y / 16 / 4;
  }

  /** Adding the 2-bit field counts of each nibble gives the nibble's bit count. */
  lemma {:induction false} NibbleFieldSumsOfPairPops(x: nat, n: nat)
    ensures NibbleFieldSums(PairPops(x, 2 * n), n) == NibblePops(x, n)
    decreases n
  {
    if n > 0 {
      var y := PairPops(x, 2 * n);
      PairPopsNibble(x, n);
      NibbleFieldSumsOfPairPops(x / 16, n - 1);
      assert NibbleFieldSums(y, n) == y % 4 + (y / 4) % 4 + 16 * NibbleFieldSums(y / 16, n - 1);
      Digits4(x);
      PopSplit2(x % 16);
    }
  }

  /** The low nibble of `PairPops(x, 2 * n)` holds the counts of the two low 2-bit fields of `x`. */
  lemma PairPopsNibble(x: nat, n: nat)
    requires n > 0
    ensures PairPops(x, 2 * n) % 4 == Pop(x % 4)
    ensures (PairPops(x, 2 * n) / 4) % 4 == Pop((x / 4) % 4)
    ensures PairPops(x, 2 * n) / 16 == PairPops(x / 16, 2 * (n - 1))
  {
    var y := PairPops(x, 2 * n);
    var a, b, rest := Pop(x % 4), Pop((x / 4) % 4), PairPops(x / 16, 2 * (n - 1));
    PopFieldBounds(x);
    PopFieldBounds(x / 4);
    Digits4(x);
    assert 2 * n - 1 - 1 == 2 * (n - 1);
    assert PairPops(x / 4, 2 * n - 1) == b + 4 * rest;
    assert y == a + 4 * (b + 4 * rest);
    Field4(y, b + 4 * rest, a);
    Field4(y / 4, rest, b);
    Digits4(y);
  }

  /** Each nibble of the `n` bytes of `z` is at most 4, and `z` has no more bytes than `n`. */
  ghost predicate SmallNibbles(z: nat, n: nat)
  {
    if n == 0 then z == 0 else z % 16 <= 4 && (z / 16) % 16 <= 4 && SmallNibbles(z / 256, n - 1)
  }

  /**
   * Stage three: `(z + (z >> 4)) & 0x0f0f0f0f` adds the two nibbles of each byte, when each
   * nibble of `z` is small enough for the sums not to carry.
   */
  lemma {:induction false} ByteSums(z: nat, n: nat)
    requires SmallNibbles(z, n)
    ensures And(z + z / 16, Repeat(15, 256, n)) == ByteFieldSums(z, n)
    decreases n
  {
    if n > 0 {
      var z' := z / 256;
      var m, m' := Repeat(15, 256, n), Repeat(15, 256, n - 1);
      var f0, f1 := z % 16, (z / 16) % 16;
      ByteDigits(z);
      assert z' % 16 <= 4 by {
        if n == 1 {
          assert z' == 0;
        }
      }
      ByteSumsStep(z, z', f0, f1, m, m');
      ByteSums(z', n - 1);
      ByteFieldSumsStep(z, z', f0, f1, n);
    }
  }

  lemma ByteDigits(z: nat)
    ensures z == z % 16 + 16 * ((z / 16) % 16) + 256 * (z / 256)
  {
    Digits8(z);
  }

  /** The nibble counts of `x` are small: each is at most 4. */
  lemma {:induction false} NibblePopsSmall(x: nat, n: nat)
    ensures SmallNibbles(NibblePops(x, 2 * n), n)
    decreases n
  {
    if n > 0 {
      NibblePopsByte(x, n);
      NibblePopsSmall(x / 256, n - 1);
    }
  }

  /** The low byte of `NibblePops(x, 2 * n)` holds the counts of the two low nibbles of `x`. */
  lemma NibblePopsByte(x: nat, n: nat)
    requires n > 0
    ensures NibblePops(x, 2 * n) == Pop(x % 16) + 16 * Pop((x / 16) % 16) + 256 * NibblePops(x / 256, 2 * (n - 1))
    ensures NibblePops(x, 2 * n) % 16 == Pop(x % 16)
    ensures (NibblePops(x, 2 * n) / 16) % 16 == Pop((x / 16) % 16)
    ensures NibblePops(x, 2 * n) / 256 == NibblePops(x / 256, 2 * (n - 1))
    ensures Pop(x % 16) <= 4 && Pop((x / 16) % 16) <= 4 && NibblePops(x / 256, 2 * (n - 1)) % 16 <= 4
  {
    NibblePopsLowBound(x / 256, 2 * (n - 1));
    var z := NibblePops(x, 2 * n);
    var a, b, rest := Pop(x % 16), Pop((x / 16) % 16), NibblePops(x / 256, 2 * (n - 1));
    PopFieldBounds(x);
    PopFieldBounds(x / 16);
    Digits8(x);
    assert 2 * n - 1 - 1 == 2 * (n - 1);
    assert NibblePops(x / 16, 2 * n - 1) == b + 16 * rest;
    assert z == a + 16 * (b + 16 * rest);
    Field16(z, b + 16 * rest, a);
    Field16(z / 16, rest, b);
    Digits8(z);
  }

  lemma NibblePopsLowBound(x: nat, n: nat)
    ensures NibblePops(x, n) % 16 <= 4
  {
    if n > 0 {
      PopFieldBounds(x);
      Field16(NibblePops(x, n), NibblePops(x / 16, n - 1), Pop(x % 16));
    }
  }

  /** One byte of stage three. */
  lemma ByteSumsStep(z: nat, z': nat, f0: nat, f1: nat, m: nat, m': nat)
    requires f0 <= 4 && f1 <= 4 && z' % 16 <= 4
    requires z == f0 + 16 * f1 + 256 * z' && m == 15 + 256 * m'
    ensures And(z + z / 16, m) == 256 * And(z' + z' / 16, m') + f0 + f1
  {
    ByteShiftAdd(z, z', f0, f1);
    ByteMask(z + z / 16, m, m');
  }

  /** The low byte of `z + (z >> 4)` holds the sum of the two low nibbles of `z`. */
  lemma ByteShiftAdd(z: nat, z': nat, f0: nat, f1: nat)
    requires f0 <= 4 && f1 <= 4 && z' % 16 <= 4 && z == f0 + 16 * f1 + 256 * z'
    ensures (z + z / 16) / 256 == z' + z' / 16 && (z + z / 16) % 16 == f0 + f1
  {
    var g := z' % 16;
    var low := (f0 + f1) + 16 * (f1 + g);
    Field16(z, f1 + 16 * z', f0);
    Field16(z', z' / 16, g);
    assert z + z / 16 == low + 256 * (z' + z' / 16);
    Field256(z + z / 16, z' + z' / 16, low);
    Field16(z + z / 16, f1 + g + 16 * (z' + z' / 16), f0 + f1);
  }

  /** The low byte of `w & m`, for a mask `m` whose low byte is 15. */
  lemma ByteMask(w: nat, m: nat, m': nat)
    requires m == 15 + 256 * m'
    ensures And(w, m) == 256 * And(w / 256, m') + w % 16
  {
    Field256(m, m', 15);
    Digits8(w);
    AndSplit8(w, m);
    AndLowBits(w % 256);
  }

  /** Adding the nibble counts of each byte gives the byte's bit count. */
  lemma {:induction false} ByteFieldSumsOfNibblePops(x: nat, n: nat)
    ensures ByteFieldSums(NibblePops(x, 2 * n), n) == BytePops(x, n)
    decreases n
  {
    if n > 0 {
      var z := NibblePops(x, 2 * n);
      NibblePopsByte(x, n);
      ByteFieldSumsOfNibblePops(x / 256, n - 1);
      assert ByteFieldSums(z, n) == z % 16 + (z / 16) % 16 + 256 * ByteFieldSums(z / 256, n - 1);
      Digits8(x);
      PopSplit4(x % 256);
    }
  }

  /**
   * Stage four: multiplying the four byte counts by 0x01010101 (modulo 2^32) adds them into
   * the top byte, and `>> 24` extracts it; the result is the bit count of `x`.
   */
  lemma AddBytes(x: nat)
    requires x < TwoTo32
    ensures (BytePops(x, 4) * 0x0101_0101) % 0x1_0000_0000 / 0x100_0000 == Pop(x)
  {
    var x1, x2, x3 := x / 256, x / 256 / 256, x / 256 / 256 / 256;
    var p0, p1, p2, p3 := Pop(x % 256), Pop(x1 % 256), Pop(x2 % 256), Pop(x3 % 256);
    WordBytes(x);
    PopFieldBounds(x);
    PopFieldBounds(x1);
    PopFieldBounds(x2);
    PopFieldBounds(x3);
    MulBytes(BytePops(x, 4), p0, p1, p2, p3);
  }

  /** The four byte counts of a 32-bit word, and how they add up to its bit count. */
  lemma WordBytes(x: nat)
    requires x < TwoTo32
    ensures BytePops(x, 4) == Pop(x % 256) + 256 * Pop(x / 256 % 256)
      + 0x1_0000 * Pop(x / 256 / 256 % 256) + 0x100_0000 * Pop(x / 256 / 256 / 256 % 256)
    ensures Pop(x) == Pop(x % 256) + Pop(x / 256 % 256) + Pop(x / 256 / 256 % 256)
      + Pop(x / 256 / 256 / 256 % 256)
  {
    var x1, x2, x3 := x / 256, x / 256 / 256, x / 256 / 256 / 256;
    assert x3 < 256 && x3 / 256 == 0 && x3 % 256 == x3;
    assert BytePops(x3, 1) == Pop(x3 % 256) + 256 * BytePops(x3 / 256, 0);
    assert BytePops(x2, 2) == Pop(x2 % 256) + 256 * BytePops(x3, 1);
    assert BytePops(x1, 3) == Pop(x1 % 256) + 256 * BytePops(x2, 2);
    assert BytePops(x, 4) == Pop(x % 256) + 256 * BytePops(x1, 3);
    PopSplit8(x);
    PopSplit8(x1);
    PopSplit8(x2);
    PopSplit8(x3);
  }

  /** The multiply-and-shift of stage four on four byte counts of at most 8 each. */
  lemma MulBytes(u: nat, p0: nat, p1: nat, p2: nat, p3: nat)
    requires p0 <= 8 && p1 <= 8 && p2 <= 8 && p3 <= 8
    requires u == p0 + 256 * p1 + 0x1_0000 * p2 + 0x100_0000 * p3
    ensures (u * 0x0101_0101) % 0x1_0000_0000 / 0x100_0000 == p0 + p1 + p2 + p3
  {
    var low := p0 + 256 * (p0 + p1) + 0x1_0000 * (p0 + p1 + p2) + 0x100_0000 * (p0 + p1 + p2 + p3);
    var high := (p1 + p2 + p3) + 256 * (p2 + p3) + 0x1_0000 * p3;
    assert u * 0x0101_0101 == high * 0x1_0000_0000 + low;
    DivModUnique(u * 0x0101_0101, 0x1_0000_0000, high, low);
    DivModUnique(low, 0x100_0000, p0 + p1 + p2 + p3, p0 + 256 * (p0 + p1) + 0x1_0000 * (p0 + p1 + p2));
  }
}
