/**
 * The static IPv4 helpers: the conversions between address text and a 64-bit integer
 * (`ip2long`, `long2ip`), stepping to the next and previous address, the zero-padded
 * rendering, and the decomposition of an address range into CIDR blocks (`Convert2CIDR`).
 *
 * The helpers compute with System.Int64, so a value may lie outside the 32-bit range: `-1`
 * is what `ip2long` returns for text that does not parse, and `2^32` is what stepping past
 * the last address gives. Values are unbounded integers here, and every operation keeps
 * them far inside the 64-bit range.
 */
module IPv4 {
  import opened Outcomes
  import opened Bits
  import opened Text
  import opened Addresses
  import opened Netmasks
  import opened IPNetworks
  import opened Parsing

  // ---------------------------------------------------------------------------------
  // ip2long and long2ip

  /** `x | y` is `x + y` when `x` has its low `k` bits clear and `y` fits in them. */
  lemma OrAligned(x: nat, y: nat, k: nat)
    requires ClearLow(x, k) == x && y < Pow2(k)
    ensures Or(x, y) == x + y
  {
    AndAlignedLow(x, y, k);
    OrDisjoint(x, y);
  }

  /** `x | y` is `x + y` when `x` is a multiple of `p == 2^k` and `y` is below `p`. */
  lemma OrShifted(x: nat, y: nat, q: nat, k: nat, p: nat)
    requires p == Pow2(k) && x == q * p && y < p
    ensures Or(x, y) == x + y
  {
    ClearLowOfMultiple(q, k);
    OrAligned(x, y, k);
  }

  lemma ShlBytes(b0: nat, b1: nat, b2: nat)
    ensures Shl(b0, 24) == 0x100_0000 * b0 && Shl(b1, 16) == 0x1_0000 * b1 && Shl(b2, 8) == 256 * b2
  {
    Pow2Values();
    ShlIsMul(b0, 24);
    ShlIsMul(b1, 16);
    ShlIsMul(b2, 8);
  }

  lemma OrShiftedBytes(b0: nat, b1: nat, b2: nat, b3: nat)
    requires b0 < 256 && b1 < 256 && b2 < 256 && b3 < 256
    ensures Or(Or(Or(Shl(b0, 24), Shl(b1, 16)), Shl(b2, 8)), b3)
      == 0x100_0000 * b0 + 0x1_0000 * b1 + 256 * b2 + b3
  {
    Pow2Values();
    ShlBytes(b0, b1, b2);
    var s0, s1, s2 := 0x100_0000 * b0, 0x1_0000 * b1, 256 * b2;
    OrShifted(s0, s1, b0, 24, 0x100_0000);
    var o1 := Or(Shl(b0, 24), Shl(b1, 16));
    assert o1 == s0 + s1;
    OrShifted(o1, s2, 256 * b0 + b1, 16, 0x1_0000);
    var o2 := Or(o1, Shl(b2, 8));
    assert o2 == o1 + s2;
    OrShifted(o2, b3, 0x1_0000 * b0 + 256 * b1 + b2, 8, 256);
  }

  /**
   * `b0 << 24 | b1 << 16 | b2 << 8 | b3` on four bytes: the value of the bytes, the first
   * most significant.
   */
  function ShiftedBytes(bytes: seq<byte>): (r: nat)
    requires |bytes| == 4
    ensures r == BytesValue(bytes)
  {
    var b0: nat, b1: nat, b2: nat, b3: nat := bytes[0], bytes[1], bytes[2], bytes[3];
    BytesValue4(bytes);
    OrShiftedBytes(b0, b1, b2, b3);
    Or(Or(Or(Shl(b0, 24), Shl(b1, 16)), Shl(b2, 8)), b3)
  }

  /**
   * `ip2long`: the 32-bit value of an address text, or -1 when `IPAddress.TryParse` refuses
   * the text.
   */
  function IpToLong(ipAddress: string): (r: int)
    ensures r == -1 <==> TryParse(ipAddress).None?
    ensures r != -1 ==> 0 <= r < TwoTo32 && ToIPAddress(r) == TryParse(ipAddress).value
  {
    match TryParse(ipAddress)
    case Some(ip) =>
      Bytes4OfValue(ip.addressBytes);
      ShiftedBytes(ip.addressBytes)
    case None => -1
  }

  /** `long.ToString()`: the decimal numeral, with a minus sign when negative. */
  function LongText(x: int): (s: string)
    ensures x >= 0 ==> s == Decimal(x)
  {
    if x < 0 then "-" + Decimal(-x) else Decimal(x)
  }

  /**
   * `IPAddress.TryParse` reads the text of a number as an IPv4 address exactly when the
   * number is a 32-bit value.
   */
  lemma TryParseLongText(x: int)
    ensures 0 <= x < TwoTo32 ==> TryParse(LongText(x)) == Some(ToIPAddress(x))
    ensures !(0 <= x < TwoTo32) ==> TryParse(LongText(x)) == None
  {
    var s := LongText(x);
    if x >= 0 {
      DecimalHasNoDot(x);
      SplitWithout(s, {'.'});
      DecimalRoundTrip(x);
      if x < TwoTo32 {
        TryParseNumber(x);
      }
    } else {
      DecimalHasNoDot(-x);
      assert forall j :: 0 <= j < |s| ==> s[j] != '.' by {
        forall j | 0 <= j < |s|
          ensures s[j] != '.'
        {
          if j > 0 {
            assert s[j] == Decimal(-x)[j - 1];
          }
        }
      }
      SplitWithout(s, {'.'});
      assert !IsDigit(s[0]);
    }
  }

  /**
   * `long2ip`: the dotted quad of a 32-bit value, and the empty string for any other value
   * (which `IPAddress.TryParse` refuses).
   */
  function LongToIp(ipAddress: int): (r: string)
    ensures 0 <= ipAddress < TwoTo32 ==> r == DottedQuad(ToIPAddress(ipAddress))
    ensures !(0 <= ipAddress < TwoTo32) ==> r == ""
  {
    TryParseLongText(ipAddress);
    match TryParse(LongText(ipAddress))
    case Some(ip) => DottedQuad(ip)
    case None => ""
  }

  /** The text `long2ip` writes is what `ip2long` reads back. */
  lemma IpToLongOfLongToIp(x: int)
    requires 0 <= x < TwoTo32
    ensures IpToLong(LongToIp(x)) == x
  {
    TryParseDottedQuad(ToIPAddress(x));
    ToUintOfToIPAddress(x);
    ToUintOfToIPAddress(IpToLong(LongToIp(x)));
  }

  /** Every text `ip2long` accepts is read as the dotted quad `long2ip` writes for its value. */
  lemma LongToIpOfIpToLong(ipAddress: string)
    requires TryParse(ipAddress).Some?
    ensures LongToIp(IpToLong(ipAddress)) == DottedQuad(TryParse(ipAddress).value)
  {
  }

  // ---------------------------------------------------------------------------------
  // GetNextIP and GetPreviousIP

  /**
   * `GetNextIP`: the address after the given one. Past 255.255.255.255 there is none, and
   * the result is empty; text that does not parse counts as -1, so its next address is
   * 0.0.0.0.
   */
  function GetNextIP(ipAddress: string): (r: string)
    ensures TryParse(ipAddress).Some? && IpToLong(ipAddress) < AllOnes
      ==> r == DottedQuad(ToIPAddress(IpToLong(ipAddress) + 1))
    ensures TryParse(ipAddress).Some? && IpToLong(ipAddress) == AllOnes ==> r == ""
    ensures TryParse(ipAddress).None? ==> r == DottedQuad(ToIPAddress(0))
  {
    LongToIp(IpToLong(ipAddress) + 1)
  }

  /**
   * `GetPreviousIP`: the address before the given one. Before 0.0.0.0 there is none, and
   * the result is empty; so it is for text that does not parse, which counts as -1.
   */
  function GetPreviousIP(ipAddress: string): (r: string)
    ensures TryParse(ipAddress).Some? && IpToLong(ipAddress) > 0
      ==> r == DottedQuad(ToIPAddress(IpToLong(ipAddress) - 1))
    ensures TryParse(ipAddress).Some? && IpToLong(ipAddress) == 0 ==> r == ""
    ensures TryParse(ipAddress).None? ==> r == ""
  {
    LongToIp(IpToLong(ipAddress) - 1)
  }

  lemma NextOf(ipAddress: string, v: int)
    requires IpToLong(ipAddress) == v
    ensures GetNextIP(ipAddress) == LongToIp(v + 1)
  {
  }

  lemma PreviousOf(ipAddress: string, v: int)
    requires IpToLong(ipAddress) == v
    ensures GetPreviousIP(ipAddress) == LongToIp(v - 1)
  {
  }

  /** The next address of an address below the last one has the value one higher. */
  lemma NextIsSuccessor(ipAddress: string)
    requires 0 <= IpToLong(ipAddress) < AllOnes
    ensures IpToLong(GetNextIP(ipAddress)) == IpToLong(ipAddress) + 1
  {
    var v := IpToLong(ipAddress);
    NextOf(ipAddress, v);
    IpToLongOfLongToIp(v + 1);
  }

  /** The previous address of an address above 0.0.0.0 has the value one lower. */
  lemma PreviousIsPredecessor(ipAddress: string)
    requires 0 < IpToLong(ipAddress)
    ensures IpToLong(GetPreviousIP(ipAddress)) == IpToLong(ipAddress) - 1
  {
    var v := IpToLong(ipAddress);
    PreviousOf(ipAddress, v);
    IpToLongOfLongToIp(v - 1);
  }

  /** Stepping forward and back again gives the dotted quad of the address one started from. */
  lemma PreviousOfNext(ipAddress: string)
    requires 0 <= IpToLong(ipAddress) < AllOnes
    ensures GetPreviousIP(GetNextIP(ipAddress)) == LongToIp(IpToLong(ipAddress))
  {
    var v := IpToLong(ipAddress);
    NextIsSuccessor(ipAddress);
    PreviousOf(GetNextIP(ipAddress), v + 1);
  }

  /** Stepping back and forward again gives the dotted quad of the address one started from. */
  lemma NextOfPrevious(ipAddress: string)
    requires 0 < IpToLong(ipAddress)
    ensures GetNextIP(GetPreviousIP(ipAddress)) == LongToIp(IpToLong(ipAddress))
  {
    var v := IpToLong(ipAddress);
    PreviousIsPredecessor(ipAddress);
    NextOf(GetPreviousIP(ipAddress), v - 1);
  }

  // ---------------------------------------------------------------------------------
  // Convert2CIDR

  /** The number of low zero bits of `x`, counting at most `k` of them. */
  function AlignBits(x: nat, k: nat): (j: nat)
    ensures j <= k
  {
    if k == 0 || x % 2 == 1 then 0 else 1 + AlignBits(x / 2, k - 1)
  }

  /** `x` has its low `j` bits clear exactly when `j` is at most its count of low zero bits. */
  lemma {:induction false} AlignBitsClear(x: nat, k: nat, j: nat)
    requires j <= k
    ensures ClearLow(x, j) == x <==> j <= AlignBits(x, k)
  {
    if j > 0 {
      ClearLowUnfold(x, j);
      AlignBitsClear(x / 2, k - 1, j - 1);
    }
  }

  /** The count of low zero bits is the `j` whose bits are clear while bit `j` is not. */
  lemma AlignBitsExact(x: nat, j: nat)
    requires j <= 32 && ClearLow(x, j) == x && (j == 32 || ClearLow(x, j + 1) != x)
    ensures AlignBits(x, 32) == j
  {
    AlignBitsClear(x, 32, j);
    if j < 32 {
      AlignBitsClear(x, 32, j + 1);
    }
  }

  /** An odd multiple of `2^j` has exactly `j` low zero bits. */
  lemma {:induction false} AlignBitsOfOddMultiple(q: nat, j: nat, k: nat)
    requires q % 2 == 1 && j <= k
    ensures AlignBits(q * Pow2(j), k) == j
  {
    if j > 0 {
      assert q * Pow2(j) == 2 * (q * Pow2(j - 1));
      AlignBitsOfOddMultiple(q, j - 1, k - 1);
    }
  }

  /** `Math.Floor(Math.Log(n) / Math.Log(2))`, computed exactly: the largest `k` with `2^k <= n`. */
  function FloorLog2(n: nat): (k: nat)
    requires n >= 1
    ensures Pow2(k) <= n < 2 * Pow2(k)
  {
    if n == 1 then 0 else 1 + FloorLog2(n / 2)
  }

  lemma FloorLog2Below(n: nat, m: nat)
    requires 1 <= n < Pow2(m)
    ensures FloorLog2(n) < m
  {
    if FloorLog2(n) >= m {
      Pow2Monotone(m, FloorLog2(n));
    }
  }

  /** At most 2^32 addresses are left, so at most 32 host bits are needed. */
  lemma FloorLog2AtMost32(n: nat)
    requires 1 <= n <= TwoTo32
    ensures FloorLog2(n) <= 32
  {
    Pow2Values();
    FloorLog2Below(n, 33);
  }

  /** Only one exponent brackets `n` between `2^k` and `2^(k+1)`. */
  lemma FloorLog2Unique(n: nat, k: nat)
    requires 1 <= n && Pow2(k) <= n < 2 * Pow2(k)
    ensures FloorLog2(n) == k
  {
    var j := FloorLog2(n);
    if j < k {
      Pow2Doubles(j, k);
    } else if j > k {
      Pow2Doubles(k, j);
    }
  }

  lemma Pow2Doubles(a: nat, b: nat)
    requires a < b
    ensures 2 * Pow2(a) <= Pow2(b)
  {
    Pow2Monotone(a, b - 1);
  }

  /**
   * The host bits of the block `Convert2CIDR` emits at `start`: as many as the alignment of
   * `start` allows, and no more than the `end - start + 1` addresses left hold.
   */
  function BlockBits(start: nat, end: nat): (k: nat)
    requires start <= end < TwoTo32
    ensures k <= 32
  {
    FloorLog2AtMost32(end - start + 1);
    if AlignBits(start, 32) < FloorLog2(end - start + 1) then AlignBits(start, 32)
    else FloorLog2(end - start + 1)
  }

  /** The block fits: `start` is aligned to its size, and the range holds all of it. */
  lemma BlockBitsFits(start: nat, end: nat)
    requires start <= end < TwoTo32
    ensures Pow2(BlockBits(start, end)) <= end - start + 1
    ensures ClearLow(start, BlockBits(start, end)) == start
  {
    var k := BlockBits(start, end);
    AlignBitsClear(start, 32, k);
    Pow2Monotone(k, FloorLog2(end - start + 1));
  }

  /**
   * No block of twice the size fits at `start`: either `start` is not aligned to it, or it
   * runs past `end`.
   */
  lemma BlockBitsMaximal(start: nat, end: nat)
    requires start <= end < TwoTo32
    ensures var k := BlockBits(start, end);
      k == 32 || ClearLow(start, k + 1) != start || start + Pow2(k + 1) - 1 > end
  {
    var k := BlockBits(start, end);
    if k < 32 && k == AlignBits(start, 32) {
      AlignBitsClear(start, 32, k + 1);
    }
  }

  /**
   * The blocks that cover `[start, end]`, in order: the block at `start` with `BlockBits`
   * host bits, then the blocks of the rest of the range.
   */
  function Blocks(start: nat, end: int): (r: seq<IPNetwork>)
    requires end < TwoTo32
    decreases end - start + 1
  {
    if end < start then []
    else
      var k := BlockBits(start, end);
      [Network(start, 32 - k)] + Blocks(start + Pow2(k), end)
  }

  /** The first address after the block of `b`. */
  function BlockLimit(b: IPNetwork): nat
  {
    b.ipaddress + Pow2(HostBits(b))
  }

  /**
   * One step of the decomposition: a non-empty range starts with the block `BlockBits`
   * chooses at `start`, and the rest are the blocks of what is left after it.
   */
  lemma BlocksUnfold(start: nat, end: int, i: nat)
    requires start <= end < TwoTo32
    ensures var k := BlockBits(start, end);
      var bs, rest := Blocks(start, end), Blocks(start + Pow2(k), end);
      |bs| == |rest| + 1 && bs[0] == Network(start, 32 - k)
      && BlockLimit(bs[0]) == start + Pow2(k) <= end + 1
      && (0 < i < |bs| ==> bs[i] == rest[i - 1])
  {
    var k := BlockBits(start, end);
    BlockBitsFits(start, end);
    BlocksCons(start, end);
    ConsAt(Blocks(start, end), Network(start, 32 - k), Blocks(start + Pow2(k), end), i);
  }

  lemma BlocksCons(start: nat, end: int)
    requires start <= end < TwoTo32
    ensures var k := BlockBits(start, end);
      Blocks(start, end) == [Network(start, 32 - k)] + Blocks(start + Pow2(k), end)
  {
  }

  lemma ConsAt<T>(s: seq<T>, head: T, tail: seq<T>, i: nat)
    requires s == [head] + tail
    ensures |s| == |tail| + 1 && s[0] == head && (0 < i < |s| ==> s[i] == tail[i - 1])
  {
  }

  /** The decomposition is empty exactly when the range is. */
  lemma BlocksEmpty(start: nat, end: int)
    requires end < TwoTo32
    ensures |Blocks(start, end)| == 0 <==> end < start
  {
  }

  /**
   * The blocks form a chain: the first starts at `start`, each starts where the one before
   * ended, and the last ends at `end`.
   */
  lemma {:induction false} BlocksChain(start: nat, end: int, i: nat)
    requires end < TwoTo32 && i < |Blocks(start, end)|
    ensures i == 0 ==> Blocks(start, end)[i].ipaddress == start
    ensures i + 1 < |Blocks(start, end)| ==> Blocks(start, end)[i + 1].ipaddress == BlockLimit(Blocks(start, end)[i])
    ensures i + 1 == |Blocks(start, end)| ==> BlockLimit(Blocks(start, end)[i]) == end + 1
    decreases end - start + 1
  {
    var next := start + Pow2(BlockBits(start, end));
    if i == 0 {
      BlocksUnfold(start, end, 1);
      BlocksEmpty(next, end);
      if next <= end {
        BlocksChain(next, end, 0);
      }
    } else {
      BlocksUnfold(start, end, i);
      BlocksUnfold(start, end, i + 1);
      BlocksChain(next, end, i - 1);
    }
  }

  /** The block `BlockBits` chooses at `start` is aligned, fits, and cannot be doubled. */
  lemma FirstBlockAligned(start: nat, end: int, b: IPNetwork)
    requires start <= end < TwoTo32 && b == Network(start, 32 - BlockBits(start, end))
    ensures BlockLimit(b) <= end + 1
      && ClearLow(b.ipaddress, HostBits(b)) == b.ipaddress
      && (HostBits(b) == 32 || ClearLow(b.ipaddress, HostBits(b) + 1) != b.ipaddress
        || BlockLimit(b) + Pow2(HostBits(b)) > end + 1)
  {
    var k := BlockBits(start, end);
    assert HostBits(b) == k;
    BlockBitsFits(start, end);
    BlockBitsMaximal(start, end);
  }

  /** Every block is the one `BlockBits` chooses at some address of the range. */
  lemma {:induction false} BlockChosen(start: nat, end: int, i: nat) returns (s: nat)
    requires end < TwoTo32 && i < |Blocks(start, end)|
    ensures start <= s <= end && Blocks(start, end)[i] == Network(s, 32 - BlockBits(s, end))
    decreases end - start + 1
  {
    BlocksUnfold(start, end, i);
    if i == 0 {
      s := start;
    } else {
      s := BlockChosen(start + Pow2(BlockBits(start, end)), end, i - 1);
    }
  }

  /**
   * Every block lies inside `[start, end]`, starts at a multiple of its size, and is
   * maximal: the block of twice its size at the same address is either misaligned or runs
   * past `end`.
   */
  lemma BlocksAligned(start: nat, end: int, i: nat)
    requires end < TwoTo32 && i < |Blocks(start, end)|
    ensures var b := Blocks(start, end)[i];
      start <= b.ipaddress && BlockLimit(b) <= end + 1
      && ClearLow(b.ipaddress, HostBits(b)) == b.ipaddress
      && (HostBits(b) == 32 || ClearLow(b.ipaddress, HostBits(b) + 1) != b.ipaddress
        || BlockLimit(b) + Pow2(HostBits(b)) > end + 1)
  {
    var s := BlockChosen(start, end, i);
    FirstBlockAligned(s, end, Blocks(start, end)[i]);
  }

  /** Each block is a network in its own right: its address is its network address. */
  lemma BlocksAreNetworks(start: nat, end: int, i: nat)
    requires end < TwoTo32 && i < |Blocks(start, end)|
    ensures var b := Blocks(start, end)[i];
      NetworkValue(b) == b.ipaddress && BroadcastValue(b) == BlockLimit(b) - 1
      && start <= NetworkValue(b) && BroadcastValue(b) <= end
  {
    BlocksAligned(start, end, i);
  }

  /** A later block lies wholly above an earlier one: the blocks ascend. */
  lemma {:induction false} BlocksAscending(start: nat, end: int, i: nat, j: nat)
    requires end < TwoTo32 && i < j < |Blocks(start, end)|
    ensures BlockLimit(Blocks(start, end)[i]) <= Blocks(start, end)[j].ipaddress
    decreases j - i
  {
    BlocksChain(start, end, i);
    if j > i + 1 {
      BlocksAscending(start, end, i + 1, j);
    }
  }

  /** The blocks cover exactly the addresses of `[start, end]`. */
  lemma BlocksCover(start: nat, end: int, x: nat)
    requires end < TwoTo32
    ensures (exists i :: 0 <= i < |Blocks(start, end)| && InNetwork(Blocks(start, end)[i], x))
      <==> start <= x <= end
  {
    var bs := Blocks(start, end);
    if i :| 0 <= i < |bs| && InNetwork(bs[i], x) {
      BlocksAreNetworks(start, end, i);
      InNetworkRange(bs[i], x);
    }
    if start <= x <= end {
      var i := BlockOf(start, end, x, 0);
      BlocksAreNetworks(start, end, i);
      InNetworkRange(bs[i], x);
    }
  }

  /** The index of the block that holds `x`, searching from block `i` on. */
  lemma {:induction false} BlockOf(start: nat, end: int, x: nat, i: nat) returns (j: nat)
    requires end < TwoTo32 && i < |Blocks(start, end)|
    requires Blocks(start, end)[i].ipaddress <= x <= end
    ensures i <= j < |Blocks(start, end)|
    ensures Blocks(start, end)[j].ipaddress <= x < BlockLimit(Blocks(start, end)[j])
    decreases |Blocks(start, end)| - i
  {
    BlocksChain(start, end, i);
    if x < BlockLimit(Blocks(start, end)[i]) {
      j := i;
    } else {
      j := BlockOf(start, end, x, i + 1);
    }
  }

  /** No address lies in two of the blocks. */
  lemma BlocksDisjoint(start: nat, end: int, i: nat, j: nat, x: nat)
    requires end < TwoTo32 && i < j < |Blocks(start, end)|
    ensures !(InNetwork(Blocks(start, end)[i], x) && InNetwork(Blocks(start, end)[j], x))
  {
    var bs := Blocks(start, end);
    BlocksAscending(start, end, i, j);
    BlocksAreNetworks(start, end, i);
    BlocksAreNetworks(start, end, j);
    InNetworkRange(bs[i], x);
    InNetworkRange(bs[j], x);
  }

  /** A range of one address is one /32 block. */
  lemma BlocksOfSingle(x: uint)
    ensures Blocks(x, x) == [Network(x, 32)]
  {
    assert FloorLog2(1) == 0;
    assert BlockBits(x, x) == 0;
  }

  /** The range of a network's own block decomposes into that block alone, at its network address. */
  lemma BlocksOfNetwork(n: IPNetwork)
    ensures Blocks(NetworkValue(n), BroadcastValue(n)) == [Network(NetworkValue(n), n.cidr)]
  {
    var net, k := NetworkValue(n), HostBits(n);
    ClearLowIdempotent(n.ipaddress, k);
    AlignBitsClear(net, 32, k);
    FloorLog2Unique(Pow2(k), k);
    assert BlockBits(net, BroadcastValue(n)) == k;
  }

  /**
   * The block at an odd multiple `q * 2^j` of `2^j`, with `n` addresses left and `2^k <= n < 2^(k+1)`,
   * has `min(j, k)` host bits.
   */
  lemma BlockBitsAt(start: nat, end: nat, q: nat, j: nat, k: nat)
    requires start <= end < TwoTo32 && j <= 32 && q % 2 == 1 && start == q * Pow2(j)
    requires Pow2(k) <= end - start + 1 < 2 * Pow2(k)
    ensures BlockBits(start, end) == if j < k then j else k
  {
    AlignBitsOfOddMultiple(q, j, 32);
    FloorLog2Unique(end - start + 1, k);
  }

  lemma Pow2Small()
    ensures Pow2(2) == 4 && Pow2(3) == 8 && Pow2(4) == 16 && Pow2(5) == 32 && Pow2(8) == 256
  {
    assert Pow2(1) == 2;
    assert Pow2(2) == 4;
    assert Pow2(3) == 8;
    assert Pow2(4) == 16;
    assert Pow2(5) == 32;
    assert Pow2(6) == 64;
    assert Pow2(7) == 128;
  }

  /** The range 192.168.1.0 - 192.168.1.59 is the blocks .0/27, .32/28, .48/29 and .56/30. */
  lemma BlocksExample()
    ensures Blocks(0xC0A8_0100, 0xC0A8_013B) == [Network(0xC0A8_0100, 27), Network(0xC0A8_0120, 28),
      Network(0xC0A8_0130, 29), Network(0xC0A8_0138, 30)]
  {
    var end := 0xC0A8_013B;
    Pow2Small();
    BlockBitsAt(0xC0A8_0100, end, 0xC0A801, 8, 5);
    BlockBitsAt(0xC0A8_0120, end, 0x605_4009, 5, 4);
    BlockBitsAt(0xC0A8_0130, end, 0xC0A_8013, 4, 3);
    BlockBitsAt(0xC0A8_0138, end, 0x1815_0027, 3, 2);
    BlocksCons(0xC0A8_0138, end);
    BlocksCons(0xC0A8_0130, end);
    BlocksCons(0xC0A8_0120, end);
    BlocksCons(0xC0A8_0100, end);
  }

  /** The entry `Convert2CIDR` writes for a block: `long2ip` of its address, a slash, its prefix. */
  function BlockText(b: IPNetwork): string
  {
    LongToIp(b.ipaddress) + "/" + Decimal(b.cidr)
  }

  /** `f` applied to each element of `s`, in order. */
  function MapSeq<T, U>(f: T -> U, s: seq<T>): (r: seq<U>)
    ensures |r| == |s|
  {
    seq(|s|, i requires 0 <= i < |s| => f(s[i]))
  }

  lemma MapSeqAt<T, U>(f: T -> U, s: seq<T>, i: nat)
    requires i < |s|
    ensures MapSeq(f, s)[i] == f(s[i])
  {
  }

  lemma MapSeqAppend<T, U>(f: T -> U, s: seq<T>, x: T)
    ensures MapSeq(f, s + [x]) == MapSeq(f, s) + [f(x)]
  {
  }

  /** The entries of a list of blocks. */
  function BlockTexts(bs: seq<IPNetwork>): (r: seq<string>)
  {
    MapSeq(BlockText, bs)
  }

  /** The entry of a block is the `ToString()` of the network it denotes. */
  lemma BlockTextIsToString(n: IPNetwork)
    ensures BlockText(Network(NetworkValue(n), n.cidr)) == ToString(n)
  {
  }

  /** Masking `start` with the prefix mask of `/maxSize - 1` clears its low `33 - maxSize` bits. */
  lemma MaskStep(start: uint, maxSize: nat)
    requires 1 <= maxSize <= 32
    ensures And(start, PrefixMask(maxSize - 1)) == ClearLow(start, 33 - maxSize)
  {
    Pow2Values();
    AndHighMask(start, 32, 33 - maxSize, PrefixMask(maxSize - 1));
  }

  /**
   * The inner loop of `Convert2CIDR`: the longest prefix (smallest block) whose mask leaves
   * `start` unchanged, narrowing from /32 while the next shorter mask still does.
   */
  method LeadingMaskSize(start: uint) returns (maxSize: nat)
    ensures maxSize == 32 - AlignBits(start, 32)
  {
    maxSize := 32;
    while maxSize > 0
      invariant 0 <= maxSize <= 32
      invariant ClearLow(start, 32 - maxSize) == start
      decreases maxSize
    {
      var mask := PrefixMask(maxSize - 1);
      var maskBase := And(start, mask);
      MaskStep(start, maxSize);
      if maskBase != start {
        break;
      }
      maxSize := maxSize - 1;
    }
    AlignBitsExact(start, 32 - maxSize);
  }

  /**
   * The prefix `Convert2CIDR` settles on at `start`: the alignment prefix the inner loop
   * finds, raised to the size prefix `32 - floor(log2(end - start + 1))` when that is larger.
   */
  method BlockPrefix(start: uint, end: uint) returns (maxSize: nat)
    requires start <= end
    ensures maxSize == 32 - BlockBits(start, end)
  {
    maxSize := LeadingMaskSize(start);
    var n := end - start + 1;
    FloorLog2AtMost32(n);
    var maxDiff := 32 - FloorLog2(n);
    if maxSize < maxDiff {
      maxSize := maxDiff;
    }
  }

  /** One entry of `Convert2CIDR`: the largest block that starts at `start` and ends by `end`. */
  method NextEntry(start: uint, end: uint) returns (entry: string, maxSize: nat)
    requires start <= end
    ensures maxSize == 32 - BlockBits(start, end)
    ensures maxSize <= 32 && entry == BlockText(Network(start, maxSize))
  {
    maxSize := BlockPrefix(start, end);
    var ip := LongToIp(start);
    entry := ip + "/" + Decimal(maxSize);
  }

  /** Writing the entry of one more block extends the entries of the blocks emitted so far. */
  lemma TextsStep(emitted: seq<IPNetwork>, block: IPNetwork, result: seq<string>, entry: string)
    requires result == BlockTexts(emitted) && entry == BlockText(block)
    ensures result + [entry] == BlockTexts(emitted + [block])
  {
    MapSeqAppend<IPNetwork, string>(BlockText, emitted, block);
  }

  /**
   * What the loop of `Convert2CIDR` needs to know about the block it is at: it is the block
   * `BlockBits` chooses at its address, and the next block starts where it ends.
   */
  lemma LoopStep(first: nat, last: int, blocks: seq<IPNetwork>, i: nat, start: nat)
    requires last < TwoTo32 && blocks == Blocks(first, last)
    requires i < |blocks| && start == blocks[i].ipaddress
    ensures start <= last && blocks[i] == Network(start, 32 - BlockBits(start, last))
    ensures i + 1 < |blocks| ==> blocks[i + 1].ipaddress == BlockLimit(blocks[i]) <= last
    ensures i + 1 == |blocks| ==> BlockLimit(blocks[i]) == last + 1
  {
    var s := BlockChosen(first, last, i);
    BlocksChain(first, last, i);
    if i + 1 < |blocks| {
      var s' := BlockChosen(first, last, i + 1);
    }
  }

  lemma TakeSnoc<T>(s: seq<T>, i: nat)
    requires i < |s|
    ensures s[..i] + [s[i]] == s[..i + 1]
  {
  }

  /** One turn of the loop of `Convert2CIDR`: the entry extends the texts, and start moves on. */
  lemma LoopAdvance(first: nat, last: int, blocks: seq<IPNetwork>, i: nat, start: nat,
                    result: seq<string>, entry: string, maxSize: nat)
    requires last < TwoTo32 && blocks == Blocks(first, last)
    requires i < |blocks| && start == blocks[i].ipaddress && start <= last
    requires result == BlockTexts(blocks[..i])
    requires maxSize == 32 - BlockBits(start, last) && entry == BlockText(Network(start, maxSize))
    ensures result + [entry] == BlockTexts(blocks[..i + 1])
    ensures i + 1 < |blocks| ==> start + Pow2(32 - maxSize) == blocks[i + 1].ipaddress <= last
    ensures i + 1 == |blocks| ==> last < start + Pow2(32 - maxSize)
  {
    LoopStep(first, last, blocks, i, start);
    var block := blocks[i];
    assert block == Network(start, maxSize) && BlockLimit(block) == start + Pow2(32 - maxSize);
    TextsStep(blocks[..i], block, result, entry);
    TakeSnoc(blocks, i);
  }

  /** The loop of `Convert2CIDR`, on the numeric bounds. */
  method ConvertRange(first: uint, last: int) returns (result: seq<string>)
    requires last < TwoTo32
    ensures result == BlockTexts(Blocks(first, last))
  {
    var start: nat := first;
    var end := last;
    ghost var blocks := Blocks(first, last);
    ghost var i := 0;
    BlocksEmpty(first, last);
    if 0 < |blocks| {
      BlocksChain(first, last, 0);
    }
    result := [];
    while end >= start
      invariant i <= |blocks|
      invariant i < |blocks| ==> start == blocks[i].ipaddress <= end
      invariant i == |blocks| ==> end < start
      invariant result == BlockTexts(blocks[..i])
      decreases end - start + 1
    {
      var entry, maxSize := NextEntry(start, end);
      LoopAdvance(first, last, blocks, i, start, result, entry, maxSize);
      result := result + [entry];
      start := start + Pow2(32 - maxSize);
      i := i + 1;
    }
    assert blocks[..i] == blocks;
  }

  /** The entry written for `ip2long`'s -1 is the bare "/32". */
  lemma EntryOfMinusOne(entry: string)
    requires entry == LongToIp(-1) + "/" + Decimal(32)
    ensures entry == "/32"
  {
    assert Numeral(32, 10) == Numeral(3, 10) + [DigitChar(2)];
  }

  /**
   * `Convert2CIDR`: the address range from `ipStart` to `ipEnd`, inclusive, as a list of
   * CIDR blocks in text form, one entry per block of `Blocks`.
   *
   * Text that does not parse is `ip2long`'s -1. As an end it stops the loop before its first
   * turn. As a start it makes one turn before the loop reaches the addresses: `-1 & iMask(31)`
   * is not -1, so the block size stays 32, the entry is `long2ip(-1) + "/32"` with the empty
   * `long2ip(-1)`, and the start moves on to 0.
   */
  method Convert2CIDR(ipStart: string, ipEnd: string) returns (result: seq<string>)
    ensures TryParse(ipStart).Some? ==> result == BlockTexts(Blocks(IpToLong(ipStart), IpToLong(ipEnd)))
    ensures TryParse(ipStart).Some? && TryParse(ipEnd).None? ==> result == []
    ensures TryParse(ipStart).None? ==> result == ["/32"] + BlockTexts(Blocks(0, IpToLong(ipEnd)))
  {
    var start := IpToLong(ipStart);
    var end := IpToLong(ipEnd);
    if start == -1 {
      var entry := LongToIp(start) + "/" + Decimal(32);
      EntryOfMinusOne(entry);
      var rest := ConvertRange(0, end);
      result := [entry] + rest;
    } else {
      BlocksEmpty(start, end);
      result := ConvertRange(start, end);
    }
  }

  // ---------------------------------------------------------------------------------
  // ToUncompressedString

  /**
   * `ToUncompressedString`: the four bytes of an IPv4 address, each as three zero-padded
   * decimal digits, joined by dots. Any other address is rendered by `IPAddress.ToString()`,
   * which is given as `text`.
   */
  function ToUncompressedString(ipAddress: IPAddress, text: string): (r: string)
    ensures ipAddress.addressFamily != InterNetwork ==> r == text
  {
    if ipAddress.addressFamily == InterNetwork then
      var bytes := ipAddress.addressBytes;
      Join(seq(|bytes|, i requires 0 <= i < |bytes| => D3(bytes[i])), ['.'])
    else text
  }

  /**
   * The rendering of an IPv4 address has 15 characters, and splitting it at the dots gives
   * back four fields of three digits, which read as the four bytes.
   */
  lemma UncompressedLayout(ipAddress: IPAddress, text: string)
    requires ipAddress.addressFamily == InterNetwork
    ensures var r := ToUncompressedString(ipAddress, text);
      |r| == 15 && |Split(r, {'.'})| == 4
      && forall i :: 0 <= i < 4 ==>
        var field := Split(r, {'.'})[i];
        |field| == 3 && AllDigits(field) && NumeralValue(field, 10) == ipAddress.addressBytes[i]
  {
    var bytes := ipAddress.addressBytes;
    var f := seq(|bytes|, i requires 0 <= i < |bytes| => D3(bytes[i]));
    forall i, j | 0 <= i < |f| && 0 <= j < |f[i]|
      ensures f[i][j] != '.'
    {
      assert IsDigit(f[i][j]);
    }
    SplitJoin(f, '.');
    JoinLength(f, ".", 3);
  }
}
