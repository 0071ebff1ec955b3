/**
 * The static converters of IPNetwork: address <-> 32-bit value, prefix length <-> netmask,
 * the bit count of a netmask and the netmask validity test.
 *
 * Each converter comes in the library's three forms: an `Internal...` function taking
 * `tryParse`, which either throws (strict) or yields `null` (tolerant); a strict wrapper,
 * which returns the value or throws; and a `Try...` wrapper, which yields the value or
 * nothing. A null `IPAddress` argument is `None`.
 */
module Netmasks {
  import opened Outcomes
  import opened Bits
  import opened Popcount
  import opened Addresses

  // ---------------------------------------------------------------------------------
  // Byte order: Array.Reverse and System.BitConverter on a little-endian machine

  /** `Array.Reverse`. */
  function Reversed<T>(s: seq<T>): (r: seq<T>)
    ensures |r| == |s| && forall i :: 0 <= i < |s| ==> r[i] == s[|s| - 1 - i]
  {
    if |s| == 0 then [] else Reversed(s[1..]) + [s[0]]
  }

  /** `BitConverter.GetBytes(uint)`: the four bytes, least significant first. */
  function LittleEndianBytes(x: uint): (bs: seq<byte>)
    ensures |bs| == 4
  {
    [x % 256, x / 256 % 256, x / 0x1_0000 % 256, x / 0x100_0000]
  }

  /** `BitConverter.ToUInt32(bytes, 0)`: the first four bytes, least significant first. */
  function LittleEndianValue(bs: seq<byte>): (x: uint)
    requires |bs| == 4
    ensures Reversed(bs) == Bytes4(x)
  {
    var r := Reversed(bs);
    BytesValue4(r);
    Bytes4OfValue(r);
    bs[0] + 256 * (bs[1] as int) + 0x1_0000 * (bs[2] as int) + 0x100_0000 * (bs[3] as int)
  }

  // ---------------------------------------------------------------------------------
  // Address <-> 32-bit value

  /** The address whose bytes, in network order, are those of `ipaddress`. */
  function ToIPAddress(ipaddress: uint): (a: IPAddress)
    ensures a.addressFamily == InterNetwork && a.addressBytes == Bytes4(ipaddress)
  {
    var bytes := Reversed(LittleEndianBytes(ipaddress));
    assert bytes == Bytes4(ipaddress);
    Address(InterNetwork, bytes)
  }

  /**
   * An IPv4 address as a 32-bit value, the first byte most significant; any other
   * address is refused, by `ArgumentException("bytes")` when strict.
   */
  function InternalToUint(tryParse: bool, ipaddress: Option<IPAddress>): (r: Outcome<Option<uint>>)
    ensures tryParse ==> r.Return?
    ensures !tryParse && r.Return? ==> r.value.Some?
    ensures r.Return? && r.value.Some? <==> ipaddress.Some? && ipaddress.value.addressFamily == InterNetwork
    ensures r.Return? && r.value.Some? ==> ToIPAddress(r.value.value) == ipaddress.value
    ensures !tryParse && ipaddress.None? ==> r == Throw(ArgumentNullException("ipaddress"))
    ensures !tryParse && ipaddress.Some? && ipaddress.value.addressFamily != InterNetwork
      ==> r == Throw(ArgumentException("bytes"))
  {
    if ipaddress.None? then
      if !tryParse then Throw(ArgumentNullException("ipaddress")) else Return(None)
    else if |ipaddress.value.addressBytes| != 4 then
      if !tryParse then Throw(ArgumentException("bytes")) else Return(None)
    else
      var bytes := ipaddress.value.addressBytes;
      var x := LittleEndianValue(Reversed(bytes));
      assert Reversed(Reversed(bytes)) == bytes;
      Return(Some(x))
  }

  /** `ToUint(IPAddress)`: the value of an IPv4 address; null and IPv6 throw. */
  function ToUint(ipaddress: Option<IPAddress>): (r: Outcome<uint>)
    ensures r.Return? <==> ipaddress.Some? && ipaddress.value.addressFamily == InterNetwork
    ensures r.Return? ==> ToIPAddress(r.value) == ipaddress.value
    ensures ipaddress.None? ==> r == Throw(ArgumentNullException("ipaddress"))
    ensures ipaddress.Some? && ipaddress.value.addressFamily != InterNetwork
      ==> r == Throw(ArgumentException("bytes"))
  {
    var u := InternalToUint(false, ipaddress);
    if u.Return? then Return(u.value.value) else Throw(u.exception)
  }

  /** `TryToUint(IPAddress, out uint?)`: the value of an IPv4 address, `null` otherwise. */
  function TryToUint(ipaddress: Option<IPAddress>): (r: Option<uint>)
    ensures r.Some? <==> ipaddress.Some? && ipaddress.value.addressFamily == InterNetwork
    ensures r.Some? ==> ToIPAddress(r.value) == ipaddress.value
  {
    InternalToUint(true, ipaddress).value
  }

  /** The strict and the tolerant conversion agree wherever either has a value. */
  lemma ToUintAgree(ipaddress: Option<IPAddress>)
    ensures ToUint(ipaddress).Return? <==> TryToUint(ipaddress).Some?
    ensures ToUint(ipaddress).Return? ==> TryToUint(ipaddress).value == ToUint(ipaddress).value
  {
  }

  /** Converting a value to an address and back gives the value. */
  lemma ToUintOfToIPAddress(x: uint)
    ensures ToUint(Some(ToIPAddress(x))) == Return(x)
  {
    var y := ToUint(Some(ToIPAddress(x))).value;
    Bytes4OfValue(Bytes4(x));
    Bytes4OfValue(Bytes4(y));
  }

  /** Converting an IPv4 address to its value and back gives the address. */
  lemma ToIPAddressOfToUint(a: IPAddress)
    requires a.addressFamily == InterNetwork
    ensures ToUint(Some(a)).Return? && ToIPAddress(ToUint(Some(a)).value) == a
  {
  }

  // ---------------------------------------------------------------------------------
  // Prefix length -> netmask

  /** The netmask of a prefix length: `cidr` one bits followed by `32 - cidr` zero bits. */
  function PrefixMask(cidr: nat): (m: uint)
    requires cidr <= 32
    ensures Pop(m) == cidr
  {
    Pow2Values();
    PopHighOnes(32, 32 - cidr);
    TwoTo32 - Pow2(32 - cidr)
  }

  /** A netmask: some number of one bits followed by zero bits. */
  ghost predicate IsPrefixMask(m: nat)
  {
    exists cidr :: 0 <= cidr <= 32 && PrefixMask(cidr) == m
  }

  /** A netmask is the netmask of its own bit count. */
  lemma PrefixMaskOfPop(m: nat)
    requires IsPrefixMask(m)
    ensures Pop(m) <= 32 && PrefixMask(Pop(m)) == m
  {
    var c :| 0 <= c <= 32 && PrefixMask(c) == m;
  }

  /** Different prefix lengths have different netmasks. */
  lemma PrefixMaskInjective(c1: nat, c2: nat)
    requires c1 <= 32 && c2 <= 32 && PrefixMask(c1) == PrefixMask(c2)
    ensures c1 == c2
  {
  }

  /** The netmask of a prefix length, refused above 32 (`ArgumentOutOfRangeException` when strict). */
  function InternalCidrToUint(tryParse: bool, cidr: byte): (r: Outcome<Option<uint>>)
    ensures tryParse ==> r.Return?
    ensures !tryParse && r.Return? ==> r.value.Some?
    ensures r.Return? && r.value.Some? <==> cidr <= 32
    ensures r.Return? && r.value.Some? ==> r.value.value == PrefixMask(cidr)
    ensures !tryParse && cidr > 32 ==> r == Throw(ArgumentOutOfRangeException("cidr"))
  {
    if cidr > 32 then
      if !tryParse then Throw(ArgumentOutOfRangeException("cidr")) else Return(None)
    else
      var mask: uint := if cidr == 0 then 0 else ShiftLeft(AllOnes, 32 - cidr);
      assert mask == PrefixMask(cidr) by {
        if cidr > 0 {
          ShiftLeftAllOnes(32 - cidr);
        } else {
          Pow2Values();
        }
      }
      Return(Some(mask))
  }

  /** `ToUint(byte)`: the netmask value of a prefix length; above 32 throws. */
  function CidrToUint(cidr: byte): (r: Outcome<uint>)
    ensures r.Return? <==> cidr <= 32
    ensures r.Return? ==> r.value == PrefixMask(cidr)
    ensures cidr > 32 ==> r == Throw(ArgumentOutOfRangeException("cidr"))
  {
    var u := InternalCidrToUint(false, cidr);
    if u.Return? then Return(u.value.value) else Throw(u.exception)
  }

  /** `TryToUint(byte, out uint?)`: the netmask value of a prefix length, `null` above 32. */
  function TryCidrToUint(cidr: byte): (r: Option<uint>)
    ensures r.Some? <==> cidr <= 32
    ensures r.Some? ==> r.value == PrefixMask(cidr)
  {
    InternalCidrToUint(true, cidr).value
  }

  /** The netmask of a prefix length as an address, refused above 32. */
  function InternalToNetmask(tryParse: bool, cidr: byte): (r: Outcome<Option<IPAddress>>)
    ensures tryParse ==> r.Return?
    ensures !tryParse && r.Return? ==> r.value.Some?
    ensures r.Return? && r.value.Some? <==> cidr <= 32
    ensures r.Return? && r.value.Some? ==> r.value.value == ToIPAddress(PrefixMask(cidr))
    ensures !tryParse && cidr > 32 ==> r == Throw(ArgumentOutOfRangeException("cidr"))
  {
    if cidr < 0 || cidr > 32 then
      if !tryParse then Throw(ArgumentOutOfRangeException("cidr")) else Return(None)
    else
      var mask := CidrToUint(cidr).value;
      Return(Some(ToIPAddress(mask)))
  }

  /** `ToNetmask(byte)`: the netmask address of a prefix length; above 32 throws. */
  function ToNetmask(cidr: byte): (r: Outcome<IPAddress>)
    ensures r.Return? <==> cidr <= 32
    ensures r.Return? ==> r.value == ToIPAddress(PrefixMask(cidr))
    ensures cidr > 32 ==> r == Throw(ArgumentOutOfRangeException("cidr"))
  {
    var u := InternalToNetmask(false, cidr);
    if u.Return? then Return(u.value.value) else Throw(u.exception)
  }

  /** `TryToNetmask(byte, out IPAddress)`: the netmask address, `null` above 32. */
  function TryToNetmask(cidr: byte): (r: Option<IPAddress>)
    ensures r.Some? <==> cidr <= 32
    ensures r.Some? ==> r.value == ToIPAddress(PrefixMask(cidr))
  {
    InternalToNetmask(true, cidr).value
  }

  // ---------------------------------------------------------------------------------
  // Bit count

  /**
   * The number of one bits of a 32-bit value, by the SWAR count: sums of 2-bit fields,
   * then of nibbles, then of bytes, gathered in the top byte by one multiplication; the
   * final `(byte)` cast keeps the low eight bits.
   */
  function BitsSet(netmask: uint): (r: byte)
    ensures r == Pop(netmask)
  {
    var i1 := PairFieldCounts(netmask);
    var i2 := NibbleFieldCounts(netmask, i1);
    var i3 := GatherByteCounts(netmask, i2);
    DivModUnique(i3, 256, 0, i3);
    i3 % 256
  }

  /** `i - ((i >> 1) & 0x55555555)`: each 2-bit field of the result counts the bits of that field of `i`. */
  function PairFieldCounts(i: uint): (r: uint)
    ensures r == PairPops(i, 16)
  {
    BitsSetPairs(i);
    SubWrap(i, And(ShiftRight(i, 1), 0x5555_5555))
  }

  /** `(i & 0x33333333) + ((i >> 2) & 0x33333333)` on the 2-bit counts of `x`: the nibble counts of `x`. */
  function NibbleFieldCounts(ghost x: uint, i: uint): (r: uint)
    requires i == PairPops(x, 16)
    ensures r == NibblePops(x, 8)
  {
    BitsSetNibbles(x);
    AddWrap(And(i, 0x3333_3333), And(ShiftRight(i, 2), 0x3333_3333))
  }

  /**
   * `((i + (i >> 4) & 0xf0f0f0f) * 0x1010101) >> 24` on the nibble counts of `x` (`+` binds
   * before `&`): the byte counts, added up in the top byte and shifted down.
   */
  function GatherByteCounts(ghost x: uint, i: uint): (r: uint)
    requires i == NibblePops(x, 8)
    ensures r == Pop(x) && r <= 32
  {
    BitsSetBytes(x);
    BitsSetGather(x);
    var bytes := And(AddWrap(i, ShiftRight(i, 4)), 0x0f0f_0f0f);
    ShiftRight(MulWrap(bytes, 0x0101_0101), 24)
  }

  /** Stage one: `i - ((i >> 1) & 0x55555555)` holds the count of each 2-bit field. */
  lemma BitsSetPairs(x: uint)
    ensures SubWrap(x, And(ShiftRight(x, 1), 0x5555_5555)) == PairPops(x, 16)
  {
    Pow2Values();
    ShrConstants(x);
    RepeatValues();
    assert 2 * 16 == 32;
    PairCounts(x, 16);
    assert And(x / 2, 0x5555_5555) <= x;
  }

  /** Stage two: adding the 2-bit fields pairwise gives the count of each nibble. */
  lemma BitsSetNibbles(x: uint)
    ensures PairPops(x, 16) < TwoTo32
    ensures var y: uint := PairPops(x, 16);
      AddWrap(And(y, 0x3333_3333), And(ShiftRight(y, 2), 0x3333_3333)) == NibblePops(x, 8)
  {
    BitsSetPairs(x);
    var y: uint := PairPops(x, 16);
    ShrConstants(y);
    RepeatValues();
    NibbleSums(y, 8);
    assert 2 * 8 == 16;
    NibbleFieldSumsOfPairPops(x, 8);
    NibblePopsBound(x, 8);
    RepeatFours();
  }

  /** Stage three: adding the nibbles pairwise and masking gives the count of each byte. */
  lemma BitsSetBytes(x: uint)
    ensures NibblePops(x, 8) <= 0x4444_4444
    ensures var z: uint := NibblePops(x, 8);
      And(AddWrap(z, ShiftRight(z, 4)), 0x0f0f_0f0f) == BytePops(x, 4)
  {
    NibblePopsBound(x, 8);
    RepeatFours();
    var z: uint := NibblePops(x, 8);
    NibbleShiftAdd(z);
    ByteFieldCounts(x);
  }

  lemma NibbleShiftAdd(z: uint)
    requires z <= 0x4444_4444
    ensures AddWrap(z, ShiftRight(z, 4)) == z + z / 16
  {
    ShrConstants(z);
  }

  lemma ByteFieldCounts(x: nat)
    ensures var z := NibblePops(x, 8);
      And(z + z / 16, 0x0f0f_0f0f) == BytePops(x, 4)
  {
    RepeatValues();
    assert 2 * 4 == 8;
    NibblePopsSmall(x, 4);
    ByteSums(NibblePops(x, 8), 4);
    ByteFieldSumsOfNibblePops(x, 4);
  }

  /** Stage four: the multiplication by 0x01010101 and `>> 24` add up the byte counts. */
  lemma BitsSetGather(x: uint)
    ensures BytePops(x, 4) <= 0x0f0f_0f0f
    ensures ShiftRight(MulWrap(BytePops(x, 4), 0x0101_0101), 24) == Pop(x) <= 32
  {
    Pow2Values();
    PopBound(x, 32);
    BitsSetBytes(x);
    var u := BytePops(x, 4);
    var w := MulWrap(u, 0x0101_0101);
    assert w == (u * 0x0101_0101) % 0x1_0000_0000;
    Shr24(w);
    AddBytes(x);
  }

  lemma {:induction false} NibblePopsBound(x: nat, n: nat)
    ensures NibblePops(x, n) <= Repeat(4, 16, n)
    decreases n
  {
    if n > 0 {
      PopFieldBounds(x);
      NibblePopsBound(x / 16, n - 1);
    }
  }

  lemma RepeatFours()
    ensures Repeat(4, 16, 8) == 0x4444_4444
  {
    assert Repeat(4, 16, 4) == 0x4444;
  }

  // ---------------------------------------------------------------------------------
  // Netmask validity

  /** The `(int)` cast of System.UInt32: the same 32 bits read in two's complement. */
  function ToInt32(x: uint): (v: int)
    ensures -0x8000_0000 <= v < 0x8000_0000 && (v - x) % TwoTo32 == 0
  {
    if x < 0x8000_0000 then x else x - TwoTo32
  }

  /**
   * `((~(int)netmask) & 0xffffffff)` computed in System.Int64, then `((neg + 1) & neg) == 0`:
   * the complement of the mask plus one must be a power of two.
   */
  function ValidNetmask(netmask: uint): (r: bool)
    ensures r <==> IsPrefixMask(netmask)
  {
    var neg := (-ToInt32(netmask) - 1) % 0x1_0000_0000;
    ComplementTestIsPrefixMask(netmask);
    And(neg + 1, neg) == 0
  }

  lemma ComplementOfCast(m: uint)
    ensures (-ToInt32(m) - 1) % 0x1_0000_0000 == AllOnes - m
  {
    if m < 0x8000_0000 {
      DivModUnique(-ToInt32(m) - 1, 0x1_0000_0000, -1, AllOnes - m);
    } else {
      DivModUnique(-ToInt32(m) - 1, 0x1_0000_0000, 0, AllOnes - m);
    }
  }

  lemma {:induction false} IsPow2OfPow2(k: nat)
    ensures IsPow2(Pow2(k))
  {
    if k > 0 {
      IsPow2OfPow2(k - 1);
    }
  }

  /** A 32-bit value passes the test of `ValidNetmask` exactly when it is a netmask. */
  lemma ComplementTestIsPrefixMask(m: uint)
    ensures var neg := (-ToInt32(m) - 1) % 0x1_0000_0000;
      And(neg + 1, neg) == 0 <==> IsPrefixMask(m)
  {
    var neg := (-ToInt32(m) - 1) % 0x1_0000_0000;
    ComplementOfCast(m);
    assert neg == AllOnes - m && neg + 1 == TwoTo32 - m;
    AndSuccZero(neg);
    ComplementPow2(m);
  }

  /** The values below 2^32 whose distance to 2^32 is a power of two are the netmasks. */
  lemma ComplementPow2(m: uint)
    ensures IsPow2(TwoTo32 - m) <==> IsPrefixMask(m)
  {
    if IsPow2(TwoTo32 - m) {
      PrefixMaskOfComplement(m);
    }
    if IsPrefixMask(m) {
      var c :| 0 <= c <= 32 && PrefixMask(c) == m;
      ComplementOfPrefixMask(c);
    }
  }

  lemma ComplementOfPrefixMask(cidr: nat)
    requires cidr <= 32
    ensures IsPow2(TwoTo32 - PrefixMask(cidr))
  {
    assert TwoTo32 - PrefixMask(cidr) == Pow2(32 - cidr);
    IsPow2OfPow2(32 - cidr);
  }

  lemma PrefixMaskOfComplement(m: uint)
    requires IsPow2(TwoTo32 - m)
    ensures IsPrefixMask(m)
  {
    var k := Log2(TwoTo32 - m);
    Pow2Values();
    assert k <= 32 by {
      if k > 32 {
        Pow2Monotone(33, k);
      }
    }
    assert PrefixMask(32 - k) == m;
  }

  /** The netmask of a prefix length passes the validity test. */
  lemma ValidNetmaskOfPrefixMask(cidr: nat)
    requires cidr <= 32
    ensures ValidNetmask(PrefixMask(cidr))
  {
    assert IsPrefixMask(PrefixMask(cidr));
  }

  /** `BitsSet(IPAddress)`: the strict conversion to a value, then the bit count. */
  function BitsSetOf(netmask: Option<IPAddress>): (r: Outcome<byte>)
    ensures r.Return? <==> ToUint(netmask).Return?
    ensures r.Return? ==> r.value == Pop(ToUint(netmask).value)
    ensures r.Throw? ==> r.exception == ToUint(netmask).exception
  {
    var u := ToUint(netmask);
    if u.Throw? then Throw(u.exception) else Return(BitsSet(u.value))
  }

  /** `ValidNetmask(IPAddress)`: null is refused as `netmask`, IPv6 by the strict conversion. */
  function ValidNetmaskOf(netmask: Option<IPAddress>): (r: Outcome<bool>)
    ensures netmask.None? ==> r == Throw(ArgumentNullException("netmask"))
    ensures netmask.Some? && netmask.value.addressFamily != InterNetwork
      ==> r == Throw(ArgumentException("bytes"))
    ensures netmask.Some? && netmask.value.addressFamily == InterNetwork
      ==> r.Return? && (r.value <==> IsPrefixMask(ToUint(netmask).value))
  {
    if netmask.None? then Throw(ArgumentNullException("netmask"))
    else
      var u := ToUint(netmask);
      if u.Throw? then Throw(u.exception)
      else
        Return(ValidNetmask(u.value))
  }

  // ---------------------------------------------------------------------------------
  // Netmask -> prefix length

  /** The prefix length of a netmask; anything else is refused (`ArgumentException` when strict). */
  function InternalToCidr(tryParse: bool, netmask: uint): (r: Outcome<Option<byte>>)
    ensures tryParse ==> r.Return?
    ensures !tryParse && r.Return? ==> r.value.Some?
    ensures r.Return? && r.value.Some? <==> IsPrefixMask(netmask)
    ensures r.Return? && r.value.Some? ==> r.value.value <= 32 && PrefixMask(r.value.value) == netmask
    ensures !tryParse && !IsPrefixMask(netmask) ==> r == Throw(ArgumentException("netmask"))
  {
    if !ValidNetmask(netmask) then
      if !tryParse then Throw(ArgumentException("netmask")) else Return(None)
    else
      PrefixMaskOfPop(netmask);
      Return(Some(BitsSet(netmask)))
  }

  /** The private `ToCidr(uint)`. */
  function ToCidrOfUint(netmask: uint): (r: Outcome<byte>)
    ensures r.Return? <==> IsPrefixMask(netmask)
    ensures r.Return? ==> r.value <= 32 && PrefixMask(r.value) == netmask
    ensures r.Throw? ==> r.exception == ArgumentException("netmask")
  {
    var u := InternalToCidr(false, netmask);
    if u.Return? then Return(u.value.value) else Throw(u.exception)
  }

  /** The prefix length of a netmask address: null, IPv6 and non-netmasks are refused. */
  function InternalToCidrOf(tryParse: bool, netmask: Option<IPAddress>): (r: Outcome<Option<byte>>)
    ensures tryParse ==> r.Return?
    ensures !tryParse && r.Return? ==> r.value.Some?
    ensures r.Return? && r.value.Some? <==> TryToUint(netmask).Some? && IsPrefixMask(TryToUint(netmask).value)
    ensures r.Return? && r.value.Some? ==>
      r.value.value <= 32 && ToIPAddress(PrefixMask(r.value.value)) == netmask.value
    ensures !tryParse && netmask.None? ==> r == Throw(ArgumentNullException("netmask"))
    ensures !tryParse && netmask.Some? && !(TryToUint(netmask).Some? && IsPrefixMask(TryToUint(netmask).value))
      ==> r == Throw(ArgumentException("netmask"))
  {
    if netmask.None? then
      if !tryParse then Throw(ArgumentNullException("netmask")) else Return(None)
    else
      var u := TryToUint(netmask);
      if u.None? then
        if !tryParse then Throw(ArgumentException("netmask")) else Return(None)
      else
        InternalToCidr(tryParse, u.value)
  }

  /** `ToCidr(IPAddress)`: the prefix length of a netmask address; anything else throws. */
  function ToCidr(netmask: Option<IPAddress>): (r: Outcome<byte>)
    ensures r.Return? <==> TryToUint(netmask).Some? && IsPrefixMask(TryToUint(netmask).value)
    ensures r.Return? ==> r.value <= 32 && ToIPAddress(PrefixMask(r.value)) == netmask.value
    ensures netmask.None? ==> r == Throw(ArgumentNullException("netmask"))
    ensures netmask.Some? && !r.Return? ==> r == Throw(ArgumentException("netmask"))
  {
    var u := InternalToCidrOf(false, netmask);
    if u.Return? then Return(u.value.value) else Throw(u.exception)
  }

  /** `TryToCidr(IPAddress, out byte?)`: the prefix length of a netmask address, `null` otherwise. */
  function TryToCidr(netmask: Option<IPAddress>): (r: Option<byte>)
    ensures r.Some? <==> TryToUint(netmask).Some? && IsPrefixMask(TryToUint(netmask).value)
    ensures r.Some? ==> r.value <= 32 && ToIPAddress(PrefixMask(r.value)) == netmask.value
  {
    InternalToCidrOf(true, netmask).value
  }

  // ---------------------------------------------------------------------------------
  // Round trips and agreement

  /** The netmask of a prefix length converts back to that prefix length. */
  lemma CidrNetmaskRoundTrip(cidr: byte)
    requires cidr <= 32
    ensures TryToNetmask(cidr).Some? && TryToCidr(TryToNetmask(cidr)) == Some(cidr)
    ensures ToNetmask(cidr).Return? && ToCidr(Some(ToNetmask(cidr).value)) == Return(cidr)
  {
    var a := ToIPAddress(PrefixMask(cidr));
    ToUintOfToIPAddress(PrefixMask(cidr));
    assert IsPrefixMask(PrefixMask(cidr));
    var c := TryToCidr(Some(a)).value;
    assert ToIPAddress(PrefixMask(c)) == a;
    ToUintOfToIPAddress(PrefixMask(c));
    PrefixMaskInjective(c, cidr);
  }

  /** An address with a prefix length is the netmask of that prefix length. */
  lemma NetmaskCidrRoundTrip(netmask: IPAddress)
    requires TryToCidr(Some(netmask)).Some?
    ensures TryToNetmask(TryToCidr(Some(netmask)).value) == Some(netmask)
  {
  }

  /** Strict and tolerant conversions between netmasks and prefix lengths agree. */
  lemma ToCidrAgree(netmask: Option<IPAddress>, cidr: byte)
    ensures ToCidr(netmask).Return? <==> TryToCidr(netmask).Some?
    ensures ToCidr(netmask).Return? ==> TryToCidr(netmask).value == ToCidr(netmask).value
    ensures ToNetmask(cidr).Return? <==> TryToNetmask(cidr).Some?
    ensures ToNetmask(cidr).Return? ==> TryToNetmask(cidr).value == ToNetmask(cidr).value
    ensures CidrToUint(cidr).Return? <==> TryCidrToUint(cidr).Some?
    ensures CidrToUint(cidr).Return? ==> TryCidrToUint(cidr).value == CidrToUint(cidr).value
  {
  }
}
