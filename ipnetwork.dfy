/**
 * An IPv4 network: an address and a prefix length (CIDR). The network keeps the address
 * it was built from; its network address, netmask, broadcast address and usable range are
 * computed from the two. Every address of the block shares the first `cidr` bits of the
 * network address; `InNetwork` is that membership, and the operations are proved against it.
 */
module IPNetworks {
  import opened Outcomes
  import opened Bits
  import opened Text
  import opened Addresses
  import opened Netmasks

  datatype Network = Network(ipaddress: uint, cidr: byte)

  /** The constructor refuses prefix lengths above 32, so every network has one of at most 32. */
  type IPNetwork = n: Network | n.cidr <= 32 witness Network(0, 0)

  /** The number of host bits: the low bits the prefix leaves free. */
  function HostBits(n: IPNetwork): nat
  {
    32 - n.cidr
  }

  /** `x` belongs to the block of `n`: it has the first `cidr` bits of the network's address. */
  predicate InNetwork(n: IPNetwork, x: nat)
  {
    ClearLow(x, HostBits(n)) == ClearLow(n.ipaddress, HostBits(n))
  }

  /** `new IPNetwork(ipaddress, cidr)`. */
  function Create(ipaddress: uint, cidr: byte): (r: Outcome<IPNetwork>)
    ensures r.Return? <==> cidr <= 32
    ensures r.Return? ==> r.value.ipaddress == ipaddress && r.value.cidr == cidr
    ensures r.Throw? ==> r.exception == ArgumentOutOfRangeException("cidr")
  {
    if cidr > 32 then Throw(ArgumentOutOfRangeException("cidr"))
    else
      var n: IPNetwork := Network(ipaddress, cidr);
      Return(n)
  }

  // ---------------------------------------------------------------------------------
  // Accessors

  /** `_netmask`: `cidr` one bits followed by zero bits. */
  function NetmaskValue(n: IPNetwork): (r: uint)
    ensures r == PrefixMask(n.cidr)
  {
    CidrToUint(n.cidr).value
  }

  /** `_network`: the address with its host bits cleared, the first address of the block. */
  function NetworkValue(n: IPNetwork): (r: uint)
    ensures r == ClearLow(n.ipaddress, HostBits(n)) && r <= n.ipaddress
  {
    Pow2Values();
    AndHighMask(n.ipaddress, 32, HostBits(n), NetmaskValue(n));
    ClearLowBounds(n.ipaddress, HostBits(n));
    And(n.ipaddress, NetmaskValue(n))
  }

  /** `_broadcast`: network plus the complement of the netmask, the last address of the block. */
  function BroadcastValue(n: IPNetwork): (r: uint)
    ensures r == NetworkValue(n) + Pow2(HostBits(n)) - 1
  {
    Pow2Values();
    ClearLowBelow(n.ipaddress, 32, HostBits(n));
    AddWrap(NetworkValue(n), Not(NetmaskValue(n)))
  }

  /** The sum never wraps: the broadcast address is also the network address `|` the complement of the netmask. */
  lemma BroadcastIsOr(n: IPNetwork)
    ensures BroadcastValue(n) == Or(NetworkValue(n), Not(NetmaskValue(n)))
  {
    var k := HostBits(n);
    HostMask(n.cidr, Not(NetmaskValue(n)));
    ClearLowIdempotent(n.ipaddress, k);
    OrLowOnes(NetworkValue(n), k, Not(NetmaskValue(n)));
  }

  /** The complement of the netmask is the host part: `32 - cidr` one bits. */
  lemma HostMask(cidr: nat, m: uint)
    requires cidr <= 32 && m == Not(PrefixMask(cidr))
    ensures m == Pow2(32 - cidr) - 1
  {
    Pow2Values();
  }

  /** A value with its low `k` bits clear, `|` the `k` low one bits, is their sum. */
  lemma OrLowOnes(x: nat, k: nat, m: nat)
    requires ClearLow(x, k) == x && m == Pow2(k) - 1
    ensures Or(x, m) == x + m
  {
    AndAlignedLow(x, m, k);
    OrDisjoint(x, m);
  }

  /** The block of a network is the range from its network address to its broadcast address. */
  lemma InNetworkRange(n: IPNetwork, x: nat)
    ensures InNetwork(n, x) <==> NetworkValue(n) <= x <= BroadcastValue(n)
  {
    var k := HostBits(n);
    ClearLowBounds(x, k);
    ClearLowIdempotent(n.ipaddress, k);
    if NetworkValue(n) <= x <= BroadcastValue(n) {
      ClearLowOfBlock(x, k, NetworkValue(n));
    }
  }

  /** The network written with its own network address is the same block as the original. */
  lemma NetworkOfNetworkValue(n: IPNetwork)
    ensures var m: IPNetwork := Network(NetworkValue(n), n.cidr);
      NetworkValue(m) == NetworkValue(n) && Equals(n, Some(m))
  {
    var m: IPNetwork := Network(NetworkValue(n), n.cidr);
    ClearLowIdempotent(n.ipaddress, HostBits(n));
    assert NetworkValue(m) == NetworkValue(n);
    SameBlockValues(n, m);
  }

  /** Membership compares the first `cidr` bits, i.e. `x >> (32 - cidr)`. */
  lemma InNetworkShr(n: IPNetwork, x: nat)
    ensures InNetwork(n, x) <==> Shr(x, HostBits(n)) == Shr(n.ipaddress, HostBits(n))
  {
    var k := HostBits(n);
    ShrShl(Shr(x, k), k);
    ShrShl(Shr(n.ipaddress, k), k);
  }

  /** An address that is a multiple of the block size is its own network address. */
  lemma NetworkOfAligned(n: IPNetwork, q: nat)
    requires n.ipaddress == q * Pow2(HostBits(n))
    ensures NetworkValue(n) == n.ipaddress
  {
    ClearLowOfMultiple(q, HostBits(n));
  }

  function NetworkAddress(n: IPNetwork): (a: IPAddress)
    ensures ToUint(Some(a)) == Return(NetworkValue(n))
  {
    ToUintOfToIPAddress(NetworkValue(n));
    ToIPAddress(NetworkValue(n))
  }

  function NetmaskAddress(n: IPNetwork): (a: IPAddress)
    ensures ToUint(Some(a)) == Return(PrefixMask(n.cidr))
  {
    ToUintOfToIPAddress(NetmaskValue(n));
    ToIPAddress(NetmaskValue(n))
  }

  function BroadcastAddress(n: IPNetwork): (a: IPAddress)
    ensures ToUint(Some(a)) == Return(BroadcastValue(n))
  {
    ToUintOfToIPAddress(BroadcastValue(n));
    ToIPAddress(BroadcastValue(n))
  }

  /** The private `ToCidr(uint)` gives back the prefix length of a network's netmask. */
  lemma ToCidrOfNetmask(n: IPNetwork)
    ensures ToCidrOfUint(NetmaskValue(n)) == Return(n.cidr)
  {
    var m := PrefixMask(n.cidr);
    assert IsPrefixMask(m);
    var c := ToCidrOfUint(m).value;
    PrefixMaskInjective(c, n.cidr);
  }

  /**
   * `Usable`: the number of addresses of the block other than the network and the broadcast
   * address; blocks of prefix length 31 and 32 have none.
   */
  function Usable(n: IPNetwork): (r: uint)
    ensures n.cidr <= 30 ==> r == BroadcastValue(n) - NetworkValue(n) - 1
    ensures n.cidr > 30 ==> r == 0
  {
    ToCidrOfNetmask(n);
    var cidr := ToCidrOfUint(NetmaskValue(n)).value;
    assert cidr == n.cidr;
    if cidr > 30 then 0
    else
      UsableCount(cidr);
      SubWrap(ShiftRight(AllOnes, cidr), 1)
  }

  lemma UsableCount(cidr: nat)
    requires cidr <= 30
    ensures 0 <= Pow2(32 - cidr) - 2 < TwoTo32
    ensures SubWrap(ShiftRight(AllOnes, cidr), 1) == Pow2(32 - cidr) - 2
  {
    Pow2Values();
    assert cidr % 32 == cidr;
    ShrAllOnes(32, cidr);
    Pow2Monotone(2, 32 - cidr);
    Pow2Monotone(32 - cidr, 32);
    assert Pow2(2) == 4;
  }

  /** A block of prefix length at most 30 has at least four addresses. */
  lemma BlockSize(n: IPNetwork)
    ensures n.cidr <= 30 ==> BroadcastValue(n) >= NetworkValue(n) + 3
  {
    if n.cidr <= 30 {
      Pow2Monotone(2, HostBits(n));
      assert Pow2(2) == 4;
    }
  }

  /** The address behind `FirstUsable`: one past the network address, if the block has usable addresses. */
  function FirstUsableValue(n: IPNetwork): (r: uint)
    ensures InNetwork(n, r)
    ensures n.cidr <= 30 ==> r == NetworkValue(n) + 1 && r < BroadcastValue(n)
    ensures n.cidr > 30 ==> r == NetworkValue(n)
  {
    BlockSize(n);
    if Usable(n) <= 0 then
      InNetworkRange(n, NetworkValue(n));
      NetworkValue(n)
    else
      InNetworkRange(n, NetworkValue(n) + 1);
      AddWrap(NetworkValue(n), 1)
  }

  /** The address behind `LastUsable`: one before the broadcast address, if the block has usable addresses. */
  function LastUsableValue(n: IPNetwork): (r: uint)
    ensures InNetwork(n, r)
    ensures n.cidr <= 30 ==> r == BroadcastValue(n) - 1 && r > NetworkValue(n)
    ensures n.cidr > 30 ==> r == NetworkValue(n)
  {
    BlockSize(n);
    if Usable(n) <= 0 then
      InNetworkRange(n, NetworkValue(n));
      NetworkValue(n)
    else
      InNetworkRange(n, BroadcastValue(n) - 1);
      SubWrap(BroadcastValue(n), 1)
  }

  /** The usable range runs from the first to the last usable address and has `Usable` addresses. */
  lemma UsableRange(n: IPNetwork)
    ensures FirstUsableValue(n) <= LastUsableValue(n)
    ensures n.cidr <= 30 ==> LastUsableValue(n) - FirstUsableValue(n) + 1 == Usable(n)
  {
  }

  function FirstUsable(n: IPNetwork): (a: IPAddress)
    ensures ToUint(Some(a)) == Return(FirstUsableValue(n))
  {
    ToUintOfToIPAddress(FirstUsableValue(n));
    ToIPAddress(FirstUsableValue(n))
  }

  function LastUsable(n: IPNetwork): (a: IPAddress)
    ensures ToUint(Some(a)) == Return(LastUsableValue(n))
  {
    ToUintOfToIPAddress(LastUsableValue(n));
    ToIPAddress(LastUsableValue(n))
  }

  // ---------------------------------------------------------------------------------
  // Membership

  /** `Contains(IPNetwork, IPAddress)`: the address lies in the block; IPv6 is refused by the strict conversion. */
  function ContainsAddress(network: Option<IPNetwork>, ipaddress: Option<IPAddress>): (r: Outcome<bool>)
    ensures network.None? ==> r == Throw(ArgumentNullException("network"))
    ensures network.Some? && ipaddress.None? ==> r == Throw(ArgumentNullException("ipaddress"))
    ensures network.Some? && ipaddress.Some? && ipaddress.value.addressFamily != InterNetwork
      ==> r == Throw(ArgumentException("bytes"))
    ensures network.Some? && ipaddress.Some? && ipaddress.value.addressFamily == InterNetwork
      ==> r.Return? && (r.value <==> InNetwork(network.value, ToUint(ipaddress).value))
  {
    if network.None? then Throw(ArgumentNullException("network"))
    else if ipaddress.None? then Throw(ArgumentNullException("ipaddress"))
    else
      var n := network.value;
      var address := ToUint(ipaddress);
      if address.Throw? then Throw(address.exception)
      else
        InNetworkRange(n, address.value);
        Return(address.value >= NetworkValue(n) && address.value <= BroadcastValue(n))
  }

  /** Every address of the block of `n2` is an address of the block of `n`. */
  ghost predicate Includes(n: IPNetwork, n2: IPNetwork)
  {
    forall x: uint :: InNetwork(n2, x) ==> InNetwork(n, x)
  }

  /** The blocks of `n` and `n2` share an address. */
  ghost predicate Intersects(n: IPNetwork, n2: IPNetwork)
  {
    exists x: uint :: InNetwork(n, x) && InNetwork(n2, x)
  }

  /** `Contains(IPNetwork, IPNetwork)`: the second block lies inside the first. */
  function ContainsNetwork(network: Option<IPNetwork>, network2: Option<IPNetwork>): (r: Outcome<bool>)
    ensures network.None? ==> r == Throw(ArgumentNullException("network"))
    ensures network.Some? && network2.None? ==> r == Throw(ArgumentNullException("network2"))
    ensures network.Some? && network2.Some? ==> r.Return? && (r.value <==> Includes(network.value, network2.value))
  {
    if network.None? then Throw(ArgumentNullException("network"))
    else if network2.None? then Throw(ArgumentNullException("network2"))
    else
      var n, n2 := network.value, network2.value;
      var first, last := NetworkValue(n2), BroadcastValue(n2);
      IncludesRange(n, n2);
      Return(first >= NetworkValue(n) && last <= BroadcastValue(n))
  }

  lemma IncludesRange(n: IPNetwork, n2: IPNetwork)
    ensures Includes(n, n2) <==>
      NetworkValue(n2) >= NetworkValue(n) && BroadcastValue(n2) <= BroadcastValue(n)
  {
    InNetworkRange(n2, NetworkValue(n2));
    InNetworkRange(n2, BroadcastValue(n2));
    InNetworkRange(n, NetworkValue(n2));
    InNetworkRange(n, BroadcastValue(n2));
    if NetworkValue(n2) >= NetworkValue(n) && BroadcastValue(n2) <= BroadcastValue(n) {
      forall x: uint | InNetwork(n2, x)
        ensures InNetwork(n, x)
      {
        InNetworkRange(n2, x);
        InNetworkRange(n, x);
      }
    }
  }

  /** `Overlap`: the two blocks share an address. */
  function Overlap(network: Option<IPNetwork>, network2: Option<IPNetwork>): (r: Outcome<bool>)
    ensures network.None? ==> r == Throw(ArgumentNullException("network"))
    ensures network.Some? && network2.None? ==> r == Throw(ArgumentNullException("network2"))
    ensures network.Some? && network2.Some? ==> r.Return? && (r.value <==> Intersects(network.value, network2.value))
  {
    if network.None? then Throw(ArgumentNullException("network"))
    else if network2.None? then Throw(ArgumentNullException("network2"))
    else
      var n, n2 := network.value, network2.value;
      var uintNetwork, uintBroadcast := NetworkValue(n), BroadcastValue(n);
      var uintFirst, uintLast := NetworkValue(n2), BroadcastValue(n2);
      IntersectsRange(n, n2);
      Return(
        (uintFirst >= uintNetwork && uintFirst <= uintBroadcast)
        || (uintLast >= uintNetwork && uintLast <= uintBroadcast)
        || (uintFirst <= uintNetwork && uintLast >= uintBroadcast)
        || (uintFirst >= uintNetwork && uintLast <= uintBroadcast))
  }

  lemma IntersectsRange(n: IPNetwork, n2: IPNetwork)
    ensures Intersects(n, n2) <==>
      (NetworkValue(n2) >= NetworkValue(n) && NetworkValue(n2) <= BroadcastValue(n))
      || (BroadcastValue(n2) >= NetworkValue(n) && BroadcastValue(n2) <= BroadcastValue(n))
      || (NetworkValue(n2) <= NetworkValue(n) && BroadcastValue(n2) >= BroadcastValue(n))
  {
    var a, b, c, d := NetworkValue(n), BroadcastValue(n), NetworkValue(n2), BroadcastValue(n2);
    InNetworkRange(n, c);
    InNetworkRange(n2, c);
    InNetworkRange(n, d);
    InNetworkRange(n2, d);
    InNetworkRange(n, a);
    InNetworkRange(n2, a);
    if Intersects(n, n2) {
      var x: uint :| InNetwork(n, x) && InNetwork(n2, x);
      InNetworkRange(n, x);
      InNetworkRange(n2, x);
    }
  }

  /** Overlap is symmetric, and every network overlaps itself. */
  lemma OverlapSymmetric(n: IPNetwork, n2: IPNetwork)
    ensures Overlap(Some(n), Some(n2)) == Overlap(Some(n2), Some(n))
    ensures Overlap(Some(n), Some(n)) == Return(true)
  {
    assert InNetwork(n, NetworkValue(n)) by {
      InNetworkRange(n, NetworkValue(n));
    }
  }

  /** A block that contains another overlaps it. */
  lemma ContainsImpliesOverlap(n: IPNetwork, n2: IPNetwork)
    requires ContainsNetwork(Some(n), Some(n2)) == Return(true)
    ensures Overlap(Some(n), Some(n2)) == Return(true)
  {
    InNetworkRange(n2, NetworkValue(n2));
    assert InNetwork(n2, NetworkValue(n2));
  }

  // ---------------------------------------------------------------------------------
  // Text

  /**
   * `ToString()`: the network address, a slash and the prefix length. The host bits of the
   * address are not in the text, and the one slash separates the two parts.
   */
  function ToString(n: IPNetwork): (s: string)
    ensures forall i :: 0 <= i < |s| ==> IsDigit(s[i]) || s[i] == '.' || s[i] == '/'
    ensures Split(s, {'/'}) == [DottedQuad(NetworkAddress(n)), Decimal(n.cidr)]
  {
    var q, d := DottedQuad(NetworkAddress(n)), Decimal(n.cidr);
    NetworkTextChars(n);
    DottedQuadChars(NetworkAddress(n));
    NetworkTextSplit(q, d);
    q + "/" + d
  }

  lemma NetworkTextSplit(q: string, d: string)
    requires forall i :: 0 <= i < |q| ==> IsDigit(q[i]) || q[i] == '.'
    requires AllDigits(d)
    ensures Split(q + "/" + d, {'/'}) == [q, d]
  {
    SplitPair(q, '/', d, {'/'});
  }

  lemma NetworkTextChars(n: IPNetwork)
    ensures var s := DottedQuad(NetworkAddress(n)) + "/" + Decimal(n.cidr);
      forall i :: 0 <= i < |s| ==> IsDigit(s[i]) || s[i] == '.' || s[i] == '/'
  {
    DottedQuadChars(NetworkAddress(n));
    SlashChars(DottedQuad(NetworkAddress(n)), Decimal(n.cidr));
  }

  lemma SlashChars(q: string, d: string)
    requires forall i :: 0 <= i < |q| ==> IsDigit(q[i]) || q[i] == '.'
    requires AllDigits(d)
    ensures var s := q + "/" + d;
      forall i :: 0 <= i < |s| ==> IsDigit(s[i]) || s[i] == '.' || s[i] == '/'
  {
    var s := q + "/" + d;
    forall i | 0 <= i < |s|
      ensures IsDigit(s[i]) || s[i] == '.' || s[i] == '/'
    {
      if i < |q| {
        assert s[i] == q[i];
      } else if i == |q| {
        assert s[i] == '/';
      } else {
        assert s[i] == d[i - |q| - 1];
      }
    }
  }

  // ---------------------------------------------------------------------------------
  // Equality and order

  /** `Equals(object)`: null or another type is unequal; otherwise network address and prefix length decide. */
  function Equals(n: IPNetwork, obj: Option<IPNetwork>): (r: bool)
    ensures r <==> obj.Some? && SameBlock(n, obj.value)
  {
    if obj.None? then false
    else
      SameBlockValues(n, obj.value);
      if NetworkValue(n) != NetworkValue(obj.value) then false
      else if n.cidr != obj.value.cidr then false
      else true
  }

  /** The two networks have the same addresses. */
  ghost predicate SameBlock(n: IPNetwork, n2: IPNetwork)
  {
    forall x: uint :: InNetwork(n, x) <==> InNetwork(n2, x)
  }

  lemma SameBlockValues(n: IPNetwork, n2: IPNetwork)
    ensures SameBlock(n, n2) <==> NetworkValue(n) == NetworkValue(n2) && n.cidr == n2.cidr
  {
    if SameBlock(n, n2) {
      InNetworkRange(n, NetworkValue(n));
      InNetworkRange(n2, NetworkValue(n));
      InNetworkRange(n, NetworkValue(n2));
      InNetworkRange(n2, NetworkValue(n2));
      InNetworkRange(n, BroadcastValue(n));
      InNetworkRange(n2, BroadcastValue(n));
      InNetworkRange(n, BroadcastValue(n2));
      InNetworkRange(n2, BroadcastValue(n2));
      Pow2Injective(HostBits(n), HostBits(n2));
    }
  }

  lemma {:induction false} Pow2Injective(a: nat, b: nat)
    requires Pow2(a) == Pow2(b)
    ensures a == b
  {
    if a > 0 && b > 0 {
      Pow2Injective(a - 1, b - 1);
    }
  }

  /** `UInt32.CompareTo`: -1, 0 or 1. */
  function CompareUint(a: uint, b: uint): (r: int)
    ensures -1 <= r <= 1 && (r < 0 <==> a < b) && (r == 0 <==> a == b)
  {
    if a < b then -1 else if a > b then 1 else 0
  }

  /** `Byte.CompareTo`: the difference of the two bytes. */
  function CompareByte(a: byte, b: byte): (r: int)
    ensures (r < 0 <==> a < b) && (r == 0 <==> a == b)
  {
    a - b
  }

  /** `CompareTo`: network addresses first, prefix lengths second. */
  function CompareTo(n: IPNetwork, other: IPNetwork): (r: int)
    ensures r == 0 <==> Equals(n, Some(other))
    ensures r < 0 <==> (NetworkValue(n) < NetworkValue(other)
      || (NetworkValue(n) == NetworkValue(other) && n.cidr < other.cidr))
  {
    var network := CompareUint(NetworkValue(n), NetworkValue(other));
    if network != 0 then network else CompareByte(n.cidr, other.cidr)
  }

  /** CompareTo is antisymmetric and transitive: a total order on the blocks. */
  lemma CompareToOrder(a: IPNetwork, b: IPNetwork, c: IPNetwork)
    ensures CompareTo(a, b) < 0 <==> CompareTo(b, a) > 0
    ensures CompareTo(a, b) < 0 && CompareTo(b, c) < 0 ==> CompareTo(a, c) < 0
  {
  }

  // ---------------------------------------------------------------------------------
  // The private address blocks (section 3 of RFC 1918)

  /** `IANA_ABLK_RESERVED1`: 10.0.0.0/8. */
  const IanaABlock: IPNetwork := Network(0x0A00_0000, 8)

  /** `IANA_BBLK_RESERVED1`: 172.16.0.0/12. */
  const IanaBBlock: IPNetwork := Network(0xAC10_0000, 12)

  /** `IANA_CBLK_RESERVED1`: 192.168.0.0/16. */
  const IanaCBlock: IPNetwork := Network(0xC0A8_0000, 16)

  /** The private ranges by the first two bytes: 10/8, 172.16/12 and 192.168/16. */
  predicate IsPrivate(bytes: seq<byte>)
    requires |bytes| >= 2
  {
    bytes[0] == 10 || (bytes[0] == 172 && 16 <= bytes[1] < 32) || (bytes[0] == 192 && bytes[1] == 168)
  }

  /** `IsIANAReserved(IPAddress)`: the address lies in one of the three blocks. */
  function IsIANAReservedAddress(ipaddress: Option<IPAddress>): (r: Outcome<bool>)
    ensures ipaddress.None? ==> r == Throw(ArgumentNullException("ipaddress"))
    ensures ipaddress.Some? && ipaddress.value.addressFamily != InterNetwork
      ==> r == Throw(ArgumentException("bytes"))
    ensures ipaddress.Some? && ipaddress.value.addressFamily == InterNetwork
      ==> r.Return? && (r.value <==> IsPrivate(ipaddress.value.addressBytes))
  {
    if ipaddress.None? then Throw(ArgumentNullException("ipaddress"))
    else
      IanaBlocksOf(ipaddress);
      var a := ContainsAddress(Some(IanaABlock), ipaddress);
      if a.Throw? then a
      else if a.value then Return(true)
      else
        var b := ContainsAddress(Some(IanaBBlock), ipaddress);
        if b.Throw? || b.value then b
        else ContainsAddress(Some(IanaCBlock), ipaddress)
  }

  lemma IanaBlocksOf(ipaddress: Option<IPAddress>)
    requires ipaddress.Some?
    ensures ipaddress.value.addressFamily == InterNetwork ==> var x := ToUint(ipaddress).value;
      (InNetwork(IanaABlock, x) || InNetwork(IanaBBlock, x) || InNetwork(IanaCBlock, x))
      <==> IsPrivate(ipaddress.value.addressBytes)
  {
    if ipaddress.value.addressFamily == InterNetwork {
      var x := ToUint(ipaddress).value;
      var bytes := ipaddress.value.addressBytes;
      assert bytes == Bytes4(x);
      InIanaA(x);
      InIanaB(x);
      InIanaC(x);
    }
  }

  lemma InIanaA(x: uint)
    ensures InNetwork(IanaABlock, x) <==> x / 0x100_0000 == 10
  {
    InNetworkShr(IanaABlock, x);
    Shr24(x);
    Shr24(0x0A00_0000);
  }

  lemma InIanaB(x: uint)
    ensures InNetwork(IanaBBlock, x) <==> x / 0x100_0000 == 172 && 16 <= x / 0x1_0000 % 256 < 32
  {
    InNetworkShr(IanaBBlock, x);
    Shr20(x);
    Shr20(0xAC10_0000);
    var q := x / 0x1_0000;
    DivModParts(q, 16);
    DivModParts(q, 256);
    assert q / 256 == x / 0x100_0000 && q / 16 == x / 0x10_0000;
  }

  lemma InIanaC(x: uint)
    ensures InNetwork(IanaCBlock, x) <==> x / 0x100_0000 == 192 && x / 0x1_0000 % 256 == 168
  {
    InNetworkShr(IanaCBlock, x);
    Shr16(x);
    Shr16(0xC0A8_0000);
    var q := x / 0x1_0000;
    DivModParts(q, 256);
    assert q / 256 == x / 0x100_0000;
  }

  /** A network whose prefix is at least that of a block and whose address lies in it. */
  predicate IsPrivateNetwork(n: IPNetwork)
  {
    var bytes := Bytes4(n.ipaddress);
    (n.cidr >= 8 && bytes[0] == 10)
    || (n.cidr >= 12 && bytes[0] == 172 && 16 <= bytes[1] < 32)
    || (n.cidr >= 16 && bytes[0] == 192 && bytes[1] == 168)
  }

  /** `IsIANAReserved(IPNetwork)`: the network lies inside one of the three blocks. */
  function IsIANAReservedNetwork(ipnetwork: Option<IPNetwork>): (r: Outcome<bool>)
    ensures ipnetwork.None? ==> r == Throw(ArgumentNullException("ipnetwork"))
    ensures ipnetwork.Some? ==> r.Return? && (r.value <==> IsPrivateNetwork(ipnetwork.value))
  {
    if ipnetwork.None? then Throw(ArgumentNullException("ipnetwork"))
    else
      IanaNetworksOf(ipnetwork.value);
      Return(ContainsNetwork(Some(IanaABlock), ipnetwork).value
        || ContainsNetwork(Some(IanaBBlock), ipnetwork).value
        || ContainsNetwork(Some(IanaCBlock), ipnetwork).value)
  }

  lemma IanaNetworksOf(n: IPNetwork)
    ensures Includes(IanaABlock, n) || Includes(IanaBBlock, n) || Includes(IanaCBlock, n)
      <==> IsPrivateNetwork(n)
  {
    var x := n.ipaddress;
    assert Bytes4(x)[0] == x / 0x100_0000 && Bytes4(x)[1] == x / 0x1_0000 % 256;
    IncludesPrefix(IanaABlock, n);
    IncludesPrefix(IanaBBlock, n);
    IncludesPrefix(IanaCBlock, n);
    InIanaA(x);
    InIanaB(x);
    InIanaC(x);
  }

  /** A block includes another exactly when its prefix is no longer and it holds the other's address. */
  lemma IncludesPrefix(n: IPNetwork, n2: IPNetwork)
    ensures Includes(n, n2) <==> n2.cidr >= n.cidr && InNetwork(n, n2.ipaddress)
  {
    var k, k2 := HostBits(n), HostBits(n2);
    if n2.cidr >= n.cidr && InNetwork(n, n2.ipaddress) {
      forall x: uint | InNetwork(n2, x)
        ensures InNetwork(n, x)
      {
        InNetworkShr(n2, x);
        InNetworkShr(n, x);
        InNetworkShr(n, n2.ipaddress);
        ShrAdd(x, k2, k - k2);
        ShrAdd(n2.ipaddress, k2, k - k2);
      }
    }
    if Includes(n, n2) {
      assert InNetwork(n2, n2.ipaddress);
      if n2.cidr < n.cidr {
        IncludesRange(n, n2);
        assert Pow2(k + 1) == 2 * Pow2(k);
        Pow2Monotone(k + 1, k2);
        assert false;
      }
    }
  }
}
