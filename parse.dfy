/**
 * The parse entry points of IPNetwork: a network from an address and a netmask (as text or
 * as addresses), from an address text and a prefix length, and from one string such as
 * "192.168.0.1/24", "192.168.0.1 255.255.255.0" or a lone "10.1.2.3". Each comes in a strict
 * form, which throws on bad input, and a tolerant form, which gives `null` instead; both are
 * one internal function with a `tryParse` flag.
 */
module Parsing {
  import opened Outcomes
  import opened Bits
  import opened Text
  import opened Addresses
  import opened Netmasks
  import opened IPNetworks

  /** How a parse gives up: `null` when tolerant, the exception when strict. */
  function Refuse(tryParse: bool, e: Exception): Outcome<Option<IPNetwork>>
  {
    if tryParse then Return(None) else Throw(e)
  }

  /** The addresses that are netmasks: those of some prefix length. */
  ghost predicate IsNetmaskAddress(a: IPAddress)
  {
    exists cidr :: 0 <= cidr <= 32 && a == ToIPAddress(PrefixMask(cidr))
  }

  /** `TryToCidr` accepts exactly the netmasks. */
  lemma TryToCidrOfNetmask(a: IPAddress)
    ensures TryToCidr(Some(a)).Some? <==> IsNetmaskAddress(a)
  {
    if IsNetmaskAddress(a) {
      var c :| 0 <= c <= 32 && a == ToIPAddress(PrefixMask(c));
      CidrNetmaskRoundTrip(c);
    }
  }

  // ---------------------------------------------------------------------------------
  // InternalParse(bool, IPAddress, IPAddress)

  /**
   * A network from an address and a netmask address. The address is converted strictly, so
   * an IPv6 address throws `ArgumentException("bytes")` even when tolerant.
   */
  function InternalParseAddresses(tryParse: bool, ipaddress: Option<IPAddress>, netmask: Option<IPAddress>)
    : (r: Outcome<Option<IPNetwork>>)
    ensures !tryParse && r.Return? ==> r.value.Some?
    ensures r.Return? && r.value.Some? <==>
      ipaddress.Some? && ipaddress.value.addressFamily == InterNetwork
      && netmask.Some? && IsNetmaskAddress(netmask.value)
    ensures r.Return? && r.value.Some? ==>
      ToIPAddress(r.value.value.ipaddress) == ipaddress.value && NetmaskAddress(r.value.value) == netmask.value
    ensures ipaddress.None? ==> r == Refuse(tryParse, ArgumentNullException("ipaddress"))
    ensures ipaddress.Some? && netmask.None? ==> r == Refuse(tryParse, ArgumentNullException("netmask"))
    ensures ipaddress.Some? && netmask.Some? && ipaddress.value.addressFamily != InterNetwork
      ==> r == Throw(ArgumentException("bytes"))
    ensures ipaddress.Some? && ipaddress.value.addressFamily == InterNetwork
      && netmask.Some? && !IsNetmaskAddress(netmask.value)
      ==> r == Refuse(tryParse, ArgumentException("netmask"))
  {
    if ipaddress.None? then Refuse(tryParse, ArgumentNullException("ipaddress"))
    else if netmask.None? then Refuse(tryParse, ArgumentNullException("netmask"))
    else
      var uintIpAddress := ToUint(ipaddress);
      if uintIpAddress.Throw? then Throw(uintIpAddress.exception)
      else
        TryToCidrOfNetmask(netmask.value);
        var cidr2 := TryToCidr(netmask);
        if cidr2.None? then Refuse(tryParse, ArgumentException("netmask"))
        else
          // the prefix length of a netmask is at most 32, so the constructor accepts it
          Return(Some(Create(uintIpAddress.value, cidr2.value).value))
  }

  /** A network is parsed back from its address and its netmask. */
  lemma ParseAddressesOfNetwork(tryParse: bool, n: IPNetwork)
    ensures InternalParseAddresses(tryParse, Some(ToIPAddress(n.ipaddress)), Some(NetmaskAddress(n)))
      == Return(Some(n))
  {
    ToUintOfToIPAddress(n.ipaddress);
    CidrNetmaskRoundTrip(n.cidr);
  }

  // ---------------------------------------------------------------------------------
  // InternalParse(bool, string, string)

  /** A network from an address text and a netmask text. */
  function InternalParseWithNetmask(tryParse: bool, ipaddress: string, netmask: string)
    : (r: Outcome<Option<IPNetwork>>)
    ensures tryParse ==> r.Return?
    ensures !tryParse && r.Return? ==> r.value.Some?
    ensures r.Return? && r.value.Some? <==>
      TryParse(ipaddress).Some? && TryParse(netmask).Some? && IsNetmaskAddress(TryParse(netmask).value)
    ensures r.Return? && r.value.Some? ==>
      TryParse(ipaddress) == Some(ToIPAddress(r.value.value.ipaddress))
      && TryParse(netmask) == Some(NetmaskAddress(r.value.value))
    ensures |ipaddress| == 0 ==> r == Refuse(tryParse, ArgumentNullException("ipaddress"))
    ensures |ipaddress| > 0 && |netmask| == 0 ==> r == Refuse(tryParse, ArgumentNullException("netmask"))
    ensures |ipaddress| > 0 && |netmask| > 0 && TryParse(ipaddress).None?
      ==> r == Refuse(tryParse, ArgumentException("ipaddress"))
    ensures TryParse(ipaddress).Some? && |netmask| > 0 && TryParse(netmask).None?
      ==> r == Refuse(tryParse, ArgumentException("netmask"))
    ensures TryParse(ipaddress).Some? && TryParse(netmask).Some? && !IsNetmaskAddress(TryParse(netmask).value)
      ==> r == Refuse(tryParse, ArgumentException("netmask"))
  {
    if |ipaddress| == 0 then Refuse(tryParse, ArgumentNullException("ipaddress"))
    else if |netmask| == 0 then Refuse(tryParse, ArgumentNullException("netmask"))
    else
      var ip := TryParse(ipaddress);
      if ip.None? then Refuse(tryParse, ArgumentException("ipaddress"))
      else
        var mask := TryParse(netmask);
        if mask.None? then Refuse(tryParse, ArgumentException("netmask"))
        else InternalParseAddresses(tryParse, ip, mask)
  }

  // ---------------------------------------------------------------------------------
  // InternalParse(bool, string, byte)

  /** A network from an address text and a prefix length. */
  function InternalParseWithCidr(tryParse: bool, ipaddress: string, cidr: byte): (r: Outcome<Option<IPNetwork>>)
    ensures tryParse ==> r.Return?
    ensures !tryParse && r.Return? ==> r.value.Some?
    ensures r.Return? && r.value.Some? <==> TryParse(ipaddress).Some? && cidr <= 32
    ensures r.Return? && r.value.Some? ==>
      TryParse(ipaddress) == Some(ToIPAddress(r.value.value.ipaddress)) && r.value.value.cidr == cidr
    ensures |ipaddress| == 0 ==> r == Refuse(tryParse, ArgumentNullException("ipaddress"))
    ensures |ipaddress| > 0 && TryParse(ipaddress).None? ==> r == Refuse(tryParse, ArgumentException("ipaddress"))
    ensures TryParse(ipaddress).Some? && cidr > 32 ==> r == Refuse(tryParse, ArgumentException("cidr"))
  {
    if |ipaddress| == 0 then Refuse(tryParse, ArgumentNullException("ipaddress"))
    else
      var ip := TryParse(ipaddress);
      if ip.None? then Refuse(tryParse, ArgumentException("ipaddress"))
      else
        var mask := TryToNetmask(cidr);
        if mask.None? then Refuse(tryParse, ArgumentException("cidr"))
        else
          CidrNetmaskRoundTrip(cidr);
          ToIPAddressOfToUint(ip.value);
          InternalParseAddresses(tryParse, ip, mask)
  }

  // ---------------------------------------------------------------------------------
  // TryGuessCidr and TryParseCidr

  /**
   * The default prefix of the classful address classes of RFC 791, section 3.2, by the
   * leading bits of the first byte: class A (0) /8, class B (10) /16, class C (110) /24;
   * the classes from 224 on (111) have none.
   */
  function ClassfulPrefix(first: byte): Option<byte>
  {
    if first < 0x80 then Some(8)
    else if first < 0xC0 then Some(16)
    else if first < 0xE0 then Some(24)
    else None
  }

  /** `TryGuessCidr`: the classful prefix of an address text, by the top three bits of its value. */
  function TryGuessCidr(ip: string): (r: Option<byte>)
    ensures TryParse(ip).None? ==> r.None?
    ensures TryParse(ip).Some? ==> r == ClassfulPrefix(TryParse(ip).value.addressBytes[0])
  {
    var ipaddress := TryParse(ip);
    if ipaddress.None? then None
    else
      var x := ToUint(ipaddress).value;
      ToIPAddressOfToUint(ipaddress.value);
      ClassBits(x);
      var uintIPAddress := ShiftRight(x, 29);
      if uintIPAddress <= 3 then Some(8)
      else if uintIPAddress <= 5 then Some(16)
      else if uintIPAddress <= 6 then Some(24)
      else None
  }

  /** The top three bits of a 32-bit value against its first byte. */
  lemma ClassBits(x: uint)
    ensures var top, first := ShiftRight(x, 29), Bytes4(x)[0];
      (top <= 3 <==> first < 0x80) && (top <= 5 <==> first < 0xC0) && (top <= 6 <==> first < 0xE0)
  {
    Bytes4Leading(x);
    assert ShiftRight(x, 29) == Shr(x, 29);
    Shr29(x);
    TopBits(x);
  }

  lemma TopBits(x: uint)
    ensures var top, first := x / 0x2000_0000, x / 0x100_0000;
      (top <= 3 <==> first < 0x80) && (top <= 5 <==> first < 0xC0) && (top <= 6 <==> first < 0xE0)
  {
    var first := x / 0x100_0000;
    DivModParts(first, 32);
    assert x / 0x2000_0000 == first / 32;
  }

  /** `TryParseCidr`: a byte text of at most 32. */
  function TryParseCidr(sidr: string): (r: Option<byte>)
    ensures r.Some? <==> ByteTryParse(sidr).Some? && ByteTryParse(sidr).value <= 32
    ensures r.Some? ==> r.value == ByteTryParse(sidr).value
  {
    var b := ByteTryParse(sidr);
    if b.None? then None
    else if TryToNetmask(b.value).None? then None
    else Some(b.value)
  }

  /** Every prefix length is read back from its decimal text. */
  lemma TryParseCidrOfDecimal(cidr: nat)
    requires cidr <= 32
    ensures TryParseCidr(Decimal(cidr)) == Some(cidr)
  {
    ByteTryParseDecimal(cidr);
  }

  // ---------------------------------------------------------------------------------
  // InternalParse(bool, string)

  /**
   * The tokens of a network string: characters other than digits, '.', '/' and white space
   * are deleted, runs of white space become one space, the ends are trimmed, and the rest is
   * split at each ' ' and '/'.
   */
  function Tokens(network: string): (args: seq<string>)
    ensures |args| >= 1
  {
    Split(Trim(CollapseSpaces(KeepNetworkChars(network))), {' ', '/'})
  }

  /**
   * What the tokens of a network string say of a network: the first token is its address;
   * its prefix length is the classful guess for a lone token, else the second token read as
   * a byte, else the prefix of the netmask the second token spells. Later tokens say nothing.
   */
  ghost predicate Denotes(args: seq<string>, n: IPNetwork)
    requires |args| >= 1
  {
    TryParse(args[0]) == Some(ToIPAddress(n.ipaddress))
    && if |args| == 1 then TryGuessCidr(args[0]) == Some(n.cidr)
      else if ByteTryParse(args[1]).Some? then ByteTryParse(args[1]).value == n.cidr
      else TryParse(args[1]) == Some(NetmaskAddress(n))
  }

  /** A network from one string: the address and either a prefix length or a netmask. */
  function InternalParseNetwork(tryParse: bool, network: string): (r: Outcome<Option<IPNetwork>>)
    ensures tryParse ==> r.Return?
    ensures !tryParse && r.Return? ==> r.value.Some?
    ensures r.Return? && r.value.Some? ==> |network| > 0 && Denotes(Tokens(network), r.value.value)
    ensures |network| == 0 ==> r == Refuse(tryParse, ArgumentNullException("network"))
    ensures |network| > 0 && |Tokens(network)| == 1 && TryGuessCidr(Tokens(network)[0]).None?
      ==> r == Refuse(tryParse, ArgumentException("network"))
  {
    if |network| == 0 then Refuse(tryParse, ArgumentNullException("network"))
    else
      var args := Tokens(network);
      if |args| == 1 then
        var cidr := TryGuessCidr(args[0]);
        if cidr.Some? then InternalParseWithCidr(tryParse, args[0], cidr.value)
        else Refuse(tryParse, ArgumentException("network"))
      else
        var cidr := ByteTryParse(args[1]);
        if cidr.Some? then InternalParseWithCidr(tryParse, args[0], cidr.value)
        else InternalParseWithNetmask(tryParse, args[0], args[1])
  }

  /** The tokens of a string denote at most one network. */
  lemma DenotesUnique(args: seq<string>, n: IPNetwork, n2: IPNetwork)
    requires |args| >= 1 && Denotes(args, n) && Denotes(args, n2)
    ensures n == n2
  {
    ToUintOfToIPAddress(n.ipaddress);
    ToUintOfToIPAddress(n2.ipaddress);
    if |args| > 1 && ByteTryParse(args[1]).None? {
      ToUintOfToIPAddress(NetmaskValue(n));
      ToUintOfToIPAddress(NetmaskValue(n2));
      PrefixMaskInjective(n.cidr, n2.cidr);
    }
  }

  /** Every network a non-empty string denotes is the one it parses to, in either mode. */
  lemma ParseNetworkComplete(tryParse: bool, network: string, n: IPNetwork)
    requires |network| > 0 && Denotes(Tokens(network), n)
    ensures InternalParseNetwork(tryParse, network) == Return(Some(n))
  {
    var args := Tokens(network);
    if |args| == 1 || ByteTryParse(args[1]).Some? {
      ParseWithCidrComplete(tryParse, args[0], n);
    } else {
      ParseWithNetmaskComplete(tryParse, args[0], args[1], n);
    }
  }

  /** The text of a network's address with its prefix length parses to that network. */
  lemma ParseWithCidrComplete(tryParse: bool, ipaddress: string, n: IPNetwork)
    requires TryParse(ipaddress) == Some(ToIPAddress(n.ipaddress))
    ensures InternalParseWithCidr(tryParse, ipaddress, n.cidr) == Return(Some(n))
  {
    var r := InternalParseWithCidr(tryParse, ipaddress, n.cidr).value.value;
    ToUintOfToIPAddress(n.ipaddress);
    ToUintOfToIPAddress(r.ipaddress);
  }

  /** The texts of a network's address and netmask parse to that network. */
  lemma ParseWithNetmaskComplete(tryParse: bool, ipaddress: string, netmask: string, n: IPNetwork)
    requires TryParse(ipaddress) == Some(ToIPAddress(n.ipaddress))
    requires TryParse(netmask) == Some(NetmaskAddress(n))
    ensures InternalParseWithNetmask(tryParse, ipaddress, netmask) == Return(Some(n))
  {
    assert IsNetmaskAddress(NetmaskAddress(n));
    var r := InternalParseWithNetmask(tryParse, ipaddress, netmask).value.value;
    ToUintOfToIPAddress(n.ipaddress);
    ToUintOfToIPAddress(r.ipaddress);
    ToUintOfToIPAddress(NetmaskValue(n));
    ToUintOfToIPAddress(NetmaskValue(r));
    PrefixMaskInjective(n.cidr, r.cidr);
  }

  // ---------------------------------------------------------------------------------
  // Parse and TryParse

  /** A strict parse: the network, or the exception. */
  function Strict(u: Outcome<Option<IPNetwork>>): (r: Outcome<IPNetwork>)
    requires u.Return? ==> u.value.Some?
    ensures r.Return? <==> u.Return?
    ensures r.Return? ==> Return(Some(r.value)) == u
    ensures r.Throw? ==> r.exception == u.exception
  {
    if u.Return? then Return(u.value.value) else Throw(u.exception)
  }

  /** `Parse(string ipaddress, string netmask)`. */
  function ParseWithNetmask(ipaddress: string, netmask: string): (r: Outcome<IPNetwork>)
    ensures r.Return? <==>
      TryParse(ipaddress).Some? && TryParse(netmask).Some? && IsNetmaskAddress(TryParse(netmask).value)
    ensures r.Return? ==>
      TryParse(ipaddress) == Some(ToIPAddress(r.value.ipaddress)) && TryParse(netmask) == Some(NetmaskAddress(r.value))
    ensures |ipaddress| == 0 ==> r == Throw(ArgumentNullException("ipaddress"))
  {
    Strict(InternalParseWithNetmask(false, ipaddress, netmask))
  }

  /** `TryParse(string ipaddress, string netmask, out IPNetwork)`; `None` is `null`. */
  function TryParseWithNetmask(ipaddress: string, netmask: string): (r: Option<IPNetwork>)
    ensures r.Some? <==>
      TryParse(ipaddress).Some? && TryParse(netmask).Some? && IsNetmaskAddress(TryParse(netmask).value)
    ensures r.Some? ==>
      TryParse(ipaddress) == Some(ToIPAddress(r.value.ipaddress)) && TryParse(netmask) == Some(NetmaskAddress(r.value))
  {
    InternalParseWithNetmask(true, ipaddress, netmask).value
  }

  /** `Parse(string ipaddress, byte cidr)`. */
  function ParseWithCidr(ipaddress: string, cidr: byte): (r: Outcome<IPNetwork>)
    ensures r.Return? <==> TryParse(ipaddress).Some? && cidr <= 32
    ensures r.Return? ==> TryParse(ipaddress) == Some(ToIPAddress(r.value.ipaddress)) && r.value.cidr == cidr
    ensures |ipaddress| == 0 ==> r == Throw(ArgumentNullException("ipaddress"))
    ensures TryParse(ipaddress).Some? && cidr > 32 ==> r == Throw(ArgumentException("cidr"))
  {
    Strict(InternalParseWithCidr(false, ipaddress, cidr))
  }

  /** `TryParse(string ipaddress, byte cidr, out IPNetwork)`. */
  function TryParseWithCidr(ipaddress: string, cidr: byte): (r: Option<IPNetwork>)
    ensures r.Some? <==> TryParse(ipaddress).Some? && cidr <= 32
    ensures r.Some? ==> TryParse(ipaddress) == Some(ToIPAddress(r.value.ipaddress)) && r.value.cidr == cidr
  {
    InternalParseWithCidr(true, ipaddress, cidr).value
  }

  /** `Parse(IPAddress ipaddress, IPAddress netmask)`. */
  function ParseAddresses(ipaddress: Option<IPAddress>, netmask: Option<IPAddress>): (r: Outcome<IPNetwork>)
    ensures r.Return? <==>
      ipaddress.Some? && ipaddress.value.addressFamily == InterNetwork
      && netmask.Some? && IsNetmaskAddress(netmask.value)
    ensures r.Return? ==>
      ToIPAddress(r.value.ipaddress) == ipaddress.value && NetmaskAddress(r.value) == netmask.value
    ensures ipaddress.None? ==> r == Throw(ArgumentNullException("ipaddress"))
    ensures ipaddress.Some? && netmask.None? ==> r == Throw(ArgumentNullException("netmask"))
  {
    Strict(InternalParseAddresses(false, ipaddress, netmask))
  }

  /** `TryParse(IPAddress ipaddress, IPAddress netmask, out IPNetwork)`, which can throw. */
  function TryParseAddresses(ipaddress: Option<IPAddress>, netmask: Option<IPAddress>)
    : (r: Outcome<Option<IPNetwork>>)
    ensures r.Return? && r.value.Some? <==>
      ipaddress.Some? && ipaddress.value.addressFamily == InterNetwork
      && netmask.Some? && IsNetmaskAddress(netmask.value)
    ensures r.Return? && r.value.Some? ==>
      ToIPAddress(r.value.value.ipaddress) == ipaddress.value && NetmaskAddress(r.value.value) == netmask.value
    ensures ipaddress.Some? && netmask.Some? && ipaddress.value.addressFamily != InterNetwork
      ==> r == Throw(ArgumentException("bytes"))
  {
    InternalParseAddresses(true, ipaddress, netmask)
  }

  /** `Parse(string network)`. */
  function ParseNetwork(network: string): (r: Outcome<IPNetwork>)
    ensures r.Return? ==> |network| > 0 && Denotes(Tokens(network), r.value)
    ensures |network| == 0 ==> r == Throw(ArgumentNullException("network"))
    ensures |network| > 0 && |Tokens(network)| == 1 && TryGuessCidr(Tokens(network)[0]).None?
      ==> r == Throw(ArgumentException("network"))
  {
    Strict(InternalParseNetwork(false, network))
  }

  /** `TryParse(string network, out IPNetwork)`. */
  function TryParseNetwork(network: string): (r: Option<IPNetwork>)
    ensures r.Some? ==> |network| > 0 && Denotes(Tokens(network), r.value)
    ensures |network| == 0 ==> r.None?
  {
    InternalParseNetwork(true, network).value
  }

  /** Strict and tolerant parsing agree: the strict form throws where the tolerant one gives `null`. */
  lemma ParseWithNetmaskAgree(ipaddress: string, netmask: string)
    ensures ParseWithNetmask(ipaddress, netmask).Return? <==> TryParseWithNetmask(ipaddress, netmask).Some?
    ensures ParseWithNetmask(ipaddress, netmask).Return? ==>
      TryParseWithNetmask(ipaddress, netmask) == Some(ParseWithNetmask(ipaddress, netmask).value)
  {
    var u := InternalParseWithNetmask(false, ipaddress, netmask);
    if u.Return? {
      ParseWithNetmaskComplete(true, ipaddress, netmask, u.value.value);
    }
    var v := InternalParseWithNetmask(true, ipaddress, netmask);
    if v.value.Some? {
      ParseWithNetmaskComplete(false, ipaddress, netmask, v.value.value);
    }
  }

  lemma ParseWithCidrAgree(ipaddress: string, cidr: byte)
    ensures ParseWithCidr(ipaddress, cidr).Return? <==> TryParseWithCidr(ipaddress, cidr).Some?
    ensures ParseWithCidr(ipaddress, cidr).Return? ==>
      TryParseWithCidr(ipaddress, cidr) == Some(ParseWithCidr(ipaddress, cidr).value)
  {
    var u := InternalParseWithCidr(false, ipaddress, cidr);
    if u.Return? {
      ParseWithCidrComplete(true, ipaddress, u.value.value);
    }
    var v := InternalParseWithCidr(true, ipaddress, cidr);
    if v.value.Some? {
      ParseWithCidrComplete(false, ipaddress, v.value.value);
    }
  }

  lemma ParseNetworkAgree(network: string)
    ensures ParseNetwork(network).Return? <==> TryParseNetwork(network).Some?
    ensures ParseNetwork(network).Return? ==> TryParseNetwork(network) == Some(ParseNetwork(network).value)
  {
    var u := InternalParseNetwork(false, network);
    if u.Return? {
      ParseNetworkComplete(true, network, u.value.value);
    }
    var v := InternalParseNetwork(true, network);
    if v.value.Some? {
      ParseNetworkComplete(false, network, v.value.value);
    }
  }

  /**
   * Strict and tolerant parsing of addresses agree, except that both throw
   * `ArgumentException("bytes")` for an IPv6 address with a netmask.
   */
  lemma ParseAddressesAgree(ipaddress: Option<IPAddress>, netmask: Option<IPAddress>)
    ensures ParseAddresses(ipaddress, netmask).Return? ==>
      TryParseAddresses(ipaddress, netmask) == Return(Some(ParseAddresses(ipaddress, netmask).value))
    ensures TryParseAddresses(ipaddress, netmask).Return? && TryParseAddresses(ipaddress, netmask).value.Some? ==>
      ParseAddresses(ipaddress, netmask) == Return(TryParseAddresses(ipaddress, netmask).value.value)
    ensures TryParseAddresses(ipaddress, netmask).Throw? <==>
      ipaddress.Some? && ipaddress.value.addressFamily != InterNetwork && netmask.Some?
    ensures TryParseAddresses(ipaddress, netmask).Throw? ==>
      TryParseAddresses(ipaddress, netmask) == Throw(ArgumentException("bytes"))
      && ParseAddresses(ipaddress, netmask) == Throw(ArgumentException("bytes"))
  {
    var u := InternalParseAddresses(false, ipaddress, netmask);
    if u.Return? {
      ParseAddressesOfNetwork(true, u.value.value);
    }
    u := InternalParseAddresses(true, ipaddress, netmask);
    if u.Return? && u.value.Some? {
      ParseAddressesOfNetwork(false, u.value.value);
    }
  }

  /** The tokens of a network's text are its address text and its prefix length text. */
  lemma TokensOfToString(n: IPNetwork)
    ensures Tokens(ToString(n)) == [DottedQuad(NetworkAddress(n)), Decimal(n.cidr)]
  {
    var q, d := DottedQuad(NetworkAddress(n)), Decimal(n.cidr);
    var s := ToString(n);
    CleanUnchanged(s);
    DottedQuadChars(NetworkAddress(n));
    SplitSlash(q, d);
  }

  /** Text of digits, dots and slashes comes through each cleaning step unchanged. */
  lemma CleanUnchanged(s: string)
    requires forall i :: 0 <= i < |s| ==> IsDigit(s[i]) || s[i] == '.' || s[i] == '/'
    ensures KeepNetworkChars(s) == s && CollapseSpaces(s) == s && Trim(s) == s
  {
    forall i | 0 <= i < |s|
      ensures IsNetworkChar(s[i]) && !IsWhiteSpace(s[i])
    {
      NotWhiteSpace(s[i]);
    }
    KeepNetworkCharsUnchanged(s);
    assert NoDoubleSpace(s);
    CollapseSpacesUnchanged(s);
    TrimUnchanged(s);
  }

  lemma NotWhiteSpace(c: char)
    requires IsDigit(c) || c == '.' || c == '/'
    ensures IsNetworkChar(c) && !IsWhiteSpace(c)
  {
  }

  lemma SplitSlash(q: string, d: string)
    requires forall i :: 0 <= i < |q| ==> IsDigit(q[i]) || q[i] == '.'
    requires AllDigits(d)
    ensures Split(q + "/" + d, {' ', '/'}) == [q, d]
  {
    SplitPair(q, '/', d, {' ', '/'});
  }

  /**
   * The text of a network parses back, in either mode, to a network equal to it whose address
   * is the network address: the text keeps the block and drops the host bits.
   */
  lemma ParseToString(tryParse: bool, n: IPNetwork)
    ensures InternalParseNetwork(tryParse, ToString(n)).Return?
    ensures var r := InternalParseNetwork(tryParse, ToString(n)).value;
      r.Some? && r.value.ipaddress == NetworkValue(n) && r.value.cidr == n.cidr && Equals(n, r)
  {
    ParseToStringBlock(tryParse, n);
    NetworkOfNetworkValue(n);
  }

  lemma ParseToStringBlock(tryParse: bool, n: IPNetwork)
    ensures InternalParseNetwork(tryParse, ToString(n)) == Return(Some(Network(NetworkValue(n), n.cidr)))
  {
    var s, m := ToString(n), Network(NetworkValue(n), n.cidr);
    ToStringDenotes(n, s, m);
    ParseNetworkComplete(tryParse, s, m);
  }

  /** The tokens of a network's text denote the network at its network address. */
  lemma ToStringDenotes(n: IPNetwork, s: string, m: IPNetwork)
    requires s == ToString(n) && m == Network(NetworkValue(n), n.cidr)
    ensures |s| > 0 && Denotes(Tokens(s), m)
  {
    TokensOfToString(n);
    var args := Tokens(s);
    TryParseDottedQuad(NetworkAddress(n));
    assert TryParse(args[0]) == Some(ToIPAddress(m.ipaddress));
    ByteTryParseDecimal(n.cidr);
    assert ByteTryParse(args[1]) == Some(m.cidr);
  }

  // ---------------------------------------------------------------------------------
  // The IANA private blocks are the networks their text denotes

  lemma BytesOfNetwork(n: IPNetwork, bytes: seq<byte>)
    requires NetworkValue(n) == n.ipaddress && Bytes4(n.ipaddress) == bytes
    ensures NetworkAddress(n).addressBytes == bytes
  {
  }

  lemma QuadText(a: IPAddress, b0: byte, b1: byte, text: string)
    requires a.addressBytes == [b0, b1, 0, 0] && a.addressFamily == InterNetwork
    requires Join([Decimal(b0), Decimal(b1), "0", "0"], ".") == text
    ensures DottedQuad(a) == text
  {
    assert Decimal(0) == "0";
    assert Fields(a) == [Decimal(b0), Decimal(b1), "0", "0"];
  }

  /** The text of a network `b0.b1.0.0/cidr` whose address has no host bits set. */
  lemma NetworkText(n: IPNetwork, b0: byte, b1: byte, quad: string, prefix: string)
    requires NetworkValue(n) == n.ipaddress && Bytes4(n.ipaddress) == [b0, b1, 0, 0]
    requires Join([Decimal(b0), Decimal(b1), "0", "0"], ".") == quad && Decimal(n.cidr) == prefix
    ensures ToString(n) == quad + "/" + prefix
  {
    BytesOfNetwork(n, [b0, b1, 0, 0]);
    QuadText(NetworkAddress(n), b0, b1, quad);
  }

  /** A network without host bits is what its own text parses to, in either mode. */
  lemma ParseOfText(n: IPNetwork, text: string)
    requires NetworkValue(n) == n.ipaddress && ToString(n) == text
    ensures ParseNetwork(text) == Return(n) && TryParseNetwork(text) == Some(n)
  {
    ParseToString(false, n);
    ParseToString(true, n);
  }

  // 10.0.0.0/8

  lemma IanaAAligned()
    ensures NetworkValue(IanaABlock) == IanaABlock.ipaddress
  {
    Pow2Values();
    NetworkOfAligned(IanaABlock, 10);
  }

  lemma IanaABytes()
    ensures Bytes4(0x0A00_0000) == [10, 0, 0, 0]
  {
  }

  lemma IanaADigits()
    ensures Decimal(10) == "10" && Decimal(0) == "0" && Decimal(8) == "8"
  {
  }

  lemma IanaAQuad()
    ensures Join([Decimal(10), Decimal(0), "0", "0"], ".") == "10.0.0.0" && Decimal(8) == "8"
  {
    IanaADigits();
  }

  lemma IanaASlash()
    ensures "10.0.0.0" + "/" + "8" == "10.0.0.0/8"
  {
  }

  lemma IanaAText()
    ensures ToString(IanaABlock) == "10.0.0.0/8"
  {
    IanaAAligned();
    IanaABytes();
    IanaAQuad();
    IanaASlash();
    NetworkText(IanaABlock, 10, 0, "10.0.0.0", "8");
  }

  // 172.16.0.0/12

  lemma IanaBAligned()
    ensures NetworkValue(IanaBBlock) == IanaBBlock.ipaddress
  {
    Pow2Values();
    assert Pow2(20) == 0x10_0000 by {
      assert Pow2(17) == 2 * Pow2(16);
      assert Pow2(18) == 2 * Pow2(17);
      assert Pow2(19) == 2 * Pow2(18);
      assert Pow2(20) == 2 * Pow2(19);
    }
    NetworkOfAligned(IanaBBlock, 0xAC1);
  }

  lemma IanaBBytes()
    ensures Bytes4(0xAC10_0000) == [172, 16, 0, 0]
  {
    Bytes4OfValue([172, 16, 0, 0]);
    BytesValue4([172, 16, 0, 0]);
  }

  lemma IanaBDigits()
    ensures Decimal(172) == "172" && Decimal(16) == "16" && Decimal(12) == "12"
  {
  }

  lemma IanaBQuad()
    ensures Join([Decimal(172), Decimal(16), "0", "0"], ".") == "172.16.0.0" && Decimal(12) == "12"
  {
    IanaBDigits();
  }

  lemma IanaBSlash()
    ensures "172.16.0.0" + "/" + "12" == "172.16.0.0/12"
  {
  }

  lemma IanaBText()
    ensures ToString(IanaBBlock) == "172.16.0.0/12"
  {
    IanaBAligned();
    IanaBBytes();
    IanaBQuad();
    IanaBSlash();
    NetworkText(IanaBBlock, 172, 16, "172.16.0.0", "12");
  }

  // 192.168.0.0/16

  lemma IanaCAligned()
    ensures NetworkValue(IanaCBlock) == IanaCBlock.ipaddress
  {
    Pow2Values();
    NetworkOfAligned(IanaCBlock, 0xC0A8);
  }

  lemma IanaCBytes()
    ensures Bytes4(0xC0A8_0000) == [192, 168, 0, 0]
  {
    Bytes4OfValue([192, 168, 0, 0]);
    BytesValue4([192, 168, 0, 0]);
  }

  lemma IanaCDigits()
    ensures Decimal(192) == "192" && Decimal(168) == "168" && Decimal(16) == "16"
  {
  }

  lemma IanaCQuad()
    ensures Join([Decimal(192), Decimal(168), "0", "0"], ".") == "192.168.0.0" && Decimal(16) == "16"
  {
    IanaCDigits();
  }

  lemma IanaCSlash()
    ensures "192.168.0.0" + "/" + "16" == "192.168.0.0/16"
  {
  }

  lemma IanaCText()
    ensures ToString(IanaCBlock) == "192.168.0.0/16"
  {
    IanaCAligned();
    IanaCBytes();
    IanaCQuad();
    IanaCSlash();
    NetworkText(IanaCBlock, 192, 168, "192.168.0.0", "16");
  }

  /**
   * The three reserved blocks are the networks that parsing "10.0.0.0/8", "172.16.0.0/12"
   * and "192.168.0.0/16" yields, in either mode.
   */
  lemma IanaBlocksParse()
    ensures ParseNetwork("10.0.0.0/8") == Return(IanaABlock) && TryParseNetwork("10.0.0.0/8") == Some(IanaABlock)
    ensures ParseNetwork("172.16.0.0/12") == Return(IanaBBlock)
      && TryParseNetwork("172.16.0.0/12") == Some(IanaBBlock)
    ensures ParseNetwork("192.168.0.0/16") == Return(IanaCBlock)
      && TryParseNetwork("192.168.0.0/16") == Some(IanaCBlock)
  {
    IanaAAligned();
    IanaAText();
    ParseOfText(IanaABlock, "10.0.0.0/8");
    IanaBAligned();
    IanaBText();
    ParseOfText(IanaBBlock, "172.16.0.0/12");
    IanaCAligned();
    IanaCText();
    ParseOfText(IanaCBlock, "192.168.0.0/16");
  }
}
