# SimpleIPTools in Dafny

A model of the address arithmetic of SimpleIPTools, with proofs of what it promises:

- **`IPNetwork`** — an IPv4 network in CIDR notation (section 3.1 of RFC 4632): an address and a
  prefix length of at most 32. The model covers:
  - the derived netmask, network, broadcast and usable range;
  - the conversions between a prefix length and a netmask, including the popcount `BitsSet`
    and the `ValidNetmask` test;
  - `Contains`, `Overlap`, `Equals`, `CompareTo` and `ToString`;
  - the private-block test `IsIANAReserved` (section 3 of RFC 1918);
  - the whole parser family. Every `Parse`/`TryParse` overload runs through one `InternalParse`
    that either throws or answers null, depending on its `tryParse` flag.
- **`IPv4` helpers**:
  - `ip2long`/`long2ip`, and `GetNextIP`/`GetPreviousIP` built on them;
  - the zero-padded `ToUncompressedString`;
  - `Convert2CIDR`, the greedy decomposition of an address range into aligned CIDR blocks;
  - `IPAddressRange.IsInRange`.
- **`IPv6` helpers**: the unabbreviated `ToUncompressedString` (the first text form of section
  2.2 of RFC 4291) and the same `IPAddressRange.IsInRange`.

How the C# shapes are modelled:

- **Integers.** A `uint` is an integer below 2^32. The C# operators `&`, `|`, `~`, `<<`, `>>` and
  wrapping `+`, `-`, `*` are written out in module `Bits`. Shift counts are masked to five bits,
  as the runtime does.
- **Exceptions and null.** A thrown exception is an `Outcome` value (`Throw(...)`), and a null
  reference is `None`.
- **Pure code** becomes functions: `IPNetwork` is an immutable datatype, and every `InternalParse`
  overload is a function of `tryParse` and its arguments.
- **Loops** become methods. `Convert2CIDR` is a method whose loop is proved against the function
  `Blocks`, which chooses each block. `IPAddressRange` is a class with its three read-only fields,
  and `IsInRange` is its method. It walks the bytes exactly as the C# loop does and is proved
  against `RangeOutcome`.
- **One `IPAddressRange` for both files.** The class appears twice in the source, once in
  `IPv4.cs` and once in `IPv6.cs`, with identical text. One Dafny class models both.
- **`System.Net.IPAddress`** is modelled as a family plus its address bytes. Its text parser is
  modelled as the canonical dotted-quad codec (module `Addresses`).

Some doc comments in the source say something the code does not. The model follows the code:

- The comment on `IANA_BBLK_RESERVED1` says 172.12.0.0/12. The block the code parses is
  172.16.0.0/12 (`IPNetwork.cs:982`).
- The class table above `TryGuessCidr` gives /8 to the leading bits `01` and /24 to `11`. The code
  answers /8 for a top-three-bit value of at most 3, /16 for at most 5 and /24 for 6, and fails
  for 7.

Behaviours of the code that the model makes explicit:

- **Mixed families.** `IPAddressRange` does not check that its two bounds share a family. With an
  IPv6 lower bound and an IPv4 upper bound, `IsInRange` can read past the four upper bytes and
  throw `IndexOutOfRangeException`. `RangeOutcome` says exactly when, and
  `AddressRanges.MixedBoundsThrow` exhibits it.
- **`GetNextIP` on text that does not parse.** `ip2long` returns -1 for such text, so
  `GetNextIP` renders 0.0.0.0.
- **Stepping past the ends.** Stepping past 255.255.255.255 or before 0.0.0.0 yields the empty
  string, because that is what `long2ip` returns. It is not an error.
- **`Convert2CIDR` on text that does not parse.** An unparsable end is -1, so the loop never runs
  and the list is empty. An unparsable start is -1, so the first entry is "/32" with no address,
  since `long2ip(-1)` is empty, and the loop goes on from 0.0.0.0.

## Model

| member | source | states |
|---|---|---|
| IPNetworks.Create | SimpleIPTools/IPNetwork.cs:128-138 | the constructor succeeds exactly when cidr <= 32 and keeps both fields; otherwise it throws ArgumentOutOfRangeException("cidr") |
| IPNetworks.NetmaskValue | SimpleIPTools/IPNetwork.cs:49-55 | `_netmask` is the prefix mask of the network's cidr |
| IPNetworks.NetworkValue | SimpleIPTools/IPNetwork.cs:32-37 | `_network` is the address with its 32 - cidr host bits cleared, and never exceeds the address |
| IPNetworks.BroadcastValue | SimpleIPTools/IPNetwork.cs:66-71 | `network + ~netmask` never wraps: broadcast = network + 2^(32-cidr) - 1 |
| IPNetworks.BroadcastIsOr | SimpleIPTools/IPNetwork.cs:66-71 | the broadcast sum equals the bitwise or of network and ~netmask |
| IPNetworks.InNetworkRange | SimpleIPTools/IPNetwork.cs:32-37 | an address shares the network's first cidr bits iff network <= x <= broadcast |
| IPNetworks.InNetworkShr | SimpleIPTools/IPNetwork.cs:32-37 | membership is equality of x >> (32 - cidr) with the address's |
| IPNetworks.NetworkOfAligned | SimpleIPTools/IPNetwork.cs:32-37 | an address that is a multiple of the block size is its own network address |
| IPNetworks.NetworkOfNetworkValue | SimpleIPTools/IPNetwork.cs:1053-1073 | rebuilding a network from its network address gives an equal network |
| IPNetworks.NetworkAddress | SimpleIPTools/IPNetwork.cs:42-47 | the `Network` address converts back to the network value |
| IPNetworks.NetmaskAddress | SimpleIPTools/IPNetwork.cs:59-64 | the `Netmask` address converts back to the prefix mask |
| IPNetworks.BroadcastAddress | SimpleIPTools/IPNetwork.cs:75-80 | the `Broadcast` address converts back to the broadcast value |
| IPNetworks.ToCidrOfNetmask | SimpleIPTools/IPNetwork.cs:109 | `ToCidr(_netmask)` inside `Usable` gives back the network's own cidr and never throws |
| IPNetworks.Usable | SimpleIPTools/IPNetwork.cs:106-113 | 0 for cidr > 30; otherwise broadcast - network - 1, i.e. 2^(32-cidr) - 2 |
| IPNetworks.UsableCount | SimpleIPTools/IPNetwork.cs:110 | `(0xffffffff >> cidr) - 1` does not wrap and equals 2^(32-cidr) - 2 for cidr <= 30 |
| IPNetworks.BlockSize | SimpleIPTools/IPNetwork.cs:106-113 | a block with cidr <= 30 has at least four addresses |
| IPNetworks.FirstUsableValue | SimpleIPTools/IPNetwork.cs:85-90 | network + 1 when there are usable addresses, else network; always inside the block |
| IPNetworks.LastUsableValue | SimpleIPTools/IPNetwork.cs:95-101 | broadcast - 1 when there are usable addresses, else network; always inside the block |
| IPNetworks.UsableRange | SimpleIPTools/IPNetwork.cs:85-113 | first usable <= last usable, and for cidr <= 30 the range has exactly `Usable` addresses |
| IPNetworks.FirstUsable | SimpleIPTools/IPNetwork.cs:85-90 | the `FirstUsable` address converts back to the first usable value |
| IPNetworks.LastUsable | SimpleIPTools/IPNetwork.cs:95-101 | the `LastUsable` address converts back to the last usable value |
| IPNetworks.ContainsAddress | SimpleIPTools/IPNetwork.cs:877-898 | null network or address throws ArgumentNullException naming it; an IPv6 address throws ArgumentException("bytes"); otherwise true iff the address is in the block |
| IPNetworks.ContainsNetwork | SimpleIPTools/IPNetwork.cs:906-928 | null arguments throw; otherwise true iff every address of the second block is in the first |
| IPNetworks.IncludesRange | SimpleIPTools/IPNetwork.cs:924-925 | block inclusion iff network2 >= network and broadcast2 <= broadcast |
| IPNetworks.IncludesPrefix | SimpleIPTools/IPNetwork.cs:906-928 | block inclusion iff the inner prefix is at least as long and its address lies in the outer block |
| IPNetworks.Overlap | SimpleIPTools/IPNetwork.cs:940-966 | null arguments throw; otherwise true iff the two blocks share an address |
| IPNetworks.IntersectsRange | SimpleIPTools/IPNetwork.cs:959-963 | sharing an address iff one of the source's boundary clauses holds (the fourth clause is implied by the first) |
| IPNetworks.OverlapSymmetric | SimpleIPTools/IPNetwork.cs:940-966 | `Overlap` is symmetric and reflexive |
| IPNetworks.ContainsImpliesOverlap | SimpleIPTools/IPNetwork.cs:906-966 | a contained network overlaps its container |
| IPNetworks.ToString | SimpleIPTools/IPNetwork.cs:972-975 | the text splits at its one slash into the dotted quad of the network address (never the host bits of the original address) and the decimal prefix length, and holds only digits, dots and that slash |
| IPNetworks.Equals | SimpleIPTools/IPNetwork.cs:1053-1073 | null is unequal; otherwise equal iff both networks cover the same addresses |
| IPNetworks.SameBlockValues | SimpleIPTools/IPNetwork.cs:1064-1070 | covering the same addresses iff the network values and the cidrs are equal |
| IPNetworks.CompareUint | SimpleIPTools/IPNetwork.cs:1189 | `uint.CompareTo`: sign of the difference |
| IPNetworks.CompareByte | SimpleIPTools/IPNetwork.cs:1194 | `byte.CompareTo`: negative, zero or positive as the order says |
| IPNetworks.CompareTo | SimpleIPTools/IPNetwork.cs:1188-1196 | zero iff `Equals`; negative iff lexicographically smaller on (network, cidr) |
| IPNetworks.CompareToOrder | SimpleIPTools/IPNetwork.cs:1188-1196 | `CompareTo` is antisymmetric and transitive |
| IPNetworks.IsIANAReservedAddress | SimpleIPTools/IPNetwork.cs:1021-1030 | null throws ArgumentNullException("ipaddress"); IPv6 throws; otherwise true iff the address is in 10/8, 172.16/12 or 192.168/16 |
| IPNetworks.IanaBlocksOf | SimpleIPTools/IPNetwork.cs:1027-1029 | membership in one of the three blocks is exactly the first-two-byte test |
| IPNetworks.InIanaA | SimpleIPTools/IPNetwork.cs:981 | in 10.0.0.0/8 iff the first byte is 10 |
| IPNetworks.InIanaB | SimpleIPTools/IPNetwork.cs:982 | in 172.16.0.0/12 iff the first byte is 172 and the second is 16..31 |
| IPNetworks.InIanaC | SimpleIPTools/IPNetwork.cs:983 | in 192.168.0.0/16 iff the first two bytes are 192.168 |
| IPNetworks.IsIANAReservedNetwork | SimpleIPTools/IPNetwork.cs:1038-1047 | null throws; otherwise true iff the network lies inside one of the three blocks |
| IPNetworks.IanaNetworksOf | SimpleIPTools/IPNetwork.cs:1044-1046 | inclusion in one of the three blocks iff the prefix is long enough and the leading bytes match |
| Netmasks.LittleEndianValue | SimpleIPTools/IPNetwork.cs:585-586 | `Array.Reverse` then `BitConverter.ToUInt32` reads the address bytes big-endian |
| Netmasks.ToIPAddress | SimpleIPTools/IPNetwork.cs:858-863 | an IPv4 address whose bytes are the value, high byte first |
| Netmasks.InternalToUint | SimpleIPTools/IPNetwork.cs:565-589 | null throws ArgumentNullException or gives null; non-IPv4 throws ArgumentException("bytes") or gives null; otherwise the value whose address is the input |
| Netmasks.ToUint | SimpleIPTools/IPNetwork.cs:543-548 | the value whose address is the IPv4 input; null throws ArgumentNullException("ipaddress"), another family ArgumentException("bytes") |
| Netmasks.TryToUint | SimpleIPTools/IPNetwork.cs:557-563 | the value whose address is the input exactly for IPv4 addresses, null otherwise |
| Netmasks.ToUintAgree | SimpleIPTools/IPNetwork.cs:543-563 | `ToUint` succeeds iff `TryToUint` does, with the same value |
| Netmasks.ToUintOfToIPAddress | SimpleIPTools/IPNetwork.cs:543-548 | ToUint(ToIPAddress(x)) == x |
| Netmasks.ToIPAddressOfToUint | SimpleIPTools/IPNetwork.cs:858-863 | ToIPAddress(ToUint(a)) == a for every IPv4 address |
| Netmasks.PrefixMask | SimpleIPTools/IPNetwork.cs:632 | the mask of cidr c has exactly c one bits |
| Netmasks.PrefixMaskOfPop | SimpleIPTools/IPNetwork.cs:661-675 | a prefix mask is the mask of its own popcount |
| Netmasks.PrefixMaskInjective | SimpleIPTools/IPNetwork.cs:632 | distinct prefix lengths have distinct masks |
| Netmasks.InternalCidrToUint | SimpleIPTools/IPNetwork.cs:624-634 | cidr > 32 throws ArgumentOutOfRangeException("cidr") or gives null; otherwise the prefix mask (0 for cidr 0, despite the 5-bit shift count) |
| Netmasks.CidrToUint | SimpleIPTools/IPNetwork.cs:597-603 | `ToUint(byte)`: the prefix mask for cidr <= 32; above 32 throws ArgumentOutOfRangeException("cidr") |
| Netmasks.TryCidrToUint | SimpleIPTools/IPNetwork.cs:610-617 | `TryToUint(byte)`: the prefix mask exactly for cidr <= 32, null above |
| Netmasks.InternalToNetmask | SimpleIPTools/IPNetwork.cs:774-787 | cidr > 32 throws or gives null; otherwise the address of the prefix mask |
| Netmasks.ToNetmask | SimpleIPTools/IPNetwork.cs:748-753 | the address of the prefix mask for cidr <= 32; above 32 throws ArgumentOutOfRangeException("cidr") |
| Netmasks.TryToNetmask | SimpleIPTools/IPNetwork.cs:764-771 | the address of the prefix mask exactly for cidr <= 32, null above |
| Netmasks.BitsSet | SimpleIPTools/IPNetwork.cs:803-809 | the SWAR computation is the population count |
| Netmasks.PairFieldCounts | SimpleIPTools/IPNetwork.cs:805 | the first step leaves the popcount of each 2-bit field in place |
| Netmasks.NibbleFieldCounts | SimpleIPTools/IPNetwork.cs:806 | the second step leaves the popcount of each 4-bit field |
| Netmasks.GatherByteCounts | SimpleIPTools/IPNetwork.cs:807 | the last step gathers the byte counts into the total popcount, at most 32 |
| Netmasks.BitsSetPairs | SimpleIPTools/IPNetwork.cs:805 | `i - ((i >> 1) & 0x55555555)` equals the 2-bit field counts and does not wrap |
| Netmasks.BitsSetNibbles | SimpleIPTools/IPNetwork.cs:806 | the masked sum equals the 4-bit field counts and does not wrap |
| Netmasks.BitsSetBytes | SimpleIPTools/IPNetwork.cs:807 | `(i + (i >> 4)) & 0xf0f0f0f` (C# precedence) equals the byte field counts |
| Netmasks.BitsSetGather | SimpleIPTools/IPNetwork.cs:807 | the wrapping multiply by 0x1010101, shifted by 24, is the popcount |
| Netmasks.ToInt32 | SimpleIPTools/IPNetwork.cs:844 | `(int)netmask` is the two's complement reading, congruent modulo 2^32 |
| Netmasks.ComplementOfCast | SimpleIPTools/IPNetwork.cs:844 | `(~(int)netmask) & 0xffffffff` is the 32-bit complement of the mask |
| Netmasks.ValidNetmask | SimpleIPTools/IPNetwork.cs:843-847 | the test `((neg + 1) & neg) == 0` on the complement holds exactly for the masks of ones followed by zeros |
| Netmasks.ValidNetmaskOfPrefixMask | SimpleIPTools/IPNetwork.cs:843-847 | every prefix mask passes `ValidNetmask` |
| Netmasks.ComplementPow2 | SimpleIPTools/IPNetwork.cs:845 | `(neg + 1) & neg == 0` tests whether 2^32 - mask is a power of two, which holds iff the mask is a prefix mask |
| Netmasks.BitsSetOf | SimpleIPTools/IPNetwork.cs:816-820 | the popcount of the converted address, or the exception of the conversion |
| Netmasks.ValidNetmaskOf | SimpleIPTools/IPNetwork.cs:833-841 | null throws ArgumentNullException("netmask"); IPv6 throws; otherwise true iff a prefix mask |
| Netmasks.InternalToCidr | SimpleIPTools/IPNetwork.cs:661-675 | an invalid mask throws ArgumentException("netmask") or gives null; otherwise the cidr whose prefix mask is the mask |
| Netmasks.ToCidrOfUint | SimpleIPTools/IPNetwork.cs:647-651 | succeeds iff a prefix mask, giving the cidr of that mask |
| Netmasks.InternalToCidrOf | SimpleIPTools/IPNetwork.cs:706-732 | null or an address that is not a prefix mask throws or gives null; otherwise the cidr whose netmask address is the input |
| Netmasks.ToCidr | SimpleIPTools/IPNetwork.cs:684-688 | succeeds exactly for netmask addresses, giving the cidr whose netmask is the input; null throws ArgumentNullException("netmask"), anything else ArgumentException("netmask") |
| Netmasks.TryToCidr | SimpleIPTools/IPNetwork.cs:698-704 | the cidr whose netmask is the input exactly for netmask addresses, null otherwise |
| Netmasks.CidrNetmaskRoundTrip | SimpleIPTools/IPNetwork.cs:684-787 | ToCidr(ToNetmask(c)) == c for c <= 32, in both modes |
| Netmasks.NetmaskCidrRoundTrip | SimpleIPTools/IPNetwork.cs:698-771 | ToNetmask(ToCidr(m)) == m for every netmask address accepted |
| Netmasks.ToCidrAgree | SimpleIPTools/IPNetwork.cs:597-771 | the strict and tolerant `ToCidr`, `ToNetmask` and `ToUint(byte)` agree |
| Parsing.TryToCidrOfNetmask | SimpleIPTools/IPNetwork.cs:698-704 | `TryToCidr` succeeds iff the address is the netmask of some cidr |
| Parsing.InternalParseAddresses | SimpleIPTools/IPNetwork.cs:444-478 | each null argument throws ArgumentNullException or gives null; an IPv6 address throws ArgumentException("bytes") in both modes; a non-netmask throws or gives null; otherwise the network of the address and the mask |
| Parsing.ParseAddressesOfNetwork | SimpleIPTools/IPNetwork.cs:444-478 | parsing a network's address and netmask rebuilds that network |
| Parsing.InternalParseWithNetmask | SimpleIPTools/IPNetwork.cs:349-388 | empty texts, unparsable texts and invalid masks throw the named exception or give null, in source order; otherwise the network whose address and netmask the texts denote |
| Parsing.InternalParseWithCidr | SimpleIPTools/IPNetwork.cs:495-528 | empty or unparsable address and cidr > 32 throw the named exception or give null; otherwise the network of the address and cidr |
| Parsing.TryGuessCidr | SimpleIPTools/IPNetwork.cs:1133-1157 | fails for text that does not parse; otherwise the classful prefix of the first byte |
| Parsing.ClassBits | SimpleIPTools/IPNetwork.cs:1142-1152 | thresholds 3, 5, 6 on `x >> 29` are first-byte thresholds 0x80, 0xC0, 0xE0 |
| Parsing.TryParseCidr | SimpleIPTools/IPNetwork.cs:1165-1181 | succeeds exactly for byte texts of value at most 32, giving that value |
| Parsing.TryParseCidrOfDecimal | SimpleIPTools/IPNetwork.cs:1165-1181 | the decimal text of every prefix length parses back |
| Parsing.Tokens | SimpleIPTools/IPNetwork.cs:400-403 | the cleaned string splits into at least one token |
| Parsing.InternalParseNetwork | SimpleIPTools/IPNetwork.cs:390-427 | empty text throws ArgumentNullException("network") or gives null; a lone token with no classful guess throws ArgumentException("network") or gives null; a result is the network the tokens denote |
| Parsing.DenotesUnique | SimpleIPTools/IPNetwork.cs:405-425 | tokens denote at most one network |
| Parsing.ParseNetworkComplete | SimpleIPTools/IPNetwork.cs:390-427 | whenever the tokens denote a network, parsing returns it |
| Parsing.ParseWithCidrComplete | SimpleIPTools/IPNetwork.cs:495-528 | the text of a network's address with its cidr parses to that network |
| Parsing.ParseWithNetmaskComplete | SimpleIPTools/IPNetwork.cs:349-388 | the texts of a network's address and netmask parse to that network |
| Parsing.Strict | SimpleIPTools/IPNetwork.cs:157-162 | a strict `Parse` returns the network `InternalParse` produced, or throws its exception |
| Parsing.ParseWithNetmask | SimpleIPTools/IPNetwork.cs:157-162 | succeeds exactly when both texts parse and the second is a netmask, with the network whose address and netmask they are; an empty address throws ArgumentNullException("ipaddress") |
| Parsing.TryParseWithNetmask | SimpleIPTools/IPNetwork.cs:247-254 | a network exactly when both texts parse and the second is a netmask, the one whose address and netmask they are; null otherwise |
| Parsing.ParseWithCidr | SimpleIPTools/IPNetwork.cs:177-183 | succeeds exactly when the text parses and cidr <= 32, with that address and cidr; an empty text throws ArgumentNullException("ipaddress"), a parsed text with cidr > 32 ArgumentException("cidr") |
| Parsing.TryParseWithCidr | SimpleIPTools/IPNetwork.cs:272-279 | a network exactly when the text parses and cidr <= 32, with that address and cidr; null otherwise |
| Parsing.ParseAddresses | SimpleIPTools/IPNetwork.cs:198-204 | succeeds exactly for an IPv4 address and a netmask address, with that address and netmask; null arguments throw ArgumentNullException naming them |
| Parsing.TryParseAddresses | SimpleIPTools/IPNetwork.cs:321-328 | a network exactly for an IPv4 address and a netmask address; an IPv6 address throws ArgumentException("bytes") even here |
| Parsing.ParseNetwork | SimpleIPTools/IPNetwork.cs:219-225 | a result is the network the tokens denote; empty text throws ArgumentNullException("network"), a lone token without a classful guess ArgumentException("network") |
| Parsing.TryParseNetwork | SimpleIPTools/IPNetwork.cs:296-303 | a result is the network the tokens denote; empty text gives null |
| Parsing.ParseWithNetmaskAgree | SimpleIPTools/IPNetwork.cs:157-262 | `Parse(string, string)` succeeds iff `TryParse` does, with the same network |
| Parsing.ParseWithCidrAgree | SimpleIPTools/IPNetwork.cs:177-287 | the same for `(string, byte)` |
| Parsing.ParseNetworkAgree | SimpleIPTools/IPNetwork.cs:219-311 | the same for `(string)` |
| Parsing.ParseAddressesAgree | SimpleIPTools/IPNetwork.cs:198-336 | the same for `(IPAddress, IPAddress)`, except that an IPv6 address throws in both |
| Parsing.TokensOfToString | SimpleIPTools/IPNetwork.cs:400-403 | the tokens of `ToString()` are the network address text and the cidr text |
| Parsing.ParseToString | SimpleIPTools/IPNetwork.cs:972-975 | parsing `ToString()` gives a network equal to the original, at its network address |
| Parsing.ParseOfText | SimpleIPTools/IPNetwork.cs:219-311 | a network at its network address parses back from its text in both modes |
| Parsing.IanaBlocksParse | SimpleIPTools/IPNetwork.cs:981-983 | the three reserved-block texts parse to 10.0.0.0/8, 172.16.0.0/12 and 192.168.0.0/16 |
| Addresses.Bytes4OfValue | SimpleIPTools/IPNetwork.cs:858-863 | four bytes and their big-endian value determine each other |
| Addresses.TryParse | SimpleIPTools/IPv4.cs:16 | a parsed address is IPv4 and comes from non-empty text |
| Addresses.DottedQuad | SimpleIPTools/IPv4.cs:16-18 | `IPAddress.ToString()` of an IPv4 address: split at its dots, the text is the decimal text of each of the four bytes, in order |
| Addresses.TryParseDottedQuad | SimpleIPTools/IPv4.cs:16-18 | the dotted-quad text of an address parses back to it |
| Addresses.DottedQuadOfTryParse | SimpleIPTools/IPv4.cs:25 | a parsed four-field text is the dotted-quad text of its address |
| Addresses.TryParseNumber | SimpleIPTools/IPv4.cs:16 | the decimal text of a number below 2^32 parses as the address of that number |
| IPv4.ShiftedBytes | SimpleIPTools/IPv4.cs:27 | the or of the shifted bytes is their big-endian value |
| IPv4.OrShiftedBytes | SimpleIPTools/IPv4.cs:27 | the bitwise or of the shifted bytes has no overlapping bits, so it is a sum |
| IPv4.IpToLong | SimpleIPTools/IPv4.cs:22-30 | -1 iff the text does not parse; otherwise the 32-bit value of the parsed address |
| IPv4.LongText | SimpleIPTools/IPv4.cs:16 | `long.ToString()` of a non-negative value is its decimal text |
| IPv4.TryParseLongText | SimpleIPTools/IPv4.cs:13-21 | the decimal text parses as an address iff the value is in [0, 2^32) |
| IPv4.LongToIp | SimpleIPTools/IPv4.cs:13-21 | the dotted quad of the value in [0, 2^32), the empty string outside |
| IPv4.IpToLongOfLongToIp | SimpleIPTools/IPv4.cs:13-30 | ip2long(long2ip(x)) == x on [0, 2^32) |
| IPv4.LongToIpOfIpToLong | SimpleIPTools/IPv4.cs:13-30 | long2ip(ip2long(s)) is the canonical text of the parsed address |
| IPv4.GetNextIP | SimpleIPTools/IPv4.cs:35-38 | the next address; "" after 255.255.255.255; "0.0.0.0" for text that does not parse |
| IPv4.GetPreviousIP | SimpleIPTools/IPv4.cs:31-34 | the previous address; "" before 0.0.0.0 and for text that does not parse |
| IPv4.NextIsSuccessor | SimpleIPTools/IPv4.cs:35-38 | the value of the next address is one more |
| IPv4.PreviousIsPredecessor | SimpleIPTools/IPv4.cs:31-34 | the value of the previous address is one less |
| IPv4.PreviousOfNext | SimpleIPTools/IPv4.cs:31-38 | previous(next(a)) is a's canonical text below the last address |
| IPv4.NextOfPrevious | SimpleIPTools/IPv4.cs:31-38 | next(previous(a)) is a's canonical text above the first address |
| IPv4.AlignBitsClear | SimpleIPTools/IPv4.cs:47-59 | clearing the low j bits leaves x unchanged iff j is at most its alignment |
| IPv4.AlignBitsOfOddMultiple | SimpleIPTools/IPv4.cs:47-59 | the alignment of an odd multiple of 2^j is j |
| IPv4.FloorLog2 | SimpleIPTools/IPv4.cs:60-61 | `Math.Floor(Math.Log(n) / Math.Log(2))` taken exactly: 2^k <= n < 2^(k+1) |
| IPv4.FloorLog2Unique | SimpleIPTools/IPv4.cs:60-61 | only one k brackets n so |
| IPv4.BlockBitsFits | SimpleIPTools/IPv4.cs:47-65 | the chosen block fits in the remaining range and start is aligned to it |
| IPv4.BlockBitsMaximal | SimpleIPTools/IPv4.cs:47-65 | no block of twice the size would be aligned and fit |
| IPv4.BlocksEmpty | SimpleIPTools/IPv4.cs:45 | no blocks exactly when end < start |
| IPv4.BlocksChain | SimpleIPTools/IPv4.cs:45-69 | the first block starts at start, each starts where the last ended, the last ends at end |
| IPv4.BlockChosen | SimpleIPTools/IPv4.cs:47-68 | each block is the one chosen at its start for the same end |
| IPv4.BlocksAligned | SimpleIPTools/IPv4.cs:47-65 | every block is aligned, fits in the range, and is maximal there |
| IPv4.BlocksAreNetworks | SimpleIPTools/IPv4.cs:66-67 | every block is a network written at its network address, inside [start, end] |
| IPv4.BlocksAscending | SimpleIPTools/IPv4.cs:45-69 | blocks are strictly ascending and do not overlap |
| IPv4.BlocksCover | SimpleIPTools/IPv4.cs:45-69 | an address is in some block iff it is in [start, end] |
| IPv4.BlockOf | SimpleIPTools/IPv4.cs:45-69 | each address of the range lies in some block |
| IPv4.BlocksDisjoint | SimpleIPTools/IPv4.cs:45-69 | no address is in two blocks |
| IPv4.BlocksOfSingle | SimpleIPTools/IPv4.cs:45-69 | [x, x] decomposes into x/32 |
| IPv4.BlocksOfNetwork | SimpleIPTools/IPv4.cs:45-69 | a network's own [network, broadcast] decomposes into that network alone |
| IPv4.BlockBitsAt | SimpleIPTools/IPv4.cs:47-65 | at an odd multiple of 2^j with 2^k..2^(k+1)-1 addresses left, the block has min(j, k) host bits |
| IPv4.BlocksExample | SimpleIPTools/IPv4.cs:39-71 | 192.168.1.0 - 192.168.1.59 is .0/27, .32/28, .48/29, .56/30 |
| IPv4.BlockTextIsToString | SimpleIPTools/IPv4.cs:66-67 | the entry for a block is the `ToString()` of that network |
| IPv4.MaskStep | SimpleIPTools/IPv4.cs:50-51 | `start & iMask(maxSize - 1)` clears the low 33 - maxSize bits |
| IPv4.LeadingMaskSize | SimpleIPTools/IPv4.cs:47-59 | the inner loop ends at 32 minus the alignment of start |
| IPv4.BlockPrefix | SimpleIPTools/IPv4.cs:47-65 | the prefix chosen is 32 minus the block bits of `Blocks` |
| IPv4.NextEntry | SimpleIPTools/IPv4.cs:47-67 | the entry written is the text of the block `Blocks` chooses at start |
| IPv4.LoopStep | SimpleIPTools/IPv4.cs:45-69 | the i-th block starts at the loop's start, and the next begins at its limit or the loop ends |
| IPv4.ConvertRange | SimpleIPTools/IPv4.cs:43-70 | the list built is the texts of `Blocks(start, end)` |
| IPv4.Convert2CIDR | SimpleIPTools/IPv4.cs:39-71 | for a parsable start, the texts of the blocks of [ip2long(start), ip2long(end)], which is empty when the end does not parse; for an unparsable start, "/32" followed by the blocks from 0.0.0.0 |
| IPv4.EntryOfMinusOne | SimpleIPTools/IPv4.cs:13-21 | the entry written for `ip2long`'s -1 is "/32", since `long2ip(-1)` is empty |
| IPv4.ToUncompressedString | SimpleIPTools/IPv4.cs:73-84 | any non-IPv4 address is rendered by its own `ToString()` |
| IPv4.UncompressedLayout | SimpleIPTools/IPv4.cs:77-80 | 15 characters; four dot-separated fields of three digits, each reading as its byte |
| Text.D3 | SimpleIPTools/IPv4.cs:78 | `{0:D3}` of a byte: three digits reading as the byte |
| Text.ToUpper | SimpleIPTools/IPv6.cs:17 | `ToUpper()`: same length, each lower-case letter becomes its upper-case letter, every other character is kept, and no lower-case letter remains |
| Text.X4 | SimpleIPTools/IPv6.cs:17 | `{0:X4}` of a 16-bit value: four hex digits reading as the value |
| Text.WhiteSpaceClass | SimpleIPTools/IPNetwork.cs:400-402 | `\s` and `Trim()` (`Text.IsWhiteSpace`) include the white space `byte.TryParse` skips and never match a digit, dot or slash |
| Text.KeepNetworkChars | SimpleIPTools/IPNetwork.cs:400 | only digits, dots, slashes and white space remain, each of them as often as in the input |
| Text.KeepNetworkCharsAppend | SimpleIPTools/IPNetwork.cs:400 | deleting distributes over concatenation, so the kept characters stay in their order |
| Text.CollapseSpaces | SimpleIPTools/IPNetwork.cs:401 | every character other than white space is kept, as often as in the input, and the result is no longer than the input |
| Text.CollapseSpacesAppend | SimpleIPTools/IPNetwork.cs:401 | collapsing distributes over a concatenation whose boundary no white-space run spans, so order is kept and runs are replaced in place |
| Text.CollapseSpacesRun | SimpleIPTools/IPNetwork.cs:401 | a run of two or more white-space characters becomes exactly one space |
| Text.CollapseSpacesResult | SimpleIPTools/IPNetwork.cs:401 | no run of two white-space characters remains |
| Text.Trim | SimpleIPTools/IPNetwork.cs:402 | the slice of the input after its leading white space, followed only by white space, and neither starting nor ending with white space |
| Text.Split | SimpleIPTools/IPNetwork.cs:403 | `String.Split`: one field more than there are separators in the text, so empty fields are kept, and no field holds a separator |
| Text.SplitJoin | SimpleIPTools/IPv4.cs:80 | splitting a join at the separator gives back the parts |
| Text.ByteTryParse | SimpleIPTools/IPNetwork.cs:419 | `byte.TryParse`: a result is below 256 |
| Text.ByteTryParseOfShape | SimpleIPTools/IPNetwork.cs:419 | number space, an optional sign, one or more decimal digits (leading zeros allowed) and number space parse to the digits' value, unless it is above 255 or negative; "-0" reads as 0 |
| Text.ByteTryParseShape | SimpleIPTools/IPNetwork.cs:1168 | every text `byte.TryParse` accepts has that shape, so with `ByteTryParseOfShape` it succeeds exactly on it |
| Text.ByteTryParseDecimal | SimpleIPTools/IPNetwork.cs:419 | `byte.TryParse` reads back the decimal text of each byte |
| IPv6.GroupInt16 | SimpleIPTools/IPv6.cs:14-16 | the reversed pair read as a System.Int16 is the group value modulo 2^16 |
| IPv6.FormatX4 | SimpleIPTools/IPv6.cs:17 | `{0:X4}` of an Int16: four hex digits of its two's complement |
| IPv6.GroupText | SimpleIPTools/IPv6.cs:13-17 | four upper-case hex digits reading as bytes[2i] * 256 + bytes[2i+1] |
| IPv6.ToUncompressedString | SimpleIPTools/IPv6.cs:8-23 | any non-IPv6 address is rendered by its own `ToString()` |
| IPv6.UncompressedLayout | SimpleIPTools/IPv6.cs:13-19 | 39 characters; eight colon-separated groups of four hex digits, each its big-endian pair |
| IPv6.UncompressedInjective | SimpleIPTools/IPv6.cs:8-23 | distinct IPv6 addresses have distinct renderings |
| AddressRanges.LexCmp | SimpleIPTools/IPv4.cs:110-120 | the byte-wise comparison the loop performs, with a sign in -1..1 |
| AddressRanges.LexCmpZero | SimpleIPTools/IPv4.cs:110-120 | the comparison is zero iff the byte strings are equal |
| AddressRanges.LexCmpValue | SimpleIPTools/IPv4.cs:110-120 | the byte-wise order is the order of the big-endian values |
| AddressRanges.LexCmpSwap | SimpleIPTools/IPv4.cs:110-120 | the comparison is antisymmetric |
| AddressRanges.SameLengthRange | SimpleIPTools/IPv4.cs:99-122 | with bounds of one family, true iff lower <= address <= upper as numbers |
| AddressRanges.InvertedRangeEmpty | SimpleIPTools/IPv6.cs:38-61 | an inverted range contains no address |
| AddressRanges.BoundsInRange | SimpleIPTools/IPv6.cs:38-61 | both bounds of a proper range are in it |
| AddressRanges.MixedBoundsThrow | SimpleIPTools/IPv4.cs:110-119 | with an IPv6 lower and an IPv4 upper bound, the lower bound itself makes the walk throw IndexOutOfRangeException |
| AddressRanges.IPAddressRange.constructor | SimpleIPTools/IPv4.cs:92-97 | the family is the lower bound's; both byte arrays are kept |
| AddressRanges.IPAddressRange.IsInRange | SimpleIPTools/IPv6.cs:38-61 | false for another family; otherwise exactly `RangeOutcome`: the lexicographic bounds test, or the throw of mixed bounds |
| AddressRanges.RejectBelow | SimpleIPTools/IPv4.cs:113-117 | an address below the lower bound at the first differing byte is rejected |
| AddressRanges.RejectAbove | SimpleIPTools/IPv4.cs:113-117 | an address above the upper bound on the prefix read is rejected |
| AddressRanges.ThrowPastUpper | SimpleIPTools/IPv4.cs:114-119 | reading past a shorter upper bound throws |
| AddressRanges.AcceptAfterWalk | SimpleIPTools/IPv4.cs:110-121 | a walk that ends without rejection answers true |

## Left out

- IPv4.Convert2CIDR: for an unparsable start, the one turn the loop makes at -1 is written out
  before the loop instead of running through it, because the bit operations of module `Bits` are
  on non-negative integers. `ip2long` of IPv6 text, which reads the first four bytes, is left out,
  because the address parser here accepts dotted quads only.
- IPv4.FloorLog2: `Math.Log`, `Math.Floor` and `Math.Pow` are modelled as the exact floor of
  log2 and exact powers of two. Double rounding for ranges near 2^32 is not captured.
- Addresses.TryParse: `System.Net.IPAddress.TryParse` is modelled as a canonical dotted-quad
  parser. Its other accepted forms are not modelled: fewer than four parts, hex and octal parts,
  bare 32-bit numbers and IPv6 text. The one exception is the decimal form `long2ip` relies on.
- `IPAddress.ToString()` for other families, in both `ToUncompressedString`s, is a parameter
  (`text`), because its formatting lives in the library.
- IPv6.GroupInt16: `BitConverter` is assumed to run on a little-endian host. On a big-endian
  host the reversal would swap the bytes of each group.
- AddressRanges.IPAddressRange.IsInRange: null arguments are not modelled. In the source, a
  null address or bound throws NullReferenceException, in the constructor and in `IsInRange`.
- IPNetworks.CompareTo: a null `other` is not modelled. In the source, `CompareTo(null)` reads
  `other._network` and throws NullReferenceException.
- `IPv6` input to `IPNetwork`: the parsers model it only as far as `InternalToUint` throws
  ArgumentException("bytes"). The model does not claim that the tolerant API never throws.
- Text.ToUpper: only the ASCII letters a-z are mapped. The culture-dependent mapping of other
  letters is not modelled, because the text it is applied to holds hexadecimal digits only.
- Text.ByteTryParse: the current culture's sign symbols are taken to be "+" and "-", and
  white space is the ASCII set `byte.TryParse` allows by default.
- `GetHashCode` relies on library string hashing, and it mixes in the unmasked address, so it is
  not consistent with `Equals`. No property is stated for it.
- `Print` is `StringWriter` pretty-printing and is left out.
- Removing one subnet from another has no routine in these source files, so it is not part of
  this model.
