/**
 * System.Net.IPAddress as far as the library uses it: an address family, the address bytes
 * in network order (most significant first), and the IPv4 text forms that
 * `IPAddress.TryParse` reads and `IPAddress.ToString()` writes.
 */
module Addresses {
  import opened Outcomes
  import opened Text
  import opened Bits

  datatype AddressFamily = InterNetwork | InterNetworkV6

  function ByteCount(family: AddressFamily): nat
  {
    if family == InterNetwork then 4 else 16
  }

  datatype Address = Address(addressFamily: AddressFamily, addressBytes: seq<byte>)

  /** An address with the byte count of its family: 4 bytes for IPv4, 16 for IPv6. */
  type IPAddress = a: Address | |a.addressBytes| == ByteCount(a.addressFamily)
    witness Address(InterNetwork, [0, 0, 0, 0])

  /** The value of a byte sequence read big-endian (network order). */
  function BytesValue(bs: seq<byte>): nat
  {
    if |bs| == 0 then 0 else 256 * BytesValue(bs[..|bs| - 1]) + bs[|bs| - 1]
  }

  lemma BytesValue4(bs: seq<byte>)
    requires |bs| == 4
    ensures BytesValue(bs) == 0x100_0000 * (bs[0] as int) + 0x1_0000 * (bs[1] as int) + 256 * (bs[2] as int) + bs[3]
    ensures BytesValue(bs) < 0x1_0000_0000
  {
    assert bs[..3][..2] == bs[..2] && bs[..2][..1] == bs[..1] && bs[..1][..0] == [];
    assert BytesValue(bs[..1]) == bs[0];
    assert BytesValue(bs[..2]) == 256 * (bs[0] as int) + bs[1];
    assert BytesValue(bs[..3]) == 0x1_0000 * (bs[0] as int) + 256 * (bs[1] as int) + bs[2];
  }

  /** The four bytes of a 32-bit value, most significant first. */
  function Bytes4(x: uint): (bs: seq<byte>)
    ensures |bs| == 4 && BytesValue(bs) == x
  {
    var bs := [x / 0x100_0000, x / 0x1_0000 % 256, x / 256 % 256, x % 256];
    BytesValue4(bs);
    DivModParts(x, 256);
    DivModParts(x / 256, 256);
    DivModParts(x / 256 / 256, 256);
    assert x / 256 / 256 == x / 0x1_0000 && x / 256 / 256 / 256 == x / 0x100_0000;
    bs
  }

  /** The first two bytes of a value are its top eight and next eight bits. */
  lemma Bytes4Leading(x: uint)
    ensures Bytes4(x)[0] == x / 0x100_0000 && Bytes4(x)[1] == x / 0x1_0000 % 256
  {
  }

  /** Four bytes are the bytes of their value. */
  lemma Bytes4OfValue(bs: seq<byte>)
    requires |bs| == 4
    ensures BytesValue(bs) < 0x1_0000_0000 && Bytes4(BytesValue(bs)) == bs
  {
    BytesValue4(bs);
    var x := BytesValue(bs);
    DivModUnique(x, 256, 0x1_0000 * (bs[0] as int) + 256 * (bs[1] as int) + bs[2], bs[3]);
    DivModUnique(x / 256, 256, 256 * (bs[0] as int) + bs[1], bs[2]);
    DivModUnique(x / 256 / 256, 256, bs[0], bs[1]);
    assert x / 256 / 256 == x / 0x1_0000 && x / 256 / 256 / 256 == x / 0x100_0000;
  }

  // ---------------------------------------------------------------------------------
  // Text forms

  function Fields(a: IPAddress): seq<string>
    requires a.addressFamily == InterNetwork
  {
    [Decimal(a.addressBytes[0]), Decimal(a.addressBytes[1]), Decimal(a.addressBytes[2]),
      Decimal(a.addressBytes[3])]
  }

  /** `IPAddress.ToString()` of an IPv4 address: the four bytes in decimal, joined by dots. */
  function DottedQuad(a: IPAddress): (r: string)
    requires a.addressFamily == InterNetwork
    ensures Split(r, {'.'}) == Fields(a)
  {
    FieldsHaveNoDot(a);
    SplitJoin(Fields(a), '.');
    Join(Fields(a), ".")
  }

  lemma FieldsHaveNoDot(a: IPAddress)
    requires a.addressFamily == InterNetwork
    ensures forall i, j :: 0 <= i < |Fields(a)| && 0 <= j < |Fields(a)[i]| ==> Fields(a)[i][j] != '.'
  {
    var fields := Fields(a);
    forall i, j | 0 <= i < 4 && 0 <= j < |fields[i]|
      ensures fields[i][j] != '.'
    {
      DecimalHasNoDot(a.addressBytes[i]);
    }
  }

  /** One field of a dotted quad: a decimal numeral without leading zeros, at most 255. */
  function ParseByteField(s: string): (r: Option<byte>)
    ensures r.Some? ==> Decimal(r.value) == s
  {
    if IsCanonical(s, 10) && NumeralValue(s, 10) <= 255 then
      NumeralOfNumeralValue(s, 10);
      Some(NumeralValue(s, 10))
    else None
  }

  /**
   * `IPAddress.TryParse` on IPv4 text, in the two forms the library produces: the dotted
   * quad, and the single decimal number of the 32-bit value (which `long2ip` relies on).
   */
  function TryParse(s: string): (r: Option<IPAddress>)
    ensures r.Some? ==> r.value.addressFamily == InterNetwork && |s| > 0
  {
    var fields := Split(s, {'.'});
    if |fields| == 4 then
      match (ParseByteField(fields[0]), ParseByteField(fields[1]), ParseByteField(fields[2]),
        ParseByteField(fields[3]))
      case (Some(b0), Some(b1), Some(b2), Some(b3)) =>
        var a: IPAddress := Address(InterNetwork, [b0, b1, b2, b3]);
        Some(a)
      case _ => None
    else if |fields| == 1 && IsCanonical(s, 10) && NumeralValue(s, 10) < 0x1_0000_0000 then
      var a: IPAddress := Address(InterNetwork, Bytes4(NumeralValue(s, 10)));
      Some(a)
    else None
  }

  lemma DecimalHasNoDot(n: nat)
    ensures forall j :: 0 <= j < |Decimal(n)| ==> Decimal(n)[j] != '.'
  {
    var d := Decimal(n);
    forall j | 0 <= j < |d|
      ensures d[j] != '.'
    {
      assert IsDigit(d[j]);
    }
  }

  /** The dotted quad of an IPv4 address parses back to the address. */
  lemma TryParseDottedQuad(a: IPAddress)
    requires a.addressFamily == InterNetwork
    ensures TryParse(DottedQuad(a)) == Some(a)
  {
    var fields := Fields(a);
    forall i, j | 0 <= i < 4 && 0 <= j < |fields[i]|
      ensures fields[i][j] != '.'
    {
      DecimalHasNoDot(a.addressBytes[i]);
    }
    SplitJoin(fields, '.');
    forall i | 0 <= i < 4
      ensures ParseByteField(fields[i]) == Some(a.addressBytes[i])
    {
      DecimalRoundTrip(a.addressBytes[i]);
    }
    assert a.addressBytes == [a.addressBytes[0], a.addressBytes[1], a.addressBytes[2], a.addressBytes[3]];
  }

  /** Dotted text that parses is the dotted quad of its address: the text form is canonical. */
  lemma DottedQuadOfTryParse(s: string)
    requires TryParse(s).Some? && |Split(s, {'.'})| == 4
    ensures DottedQuad(TryParse(s).value) == s
  {
    var fields := Split(s, {'.'});
    var a := TryParse(s).value;
    var p0, p1, p2, p3 := ParseByteField(fields[0]), ParseByteField(fields[1]),
      ParseByteField(fields[2]), ParseByteField(fields[3]);
    assert p0.Some? && p1.Some? && p2.Some? && p3.Some?;
    assert a.addressBytes == [p0.value, p1.value, p2.value, p3.value];
    assert Fields(a) == fields;
    JoinSplit(s, '.');
  }

  /** The decimal text of a 32-bit value parses to the address with that value. */
  lemma TryParseNumber(n: nat)
    requires n < 0x1_0000_0000
    ensures TryParse(Decimal(n)).Some? && TryParse(Decimal(n)).value.addressBytes == Bytes4(n)
  {
    DecimalHasNoDot(n);
    SplitWithout(Decimal(n), {'.'});
    DecimalRoundTrip(n);
  }

  /** The dotted quad consists of digits and dots. */
  lemma DottedQuadChars(a: IPAddress)
    requires a.addressFamily == InterNetwork
    ensures forall j :: 0 <= j < |DottedQuad(a)| ==> IsDigit(DottedQuad(a)[j]) || DottedQuad(a)[j] == '.'
  {
    var fields := Fields(a);
    assert forall i :: 0 <= i < 4 ==> fields[i] == Decimal(a.addressBytes[i]);
    JoinChars(fields);
  }

  lemma {:induction false} JoinChars(parts: seq<string>)
    requires forall i :: 0 <= i < |parts| ==> AllDigits(parts[i])
    ensures forall j :: 0 <= j < |Join(parts, ".")| ==>
      IsDigit(Join(parts, ".")[j]) || Join(parts, ".")[j] == '.'
  {
    if |parts| > 1 {
      JoinChars(parts[1..]);
      var s, t := Join(parts, "."), Join(parts[1..], ".");
      assert s == parts[0] + "." + t;
      assert AllDigits(parts[0]);
      forall j | 0 <= j < |s|
        ensures IsDigit(s[j]) || s[j] == '.'
      {
        if j < |parts[0]| {
          assert s[j] == parts[0][j];
        } else if j == |parts[0]| {
          assert s[j] == '.';
        } else {
          assert s[j] == t[j - |parts[0]| - 1];
        }
      }
    } else if |parts| == 1 {
      assert AllDigits(parts[0]);
    }
  }
}
