/**
 * The IPv6 rendering helper: the full, unabbreviated text form of an IPv6 address (the first
 * form of section 2.2 of RFC 4291), eight groups of four upper-case hexadecimal digits
 * separated by colons, with no group shortened and no run of zero groups elided.
 *
 * Each group goes through `BitConverter.ToInt16`, so it is a signed 16-bit value on the way,
 * and `{0:X4}` writes the two's complement of a negative one; the group text is therefore the
 * four hex digits of the two bytes, high byte first. The host is taken to be little-endian.
 */
module IPv6 {
  import opened Bits
  import opened Text
  import opened Addresses

  /** The value of the two bytes of group `i`, high byte first. */
  function GroupValue(bytes: seq<byte>, i: nat): nat
    requires |bytes| == 16 && i < 8
  {
    256 * (bytes[2 * i] as int) + bytes[2 * i + 1] as int
  }

  /**
   * Group `i` of sixteen address bytes: the two bytes at `2 * i`, reversed, read by
   * `BitConverter.ToInt16` as a little-endian System.Int16.
   */
  function GroupInt16(bytes: seq<byte>, i: nat): (v: int)
    requires |bytes| == 16 && i < 8
    ensures -0x8000 <= v < 0x8000
    ensures v % 0x1_0000 == GroupValue(bytes, i)
  {
    var reversed := [bytes[2 * i + 1], bytes[2 * i]];
    var unsigned := reversed[0] as int + 256 * (reversed[1] as int);
    if unsigned >= 0x8000 then unsigned - 0x1_0000 else unsigned
  }

  /** `string.Format("{0:X4}", v)` for a System.Int16: the hex digits of its two's complement. */
  function FormatX4(v: int): (s: string)
    requires -0x8000 <= v < 0x8000
    ensures |s| == 4 && AllDigitsIn(s, 16) && NumeralValue(s, 16) == v % 0x1_0000
  {
    X4(if v < 0 then v + 0x1_0000 else v)
  }

  /** The text of group `i`: its `X4` text, upper-cased, as `ToUpper()` does to it. */
  function GroupText(bytes: seq<byte>, i: nat): (s: string)
    requires |bytes| == 16 && i < 8
    ensures |s| == 4 && AllDigitsIn(s, 16)
    ensures NumeralValue(s, 16) == GroupValue(bytes, i)
  {
    var s := FormatX4(GroupInt16(bytes, i));
    ToUpperOfHex(s);
    ToUpper(s)
  }

  /**
   * `ToUncompressedString`: the eight groups of an IPv6 address joined by colons. Any other
   * address is rendered by `IPAddress.ToString()`, which is given as `text`.
   */
  function ToUncompressedString(ipAddress: IPAddress, text: string): (r: string)
    ensures ipAddress.addressFamily != InterNetworkV6 ==> r == text
  {
    if ipAddress.addressFamily == InterNetworkV6 then
      var bytes := ipAddress.addressBytes;
      Join(seq(8, i requires 0 <= i < 8 => GroupText(bytes, i)), [':'])
    else text
  }

  /**
   * The rendering of an IPv6 address has 39 characters, and splitting it at the colons gives
   * eight groups of four hex digits, each the value of its two bytes, high byte first.
   */
  lemma UncompressedLayout(ipAddress: IPAddress, text: string)
    requires ipAddress.addressFamily == InterNetworkV6
    ensures var r := ToUncompressedString(ipAddress, text);
      |r| == 39 && |Split(r, {':'})| == 8
      && forall i :: 0 <= i < 8 ==>
        var group := Split(r, {':'})[i];
        |group| == 4 && AllDigitsIn(group, 16)
        && NumeralValue(group, 16) == GroupValue(ipAddress.addressBytes, i)
  {
    var bytes := ipAddress.addressBytes;
    var groups := seq(8, i requires 0 <= i < 8 => GroupText(bytes, i));
    forall i, j | 0 <= i < |groups| && 0 <= j < |groups[i]|
      ensures groups[i][j] != ':'
    {
      assert IsUpperHexDigit(groups[i][j]);
    }
    SplitJoin(groups, ':');
    JoinLength(groups, ":", 4);
  }

  /** The group texts determine the address bytes: the rendering loses nothing. */
  lemma UncompressedInjective(a: IPAddress, b: IPAddress, text: string)
    requires a.addressFamily == InterNetworkV6 && b.addressFamily == InterNetworkV6
    requires ToUncompressedString(a, text) == ToUncompressedString(b, text)
    ensures a == b
  {
    UncompressedLayout(a, text);
    UncompressedLayout(b, text);
    forall k | 0 <= k < 16
      ensures a.addressBytes[k] == b.addressBytes[k]
    {
      GroupBytes(a.addressBytes, b.addressBytes, k / 2);
    }
  }

  /** Equal group values have equal bytes. */
  lemma GroupBytes(x: seq<byte>, y: seq<byte>, i: nat)
    requires |x| == |y| == 16 && i < 8 && GroupValue(x, i) == GroupValue(y, i)
    ensures x[2 * i] == y[2 * i] && x[2 * i + 1] == y[2 * i + 1]
  {
  }
}
