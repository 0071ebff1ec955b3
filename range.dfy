/**
 * `IPAddressRange`, which IPv4.cs and IPv6.cs each declare with the same text: a family and
 * the bytes of an inclusive lower and upper bound, and `IsInRange`, which walks the bytes of
 * an address once, keeping track of whether it still equals the lower and the upper bound on
 * the prefix read so far.
 *
 * The bounds are compared byte by byte in network order, i.e. lexicographically, which for
 * byte strings of one length is the order of their big-endian values (`LexCmpValue`). The
 * constructor does not check that the two bounds share a family: with an IPv6 lower bound and
 * an IPv4 upper bound the walk can read past the four upper bytes, and `IsInRange` throws
 * `IndexOutOfRangeException` (`RangeOutcome` says exactly when).
 */
module AddressRanges {
  import opened Outcomes
  import opened Bits
  import opened Addresses

  /** The sign of the lexicographic comparison of two byte strings of one length. */
  function LexCmp(x: seq<byte>, y: seq<byte>): (c: int)
    requires |x| == |y|
    ensures -1 <= c <= 1
  {
    if |x| == 0 then 0
    else
      var c := LexCmp(x[..|x| - 1], y[..|y| - 1]);
      if c != 0 then c
      else if x[|x| - 1] < y[|y| - 1] then -1
      else if x[|x| - 1] > y[|y| - 1] then 1
      else 0
  }

  /** Two strings compare equal exactly when they are equal. */
  lemma {:induction false} LexCmpZero(x: seq<byte>, y: seq<byte>)
    requires |x| == |y|
    ensures LexCmp(x, y) == 0 <==> x == y
  {
    if |x| > 0 {
      var n := |x| - 1;
      LexCmpZero(x[..n], y[..n]);
      if LexCmp(x, y) == 0 {
        assert x[..n] == y[..n] && x[n] == y[n];
        PrefixStep(x, y, n);
        assert x[..n + 1] == x && y[..n + 1] == y;
      }
    }
  }

  /** The lexicographic order is the order of the big-endian values. */
  lemma {:induction false} LexCmpValue(x: seq<byte>, y: seq<byte>)
    requires |x| == |y|
    ensures LexCmp(x, y) < 0 <==> BytesValue(x) < BytesValue(y)
    ensures LexCmp(x, y) > 0 <==> BytesValue(x) > BytesValue(y)
  {
    if |x| > 0 {
      var n := |x| - 1;
      LexCmpValue(x[..n], y[..n]);
      LexCmpZero(x[..n], y[..n]);
    }
  }

  /** Swapping the arguments negates the comparison. */
  lemma LexCmpSwap(x: seq<byte>, y: seq<byte>)
    requires |x| == |y|
    ensures LexCmp(y, x) == -LexCmp(x, y)
  {
    LexCmpValue(x, y);
    LexCmpValue(y, x);
  }

  /** Comparing one more byte: the earlier bytes decide unless they are equal. */
  lemma LexCmpStep(x: seq<byte>, y: seq<byte>, i: nat)
    requires i < |x| && i < |y|
    ensures var c := LexCmp(x[..i], y[..i]);
      LexCmp(x[..i + 1], y[..i + 1])
        == if c != 0 then c else if x[i] < y[i] then -1 else if x[i] > y[i] then 1 else 0
  {
    assert x[..i + 1][..i] == x[..i] && y[..i + 1][..i] == y[..i];
  }

  /** A prefix that differs decides the comparison of every longer prefix. */
  lemma {:induction false} LexCmpExtend(x: seq<byte>, y: seq<byte>, i: nat, j: nat)
    requires i <= j <= |x| && j <= |y| && LexCmp(x[..i], y[..i]) != 0
    ensures LexCmp(x[..j], y[..j]) == LexCmp(x[..i], y[..i])
    decreases j - i
  {
    if i < j {
      LexCmpStep(x, y, i);
      LexCmpExtend(x, y, i + 1, j);
    }
  }

  lemma PrefixStep(x: seq<byte>, y: seq<byte>, i: nat)
    requires i < |x| && i < |y|
    ensures x[..i + 1] == y[..i + 1] <==> x[..i] == y[..i] && x[i] == y[i]
  {
    if x[..i + 1] == y[..i + 1] {
      assert x[..i + 1][..i] == x[..i] && y[..i + 1][..i] == y[..i];
      assert x[..i + 1][i] == x[i];
    }
    if x[..i] == y[..i] && x[i] == y[i] {
      assert x[..i + 1] == x[..i] + [x[i]] && y[..i + 1] == y[..i] + [y[i]];
    }
  }

  /**
   * What `IsInRange` answers for an address of the range's family, with bytes `a`. The
   * first `m` bytes are compared with both bounds, `m` being the shorter of the two bound
   * lengths. When the upper bound is the shorter one and the address still equals a bound on
   * those bytes, the next step reads past the end of the upper bytes and throws, unless the
   * lower bound already rejects the address there.
   */
  function RangeOutcome(lower: seq<byte>, upper: seq<byte>, a: seq<byte>): Outcome<bool>
    requires |a| == |lower|
  {
    var m := Common(lower, upper);
    var p, l, u := a[..m], lower[..m], upper[..m];
    if !(LexCmp(l, p) <= 0 && LexCmp(p, u) <= 0) then Return(false)
    else if m == |lower| then Return(true)
    else if p != l && p != u then Return(true)
    else if p == l && a[m] < lower[m] then Return(false)
    else Throw(IndexOutOfRangeException)
  }

  /** Bounds of one family: the address is in range exactly when it lies between them. */
  lemma SameLengthRange(lower: seq<byte>, upper: seq<byte>, a: seq<byte>)
    requires |a| == |lower| == |upper|
    ensures RangeOutcome(lower, upper, a)
      == Return(BytesValue(lower) <= BytesValue(a) <= BytesValue(upper))
  {
    assert a[..|a|] == a && lower[..|lower|] == lower && upper[..|upper|] == upper;
    LexCmpValue(lower, a);
    LexCmpValue(a, upper);
  }

  /** A range whose lower bound lies above its upper bound contains no address. */
  lemma InvertedRangeEmpty(lower: seq<byte>, upper: seq<byte>, a: seq<byte>)
    requires |a| == |lower| == |upper| && BytesValue(lower) > BytesValue(upper)
    ensures RangeOutcome(lower, upper, a) == Return(false)
  {
    SameLengthRange(lower, upper, a);
  }

  /** A range whose bounds are in order contains both of them. */
  lemma BoundsInRange(lower: seq<byte>, upper: seq<byte>)
    requires |lower| == |upper| && BytesValue(lower) <= BytesValue(upper)
    ensures RangeOutcome(lower, upper, lower) == Return(true)
    ensures RangeOutcome(lower, upper, upper) == Return(true)
  {
    SameLengthRange(lower, upper, lower);
    SameLengthRange(lower, upper, upper);
  }

  /**
   * An IPv6 lower bound with an IPv4 upper bound: the lower bound itself is not answered
   * but throws, whenever its first four bytes do not lie above the upper bound.
   */
  lemma MixedBoundsThrow(lower: IPAddress, upper: IPAddress)
    requires lower.addressFamily == InterNetworkV6 && upper.addressFamily == InterNetwork
    requires BytesValue(lower.addressBytes[..4]) <= BytesValue(upper.addressBytes)
    ensures RangeOutcome(lower.addressBytes, upper.addressBytes, lower.addressBytes)
      == Throw(IndexOutOfRangeException)
  {
    var l := lower.addressBytes[..4];
    assert upper.addressBytes[..4] == upper.addressBytes;
    LexCmpZero(l, l);
    LexCmpValue(l, upper.addressBytes);
  }

  class IPAddressRange {
    const addressFamily: AddressFamily
    const lowerBytes: seq<byte>
    const upperBytes: seq<byte>

    /** The bounds are addresses: the lower one of the range's family. */
    ghost predicate Valid()
    {
      |lowerBytes| == ByteCount(addressFamily)
      && (|upperBytes| == 4 || |upperBytes| == 16)
    }

    constructor (lowerInclusive: IPAddress, upperInclusive: IPAddress)
      ensures Valid()
      ensures addressFamily == lowerInclusive.addressFamily
      ensures lowerBytes == lowerInclusive.addressBytes && upperBytes == upperInclusive.addressBytes
    {
      addressFamily := lowerInclusive.addressFamily;
      lowerBytes := lowerInclusive.addressBytes;
      upperBytes := upperInclusive.addressBytes;
    }

    /**
     * `IsInRange`: false for an address of another family; otherwise the bytes are walked
     * while the address still equals one of the bounds on the bytes read so far.
     */
    method IsInRange(address: IPAddress) returns (r: Outcome<bool>)
      requires Valid()
      ensures address.addressFamily != addressFamily ==> r == Return(false)
      ensures address.addressFamily == addressFamily
        ==> r == RangeOutcome(lowerBytes, upperBytes, address.addressBytes)
    {
      if address.addressFamily != addressFamily {
        return Return(false);
      }
      var addressBytes := address.addressBytes;
      var lowerBoundary, upperBoundary := true, true;
      var i := 0;
      while i < |lowerBytes| && (lowerBoundary || upperBoundary)
        invariant i <= |lowerBytes| && i <= |upperBytes|
        invariant lowerBoundary == (addressBytes[..i] == lowerBytes[..i])
        invariant upperBoundary == (addressBytes[..i] == upperBytes[..i])
        invariant LexCmp(lowerBytes[..i], addressBytes[..i]) <= 0
        invariant LexCmp(addressBytes[..i], upperBytes[..i]) <= 0
      {
        LexCmpStep(lowerBytes, addressBytes, i);
        if lowerBoundary && addressBytes[i] < lowerBytes[i] {
          RejectBelow(lowerBytes, upperBytes, addressBytes, i);
          return Return(false);
        }
        if i >= |upperBytes| {
          ThrowPastUpper(lowerBytes, upperBytes, addressBytes, i, lowerBoundary, upperBoundary);
          return Throw(IndexOutOfRangeException);
        }
        LexCmpStep(addressBytes, upperBytes, i);
        if upperBoundary && addressBytes[i] > upperBytes[i] {
          LexCmpZero(addressBytes[..i], upperBytes[..i]);
          RejectAbove(lowerBytes, upperBytes, addressBytes, i);
          return Return(false);
        }
        LexCmpZero(lowerBytes[..i], addressBytes[..i]);
        LexCmpZero(addressBytes[..i], upperBytes[..i]);
        PrefixStep(addressBytes, lowerBytes, i);
        PrefixStep(addressBytes, upperBytes, i);
        lowerBoundary := lowerBoundary && addressBytes[i] == lowerBytes[i];
        upperBoundary := upperBoundary && addressBytes[i] == upperBytes[i];
        i := i + 1;
      }
      AcceptAfterWalk(lowerBytes, upperBytes, addressBytes, i);
      return Return(true);
    }
  }

  /** The length of the prefix `RangeOutcome` compares. */
  function Common(lower: seq<byte>, upper: seq<byte>): nat
  {
    if |upper| < |lower| then |upper| else |lower|
  }

  /** The address falls below the lower bound at byte `i`: it is rejected. */
  lemma RejectBelow(lower: seq<byte>, upper: seq<byte>, a: seq<byte>, i: nat)
    requires |a| == |lower| && i < |lower| && i <= |upper|
    requires a[..i] == lower[..i] && a[i] < lower[i]
    ensures RangeOutcome(lower, upper, a) == Return(false)
  {
    var m := Common(lower, upper);
    LexCmpZero(lower[..i], a[..i]);
    if i < m {
      LexCmpStep(lower, a, i);
      LexCmpExtend(lower, a, i + 1, m);
    }
  }

  /** The address rises above the upper bound at byte `i`: it is rejected. */
  lemma RejectAbove(lower: seq<byte>, upper: seq<byte>, a: seq<byte>, i: nat)
    requires |a| == |lower| && i < |lower| && i < |upper|
    requires LexCmp(a[..i + 1], upper[..i + 1]) > 0
    ensures RangeOutcome(lower, upper, a) == Return(false)
  {
    LexCmpExtend(a, upper, i + 1, Common(lower, upper));
  }

  /** The walk reaches the end of the upper bytes with the address still on a bound: it throws. */
  lemma ThrowPastUpper(lower: seq<byte>, upper: seq<byte>, a: seq<byte>, i: nat, lb: bool, ub: bool)
    requires |a| == |lower| && i == |upper| < |lower|
    requires lb == (a[..i] == lower[..i]) && ub == (a[..i] == upper[..i])
    requires lb || ub
    requires LexCmp(lower[..i], a[..i]) <= 0 && LexCmp(a[..i], upper[..i]) <= 0
    requires !(lb && a[i] < lower[i])
    ensures RangeOutcome(lower, upper, a) == Throw(IndexOutOfRangeException)
  {
  }

  /** The walk ends without rejecting: the address is in range. */
  lemma AcceptAfterWalk(lower: seq<byte>, upper: seq<byte>, a: seq<byte>, i: nat)
    requires |a| == |lower| && i <= |lower| && i <= |upper|
    requires LexCmp(lower[..i], a[..i]) <= 0 && LexCmp(a[..i], upper[..i]) <= 0
    requires i == |lower| || (a[..i] != lower[..i] && a[..i] != upper[..i])
    ensures RangeOutcome(lower, upper, a) == Return(true)
  {
    var m := Common(lower, upper);
    if i < |lower| {
      LexCmpZero(lower[..i], a[..i]);
      LexCmpZero(a[..i], upper[..i]);
      LexCmpExtend(lower, a, i, m);
      LexCmpExtend(a, upper, i, m);
      LexCmpZero(lower[..m], a[..m]);
      LexCmpZero(a[..m], upper[..m]);
    }
  }
}
