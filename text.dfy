/**
 * The parts of .NET's string handling the library relies on: decimal and hexadecimal
 * numerals (`ToString()`, `{0:D3}`, `{0:X4}`), `byte.TryParse`, `Char.IsWhiteSpace`,
 * `string.Trim`, `string.Split` and `string.Join`, and the two regular expressions used to
 * clean up a network string.
 */
module Text {
  import opened Outcomes
  import Bits

  // ---------------------------------------------------------------------------------
  // Numerals

  predicate IsDigit(c: char)
  {
    '0' <= c <= '9'
  }

  predicate AllDigits(s: string)
  {
    forall i :: 0 <= i < |s| ==> IsDigit(s[i])
  }

  predicate IsUpperHexDigit(c: char)
  {
    IsDigit(c) || 'A' <= c <= 'F'
  }

  /** The digit of value `d` in base 10 or 16, with upper-case letters. */
  function DigitChar(d: nat): (c: char)
    requires d < 16
    ensures IsUpperHexDigit(c) && (d < 10 <==> IsDigit(c))
  {
    if d < 10 then ('0' as int + d) as char else ('A' as int + d - 10) as char
  }

  function DigitValue(c: char): (d: nat)
    requires IsUpperHexDigit(c)
    ensures d < 16 && DigitChar(d) == c
  {
    if IsDigit(c) then c as int - '0' as int else c as int - 'A' as int + 10
  }

  lemma DigitRoundTrip(d: nat)
    requires d < 16
    ensures DigitValue(DigitChar(d)) == d
  {
  }

  lemma DivModParts(n: nat, base: nat)
    requires base > 0
    ensures n == base * (n / base) + n % base && 0 <= n % base < base
  {
  }

  predicate ValidBase(base: nat)
  {
    base == 10 || base == 16
  }

  predicate AllDigitsIn(s: string, base: nat)
  {
    forall i :: 0 <= i < |s| ==> IsUpperHexDigit(s[i]) && DigitValue(s[i]) < base
  }

  /** The numeral of `n` in `base`, most significant digit first, without leading zeros. */
  function Numeral(n: nat, base: nat): (s: string)
    requires ValidBase(base)
    ensures |s| >= 1 && AllDigitsIn(s, base)
    ensures s[0] == '0' ==> n == 0
    decreases n
  {
    if n < base then [DigitChar(n)] else Numeral(n / base, base) + [DigitChar(n % base)]
  }

  /** The value of a string of digits in `base`, most significant digit first. */
  function NumeralValue(s: string, base: nat): nat
    requires ValidBase(base) && AllDigitsIn(s, base)
  {
    if |s| == 0 then 0 else base * NumeralValue(s[..|s| - 1], base) + DigitValue(s[|s| - 1])
  }

  /** A numeral without superfluous leading zeros. */
  predicate IsCanonical(s: string, base: nat)
  {
    ValidBase(base) && |s| >= 1 && AllDigitsIn(s, base) && (s[0] == '0' ==> |s| == 1)
  }

  lemma {:induction false} NumeralValueOfNumeral(n: nat, base: nat)
    requires ValidBase(base)
    ensures NumeralValue(Numeral(n, base), base) == n
    decreases n
  {
    if n >= base {
      var s, q, d := Numeral(n, base), n / base, n % base;
      DivModParts(n, base);
      assert s == Numeral(q, base) + [DigitChar(d)];
      assert s[..|s| - 1] == Numeral(q, base) && s[|s| - 1] == DigitChar(d);
      NumeralValueOfNumeral(q, base);
      DigitRoundTrip(d);
      assert NumeralValue(s, base) == base * NumeralValue(s[..|s| - 1], base) + DigitValue(s[|s| - 1]);
    }
  }

  lemma NumeralIsCanonical(n: nat, base: nat)
    requires ValidBase(base)
    ensures IsCanonical(Numeral(n, base), base)
  {
    if n >= base {
      NumeralNonzero(n, base);
    }
  }

  lemma {:induction false} NumeralNonzero(n: nat, base: nat)
    requires ValidBase(base) && n >= 1
    ensures Numeral(n, base)[0] != '0'
    decreases n
  {
    if n >= base {
      NumeralNonzero(n / base, base);
    }
  }

  lemma AtLeastFactor(a: nat, b: nat)
    requires b >= 1
    ensures a * b >= a
  {
  }

  /** A canonical numeral of two or more digits denotes at least `base`. */
  lemma {:induction false} CanonicalValueBound(s: string, base: nat)
    requires IsCanonical(s, base)
    ensures s[0] != '0' ==> NumeralValue(s, base) >= 1
    ensures |s| >= 2 ==> NumeralValue(s, base) >= base
    decreases |s|
  {
    if |s| >= 2 {
      var p := s[..|s| - 1];
      assert p[0] == s[0] != '0';
      assert AllDigitsIn(p, base);
      CanonicalValueBound(p, base);
      var vp := NumeralValue(p, base);
      assert NumeralValue(s, base) == base * vp + DigitValue(s[|s| - 1]);
      AtLeastFactor(base, vp);
    } else if s[0] != '0' {
      assert DigitValue(s[0]) != 0;
    }
  }

  /** Every canonical numeral is the numeral of its value. */
  lemma {:induction false} NumeralOfNumeralValue(s: string, base: nat)
    requires IsCanonical(s, base)
    ensures Numeral(NumeralValue(s, base), base) == s
    decreases |s|, 1
  {
    if |s| >= 2 {
      NumeralOfNumeralValueStep(s, base);
    } else {
      assert NumeralValue(s, base) == DigitValue(s[0]);
    }
  }

  /** The step of `NumeralOfNumeralValue`: the last digit comes off the value and the text. */
  lemma {:induction false} NumeralOfNumeralValueStep(s: string, base: nat)
    requires IsCanonical(s, base) && |s| >= 2
    ensures Numeral(NumeralValue(s, base), base) == s
    decreases |s|, 0
  {
    var p, d := CanonicalPrefix(s, base);
    var vp := NumeralValue(p, base);
    CanonicalValueBound(s, base);
    NumeralStep(NumeralValue(s, base), vp, d, base);
    NumeralOfNumeralValue(p, base);
  }

  /** A canonical numeral of two or more digits is a canonical numeral and one more digit. */
  lemma CanonicalPrefix(s: string, base: nat) returns (p: string, d: nat)
    requires IsCanonical(s, base) && |s| >= 2
    ensures IsCanonical(p, base) && |p| == |s| - 1 && d < base && s == p + [DigitChar(d)]
    ensures NumeralValue(s, base) == base * NumeralValue(p, base) + d
  {
    p, d := s[..|s| - 1], DigitValue(s[|s| - 1]);
    assert p[0] == s[0] && AllDigitsIn(p, base);
    assert s == p + [s[|s| - 1]];
  }

  /** The numeral of `base * q + d`, with `d` a digit and `q` nonzero, ends in the digit of `d`. */
  lemma NumeralStep(v: nat, q: nat, d: nat, base: nat)
    requires ValidBase(base) && d < base && v == base * q + d && v >= base
    ensures Numeral(v, base) == Numeral(q, base) + [DigitChar(d)]
  {
    Bits.DivModUnique(v, base, q, d);
  }

  /** `n.ToString()` for a non-negative integer. */
  function Decimal(n: nat): (s: string)
    ensures |s| >= 1 && AllDigits(s)
  {
    var s := Numeral(n, 10);
    assert forall i :: 0 <= i < |s| ==> IsDigit(s[i]) by {
      forall i | 0 <= i < |s|
        ensures IsDigit(s[i])
      {
        assert DigitValue(s[i]) < 10;
      }
    }
    s
  }

  lemma DecimalRoundTrip(n: nat)
    ensures NumeralValue(Decimal(n), 10) == n && IsCanonical(Decimal(n), 10)
  {
    NumeralValueOfNumeral(n, 10);
    NumeralIsCanonical(n, 10);
  }

  lemma DecimalLength(n: nat)
    ensures n < 10 ==> |Decimal(n)| == 1
    ensures n < 100 ==> |Decimal(n)| <= 2
    ensures n < 1000 ==> |Decimal(n)| <= 3
    ensures n >= 10 ==> |Decimal(n)| >= 2
  {
    if n >= 10 {
      assert Numeral(n, 10) == Numeral(n / 10, 10) + [DigitChar(n % 10)];
      if n >= 100 {
        assert Numeral(n / 10, 10) == Numeral(n / 10 / 10, 10) + [DigitChar(n / 10 % 10)];
      }
    }
  }

  function Zeros(k: nat): (s: string)
    ensures |s| == k && forall i :: 0 <= i < k ==> s[i] == '0'
  {
    if k == 0 then [] else Zeros(k - 1) + ['0']
  }

  /** `PadLeft(width, '0')`: the numeral with zeros in front up to `width` characters. */
  function PadZeros(s: string, width: nat): (r: string)
    ensures |r| == if |s| >= width then |s| else width
  {
    if |s| >= width then s else Zeros(width - |s|) + s
  }

  lemma ZerosDigits(k: nat, s: string, base: nat)
    requires ValidBase(base) && AllDigitsIn(s, base)
    ensures AllDigitsIn(Zeros(k) + s, base)
  {
    var t := Zeros(k) + s;
    forall i | 0 <= i < |t|
      ensures IsUpperHexDigit(t[i]) && DigitValue(t[i]) < base
    {
      if i >= k {
        assert t[i] == s[i - k];
      }
    }
  }

  /** Leading zeros do not change the value of a numeral. */
  lemma {:induction false} LeadingZeros(k: nat, s: string, base: nat)
    requires ValidBase(base) && AllDigitsIn(s, base)
    ensures AllDigitsIn(Zeros(k) + s, base)
    ensures NumeralValue(Zeros(k) + s, base) == NumeralValue(s, base)
    decreases |s|, k, 1
  {
    ZerosDigits(k, s, base);
    if |s| == 0 {
      if k > 0 {
        LeadingZerosOnly(k, s, base);
      }
    } else {
      LeadingZerosStep(k, s, base);
    }
  }

  /** Zeros alone: dropping one leaves the value 0. */
  lemma {:induction false} LeadingZerosOnly(k: nat, s: string, base: nat)
    requires ValidBase(base) && s == [] && k > 0
    ensures AllDigitsIn(Zeros(k) + s, base)
    ensures NumeralValue(Zeros(k) + s, base) == NumeralValue(s, base)
    decreases |s|, k, 0
  {
    var t := Zeros(k) + s;
    ZerosDigits(k, s, base);
    assert t[..|t| - 1] == Zeros(k - 1) + [];
    LeadingZeros(k - 1, [], base);
  }

  /** The last digit of `s` is the last digit of the padded text. */
  lemma {:induction false} LeadingZerosStep(k: nat, s: string, base: nat)
    requires ValidBase(base) && AllDigitsIn(s, base) && |s| > 0
    ensures AllDigitsIn(Zeros(k) + s, base)
    ensures NumeralValue(Zeros(k) + s, base) == NumeralValue(s, base)
    decreases |s|, k, 0
  {
    var t := Zeros(k) + s;
    var p := s[..|s| - 1];
    ZerosDigits(k, s, base);
    ZerosDigits(k, p, base);
    assert t[..|t| - 1] == Zeros(k) + p;
    LeadingZeros(k, p, base);
    var last := DigitValue(s[|s| - 1]);
    assert NumeralValue(t, base) == base * NumeralValue(Zeros(k) + p, base) + last;
    assert NumeralValue(s, base) == base * NumeralValue(p, base) + last;
  }

  /** `string.Format("{0:D3}", b)` for a byte: exactly three decimal digits. */
  function D3(b: nat): (s: string)
    requires b < 256
    ensures |s| == 3 && AllDigits(s) && NumeralValue(s, 10) == b
  {
    DecimalLength(b);
    DecimalRoundTrip(b);
    var d := Decimal(b);
    LeadingZeros(3 - |d|, d, 10);
    PadZeros(d, 3)
  }

  /** `string.Format("{0:X4}", v)` for a 16-bit unsigned value: exactly four hex digits. */
  function X4(v: nat): (s: string)
    requires v < 0x1_0000
    ensures |s| == 4 && AllDigitsIn(s, 16) && NumeralValue(s, 16) == v
  {
    var h := Numeral(v, 16);
    HexLength(v);
    NumeralValueOfNumeral(v, 16);
    LeadingZeros(4 - |h|, h, 16);
    PadZeros(h, 4)
  }

  lemma HexLength(v: nat)
    requires v < 0x1_0000
    ensures |Numeral(v, 16)| <= 4
  {
    if v >= 16 {
      assert Numeral(v, 16) == Numeral(v / 16, 16) + [DigitChar(v % 16)];
      if v >= 256 {
        assert Numeral(v / 16, 16) == Numeral(v / 16 / 16, 16) + [DigitChar(v / 16 % 16)];
        if v >= 4096 {
          assert Numeral(v / 16 / 16, 16)
            == Numeral(v / 16 / 16 / 16, 16) + [DigitChar(v / 16 / 16 % 16)];
        }
      }
    }
  }

  /** `string.ToUpper()` on ASCII text: each lower-case letter becomes its upper-case letter. */
  function ToUpper(s: string): (r: string)
    ensures |r| == |s|
    ensures forall i :: 0 <= i < |s| && 'a' <= s[i] <= 'z' ==> r[i] == (s[i] as int - 32) as char
    ensures forall i :: 0 <= i < |s| && !('a' <= s[i] <= 'z') ==> r[i] == s[i]
    ensures forall i :: 0 <= i < |r| ==> !('a' <= r[i] <= 'z')
  {
    if |s| == 0 then []
    else [if 'a' <= s[0] <= 'z' then (s[0] as int - 32) as char else s[0]] + ToUpper(s[1..])
  }

  lemma {:induction false} ToUpperOfHex(s: string)
    requires AllDigitsIn(s, 16)
    ensures ToUpper(s) == s
  {
    if |s| > 0 {
      ToUpperOfHex(s[1..]);
    }
  }

  // ---------------------------------------------------------------------------------
  // White space, trimming, splitting and joining

  /** `Char.IsWhiteSpace`, which is also the class `\s` of .NET regular expressions. */
  predicate IsWhiteSpace(c: char)
  {
    ('\t' <= c <= '\r') || c == ' ' || c == '\U{0085}' || c == '\U{00A0}' || c == '\U{1680}'
    || ('\U{2000}' <= c <= '\U{200A}') || c == '\U{2028}' || c == '\U{2029}'
    || c == '\U{202F}' || c == '\U{205F}' || c == '\U{3000}'
  }

  /**
   * The class `\s` includes the white space `byte.TryParse` skips, and holds no digit, dot or
   * slash, so the characters `[0-9\.\/]` of a network text never count as white space.
   */
  lemma WhiteSpaceClass(c: char)
    ensures IsNumberSpace(c) ==> IsWhiteSpace(c)
    ensures IsWhiteSpace(c) ==> !IsDigit(c) && c != '.' && c != '/'
  {
  }

  /** The white space `byte.TryParse` skips before and after the digits. */
  predicate IsNumberSpace(c: char)
  {
    ('\t' <= c <= '\r') || c == ' '
  }

  /** `TrimStart()`: the suffix of `s` left after its leading white space. */
  function TrimStart(s: string, space: char -> bool): (r: string)
    ensures |r| <= |s| && r == s[|s| - |r|..]
    ensures forall k :: 0 <= k < |s| - |r| ==> space(s[k])
    ensures |r| > 0 ==> !space(r[0])
  {
    if |s| > 0 && space(s[0]) then
      var r := TrimStart(s[1..], space);
      assert forall k :: 1 <= k < |s| - |r| ==> s[k] == s[1..][k - 1];
      r
    else s
  }

  /** `TrimEnd()`: the prefix of `s` left before its trailing white space. */
  function TrimEnd(s: string, space: char -> bool): (r: string)
    ensures |r| <= |s| && r == s[..|r|]
    ensures forall k :: |r| <= k < |s| ==> space(s[k])
    ensures |r| > 0 ==> !space(r[|r| - 1])
  {
    if |s| > 0 && space(s[|s| - 1]) then
      var r := TrimEnd(s[..|s| - 1], space);
      assert forall k :: |r| <= k < |s| - 1 ==> s[k] == s[..|s| - 1][k];
      r
    else s
  }

  /** The number of white-space characters at the end of `t`. */
  function TrailRun(t: string): (n: nat)
    ensures n <= |t| && forall k :: |t| - n <= k < |t| ==> IsWhiteSpace(t[k])
    ensures n < |t| ==> !IsWhiteSpace(t[|t| - n - 1])
  {
    if |t| > 0 && IsWhiteSpace(t[|t| - 1]) then 1 + TrailRun(t[..|t| - 1]) else 0
  }

  /**
   * `string.Trim()`: the slice of `s` that starts after its leading white space (`SpaceRun`)
   * and is followed only by white space; it neither starts nor ends with white space.
   */
  function Trim(s: string): (r: string)
    ensures SpaceRun(s) + |r| <= |s| && r == s[SpaceRun(s)..SpaceRun(s) + |r|]
    ensures forall k :: SpaceRun(s) + |r| <= k < |s| ==> IsWhiteSpace(s[k])
    ensures |r| > 0 ==> !IsWhiteSpace(r[0]) && !IsWhiteSpace(r[|r| - 1])
  {
    var k := SpaceRun(s);
    var t := s[k..];
    var n := TrailRun(t);
    TrimBounds(s, k, t, n);
    s[k..|s| - n]
  }

  /** The leading and the trailing run of white space do not overlap, and what lies between
    * them starts and ends with something else. */
  lemma TrimBounds(s: string, k: nat, t: string, n: nat)
    requires k <= |s| && t == s[k..] && (k < |s| ==> !IsWhiteSpace(s[k]))
    requires n <= |t| && forall j :: |t| - n <= j < |t| ==> IsWhiteSpace(t[j])
    requires n < |t| ==> !IsWhiteSpace(t[|t| - n - 1])
    ensures k + n <= |s|
    ensures forall j :: |s| - n <= j < |s| ==> IsWhiteSpace(s[j])
    ensures k < |s| - n ==> !IsWhiteSpace(s[k]) && !IsWhiteSpace(s[|s| - n - 1])
  {
    forall j | |s| - n <= j < |s|
      ensures IsWhiteSpace(s[j])
    {
      assert s[j] == t[j - k];
    }
    if k < |s| - n {
      assert s[|s| - n - 1] == t[|t| - n - 1];
    }
  }

  lemma TrimUnchanged(s: string)
    requires |s| > 0 ==> !IsWhiteSpace(s[0]) && !IsWhiteSpace(s[|s| - 1])
    ensures Trim(s) == s
  {
    assert SpaceRun(s) == 0 && s[0..] == s;
  }

  /** `s.Split(separators)`: the fields between separators, empty fields included. */
  function Split(s: string, separators: set<char>): (r: seq<string>)
    ensures |r| == Occurrences(s, separators) + 1
    ensures forall i, j :: 0 <= i < |r| && 0 <= j < |r[i]| ==> r[i][j] !in separators
  {
    if |s| == 0 then [""]
    else
      var rest := Split(s[1..], separators);
      if s[0] in separators then [""] + rest else [[s[0]] + rest[0]] + rest[1..]
  }

  /** The number of characters of `s` that belong to `chars`. */
  function Occurrences(s: string, chars: set<char>): nat
  {
    if |s| == 0 then 0 else (if s[0] in chars then 1 else 0) + Occurrences(s[1..], chars)
  }

  lemma {:induction false} SplitWithout(s: string, separators: set<char>)
    requires forall j :: 0 <= j < |s| ==> s[j] !in separators
    ensures Split(s, separators) == [s]
  {
    if |s| > 0 {
      SplitWithout(s[1..], separators);
      assert [s[0]] + s[1..] == s;
    }
  }

  /** A field followed by a separator comes off the front. */
  lemma {:induction false} SplitField(a: string, c: char, b: string, separators: set<char>)
    requires forall j :: 0 <= j < |a| ==> a[j] !in separators
    requires c in separators
    ensures Split(a + [c] + b, separators) == [a] + Split(b, separators)
  {
    if |a| > 0 {
      assert (a + [c] + b)[1..] == a[1..] + [c] + b;
      SplitField(a[1..], c, b, separators);
      assert (a + [c] + b)[0] == a[0] && [a[0]] + a[1..] == a;
    } else {
      assert (a + [c] + b)[1..] == b;
    }
  }

  /** Two fields around one separator split into exactly those two fields. */
  lemma SplitPair(a: string, c: char, b: string, separators: set<char>)
    requires forall j :: 0 <= j < |a| ==> a[j] !in separators
    requires forall j :: 0 <= j < |b| ==> b[j] !in separators
    requires c in separators
    ensures Split(a + [c] + b, separators) == [a, b]
  {
    SplitField(a, c, b, separators);
    SplitWithout(b, separators);
  }

  /** Splitting and joining again with the one separator gives the string back. */
  lemma {:induction false} JoinSplit(s: string, c: char)
    ensures Join(Split(s, {c}), [c]) == s
  {
    if |s| > 0 {
      JoinSplit(s[1..], c);
      var rest := Split(s[1..], {c});
      if s[0] != c {
        assert Join(rest, [c]) == rest[0] + (if |rest| == 1 then [] else [c] + Join(rest[1..], [c]));
      }
    }
  }

  /** `string.Join(separator, parts)`. */
  function Join(parts: seq<string>, separator: string): string
  {
    if |parts| == 0 then ""
    else if |parts| == 1 then parts[0]
    else parts[0] + separator + Join(parts[1..], separator)
  }

  /** Joining fields that hold no separator, then splitting, gives the fields back. */
  lemma {:induction false} SplitJoin(parts: seq<string>, c: char)
    requires |parts| >= 1
    requires forall i, j :: 0 <= i < |parts| && 0 <= j < |parts[i]| ==> parts[i][j] != c
    ensures Split(Join(parts, [c]), {c}) == parts
  {
    if |parts| == 1 {
      SplitWithout(parts[0], {c});
    } else {
      SplitJoin(parts[1..], c);
      assert Join(parts, [c]) == parts[0] + [c] + Join(parts[1..], [c]);
      SplitField(parts[0], c, Join(parts[1..], [c]), {c});
      assert parts == [parts[0]] + parts[1..];
    }
  }

  lemma {:induction false} JoinLength(parts: seq<string>, separator: string, width: nat)
    requires |parts| >= 1 && forall i :: 0 <= i < |parts| ==> |parts[i]| == width
    ensures |Join(parts, separator)| == |parts| * width + (|parts| - 1) * |separator|
  {
    if |parts| > 1 {
      JoinLength(parts[1..], separator, width);
    }
  }

  // ---------------------------------------------------------------------------------
  // The two regular expressions of IPNetwork.InternalParse(string)

  /** Characters of the class `[0-9\.\/\s]`. */
  predicate IsNetworkChar(c: char)
  {
    IsDigit(c) || c == '.' || c == '/' || IsWhiteSpace(c)
  }

  /** `Regex.Replace(s, @"[^0-9\.\/\s]+", "")`: every other character is deleted. */
  function KeepNetworkChars(s: string): (r: string)
    ensures forall i :: 0 <= i < |r| ==> IsNetworkChar(r[i])
    ensures forall c :: IsNetworkChar(c) ==> multiset(r)[c] == multiset(s)[c]
    ensures |r| <= |s|
  {
    if |s| == 0 then ""
    else
      assert s == [s[0]] + s[1..];
      if IsNetworkChar(s[0]) then [s[0]] + KeepNetworkChars(s[1..])
      else KeepNetworkChars(s[1..])
  }

  /** The kept characters stay in their order: deleting distributes over concatenation. */
  lemma {:induction false} KeepNetworkCharsAppend(a: string, b: string)
    ensures KeepNetworkChars(a + b) == KeepNetworkChars(a) + KeepNetworkChars(b)
  {
    if |a| > 0 {
      assert (a + b)[0] == a[0] && (a + b)[1..] == a[1..] + b;
      KeepNetworkCharsAppend(a[1..], b);
    } else {
      assert a + b == b;
    }
  }

  lemma {:induction false} KeepNetworkCharsUnchanged(s: string)
    requires forall i :: 0 <= i < |s| ==> IsNetworkChar(s[i])
    ensures KeepNetworkChars(s) == s
  {
    if |s| > 0 {
      KeepNetworkCharsUnchanged(s[1..]);
    }
  }

  /** The number of white-space characters at the front of `s`. */
  function SpaceRun(s: string): (k: nat)
    ensures k <= |s| && forall i :: 0 <= i < k ==> IsWhiteSpace(s[i])
    ensures k < |s| ==> !IsWhiteSpace(s[k])
  {
    if |s| > 0 && IsWhiteSpace(s[0]) then 1 + SpaceRun(s[1..]) else 0
  }

  /** `Regex.Replace(s, @"\s{2,}", " ")`: every run of two or more white-space characters
    * becomes one space; a lone white-space character stays as it is. */
  function CollapseSpaces(s: string): (r: string)
    ensures |r| <= |s|
    ensures forall c :: !IsWhiteSpace(c) ==> multiset(r)[c] == multiset(s)[c]
    decreases |s|
  {
    if |s| == 0 then ""
    else
      var k := SpaceRun(s);
      if k >= 2 then
        var rest := CollapseSpaces(s[k..]);
        DropSpaceRun(s, k, rest);
        " " + rest
      else
        var rest := CollapseSpaces(s[1..]);
        KeepFirst(s, rest);
        [s[0]] + rest
  }

  /** Replacing a leading run of white space by one space keeps every other character's count. */
  lemma DropSpaceRun(s: string, k: nat, rest: string)
    requires k <= |s| && forall i :: 0 <= i < k ==> IsWhiteSpace(s[i])
    requires forall c :: !IsWhiteSpace(c) ==> multiset(rest)[c] == multiset(s[k..])[c]
    ensures forall c :: !IsWhiteSpace(c) ==> multiset(" " + rest)[c] == multiset(s)[c]
  {
    assert s == s[..k] + s[k..];
    SpacesOnly(s[..k]);
    SpacesOnly(" ");
  }

  /** Keeping the first character keeps every count. */
  lemma KeepFirst(s: string, rest: string)
    requires |s| > 0
    requires forall c :: !IsWhiteSpace(c) ==> multiset(rest)[c] == multiset(s[1..])[c]
    ensures forall c :: !IsWhiteSpace(c) ==> multiset([s[0]] + rest)[c] == multiset(s)[c]
  {
    assert s == [s[0]] + s[1..];
  }

  /** Text made of white space holds no other character. */
  lemma SpacesOnly(t: string)
    requires forall i :: 0 <= i < |t| ==> IsWhiteSpace(t[i])
    ensures forall c :: !IsWhiteSpace(c) ==> multiset(t)[c] == 0
  {
    forall c | !IsWhiteSpace(c)
      ensures multiset(t)[c] == 0
    {
      assert c !in t;
    }
  }

  predicate NoDoubleSpace(s: string)
  {
    forall i :: 0 <= i < |s| - 1 ==> !(IsWhiteSpace(s[i]) && IsWhiteSpace(s[i + 1]))
  }

  lemma {:induction false} CollapseSpacesUnchanged(s: string)
    requires NoDoubleSpace(s)
    ensures CollapseSpaces(s) == s
    decreases |s|
  {
    if |s| > 0 {
      if |s| > 1 {
        assert !(IsWhiteSpace(s[0]) && IsWhiteSpace(s[1]));
      }
      CollapseSpacesUnchanged(s[1..]);
    }
  }

  lemma NoDoubleSpaceCons(c: char, t: string)
    requires NoDoubleSpace(t) && (IsWhiteSpace(c) && |t| > 0 ==> !IsWhiteSpace(t[0]))
    ensures NoDoubleSpace([c] + t)
  {
    var u := [c] + t;
    forall i | 0 <= i < |u| - 1
      ensures !(IsWhiteSpace(u[i]) && IsWhiteSpace(u[i + 1]))
    {
      if i > 0 {
        assert u[i] == t[i - 1] && u[i + 1] == t[i];
      }
    }
  }

  /** After collapsing, no two white-space characters are adjacent. */
  lemma {:induction false} CollapseSpacesResult(s: string)
    ensures NoDoubleSpace(CollapseSpaces(s))
    ensures |CollapseSpaces(s)| > 0 && IsWhiteSpace(CollapseSpaces(s)[0]) ==> |s| > 0 && IsWhiteSpace(s[0])
    decreases |s|
  {
    if |s| > 0 {
      var k := SpaceRun(s);
      if k >= 2 {
        CollapseSpacesResult(s[k..]);
        assert CollapseSpaces(s) == " " + CollapseSpaces(s[k..]);
        NoDoubleSpaceCons(' ', CollapseSpaces(s[k..]));
      } else {
        CollapseSpacesResult(s[1..]);
        if k == 1 && |s| > 1 {
          assert !IsWhiteSpace(s[1..][0]);
        }
        assert CollapseSpaces(s) == [s[0]] + CollapseSpaces(s[1..]);
        NoDoubleSpaceCons(s[0], CollapseSpaces(s[1..]));
      }
    }
  }

  /** A leading white-space run of `a + b` is the one of `a`, continued into `b` when `a` is all white space. */
  lemma {:induction false} SpaceRunAppend(a: string, b: string)
    ensures SpaceRun(a + b) == if SpaceRun(a) < |a| then SpaceRun(a) else |a| + SpaceRun(b)
    decreases |a|
  {
    if |a| == 0 {
      assert a + b == b;
    } else {
      assert (a + b)[0] == a[0] && (a + b)[1..] == a[1..] + b;
      if IsWhiteSpace(a[0]) {
        SpaceRunAppend(a[1..], b);
      }
    }
  }

  /** No white-space run spans the boundary between `a` and `b`. */
  predicate RunsApart(a: string, b: string)
  {
    |a| == 0 || |b| == 0 || !IsWhiteSpace(a[|a| - 1]) || !IsWhiteSpace(b[0])
  }

  lemma RunsApartSuffix(a: string, b: string, t: nat)
    requires RunsApart(a, b) && t <= |a|
    ensures RunsApart(a[t..], b)
  {
    if t < |a| {
      assert a[t..][|a| - t - 1] == a[|a| - 1];
    }
  }

  /** When runs stay apart, the leading run of `a + b` is the one of `a`. */
  lemma SpaceRunApart(a: string, b: string)
    requires RunsApart(a, b) && |a| > 0
    ensures SpaceRun(a + b) == SpaceRun(a)
  {
    SpaceRunAppend(a, b);
    if SpaceRun(a) == |a| && |b| > 0 {
      assert IsWhiteSpace(a[|a| - 1]);
    }
  }

  /** The first step of `CollapseSpaces` at a run of two or more: one space, then the rest. */
  lemma CollapseFrontRun(s: string, t: string)
    requires |s| > 0 && SpaceRun(s) >= 2 && t == s[SpaceRun(s)..]
    ensures CollapseSpaces(s) == " " + CollapseSpaces(t)
  {
  }

  /** The first step of `CollapseSpaces` anywhere else: the first character, then the rest. */
  lemma CollapseFrontChar(s: string, t: string)
    requires |s| > 0 && SpaceRun(s) < 2 && t == s[1..]
    ensures CollapseSpaces(s) == [s[0]] + CollapseSpaces(t)
  {
  }

  /** Collapsing distributes over a concatenation whose boundary no white-space run spans. */
  lemma {:induction false} CollapseSpacesAppend(a: string, b: string)
    requires RunsApart(a, b)
    ensures CollapseSpaces(a + b) == CollapseSpaces(a) + CollapseSpaces(b)
    decreases |a|, 1
  {
    if |a| == 0 {
      assert a + b == b;
    } else {
      SpaceRunApart(a, b);
      if SpaceRun(a) >= 2 {
        CollapseAppendRun(a, b);
      } else {
        CollapseAppendChar(a, b);
      }
    }
  }

  lemma {:induction false} CollapseAppendRun(a: string, b: string)
    requires RunsApart(a, b) && |a| > 0 && SpaceRun(a + b) == SpaceRun(a) >= 2
    ensures CollapseSpaces(a + b) == CollapseSpaces(a) + CollapseSpaces(b)
    decreases |a|, 0
  {
    var k := SpaceRun(a);
    var rest := a[k..];
    assert (a + b)[k..] == rest + b;
    CollapseFrontRun(a + b, rest + b);
    CollapseFrontRun(a, rest);
    RunsApartSuffix(a, b, k);
    CollapseSpacesAppend(rest, b);
    ConcatFront(" ", CollapseSpaces(rest), CollapseSpaces(b), CollapseSpaces(a + b), CollapseSpaces(a));
  }

  lemma {:induction false} CollapseAppendChar(a: string, b: string)
    requires RunsApart(a, b) && |a| > 0 && SpaceRun(a + b) == SpaceRun(a) < 2
    ensures CollapseSpaces(a + b) == CollapseSpaces(a) + CollapseSpaces(b)
    decreases |a|, 0
  {
    var rest := a[1..];
    assert (a + b)[0] == a[0] && (a + b)[1..] == rest + b;
    CollapseFrontChar(a + b, rest + b);
    CollapseFrontChar(a, rest);
    RunsApartSuffix(a, b, 1);
    CollapseSpacesAppend(rest, b);
    ConcatFront([a[0]], CollapseSpaces(rest), CollapseSpaces(b), CollapseSpaces(a + b), CollapseSpaces(a));
  }

  lemma ConcatFront(p: string, x: string, y: string, u: string, v: string)
    requires u == p + (x + y) && v == p + x
    ensures u == v + y
  {
  }

  /** A run of two or more white-space characters becomes exactly one space. */
  lemma CollapseSpacesRun(w: string)
    requires |w| >= 2 && forall i :: 0 <= i < |w| ==> IsWhiteSpace(w[i])
    ensures CollapseSpaces(w) == " "
  {
    AllSpaceRun(w);
    assert w[|w|..] == "";
  }

  lemma {:induction false} AllSpaceRun(w: string)
    requires forall i :: 0 <= i < |w| ==> IsWhiteSpace(w[i])
    ensures SpaceRun(w) == |w|
  {
    if |w| > 0 {
      AllSpaceRun(w[1..]);
    }
  }

  // ---------------------------------------------------------------------------------
  // byte.TryParse

  /** `byte.TryParse(s, out b)` with the default number style: white space around, an
    * optional sign, decimal digits; the value must fit a byte ("-0" is zero). */
  function ByteTryParse(s: string): (r: Option<nat>)
    ensures r.Some? ==> r.value < 256
  {
    SignedDecimal(TrimEnd(TrimStart(s, IsNumberSpace), IsNumberSpace))
  }

  /** The sign and digits `byte.TryParse` reads once the white space around them is gone. */
  function SignedDecimal(t: string): (r: Option<nat>)
    ensures r.Some? ==> r.value < 256
  {
    var negative := |t| > 0 && t[0] == '-';
    var digits := if |t| > 0 && (t[0] == '-' || t[0] == '+') then t[1..] else t;
    if |digits| == 0 || !AllDigits(digits) then None
    else
      AllDigitsDecimal(digits);
      var v := NumeralValue(digits, 10);
      if negative then (if v == 0 then Some(0) else None)
      else if v <= 255 then Some(v) else None
  }

  /** Text made of the white space `byte.TryParse` skips. */
  predicate AllNumberSpace(s: string)
  {
    forall i :: 0 <= i < |s| ==> IsNumberSpace(s[i])
  }

  lemma {:induction false} TrimStartLead(lead: string, x: string)
    requires AllNumberSpace(lead) && |x| > 0 && !IsNumberSpace(x[0])
    ensures TrimStart(lead + x, IsNumberSpace) == x
    decreases |lead|
  {
    var space: char -> bool := IsNumberSpace;
    if |lead| == 0 {
      assert lead + x == x;
      assert !space(x[0]);
    } else {
      assert (lead + x)[0] == lead[0] && (lead + x)[1..] == lead[1..] + x;
      assert space(lead[0]);
      TrimStartLead(lead[1..], x);
    }
  }

  lemma {:induction false} TrimEndTrail(x: string, trail: string)
    requires AllNumberSpace(trail) && |x| > 0 && !IsNumberSpace(x[|x| - 1])
    ensures TrimEnd(x + trail, IsNumberSpace) == x
    decreases |trail|
  {
    var space: char -> bool := IsNumberSpace;
    if |trail| == 0 {
      assert x + trail == x;
      assert !space(x[|x| - 1]);
    } else {
      var s := x + trail;
      assert s[|s| - 1] == trail[|trail| - 1] && s[..|s| - 1] == x + trail[..|trail| - 1];
      assert space(trail[|trail| - 1]);
      TrimEndTrail(x, trail[..|trail| - 1]);
    }
  }

  /** Trimming number space off both ends of `lead + sign + digits + trail` leaves `sign + digits`. */
  lemma TrimNumberSpace(lead: string, sign: string, digits: string, trail: string)
    requires AllNumberSpace(lead) && AllNumberSpace(trail)
    requires sign == "" || sign == "+" || sign == "-"
    requires |digits| > 0 && AllDigits(digits)
    ensures TrimEnd(TrimStart(lead + sign + digits + trail, IsNumberSpace), IsNumberSpace) == sign + digits
  {
    var core := sign + digits;
    assert lead + sign + digits + trail == lead + (core + trail);
    assert IsDigit(digits[0]) && IsDigit(digits[|digits| - 1]);
    assert core[|core| - 1] == digits[|digits| - 1];
    assert (core + trail)[0] == core[0] == if sign == "" then digits[0] else sign[0];
    TrimStartLead(lead, core + trail);
    TrimEndTrail(core, trail);
  }

  /** Number space on both sides of what trimming keeps. */
  lemma NumberTrimSplit(s: string) returns (lead: string, trail: string)
    ensures s == lead + TrimEnd(TrimStart(s, IsNumberSpace), IsNumberSpace) + trail
    ensures AllNumberSpace(lead) && AllNumberSpace(trail)
  {
    var t0 := TrimStart(s, IsNumberSpace);
    var t := TrimEnd(t0, IsNumberSpace);
    lead, trail := s[..|s| - |t0|], t0[|t|..];
    LeadNumberSpace(s);
    TrailNumberSpace(t0);
    SliceAround(s, t0, t);
  }

  lemma LeadNumberSpace(s: string)
    ensures AllNumberSpace(s[..|s| - |TrimStart(s, IsNumberSpace)|])
  {
    var space: char -> bool := IsNumberSpace;
    var lead := s[..|s| - |TrimStart(s, IsNumberSpace)|];
    forall i | 0 <= i < |lead|
      ensures IsNumberSpace(lead[i])
    {
      assert space(s[i]);
    }
  }

  lemma TrailNumberSpace(t0: string)
    ensures AllNumberSpace(t0[|TrimEnd(t0, IsNumberSpace)|..])
  {
    var space: char -> bool := IsNumberSpace;
    var n := |TrimEnd(t0, IsNumberSpace)|;
    var trail := t0[n..];
    forall i | 0 <= i < |trail|
      ensures IsNumberSpace(trail[i])
    {
      assert space(t0[n + i]);
    }
  }

  /** A suffix `t0` of `s` and a prefix `t` of `t0` cut `s` into three. */
  lemma SliceAround(s: string, t0: string, t: string)
    requires |t0| <= |s| && t0 == s[|s| - |t0|..]
    requires |t| <= |t0| && t == t0[..|t|]
    ensures s == s[..|s| - |t0|] + t + t0[|t|..]
  {
    assert s == s[..|s| - |t0|] + t0;
    assert t0 == t + t0[|t|..];
  }

  lemma AllDigitsDecimal(s: string)
    requires AllDigits(s)
    ensures AllDigitsIn(s, 10)
  {
    forall i | 0 <= i < |s|
      ensures IsUpperHexDigit(s[i]) && DigitValue(s[i]) < 10
    {
    }
  }

  /** The value of a sign followed by digits: out of range and negative values are refused. */
  lemma SignedDecimalOf(sign: string, digits: string)
    requires sign == "" || sign == "+" || sign == "-"
    requires |digits| > 0 && AllDigits(digits)
    ensures AllDigitsIn(digits, 10)
    ensures SignedDecimal(sign + digits)
      == if (sign == "-" && NumeralValue(digits, 10) != 0) || NumeralValue(digits, 10) > 255 then None
         else Some(NumeralValue(digits, 10))
  {
    AllDigitsDecimal(digits);
    var t := sign + digits;
    if sign == "" {
      assert t == digits && IsDigit(t[0]);
    } else {
      assert t[0] == sign[0] && t[1..] == digits;
    }
  }

  /** What `SignedDecimal` accepts is an optional sign followed by one or more digits. */
  lemma SignedDecimalShape(t: string) returns (sign: string, digits: string)
    requires SignedDecimal(t).Some?
    ensures t == sign + digits && (sign == "" || sign == "+" || sign == "-")
    ensures |digits| > 0 && AllDigits(digits)
  {
    var k := if |t| > 0 && (t[0] == '-' || t[0] == '+') then 1 else 0;
    sign, digits := t[..k], t[k..];
    assert t == sign + digits;
  }

  lemma Concat4(s: string, lead: string, t: string, trail: string, sign: string, digits: string)
    requires s == lead + t + trail && t == sign + digits
    ensures s == lead + sign + digits + trail
  {
  }

  /**
   * What `byte.TryParse` reads: number space, an optional sign, one or more decimal digits
   * (leading zeros allowed), number space. Every text of that shape gets its decimal value,
   * unless the value exceeds 255 or is negative ("-0" is zero).
   */
  lemma ByteTryParseOfShape(lead: string, sign: string, digits: string, trail: string)
    requires AllNumberSpace(lead) && AllNumberSpace(trail)
    requires sign == "" || sign == "+" || sign == "-"
    requires |digits| > 0 && AllDigits(digits)
    ensures AllDigitsIn(digits, 10)
    ensures ByteTryParse(lead + sign + digits + trail)
      == if (sign == "-" && NumeralValue(digits, 10) != 0) || NumeralValue(digits, 10) > 255 then None
         else Some(NumeralValue(digits, 10))
  {
    TrimNumberSpace(lead, sign, digits, trail);
    SignedDecimalOf(sign, digits);
  }

  /** Conversely, every text `byte.TryParse` accepts has that shape. */
  lemma ByteTryParseShape(s: string) returns (lead: string, sign: string, digits: string, trail: string)
    requires ByteTryParse(s).Some?
    ensures s == lead + sign + digits + trail
    ensures AllNumberSpace(lead) && AllNumberSpace(trail)
    ensures sign == "" || sign == "+" || sign == "-"
    ensures |digits| > 0 && AllDigits(digits)
  {
    var t := TrimEnd(TrimStart(s, IsNumberSpace), IsNumberSpace);
    lead, trail := NumberTrimSplit(s);
    sign, digits := SignedDecimalShape(t);
    Concat4(s, lead, t, trail, sign, digits);
  }

  /** The decimal text of a byte parses back to it. */
  lemma ByteTryParseDecimal(b: nat)
    requires b < 256
    ensures ByteTryParse(Decimal(b)) == Some(b)
  {
    var s := Decimal(b);
    assert IsDigit(s[0]) && IsDigit(s[|s| - 1]);
    assert TrimStart(s, IsNumberSpace) == s;
    assert TrimEnd(s, IsNumberSpace) == s;
    assert !(s[0] == '-' || s[0] == '+');
    DecimalRoundTrip(b);
  }

  /** Text that is not a numeral (after white space and sign) is never a byte. */
  lemma ByteTryParseDigits(s: string)
    requires ByteTryParse(s).Some?
    ensures exists i :: 0 <= i < |s| && IsDigit(s[i])
  {
    var t0 := TrimStart(s, IsNumberSpace);
    var t := TrimEnd(t0, IsNumberSpace);
    var k := if |t| > 0 && (t[0] == '-' || t[0] == '+') then 1 else 0;
    var j := |s| - |t0| + k;
    assert t[k] == t0[k] == s[j];
  }
}
