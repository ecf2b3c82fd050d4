/** What strtoul reads as a hexadecimal number, by the printed digits and their places; and where C strings end. */
module HexNumbers {
  import opened TextSearch
  import opened ChunkedStreams

  // ---- digits and places ----

  /** HEXDIG of RFC 5234 in either case: character c stands for d. */
  predicate IsHexDig(c: char, d: nat) {
    d < 16 && (c == "0123456789abcdef"[d] || c == "0123456789ABCDEF"[d])
  }

  predicate Denotes(digits: string, values: seq<nat>) {
    |digits| == |values| && forall k :: 0 <= k < |digits| ==> IsHexDig(digits[k], values[k])
  }

  function Power16(n: nat): nat { if n == 0 then 1 else 16 * Power16(n - 1) }

  /** The first digit counts most: each is worth 16 to the number of digits after it. */
  function PlaceSum(values: seq<nat>): nat {
    if values == [] then 0 else values[0] * Power16(|values| - 1) + PlaceSum(values[1..])
  }

  lemma DigitValueIs(c: char, d: nat)
    ensures IsHexDig(c, d) <==> DigitValue(c) == d
  {
  }

  lemma NoDigit(c: char)
    ensures !IsHex(c) <==> forall d :: !IsHexDig(c, d)
  {
    hide DigitValue, IsHexDig;
    if IsHex(c) { DigitValueIs(c, DigitValue(c)); }
    forall d: nat ensures IsHexDig(c, d) ==> IsHex(c) { DigitValueIs(c, d); }
  }

  lemma {:induction false} OnePlaceMore(d: nat, n: nat)
    requires n > 0
    ensures d * Power16(n) == 16 * (d * Power16(n - 1))
  {
    var p := Power16(n - 1);
    assert d * (16 * p) == 16 * (d * p);
  }

  lemma LastPlace()
    ensures Power16(0) == 1
  {
  }

  lemma {:induction false} PlaceSumOfMore(values: seq<nat>, d: nat)
    ensures PlaceSum(values + [d]) == 16 * PlaceSum(values) + d
  {
    hide Power16;
    if values != [] {
      assert (values + [d])[1..] == values[1..] + [d];
      PlaceSumOfMore(values[1..], d);
      OnePlaceMore(values[0], |values|);
    } else {
      assert [d][1..] == [] && values + [d] == [d];
      LastPlace();
    }
  }

  lemma {:induction false} NumberIsPlaceSum(digits: string, values: seq<nat>)
    requires Denotes(digits, values)
    ensures forall k :: 0 <= k < |digits| ==> IsHex(digits[k])
    ensures NumberOf(digits) == PlaceSum(values)
  {
    hide DigitValue, IsHexDig, PlaceSum;
    forall k | 0 <= k < |digits| ensures IsHex(digits[k]) { DigitValueIs(digits[k], values[k]); }
    if digits == "" {
      NoPlaces();
    } else {
      var n := |digits| - 1;
      NumberIsPlaceSum(digits[..n], values[..n]);
      PlaceSumOfMore(values[..n], values[n]);
      assert values == values[..n] + [values[n]];
      DigitValueIs(digits[n], values[n]);
    }
  }

  lemma NoPlaces()
    ensures PlaceSum([]) == 0
  {
  }

  lemma DigitsDenote(digits: string) returns (values: seq<nat>)
    requires forall k :: 0 <= k < |digits| ==> IsHex(digits[k])
    ensures Denotes(digits, values)
  {
    hide DigitValue, IsHexDig;
    values := seq(|digits|, k requires 0 <= k < |digits| => DigitValue(digits[k]));
    forall k | 0 <= k < |digits| ensures IsHexDig(digits[k], values[k]) { DigitValueIs(digits[k], values[k]); }
  }

  // ---- what strtoul takes for a number ----

  datatype Numeral =
    Numeral(spaces: string, sign: string, prefix: string, digits: string, values: seq<nat>, tail: string)

  function TextOfNumeral(x: Numeral): string { x.spaces + (x.sign + (x.prefix + (x.digits + x.tail))) }

  /**
   * Spaces, a sign, "0x", as many digits as there are, and the rest, all but the digits optional. A zero before an x
   * is a digit of its own only if no digit follows the x.
   */
  ghost predicate IsNumeral(x: Numeral) {
    && (forall i :: 0 <= i < |x.spaces| ==> x.spaces[i] in SPACES)
    && (x.sign == "" || x.sign == "+" || x.sign == "-")
    && (x.prefix == "" || x.prefix == "0x" || x.prefix == "0X")
    && x.digits != "" && Denotes(x.digits, x.values)
    && (x.tail != "" ==> forall d :: !IsHexDig(x.tail[0], d))
    && (x.prefix == "" ==> !PrefixFollows(x.digits, x.tail))
  }

  ghost predicate PrefixFollows(digits: string, tail: string) {
    digits == "0" && |tail| >= 2 && (tail[0] == 'x' || tail[0] == 'X') && exists d :: IsHexDig(tail[1], d)
  }

  /** The value returned: too large a number saturates, and a sign negates within 64 bits. */
  function Converted(sign: string, n: nat): nat {
    if n > 0xFFFF_FFFF_FFFF_FFFF then 0xFFFF_FFFF_FFFF_FFFF
    else if sign == "-" && n > 0 then 0x1_0000_0000_0000_0000 - n
    else n
  }

  lemma {:induction false} DigitsEndStops(s: string, i: nat)
    requires i <= |s|
    ensures var j := DigitsEnd(s, i); j < |s| ==> !IsHex(s[j])
    decreases |s| - i
  {
    if i < |s| && IsHex(s[i]) { DigitsEndStops(s, i + 1); }
  }

  /** The places in a numeral where its parts begin. */
  lemma NumeralPlaces(x: Numeral)
    requires IsNumeral(x)
    ensures var s := TextOfNumeral(x); var i, j := |x.spaces|, |x.spaces| + |x.sign|;
      var k := j + |x.prefix|; var end := k + |x.digits|;
      && |s| == end + |x.tail| && end > k
      && (forall m :: 0 <= m < i ==> s[m] == x.spaces[m])
      && (x.sign != "" ==> s[i] == x.sign[0])
      && (x.prefix != "" ==> s[j] == '0' && (s[j + 1] == 'x' || s[j + 1] == 'X'))
      && (forall m :: 0 <= m < |x.digits| ==> s[k + m] == x.digits[m])
      && s[k..end] == x.digits
      && (forall m :: 0 <= m < |x.tail| ==> s[end + m] == x.tail[m])
  {
    hide IsHexDig;
  }

  lemma NumeralCharacters(x: Numeral)
    requires IsNumeral(x)
    ensures forall m :: 0 <= m < |x.spaces| ==> IsSpace(x.spaces[m])
    ensures forall m :: 0 <= m < |x.digits| ==> IsHex(x.digits[m])
    ensures x.tail != "" ==> !IsHex(x.tail[0])
    ensures PrefixFollows(x.digits, x.tail) <==>
      x.digits == "0" && |x.tail| >= 2 && (x.tail[0] == 'x' || x.tail[0] == 'X') && IsHex(x.tail[1])
  {
    hide IsHexDig, IsHex, IsSpace, NumberOf;
    forall m | 0 <= m < |x.spaces| ensures IsSpace(x.spaces[m]) { SpaceIs(x.spaces[m]); }
    NumberIsPlaceSum(x.digits, x.values);
    if x.tail != "" { NoDigit(x.tail[0]); }
    if |x.tail| >= 2 { NoDigit(x.tail[1]); }
  }

  /** What can come first after spaces, a sign or a prefix. */
  lemma DigitsAreNoSpace(c: char)
    requires IsHex(c)
    ensures !IsSpace(c) && c != '+' && c != '-' && c != 'x' && c != 'X'
  {
  }

  /** The positions strtoul goes through. */
  lemma StrtoulSteps(x: Numeral)
    requires IsNumeral(x)
    ensures var s := TextOfNumeral(x); var i, j := |x.spaces|, |x.spaces| + |x.sign|;
      var k := j + |x.prefix|; var end := k + |x.digits|;
      && SkipSpace(s, 0) == i && i < |s| && (s[i] == '-' <==> x.sign == "-") && (s[i] == '+' <==> x.sign == "+")
      && (PrefixAt(s, j) <==> x.prefix != "")
      && DigitsEnd(s, k) == end && s[k..end] == x.digits && k < end <= |s|
  {
    hide IsNumeral, IsHex, IsSpace, NumberOf, PrefixFollows, TextOfNumeral;
    var s := TextOfNumeral(x);
    var i, j := |x.spaces|, |x.spaces| + |x.sign|;
    var k := j + |x.prefix|;
    NumeralPlaces(x);
    NumeralCharacters(x);
    Shape(x);
    DigitsAreNoSpace(s[k]);
    SkipSpaceIs(s, 0, i) by { SpaceIs('0'); Signs(); }
    DigitsEndIs(s, k, k + |x.digits|);
    if x.prefix == "" && j + 1 < |s| && |x.digits| > 1 { DigitsAreNoSpace(s[j + 1]); }
  }

  lemma Signs()
    ensures !IsSpace('+') && !IsSpace('-') && !IsSpace('0') && IsHex('0')
  {
  }

  lemma Shape(x: Numeral)
    requires IsNumeral(x)
    ensures x.sign == "" || x.sign == "+" || x.sign == "-"
    ensures x.prefix == "" || x.prefix == "0x" || x.prefix == "0X"
    ensures x.prefix == "" ==> !PrefixFollows(x.digits, x.tail)
    ensures |x.digits| > 0
  {
  }

  /** Every such text is read as the number it stands for, up to its last digit. */
  lemma NumeralIsRead(x: Numeral)
    requires IsNumeral(x)
    ensures var s := TextOfNumeral(x);
      |x.tail| < |s| && Strtoul(s) == Number(Converted(x.sign, PlaceSum(x.values)), |s| - |x.tail|)
  {
    hide IsHex, IsSpace, NumberOf, SkipSpace, DigitsEnd, PlaceSum, IsNumeral, TextOfNumeral, Converted;
    StrtoulSteps(x);
    NumeralPlaces(x);
    Shape(x);
    DigitsAndValue(x);
    var j := |x.spaces| + |x.sign|;
    StrtoulAt(TextOfNumeral(x), |x.spaces|, x.sign, j, j + |x.prefix|, x.digits);
  }

  lemma DigitsAndValue(x: Numeral)
    requires IsNumeral(x)
    ensures (forall m :: 0 <= m < |x.digits| ==> IsHex(x.digits[m])) && NumberOf(x.digits) == PlaceSum(x.values)
  {
    hide IsHexDig, IsHex, NumberOf, PlaceSum;
    NumberIsPlaceSum(x.digits, x.values);
  }

  /** strtoul's result from the positions it goes through. */
  lemma {:induction false} StrtoulAt(s: string, i: nat, sign: string, j: nat, k: nat, digits: string)
    requires sign == "" || sign == "+" || sign == "-"
    requires SkipSpace(s, 0) == i < |s| && (s[i] == '-' <==> sign == "-") && (s[i] == '+' <==> sign == "+")
    requires j == i + |sign| <= |s| && k == (if PrefixAt(s, j) then j + 2 else j) <= |s|
    requires digits != "" && DigitsEnd(s, k) == k + |digits| <= |s| && s[k..k + |digits|] == digits
    requires forall m :: 0 <= m < |digits| ==> IsHex(digits[m])
    ensures Strtoul(s) == Number(Converted(sign, NumberOf(digits)), k + |digits|)
  {
    hide IsHex, IsSpace, NumberOf, SkipSpace, DigitsEnd, Converted, PrefixAt, WithSign;
    ConvertedIs(sign, NumberOf(digits));
  }

  lemma ConvertedIs(sign: string, v: nat)
    ensures Converted(sign, v) == WithSign(sign == "-", v)
  {
  }

  lemma ReadPositions(s: string) returns (i: nat, j: nat, k: nat, end: nat)
    requires Strtoul(s).end != 0
    ensures i <= j <= k < end <= |s| && (forall m :: 0 <= m < i ==> IsSpace(s[m]))
    ensures j == if i < |s| && (s[i] == '-' || s[i] == '+') then i + 1 else i
    ensures k == if PrefixAt(s, j) then j + 2 else j
    ensures (forall m :: k <= m < end ==> IsHex(s[m])) && (end < |s| ==> !IsHex(s[end]))
  {
    hide IsHex, IsSpace, NumberAt, SkipSpace, DigitsEnd, WithSign;
    i := SkipSpace(s, 0);
    j := if i < |s| && (s[i] == '-' || s[i] == '+') then i + 1 else i;
    k := if PrefixAt(s, j) then j + 2 else j;
    end := DigitsEnd(s, k);
    SkipSpaceStops(s, 0);
    DigitsEndStops(s, k);
  }

  /** And whenever something is read, it is such a text. */
  lemma ReadIsNumeral(s: string) returns (x: Numeral)
    requires Strtoul(s).end != 0
    ensures IsNumeral(x) && TextOfNumeral(x) == s
  {
    hide *;
    var i, j, k, end := ReadPositions(s);
    x := Cut(s, i, j, k, end);
  }

  /** The parts of s between these positions. */
  lemma Cut(s: string, i: nat, j: nat, k: nat, end: nat) returns (x: Numeral)
    requires i <= j <= k < end <= |s| && (forall m :: 0 <= m < i ==> IsSpace(s[m]))
    requires j == if i < |s| && (s[i] == '-' || s[i] == '+') then i + 1 else i
    requires k == if PrefixAt(s, j) then j + 2 else j
    requires (forall m :: k <= m < end ==> IsHex(s[m])) && (end < |s| ==> !IsHex(s[end]))
    ensures IsNumeral(x) && TextOfNumeral(x) == s
  {
    hide IsHex, IsSpace, IsHexDig, Denotes, PrefixFollows, TextOfNumeral;
    var digits := s[k..end];
    assert forall m :: 0 <= m < |digits| ==> digits[m] == s[k + m];
    var values := DigitsDenote(digits);
    x := Numeral(s[..i], s[i..j], s[j..k], digits, values, s[end..]);
    forall m | 0 <= m < i ensures s[m] in SPACES { SpaceIs(s[m]); }
    if end < |s| { NoDigit(s[end]); }
    NoPrefixFollows(s, j, k, end);
    PrefixIs(s, j, k);
    SixParts(s, i, j, k, end, values);
  }

  lemma PrefixIs(s: string, j: nat, k: nat)
    requires j <= k <= |s| && (k == j || (k == j + 2 && s[j] == '0' && (s[j + 1] == 'x' || s[j + 1] == 'X')))
    ensures s[j..k] == "" || s[j..k] == "0x" || s[j..k] == "0X"
  {
  }

  lemma NoPrefixFollows(s: string, j: nat, k: nat, end: nat)
    requires j <= k < end <= |s|
    requires k == if PrefixAt(s, j) then j + 2 else j
    ensures k == j ==> !PrefixFollows(s[k..end], s[end..])
  {
    hide IsHex, IsHexDig;
    if end + 1 < |s| { NoDigit(s[end + 1]); }
    if s[k..end] == "0" { assert s[k..end][0] == s[k]; }
  }

  lemma SixParts(s: string, i: nat, j: nat, k: nat, end: nat, values: seq<nat>)
    requires i <= j <= k <= end <= |s|
    ensures TextOfNumeral(Numeral(s[..i], s[i..j], s[j..k], s[k..end], values, s[end..])) == s
  {
    assert s == s[..i] + (s[i..j] + (s[j..k] + (s[k..end] + s[end..])));
  }

  /** strtoul of base 16, entirely: the number of such a text, or 0 with nothing read. */
  lemma StrtoulIff(s: string, value: nat, end: nat)
    ensures Strtoul(s) == Number(value, end) <==>
      || (exists x :: IsNumeral(x) && TextOfNumeral(x) == s
            && end == |s| - |x.tail| && value == Converted(x.sign, PlaceSum(x.values)))
      || (value == end == 0 && forall x :: TextOfNumeral(x) == s ==> !IsNumeral(x))
  {
    hide Strtoul, IsNumeral, TextOfNumeral, Converted, PlaceSum;
    forall x | IsNumeral(x) && TextOfNumeral(x) == s
      ensures |x.tail| < |s| && Strtoul(s) == Number(Converted(x.sign, PlaceSum(x.values)), |s| - |x.tail|)
    {
      NumeralIsRead(x);
      NumeralPlaces(x);
    }
    if Strtoul(s).end != 0 {
      var x := ReadIsNumeral(s);
    } else {
      NothingRead(s);
    }
  }

  lemma NothingRead(s: string)
    ensures Strtoul(s).end == 0 ==> Strtoul(s).value == 0
  {
    hide NumberOf;
  }

  /** What is written as a size: the digits of the number in lower case, without leading zeros. */
  lemma {:induction false} HexIsTheNumeral(n: nat)
    ensures forall k :: 0 <= k < |Hex(n)| ==> Hex(n)[k] in "0123456789abcdef"
    ensures exists values :: Denotes(Hex(n), values) && PlaceSum(values) == n
    ensures |Hex(n)| > 1 ==> Hex(n)[0] != '0'
  {
    HexInLowerCase(n);
    HexIsDigits(n);
    var values := DigitsDenote(Hex(n));
    NumberIsPlaceSum(Hex(n), values);
  }

  lemma {:induction false} HexInLowerCase(n: nat)
    ensures forall k :: 0 <= k < |Hex(n)| ==> Hex(n)[k] in "0123456789abcdef"
    ensures n > 0 ==> Hex(n)[0] != '0'
    ensures n < 16 ==> |Hex(n)| == 1
  {
    hide HexDigit;
    DigitInLowerCase(n % 16);
    if n >= 16 { HexInLowerCase(n / 16); }
  }

  lemma DigitInLowerCase(d: nat)
    requires d < 16
    ensures HexDigit(d) in "0123456789abcdef" && (HexDigit(d) == '0' <==> d == 0)
  {
  }

  // ---- C strings ----

  /** A C string is what precedes the first NUL. */
  lemma {:induction false} CStringIs(text: string, rest: string)
    requires '\0' !in text && (rest == "" || rest[0] == '\0')
    ensures CString(text + rest) == text
  {
    if text == "" {
      assert text + rest == rest;
    } else {
      assert (text + rest)[0] == text[0] && (text + rest)[1..] == text[1..] + rest;
      CStringIs(text[1..], rest);
    }
  }
}
