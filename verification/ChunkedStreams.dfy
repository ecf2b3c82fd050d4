/** httplib's byte streams, line reader and number formats, as the chunked transfer coding uses them. */
module ChunkedStreams {
  import opened TextSearch

  const RECV_BUFSIZ := 4096
  const ULONG_MAX := 0xFFFF_FFFF_FFFF_FFFF

  /** A source of bytes that may hand over fewer than asked for, and that ends or breaks when it is used up. */
  class InStream {
    var rest: string
    const broken: bool

    constructor (text: string, broken: bool)
      ensures rest == text && this.broken == broken
    {
      rest, this.broken := text, broken;
    }

    method Read(n: nat) returns (count: int, data: string)
      requires n > 0
      modifies this
      ensures old(rest) == "" ==> count == (if broken then -1 else 0) && data == "" && rest == ""
      ensures old(rest) != "" ==> 0 < count <= n && count == |data| && old(rest) == data + rest
    {
      if rest == "" {
        return if broken then -1 else 0, "";
      }
      var k: nat :| 0 < k <= n && k <= |rest|;
      count, data := k, rest[..k];
      rest := rest[k..];
    }
  }

  // ---- lines ----

  /** The bytes up to and including the first LF, or all of them. */
  function LineOf(s: string): (line: string)
    ensures line <= s && |line| <= |s|
  {
    var f := Find(s, "\n");
    if f < |s| then s[..f + 1] else s
  }

  /** Whether getline succeeds: not at the end, and not when the stream breaks before the line does. */
  predicate HasLine(s: string, broken: bool) {
    s != "" && (Find(s, "\n") < |s| || !broken)
  }

  class StreamLineReader {
    const strm: InStream
    const fixedBuffer: array<char>
    var fixedUsed: nat
    var growable: string

    /** The text is in the fixed buffer, NUL-terminated, until it is full, and then in the growable one. */
    ghost predicate Valid()
      reads this, fixedBuffer
    {
      && fixedBuffer.Length >= 2 && fixedUsed < fixedBuffer.Length
      && (fixedUsed > 0 ==> fixedBuffer[fixedUsed] == '\0')
      && (growable != "" ==> fixedUsed == fixedBuffer.Length - 1 && |growable| > fixedUsed)
    }

    /** The bytes at ptr() of length size(). */
    function Text(): string
      requires Valid()
      reads this, fixedBuffer
    {
      if growable == "" then fixedBuffer[..fixedUsed] else growable
    }

    constructor (strm: InStream, fixedBuffer: array<char>)
      requires fixedBuffer.Length >= 2
      ensures Valid() && this.strm == strm && this.fixedBuffer == fixedBuffer && Text() == ""
    {
      this.strm, this.fixedBuffer := strm, fixedBuffer;
      fixedUsed, growable := 0, "";
    }

    method Append(c: char)
      requires Valid()
      modifies this, fixedBuffer
      ensures Valid() && Text() == old(Text()) + [c]
    {
      if fixedUsed < fixedBuffer.Length - 1 {
        fixedBuffer[fixedUsed] := c;
        fixedUsed := fixedUsed + 1;
        fixedBuffer[fixedUsed] := '\0';
        assert fixedBuffer[..fixedUsed] == old(fixedBuffer[..fixedUsed]) + [c];
      } else {
        if growable == "" {
          assert fixedBuffer[fixedUsed] == '\0';
          growable := fixedBuffer[..fixedUsed];
        }
        growable := growable + [c];
      }
    }

    method GetLine() returns (ok: bool)
      requires Valid()
      modifies this, fixedBuffer, strm
      ensures Valid()
      ensures ok == HasLine(old(strm.rest), strm.broken)
      ensures ok ==> Text() == LineOf(old(strm.rest)) && old(strm.rest) == Text() + strm.rest
      ensures !ok ==> strm.rest == ""
    {
      hide Find, LineOf;
      fixedUsed, growable := 0, "";
      ghost var s := strm.rest;
      var i := 0;
      while true
        invariant Valid() && i == |Text()| && s == Text() + strm.rest
        invariant i <= Find(s, "\n")
        decreases |strm.rest|
      {
        ghost var text, rest := Text(), strm.rest;
        NextByte(text, rest);
        var n, byte := strm.Read(1);
        if n < 0 {
          return false;
        } else if n == 0 {
          return i != 0;
        }
        OneByte(text, rest, byte, strm.rest);
        Append(byte[0]);
        if byte[0] == '\n' {
          return true;
        }
        i := i + 1;
      }
    }
  }

  lemma OneByte(text: string, rest: string, byte: string, left: string)
    requires rest == byte + left && |byte| == 1
    ensures byte[0] == rest[0] && text + rest == (text + [byte[0]]) + left && |left| < |rest|
  {
  }

  /** What reading on means for the line: text has been read without LF, rest follows. */
  lemma NextByte(text: string, rest: string)
    requires |text| <= Find(text + rest, "\n")
    ensures rest == "" ==> Find(text + rest, "\n") == |text + rest| && LineOf(text + rest) == text
    ensures rest != "" && rest[0] == '\n' ==> Find(text + rest, "\n") == |text| && LineOf(text + rest) == text + "\n"
    ensures rest != "" && rest[0] != '\n' ==> |text| + 1 <= Find(text + rest, "\n")
  {
    var s := text + rest;
    if rest != "" {
      assert s[|text|..|text| + 1] == [rest[0]];
      if rest[0] == '\n' {
        assert OccursAt(s, "\n", |text|);
        assert s[..|text| + 1] == text + "\n";
      }
    } else {
      assert s == text;
    }
  }

  // ---- numbers ----

  function HexDigit(d: nat): char
    requires d < 16
  {
    "0123456789abcdef"[d]
  }

  /** from_i_to_hex. */
  function Hex(n: nat): (s: string)
    ensures s != ""
  {
    if n < 16 then [HexDigit(n)] else Hex(n / 16) + [HexDigit(n % 16)]
  }

  lemma {:induction false} HexMoves(n: nat, ret: string)
    ensures Hex(n) + ret == if n / 16 > 0 then Hex(n / 16) + ([HexDigit(n % 16)] + ret) else [HexDigit(n % 16)] + ret
  {
  }

  method FromIToHex(number: nat) returns (ret: string)
    ensures ret == Hex(number)
  {
    hide HexDigit;
    ret := [HexDigit(number % 16)];
    var n := number / 16;
    while n > 0
      invariant Hex(number) == if n > 0 then Hex(n) + ret else ret
    {
      HexMoves(n, ret);
      ret := [HexDigit(n % 16)] + ret;
      n := n / 16;
    }
  }

  function DigitValue(c: char): (d: int)
    ensures -1 <= d < 16
  {
    if '0' <= c <= '9' then c as int - '0' as int
    else if 'a' <= c <= 'f' then c as int - 'a' as int + 10
    else if 'A' <= c <= 'F' then c as int - 'A' as int + 10
    else -1
  }

  predicate IsHex(c: char) { DigitValue(c) >= 0 }

  /** A C string ends at its first NUL. */
  function CString(s: string): string {
    if s == "" || s[0] == '\0' then "" else [s[0]] + CString(s[1..])
  }

  function DigitsEnd(s: string, i: nat): (j: nat)
    requires i <= |s|
    ensures i <= j <= |s|
    ensures forall k :: i <= k < j ==> IsHex(s[k])
    decreases |s| - i
  {
    if i < |s| && IsHex(s[i]) then DigitsEnd(s, i + 1) else i
  }

  function NumberOf(digits: string): nat
    requires forall k :: 0 <= k < |digits| ==> IsHex(digits[k])
  {
    if digits == "" then 0
    else
      assert IsHex(digits[|digits| - 1]);
      16 * NumberOf(digits[..|digits| - 1]) + DigitValue(digits[|digits| - 1])
  }

  /** What strtoul(s, &end, 16) returns and how far end is from s. */
  datatype Number = Number(value: nat, end: nat)

  /** "0x" with a digit after it. */
  predicate PrefixAt(s: string, j: nat) {
    j + 2 < |s| && s[j] == '0' && (s[j + 1] == 'x' || s[j + 1] == 'X') && IsHex(s[j + 2])
  }

  function NumberAt(s: string, k: nat, end: nat): nat
    requires k <= end <= |s| && forall m :: k <= m < end ==> IsHex(s[m])
  {
    assert forall d :: 0 <= d < end - k ==> s[k..end][d] == s[k + d];
    NumberOf(s[k..end])
  }

  /** What is returned for these digits: the largest value when they are too many, and negation modulo 2 to the 64. */
  function WithSign(negative: bool, v: nat): nat {
    if v > ULONG_MAX then ULONG_MAX else if negative then (ULONG_MAX + 1 - v) % (ULONG_MAX + 1) else v
  }

  function Strtoul(s: string): Number {
    var i := SkipSpace(s, 0);
    var negative := i < |s| && s[i] == '-';
    var j := if i < |s| && (s[i] == '-' || s[i] == '+') then i + 1 else i;
    var k := if PrefixAt(s, j) then j + 2 else j;
    var end := DigitsEnd(s, k);
    if end == k then Number(0, 0) else Number(WithSign(negative, NumberAt(s, k, end)), end)
  }

  // ---- strtoul reads back what from_i_to_hex writes ----

  lemma HexDigitValue(d: nat)
    requires d < 16
    ensures DigitValue(HexDigit(d)) == d
  {
  }

  lemma {:induction false} HexIsDigits(n: nat)
    ensures forall k :: 0 <= k < |Hex(n)| ==> IsHex(Hex(n)[k])
    ensures NumberOf(Hex(n)) == n
  {
    if n < 16 {
      HexDigitValue(n);
    } else {
      HexIsDigits(n / 16);
      HexDigitValue(n % 16);
      assert Hex(n)[..|Hex(n)| - 1] == Hex(n / 16);
    }
  }

  lemma {:induction false} DigitsEndIs(s: string, i: nat, j: nat)
    requires i <= j <= |s| && (forall k :: i <= k < j ==> IsHex(s[k])) && (j < |s| ==> !IsHex(s[j]))
    ensures DigitsEnd(s, i) == j
    decreases j - i
  {
    if i < j { DigitsEndIs(s, i + 1, j); }
  }

  lemma {:induction false} StrtoulReadsHex(n: nat, tail: string)
    requires n <= ULONG_MAX && tail != "" && tail[0] == '\r'
    ensures Strtoul(Hex(n) + tail) == Number(n, |Hex(n)|)
  {
    hide Hex, NumberOf, DigitsEnd;
    var s := Hex(n) + tail;
    var m := |Hex(n)|;
    HexIsDigits(n);
    assert IsHex(s[0]) && s[m] == '\r';
    assert forall k :: 0 <= k < m ==> s[k] == Hex(n)[k];
    if 1 < |s| { assert s[1] == '\r' || IsHex(s[1]); }
    assert SkipSpace(s, 0) == 0 && s[0] != '-' && s[0] != '+';
    DigitsEndIs(s, 0, m);
    assert s[0..m] == Hex(n);
  }

  lemma {:induction false} NoNul(s: string)
    requires '\0' !in s
    ensures CString(s) == s
  {
    if s != "" { NoNul(s[1..]); }
  }
}
