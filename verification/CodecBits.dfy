/** The bit packing of base64.hpp, base32.hpp and hex.hpp: blocks and tails of bytes to digits and back. */
module CodecBits {
  import opened CodecVariants

  type Digits = seq<bv8>

  predicate BelowRadix(c: Codec, x: bv8) {
    match c case Base64 => x < 64 case Base32 => x < 32 case Hex => x < 16
  }

  ghost predicate AllBelowRadix(c: Codec, d: Digits) {
    forall i :: 0 <= i < |d| ==> BelowRadix(c, d[i])
  }

  // ---- encoding ----

  /** How many leading bytes of a block symbol i looks at. */
  function BytesRead(c: Codec, i: nat): nat
    requires i < c.EncodedBlockSize()
  {
    match c
    case Base64 => if i < 3 then i + 1 else 3
    case Base32 => if i == 0 then 1 else if i < 3 then 2 else if i == 3 then 3 else if i < 6 then 4 else 5
    case Hex => 1
  }

  function Index(c: Codec, i: nat, b: seq<bv8>): bv8
    requires i < c.EncodedBlockSize() && BytesRead(c, i) <= |b|
  {
    match c
    case Base64 =>
      if i == 0 then b[0] >> 2
      else if i == 1 then ((b[0] & 0x3) << 4) | (b[1] >> 4)
      else if i == 2 then ((b[1] & 0xF) << 2) | (b[2] >> 6)
      else b[2] & 0x3F
    case Base32 =>
      if i == 0 then (b[0] >> 3) & 0x1F
      else if i == 1 then ((b[0] << 2) & 0x1C) | ((b[1] >> 6) & 0x3)
      else if i == 2 then (b[1] >> 1) & 0x1F
      else if i == 3 then ((b[1] << 4) & 0x10) | ((b[2] >> 4) & 0xF)
      else if i == 4 then ((b[2] << 1) & 0x1E) | ((b[3] >> 7) & 0x1)
      else if i == 5 then (b[3] >> 2) & 0x1F
      else if i == 6 then ((b[3] << 3) & 0x18) | ((b[4] >> 5) & 0x7)
      else b[4] & 0x1F
    case Hex =>
      if i == 0 then b[0] >> 4 else b[0] & 0xF
  }

  function NumEncodedTailSymbols(c: Codec, numBytes: nat): (n: nat)
    requires 0 < numBytes < c.BinaryBlockSize()
    ensures 2 <= n < c.EncodedBlockSize()
  {
    if c == Base64 then numBytes + 1  // and Hex has no tails at all
    else if numBytes == 1 then 2 else if numBytes == 2 then 4 else if numBytes == 3 then 5 else 7
  }

  /** The abbreviated last symbol of a tail of |b| bytes: the bits past the end read as zero. */
  function IndexLast(c: Codec, b: seq<bv8>): bv8
    requires 0 < |b| < c.BinaryBlockSize()
  {
    if c == Base64 then
      if |b| == 1 then (b[0] & 0x3) << 4 else (b[1] & 0xF) << 2
    else if |b| == 1 then (b[0] << 2) & 0x1C
    else if |b| == 2 then (b[1] << 4) & 0x10
    else if |b| == 3 then (b[2] << 1) & 0x1E
    else (b[3] << 3) & 0x18
  }

  function BlockDigits(c: Codec, b: seq<bv8>): (d: Digits)
    requires |b| == c.BinaryBlockSize()
    ensures |d| == c.EncodedBlockSize()
  {
    seq(c.EncodedBlockSize(), i requires 0 <= i < c.EncodedBlockSize() => Index(c, i, b))
  }

  function TailDigits(c: Codec, b: seq<bv8>): (d: Digits)
    requires 0 < |b| < c.BinaryBlockSize()
    ensures |d| == NumEncodedTailSymbols(c, |b|)
  {
    var n := NumEncodedTailSymbols(c, |b|);
    seq(n - 1, i requires 0 <= i < n - 1 => Index(c, i, b)) + [IndexLast(c, b)]
  }

  // ---- decoding ----

  function DecodeBlock(c: Codec, x: Digits): (b: seq<bv8>)
    requires |x| == c.EncodedBlockSize()
    ensures |b| == c.BinaryBlockSize()
  {
    match c
    case Base64 =>
      var dec := (x[0] as bv32 << 18) | (x[1] as bv32 << 12) | (x[2] as bv32 << 6) | x[3] as bv32;
      [((dec >> 16) & 0xFF) as bv8, ((dec >> 8) & 0xFF) as bv8, (dec & 0xFF) as bv8]
    case Base32 => [Byte0(x), Byte1(x), Byte2(x), Byte3(x), ((x[6] << 5) & 0xE0) | (x[7] & 0x1F)]
    case Hex => [(x[0] << 4) | x[1]]
  }

  function Byte0(x: Digits): bv8
    requires 2 <= |x|
  {
    ((x[0] << 3) & 0xF8) | ((x[1] >> 2) & 0x7)
  }

  function Byte1(x: Digits): bv8
    requires 4 <= |x|
  {
    ((x[1] << 6) & 0xC0) | ((x[2] << 1) & 0x3E) | ((x[3] >> 4) & 0x1)
  }

  function Byte2(x: Digits): bv8
    requires 5 <= |x|
  {
    ((x[3] << 4) & 0xF0) | ((x[4] >> 1) & 0xF)
  }

  function Byte3(x: Digits): bv8
    requires 7 <= |x|
  {
    ((x[4] << 7) & 0x80) | ((x[5] << 2) & 0x7C) | ((x[6] >> 3) & 0x3)
  }

  /** Which numbers of leftover symbols decode_tail accepts. */
  predicate TailAccepted(c: Codec, n: nat) {
    match c
    case Base64 => n == 2 || n == 3
    case Base32 => n == 2 || n == 4 || n == 5 || n == 7
    case Hex => false
  }

  function DecodeTail(c: Codec, x: Digits): (b: seq<bv8>)
    requires TailAccepted(c, |x|)
    ensures 0 < |b| < c.BinaryBlockSize() && NumEncodedTailSymbols(c, |b|) == |x|
  {
    if c == Base64 then
      [(x[0] << 2) + ((x[1] & 0x30) >> 4)]
      + if |x| == 2 then [] else [((x[1] & 0xF) << 4) + ((x[2] & 0x3C) >> 2)]
    else if |x| == 2 then [Byte0(x)]
    else if |x| == 4 then [Byte0(x), Byte1(x)]
    else if |x| == 5 then [Byte0(x), Byte1(x), Byte2(x)]
    else [Byte0(x), Byte1(x), Byte2(x), Byte3(x)]
  }

  /** The low bits of the last digit of a tail of n digits that no byte uses. */
  function UnusedMask(c: Codec, n: nat): bv8
    requires TailAccepted(c, n)
  {
    if c == Base64 then
      if n == 2 then 0xF else 0x3
    else if n == 2 then 0x3 else if n == 4 then 0xF else if n == 5 then 0x1 else 0x7
  }

  function ClearUnused(c: Codec, x: Digits): Digits
    requires TailAccepted(c, |x|)
  {
    x[|x| - 1 := ClearBits(x[|x| - 1], UnusedMask(c, |x|))]
  }

  function ClearBits(x: bv8, mask: bv8): bv8 { x & !mask }

  // ---- blocks and tails are inverse to each other ----

  lemma BlockDigitsBelowRadix(c: Codec, b: seq<bv8>)
    requires |b| == c.BinaryBlockSize()
    ensures AllBelowRadix(c, BlockDigits(c, b))
  {
  }

  lemma TailDigitsBelowRadix(c: Codec, b: seq<bv8>)
    requires 0 < |b| < c.BinaryBlockSize()
    ensures AllBelowRadix(c, TailDigits(c, b))
  {
  }

  lemma Base64BlockRoundTrip(b: seq<bv8>)
    requires |b| == 3
    ensures DecodeBlock(Base64, BlockDigits(Base64, b)) == b
  {
  }

  lemma DecodeBlockInvertsBlockDigits(c: Codec, b: seq<bv8>)
    requires |b| == c.BinaryBlockSize()
    ensures DecodeBlock(c, BlockDigits(c, b)) == b
  {
    if c == Base64 { Base64BlockRoundTrip(b); }
  }

  lemma Base64BlockInverse(x: Digits)
    requires |x| == 4 && AllBelowRadix(Base64, x)
    ensures BlockDigits(Base64, DecodeBlock(Base64, x)) == x
  {
  }

  lemma Base32LowInverse(x: Digits, i: nat)
    requires |x| == 8 && AllBelowRadix(Base32, x) && i < 4
    ensures Index(Base32, i, DecodeBlock(Base32, x)) == x[i]
  {
  }

  lemma Base32HighInverse(x: Digits, i: nat)
    requires |x| == 8 && AllBelowRadix(Base32, x) && 4 <= i < 8
    ensures Index(Base32, i, DecodeBlock(Base32, x)) == x[i]
  {
  }

  lemma Base32BlockInverse(x: Digits)
    requires |x| == 8 && AllBelowRadix(Base32, x)
    ensures BlockDigits(Base32, DecodeBlock(Base32, x)) == x
  {
    hide Index, DecodeBlock, BelowRadix;
    forall i: nat | i < 8 ensures Index(Base32, i, DecodeBlock(Base32, x)) == x[i] {
      if i < 4 { Base32LowInverse(x, i); } else { Base32HighInverse(x, i); }
    }
  }

  lemma BlockDigitsInvertDecodeBlock(c: Codec, x: Digits)
    requires |x| == c.EncodedBlockSize() && AllBelowRadix(c, x)
    ensures BlockDigits(c, DecodeBlock(c, x)) == x
  {
    match c
    case Base64 => Base64BlockInverse(x);
    case Base32 => Base32BlockInverse(x);
    case Hex =>
  }

  lemma DecodeTailInvertsTailDigits(c: Codec, b: seq<bv8>)
    requires 0 < |b| < c.BinaryBlockSize()
    ensures TailAccepted(c, |TailDigits(c, b)|) && DecodeTail(c, TailDigits(c, b)) == b
  {
  }

  lemma Base64TailInverse(x: Digits)
    requires TailAccepted(Base64, |x|) && AllBelowRadix(Base64, x)
    ensures TailDigits(Base64, DecodeTail(Base64, x)) == ClearUnused(Base64, x)
  {
  }

  lemma Base32ShortTailInverse(x: Digits)
    requires (|x| == 2 || |x| == 4) && AllBelowRadix(Base32, x)
    ensures TailDigits(Base32, DecodeTail(Base32, x)) == ClearUnused(Base32, x)
  {
  }

  lemma Base32Tail5Inverse(x: Digits)
    requires |x| == 5 && AllBelowRadix(Base32, x)
    ensures TailDigits(Base32, DecodeTail(Base32, x)) == ClearUnused(Base32, x)
  {
  }

  lemma Base32Tail7Low(x: Digits, i: nat)
    requires |x| == 7 && AllBelowRadix(Base32, x) && i < 3
    ensures Index(Base32, i, DecodeTail(Base32, x)) == x[i]
  {
  }

  lemma Base32Tail7High(x: Digits, i: nat)
    requires |x| == 7 && AllBelowRadix(Base32, x) && 3 <= i < 6
    ensures Index(Base32, i, DecodeTail(Base32, x)) == x[i]
  {
  }

  lemma Base32Tail7Last(x: Digits)
    requires |x| == 7 && AllBelowRadix(Base32, x)
    ensures IndexLast(Base32, DecodeTail(Base32, x)) == ClearBits(x[6], UnusedMask(Base32, 7))
  {
  }

  lemma Base32Tail7Inverse(x: Digits)
    requires |x| == 7 && AllBelowRadix(Base32, x)
    ensures TailDigits(Base32, DecodeTail(Base32, x)) == ClearUnused(Base32, x)
  {
    hide Index, IndexLast, DecodeTail, BelowRadix, ClearBits, UnusedMask;
    Base32Tail7Last(x);
    forall i: nat | i < 6 ensures Index(Base32, i, DecodeTail(Base32, x)) == x[i] {
      if i < 3 { Base32Tail7Low(x, i); } else { Base32Tail7High(x, i); }
    }
  }

  lemma TailDigitsInvertDecodeTail(c: Codec, x: Digits)
    requires TailAccepted(c, |x|) && AllBelowRadix(c, x)
    ensures TailDigits(c, DecodeTail(c, x)) == ClearUnused(c, x)
  {
    hide TailDigits, DecodeTail, ClearUnused;
    if c == Base64 {
      Base64TailInverse(x);
    } else if |x| <= 4 {
      Base32ShortTailInverse(x);
    } else if |x| == 5 {
      Base32Tail5Inverse(x);
    } else {
      Base32Tail7Inverse(x);
    }
  }

  // ---- the reference: RFC 4648 reads the bytes as one bit string, padded with zeros, and cuts it into digits ----

  function BitsPerDigit(c: Codec): nat {
    match c case Base64 => 6 case Base32 => 5 case Hex => 4
  }

  function BitMask(i: nat): bv8
    requires i < 8
  {
    if i == 0 then 0x80 else if i == 1 then 0x40 else if i == 2 then 0x20 else if i == 3 then 0x10
    else if i == 4 then 0x8 else if i == 5 then 0x4 else if i == 6 then 0x2 else 0x1
  }

  /** Bit j of the bytes, most significant first; zero past the end. */
  predicate ByteBit(b: seq<bv8>, j: nat) {
    j / 8 < |b| && b[j / 8] & BitMask(j % 8) != 0
  }

  /** Bit i of a digit, most significant first. */
  predicate DigitBit(c: Codec, x: bv8, i: nat)
    requires i < BitsPerDigit(c)
  {
    x & BitMask(8 - BitsPerDigit(c) + i) != 0
  }

  lemma Base64DigitIsBits(b: seq<bv8>, k: nat, i: nat)
    requires |b| == 3 && k < 4 && i < 6
    ensures DigitBit(Base64, Index(Base64, k, b), i) == ByteBit(b, k * 6 + i)
  {
  }

  lemma Base32LowDigitIsBits(b: seq<bv8>, k: nat, i: nat)
    requires |b| == 5 && k < 4 && i < 5
    ensures DigitBit(Base32, Index(Base32, k, b), i) == ByteBit(b, k * 5 + i)
  {
  }

  lemma Base32HighDigitIsBits(b: seq<bv8>, k: nat, i: nat)
    requires |b| == 5 && 4 <= k < 8 && i < 5
    ensures DigitBit(Base32, Index(Base32, k, b), i) == ByteBit(b, k * 5 + i)
  {
  }

  lemma BlockDigitIsBits(c: Codec, b: seq<bv8>, k: nat, i: nat)
    requires |b| == c.BinaryBlockSize() && k < c.EncodedBlockSize() && i < BitsPerDigit(c)
    ensures DigitBit(c, BlockDigits(c, b)[k], i) == ByteBit(b, k * BitsPerDigit(c) + i)
  {
    match c
    case Base64 => Base64DigitIsBits(b, k, i);
    case Base32 => if k < 4 { Base32LowDigitIsBits(b, k, i); } else { Base32HighDigitIsBits(b, k, i); }
    case Hex =>
  }

  function ZeroExtended(c: Codec, b: seq<bv8>): (e: seq<bv8>)
    requires |b| <= c.BinaryBlockSize()
    ensures |e| == c.BinaryBlockSize()
  {
    b + seq(c.BinaryBlockSize() - |b|, _ => 0)
  }

  /** A tail is the start of the block that zero bytes would complete. */
  lemma TailDigitsAreZeroExtended(c: Codec, b: seq<bv8>)
    requires 0 < |b| < c.BinaryBlockSize()
    ensures TailDigits(c, b) == BlockDigits(c, ZeroExtended(c, b))[..|TailDigits(c, b)|]
  {
  }

  lemma TailDigitIsBits(c: Codec, b: seq<bv8>, k: nat, i: nat)
    requires 0 < |b| < c.BinaryBlockSize() && k < |TailDigits(c, b)| && i < BitsPerDigit(c)
    ensures DigitBit(c, TailDigits(c, b)[k], i) == ByteBit(b, k * BitsPerDigit(c) + i)
  {
    TailDigitsAreZeroExtended(c, b);
    BlockDigitIsBits(c, ZeroExtended(c, b), k, i);
    ZeroBits(b, c.BinaryBlockSize() - |b|, k * BitsPerDigit(c) + i);
  }

  lemma ZeroBits(b: seq<bv8>, n: nat, j: nat)
    ensures ByteBit(b + seq(n, _ => 0), j) == ByteBit(b, j)
  {
  }
}
