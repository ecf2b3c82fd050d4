/** What the codecs promise: round trip, sizes, exact acceptance, canonical form, leniency, and the RFC's bit string. */
module CodecTheorems {
  import opened Wrappers
  import opened CodecVariants
  import opened CodecBits
  import opened StreamCodec

  // ---- the digits behind a text ----

  function EncodeDigits(c: Codec, b: seq<bv8>): Digits {
    var n := c.BinaryBlockSize();
    if |b| >= n then BlockDigits(c, b[..n]) + EncodeDigits(c, b[n..])
    else if b == [] then []
    else TailDigits(c, b)
  }

  predicate Decodable(c: Codec, d: Digits) {
    Leftover(c, |d|) == 0 || TailAccepted(c, Leftover(c, |d|))
  }

  /** The bytes that a whole number of blocks and a legal tail stand for. */
  function Value(c: Codec, d: Digits): seq<bv8>
    requires Decodable(c, d)
  {
    var t := Leftover(c, |d|);
    WholeBlocks(c, d) + if t == 0 then [] else DecodeTail(c, d[|d| - t..])
  }

  function PaddingAfter(v: Variant, t: nat): (k: nat)
    requires t < v.Layout().EncodedBlockSize()
    ensures k > 0 ==> v.AllowsPadding()
  {
    if t > 0 && v.GeneratesPadding() then v.Layout().EncodedBlockSize() - t else 0
  }

  lemma {:induction false} EncodeDigitsBelowRadix(c: Codec, b: seq<bv8>)
    ensures AllBelowRadix(c, EncodeDigits(c, b))
  {
    hide BlockDigits, TailDigits, BelowRadix;
    var n := c.BinaryBlockSize();
    if |b| >= n {
      BlockDigitsBelowRadix(c, b[..n]);
      EncodeDigitsBelowRadix(c, b[n..]);
    } else if b != [] {
      TailDigitsBelowRadix(c, b);
    }
  }

  lemma TailsAreLegal(c: Codec, b: seq<bv8>)
    requires 0 < |b| < c.BinaryBlockSize()
    ensures TailAccepted(c, |TailDigits(c, b)|) && 0 < |TailDigits(c, b)| < c.EncodedBlockSize()
  {
  }

  /** Peeling one block off a digit string. */
  lemma {:induction false} ValueOfBlockAnd(c: Codec, x: Digits, d: Digits)
    requires |x| == c.EncodedBlockSize()
    ensures Leftover(c, |x + d|) == Leftover(c, |d|)
    ensures Decodable(c, d) ==> Value(c, x + d) == DecodeBlock(c, x) + Value(c, d)
  {
    hide DecodeBlock, DecodeTail, TailAccepted;
    var t := Leftover(c, |d|);
    assert (x + d)[..|x|] == x && (x + d)[|x|..] == d;
    assert (x + d)[|x + d| - t..] == d[|d| - t..];
  }

  lemma {:induction false} ValueInvertsEncodeDigits(c: Codec, b: seq<bv8>)
    ensures Decodable(c, EncodeDigits(c, b)) && Value(c, EncodeDigits(c, b)) == b
  {
    hide BlockDigits, TailDigits, DecodeBlock, DecodeTail, TailAccepted, Value, WholeBlocks;
    var n := c.BinaryBlockSize();
    if |b| >= n {
      ValueInvertsEncodeDigits(c, b[n..]);
      ValueOfBlockAnd(c, BlockDigits(c, b[..n]), EncodeDigits(c, b[n..]));
      DecodeBlockInvertsBlockDigits(c, b[..n]);
      assert b == b[..n] + b[n..];
    } else {
      ValueOfLessThanABlock(c, EncodeDigits(c, b));
      if b != [] {
        TailsAreLegal(c, b);
        DecodeTailInvertsTailDigits(c, b);
      }
    }
  }

  lemma {:induction false} ValueOfLessThanABlock(c: Codec, d: Digits)
    ensures d == [] || TailAccepted(c, |d|) ==> Decodable(c, d) && Leftover(c, |d|) == |d|
    ensures TailAccepted(c, |d|) ==> Value(c, d) == DecodeTail(c, d)
    ensures d == [] ==> Value(c, d) == []
  {
    hide DecodeTail;
    assert d[0..] == d;
  }

  /** What re-encoding the value of d should give. */
  function Canonical(c: Codec, d: Digits): Digits
    requires Decodable(c, d)
  {
    var t := Leftover(c, |d|);
    d[..|d| - t] + if t == 0 then [] else ClearUnused(c, d[|d| - t..])
  }

  lemma LeftoverOfBlockAnd(c: Codec, n: nat)
    ensures Leftover(c, c.EncodedBlockSize() + n) == Leftover(c, n)
  {
    hide Codec.EncodedBlockSize;
  }

  lemma CanonicalOfBlockAnd(c: Codec, x: Digits, d: Digits)
    requires |x| == c.EncodedBlockSize() && Decodable(c, d)
    ensures Decodable(c, x + d) && Canonical(c, x + d) == x + Canonical(c, d)
  {
    hide ClearUnused, TailAccepted, Leftover, Codec.EncodedBlockSize;
    LeftoverOfBlockAnd(c, |d|);
    var t := Leftover(c, |d|);
    assert (x + d)[|x + d| - t..] == d[|d| - t..] && (x + d)[..|x + d| - t] == x + d[..|d| - t];
  }

  lemma {:induction false} EncodeDigitsOfBlockAnd(c: Codec, b: seq<bv8>, rest: seq<bv8>)
    requires |b| == c.BinaryBlockSize()
    ensures EncodeDigits(c, b + rest) == BlockDigits(c, b) + EncodeDigits(c, rest)
  {
    hide BlockDigits;
    assert (b + rest)[..|b|] == b && (b + rest)[|b|..] == rest;
  }

  /** Re-encoding a decoded digit string changes nothing but the unused bits of a tail. */
  lemma {:induction false} EncodeDigitsInvertValue(c: Codec, d: Digits)
    requires Decodable(c, d) && AllBelowRadix(c, d)
    ensures EncodeDigits(c, Value(c, d)) == Canonical(c, d)
  {
    hide BlockDigits, DecodeBlock, TailAccepted, Value, Canonical, EncodeDigits, Codec.EncodedBlockSize;
    var n := c.EncodedBlockSize();
    if |d| >= n {
      var x, rest := d[..n], d[n..];
      assert d == x + rest;
      ValueOfBlockAnd(c, x, rest);
      CanonicalOfBlockAnd(c, x, rest);
      EncodeDigitsInvertValue(c, rest);
      BlockDigitsInvertDecodeBlock(c, x);
      EncodeDigitsOfBlockAnd(c, DecodeBlock(c, x), Value(c, rest));
    } else {
      ShortDigitsInvertValue(c, d);
    }
  }

  lemma {:induction false} ShortDigitsInvertValue(c: Codec, d: Digits)
    requires Decodable(c, d) && AllBelowRadix(c, d) && |d| < c.EncodedBlockSize()
    ensures EncodeDigits(c, Value(c, d)) == Canonical(c, d)
  {
    hide TailDigits, DecodeTail, ClearUnused, BelowRadix;
    ValueOfLessThanABlock(c, d);
    if d != [] {
      TailDigitsInvertDecodeTail(c, d);
      assert d[0..] == d && d[..0] == [];
    }
  }

  // ---- texts ----

  lemma SymbolsConcatenate(v: Variant, x: Digits, y: Digits)
    requires AllBelowRadix(v.Layout(), x) && AllBelowRadix(v.Layout(), y)
    ensures AllBelowRadix(v.Layout(), x + y) && Symbols(v, x + y) == Symbols(v, x) + Symbols(v, y)
  {
    hide SymbolOf, BelowRadix;
  }

  lemma {:induction false} EncodeShape(v: Variant, b: seq<bv8>)
    ensures var c := v.Layout(); var d := EncodeDigits(c, b);
            && AllBelowRadix(c, d)
            && Encode(v, b) == Symbols(v, d) + Padding(PaddingAfter(v, Leftover(c, |d|)))
  {
    hide BlockDigits, TailDigits, SymbolOf, BelowRadix, Variant.Layout, Codec.BinaryBlockSize, Codec.EncodedBlockSize;
    var c := v.Layout();
    var n := c.BinaryBlockSize();
    EncodeDigitsBelowRadix(c, b);
    if |b| >= n {
      EncodeShape(v, b[n..]);
      var x, rest := BlockDigits(c, b[..n]), EncodeDigits(c, b[n..]);
      assert Leftover(c, |x + rest|) == Leftover(c, |rest|);
      BlockDigitsBelowRadix(c, b[..n]);
      EncodeDigitsBelowRadix(c, b[n..]);
      SymbolsConcatenate(v, x, rest);
    } else if b != [] {
      TailsAreLegal(c, b);
    }
  }

  lemma {:induction false} VisibleKeepsOrdinary(v: Variant, s: string)
    requires forall i :: 0 <= i < |s| ==> s[i] != '\0' && !v.ShouldIgnore(s[i])
    ensures Visible(v, s) == s
  {
    if s != "" {
      assert s == [s[0]] + s[1..];
      VisibleKeepsOrdinary(v, s[1..]);
    }
  }

  lemma SymbolsReadBack(v: Variant, d: Digits)
    requires AllBelowRadix(v.Layout(), d)
    ensures AllInAlphabet(v, Symbols(v, d)) && DigitsOf(v, Symbols(v, d)) == d
    ensures forall i :: 0 <= i < |d| ==> Symbols(v, d)[i] != '\0' && !v.ShouldIgnore(Symbols(v, d)[i])
  {
    hide InAlphabet, IndexOf, Variant.Symbol, Variant.ShouldIgnore, Variant.Layout;
    forall i | 0 <= i < |d|
      ensures InAlphabet(v, Symbols(v, d)[i]) && DigitAt(v, Symbols(v, d)[i]) == d[i]
      ensures Symbols(v, d)[i] != '\0' && !v.ShouldIgnore(Symbols(v, d)[i])
    {
      BelowRadixAsNumber(v.Layout(), d[i]);
      LookupInvertsSymbol(v, d[i] as nat);
      SymbolsAreOrdinary(v, d[i] as nat);
    }
  }

  lemma BelowRadixAsNumber(c: Codec, x: bv8)
    ensures BelowRadix(c, x) <==> x as nat < c.Radix()
    ensures (x as nat) as bv8 == x
  {
  }

  lemma SymbolsThenPaddingSplit(v: Variant, d: Digits, k: nat)
    requires AllBelowRadix(v.Layout(), d) && (k > 0 ==> v.AllowsPadding())
    ensures AllInAlphabet(v, Symbols(v, d))
    ensures Decode(v, Symbols(v, d) + Padding(k)) == DecodeParts(v, Symbols(v, d), Padding(k))
  {
    hide InAlphabet, DecodeParts, Decode, Visible, BelowRadix, Symbols, Variant.ShouldIgnore, Variant.Layout;
    SymbolsReadBack(v, d);
    if k > 0 {
      PaddedVariantsIgnoreNothing(v);
      IndexClasses(v, '=');
    }
    VisibleKeepsOrdinary(v, Symbols(v, d) + Padding(k));
    DecodeIsParts(v, Symbols(v, d) + Padding(k), Symbols(v, d), Padding(k));
  }

  lemma {:induction false} PartsFullyPadded(v: Variant, data: string, k: nat)
    requires AllInAlphabet(v, data) && Decodable(v.Layout(), DigitsOf(v, data))
    requires k == PaddingAfter(v, Leftover(v.Layout(), |data|))
    ensures DecodeParts(v, data, Padding(k)) == Decoded(None, Value(v.Layout(), DigitsOf(v, data)))
  {
    hide InAlphabet, WholeBlocks, DecodeTail, TailAccepted, Leftover, DigitsOf, Variant.Layout, Codec.EncodedBlockSize;
  }

  /** A text made of symbols and the '=' that complete them decodes to the value of its digits. */
  lemma {:induction false} DecodeOfSymbols(v: Variant, d: Digits)
    requires AllBelowRadix(v.Layout(), d) && Decodable(v.Layout(), d)
    ensures var s := Symbols(v, d) + Padding(PaddingAfter(v, Leftover(v.Layout(), |d|)));
            Decode(v, s) == Decoded(None, Value(v.Layout(), d))
  {
    hide *;
    SymbolsReadBack(v, d);
    SymbolsThenPaddingSplit(v, d, PaddingAfter(v, Leftover(v.Layout(), |d|)));
    PartsFullyPadded(v, Symbols(v, d), PaddingAfter(v, Leftover(v.Layout(), |d|)));
  }

  /** decode undoes encode, for every byte string and every variant. */
  lemma {:induction false} RoundTrip(v: Variant, b: seq<bv8>)
    ensures Decode(v, Encode(v, b)) == Decoded(None, b)
  {
    hide Decode, Encode, EncodeDigits, Value, Decodable, Symbols;
    EncodeShape(v, b);
    ValueInvertsEncodeDigits(v.Layout(), b);
    DecodeOfSymbols(v, EncodeDigits(v.Layout(), b));
  }
}
