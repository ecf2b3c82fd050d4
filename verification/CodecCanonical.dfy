/** How a decoded text relates to the canonical one, to its cleaned-up form, and to the RFC's bit string. */
module CodecCanonical {
  import opened Wrappers
  import opened CodecVariants
  import opened CodecBits
  import opened StreamCodec
  import opened CodecTheorems
  import opened CodecAcceptance

  // ---- canonical form, section 3.5 of RFC 4648 ----

  function NormalizedText(v: Variant, s: string): (t: string)
    ensures |t| == |s|
  {
    seq(|s|, i requires 0 <= i < |s| => v.NormalizedSymbol(s[i]))
  }

  /** No bit of the last data symbol goes unused while set. */
  predicate UnusedBitsClear(c: Codec, d: Digits)
    requires Decodable(c, d)
  {
    var t := Leftover(c, |d|);
    t > 0 ==> NoneSet(d[|d| - 1], UnusedMask(c, t))
  }

  predicate NoneSet(x: bv8, mask: bv8) { x & mask == 0 }

  lemma SymbolsOfDigits(v: Variant, data: string)
    requires AllInAlphabet(v, data)
    ensures AllBelowRadix(v.Layout(), DigitsOf(v, data))
    ensures Symbols(v, DigitsOf(v, data)) == NormalizedText(v, data)
  {
    hide InAlphabet, IndexOf, Variant.Symbol, Variant.NormalizedSymbol, Variant.Layout, BelowRadix;
    forall i | 0 <= i < |data|
      ensures BelowRadix(v.Layout(), DigitsOf(v, data)[i])
      ensures DigitsOf(v, data)[i] as nat < v.Layout().Radix()
      ensures v.Symbol(DigitsOf(v, data)[i] as nat) == v.NormalizedSymbol(data[i])
    {
      IndexClasses(v, data[i]);
      SymbolAtIndex(v, data[i]);
      BelowRadixAsNumber(v.Layout(), DigitAt(v, data[i]));
      NarrowIsExact(IndexOf(v, data[i]));
    }
  }

  lemma NarrowIsExact(k: nat)
    requires k < 64
    ensures (k as bv8) as nat == k
  {
  }

  lemma UpdateInSuffix(d: Digits, t: nat, y: bv8)
    requires 0 < t <= |d|
    ensures d[..|d| - t] + d[|d| - t..][t - 1 := y] == d[|d| - 1 := y]
  {
  }

  lemma {:induction false} CanonicalShape(c: Codec, d: Digits)
    requires Decodable(c, d)
    ensures Canonical(c, d) ==
      if Leftover(c, |d|) == 0 then d else d[|d| - 1 := ClearBits(d[|d| - 1], UnusedMask(c, Leftover(c, |d|)))]
  {
    hide UnusedMask, Codec.EncodedBlockSize, TailAccepted, Leftover, ClearBits;
    var t := Leftover(c, |d|);
    if t == 0 {
      assert d[..|d|] == d;
    } else {
      UpdateInSuffix(d, t, ClearBits(d[|d| - 1], UnusedMask(c, t)));
    }
  }

  lemma ClearingIsCanonical(c: Codec, d: Digits)
    requires Decodable(c, d) && AllBelowRadix(c, d)
    ensures |Canonical(c, d)| == |d| && AllBelowRadix(c, Canonical(c, d))
    ensures forall i :: 0 <= i < |d| && i != |d| - 1 ==> Canonical(c, d)[i] == d[i]
    ensures Canonical(c, d) == d <==> UnusedBitsClear(c, d)
  {
    hide UnusedMask, BelowRadix, Codec.EncodedBlockSize, TailAccepted, Canonical, Leftover, ClearBits, NoneSet;
    CanonicalShape(c, d);
    var t := Leftover(c, |d|);
    if t > 0 {
      var x, m := d[|d| - 1], UnusedMask(c, t);
      MaskClears(c, x, m);
      assert d[|d| - 1 := ClearBits(x, m)][|d| - 1] == ClearBits(x, m);
    }
  }

  lemma MaskClears(c: Codec, x: bv8, m: bv8)
    ensures ClearBits(x, m) == x <==> NoneSet(x, m)
    ensures BelowRadix(c, x) ==> BelowRadix(c, ClearBits(x, m))
  {
  }

  /** Distinct digits have distinct symbols. */
  lemma SymbolsDiffer(v: Variant, d: Digits, e: Digits)
    requires AllBelowRadix(v.Layout(), d) && AllBelowRadix(v.Layout(), e)
    ensures Symbols(v, d) == Symbols(v, e) ==> d == e
  {
    hide *;
    SymbolsReadBack(v, d);
    SymbolsReadBack(v, e);
  }

  lemma CanonicalText(v: Variant, d: Digits, pad: string)
    requires Decodable(v.Layout(), d) && AllBelowRadix(v.Layout(), d)
    ensures AllBelowRadix(v.Layout(), Canonical(v.Layout(), d))
    ensures var e, p := Symbols(v, Canonical(v.Layout(), d)) + pad, Symbols(v, d) + pad;
      && |e| == |p|
      && (forall i :: 0 <= i < |p| && i != |d| - 1 ==> e[i] == p[i])
      && (e == p <==> UnusedBitsClear(v.Layout(), d))
  {
    hide Canonical, UnusedBitsClear, Decodable, BelowRadix, SymbolOf, Variant.Layout;
    var c := v.Layout();
    ClearingIsCanonical(c, d);
    SymbolsDiffer(v, d, Canonical(c, d));
    var e, p := Symbols(v, Canonical(c, d)) + pad, Symbols(v, d) + pad;
    assert e[..|d|] == Symbols(v, Canonical(c, d)) && p[..|d|] == Symbols(v, d);
  }

  /** Re-encoding what was decoded from text `data` followed by padding `r`. */
  lemma {:induction false} ReencodeParts(v: Variant, data: string, r: string)
    requires v.RequiresPadding() && AllInAlphabet(v, data) && DecodeParts(v, data, r).error == None
    ensures var d := DigitsOf(v, data);
      && Decodable(v.Layout(), d) && AllBelowRadix(v.Layout(), d) && AllBelowRadix(v.Layout(), Canonical(v.Layout(), d))
      && Encode(v, DecodeParts(v, data, r).bytes) == Symbols(v, Canonical(v.Layout(), d)) + r
  {
    hide InAlphabet, DigitsOf, Encode, Symbols, BelowRadix, Canonical, Value, EncodeDigits, Leftover;
    hide WholeBlocks, DecodeTail, TailAccepted;
    hide Variant.Layout, Codec.EncodedBlockSize;
    var c := v.Layout();
    var d := DigitsOf(v, data);
    AcceptedValue(v, data, r);
    SymbolsOfDigits(v, data);
    EncodeShape(v, Value(c, d));
    EncodeDigitsInvertValue(c, d);
    ClearingIsCanonical(c, d);
    assert r == Padding(|r|);
  }

  /**
   * Canonical form for the padded variants: re-encoding an accepted text gives back its normalised symbols except
   * perhaps the last data symbol, and gives them all back exactly when that symbol's unused bits are zero.
   */
  lemma {:induction false} CanonicalForm(v: Variant, s: string)
    requires v.RequiresPadding() && Decode(v, s).error == None
    ensures var p := Visible(v, s); var n := DataLength(v, p);
      var e, q := Encode(v, Decode(v, s).bytes), NormalizedText(v, p[..n]) + p[n..];
      && Decodable(v.Layout(), DigitsOf(v, p[..n]))
      && |e| == |q|
      && (forall i :: 0 <= i < |q| && i != n - 1 ==> e[i] == q[i])
      && (e == q <==> UnusedBitsClear(v.Layout(), DigitsOf(v, p[..n])))
  {
    hide InAlphabet, DigitsOf, Encode, Symbols, Canonical, DecodeParts, Visible, NormalizedText;
    hide UnusedBitsClear, Decodable, Variant.Layout;
    var p := Visible(v, s);
    var n := DataLength(v, p);
    ReencodeParts(v, p[..n], p[n..]);
    SymbolsOfDigits(v, p[..n]);
    CanonicalText(v, DigitsOf(v, p[..n]), p[n..]);
  }

  /** For the base64 alphabets, which normalise nothing, the text itself is what comes back. */
  lemma {:induction false} Base64CanonicalForm(v: Variant, s: string)
    requires (v == Base64Rfc4648 || v == Base64Url) && '\0' !in s && Decode(v, s).error == None
    ensures var n := DataLength(v, s); var e := Encode(v, Decode(v, s).bytes);
      && Decodable(Base64, DigitsOf(v, s[..n]))
      && |e| == |s|
      && (forall i :: 0 <= i < |s| && i != n - 1 ==> e[i] == s[i])
      && (e == s <==> UnusedBitsClear(Base64, DigitsOf(v, s[..n])))
  {
    hide InAlphabet, DigitsOf, Encode, Decode, UnusedBitsClear, Decodable, NormalizedText, Visible;
    PaddedVariantsIgnoreNothing(v);
    VisibleKeepsOrdinary(v, s);
    CanonicalForm(v, s);
    var n := DataLength(v, s);
    NormalizesNothing(v, s[..n]);
    assert s[..n] + s[n..] == s;
  }

  lemma NormalizesNothing(v: Variant, s: string)
    requires v.Layout() == Base64
    ensures NormalizedText(v, s) == s
  {
  }

  // ---- what an exception leaves behind ----

  lemma {:induction false} WholePrefix(v: Variant, data: string, m: nat)
    requires AllInAlphabet(v, data) && m == |data| - Leftover(v.Layout(), |data|)
    ensures AllInAlphabet(v, data[..m]) && Decodable(v.Layout(), DigitsOf(v, data[..m])) && Leftover(v.Layout(), m) == 0
    ensures WholeBlocks(v.Layout(), DigitsOf(v, data)) == Value(v.Layout(), DigitsOf(v, data[..m]))
  {
    hide InAlphabet, DigitAt, WholeBlocks, DecodeBlock, DecodeTail, TailAccepted, Leftover, Variant.Layout;
    hide Codec.EncodedBlockSize;
    var c := v.Layout();
    var d, x := DigitsOf(v, data), DigitsOf(v, data[..m]);
    WholePartIsWhole(c, |data|);
    assert d == x + d[m..];
    WholeBlocksThenRest(c, x, d[m..]);
  }

  /** The bytes put out before an exception are those whose encoding is the whole blocks of symbols read so far. */
  lemma {:induction false} FailureLeavesWholeBlocks(v: Variant, s: string)
    requires Decode(v, s).error != None
    ensures var p := Visible(v, s); var n := DataLength(v, p); var m := n - Leftover(v.Layout(), n);
      Encode(v, Decode(v, s).bytes) == NormalizedText(v, p[..m])
  {
    hide InAlphabet, WholeBlocks, Leftover, DigitsOf, Visible, DecodeTail, TailAccepted, Variant.Layout;
    hide Codec.EncodedBlockSize;
    hide Encode, Value, Decodable, EncodeDigits, Canonical, BelowRadix, Symbols, NormalizedText;
    var c := v.Layout();
    var p := Visible(v, s);
    var n := DataLength(v, p);
    var m := n - Leftover(c, n);
    WholePrefix(v, p[..n], m);
    assert p[..n][..m] == p[..m];
    EncodeOfWhole(v, p[..m]);
  }

  lemma {:induction false} EncodeOfWhole(v: Variant, data: string)
    requires AllInAlphabet(v, data) && Leftover(v.Layout(), |data|) == 0 && Decodable(v.Layout(), DigitsOf(v, data))
    ensures Encode(v, Value(v.Layout(), DigitsOf(v, data))) == NormalizedText(v, data)
  {
    hide InAlphabet, DigitsOf, Encode, Value, EncodeDigits, BelowRadix, Symbols, NormalizedText, Leftover, TailAccepted;
    hide Variant.Layout, Codec.EncodedBlockSize;
    var c := v.Layout();
    var d := DigitsOf(v, data);
    SymbolsOfDigits(v, data);
    EncodeDigitsInvertValue(c, d);
    assert Canonical(c, d) == d[..|d|] + [] == d;
    EncodeShape(v, Value(c, d));
  }

  // ---- leniency ----

  /** The text with ignored characters dropped and symbols normalised. */
  function Cleaned(v: Variant, s: string): string {
    if s == "" then ""
    else (if v.ShouldIgnore(s[0]) then "" else [v.NormalizedSymbol(s[0])]) + Cleaned(v, s[1..])
  }

  lemma NormalizingKeepsIndex(v: Variant, c: char)
    ensures IndexOf(v, v.NormalizedSymbol(c)) == IndexOf(v, c)
    ensures InAlphabet(v, v.NormalizedSymbol(c)) <==> InAlphabet(v, c)
    ensures v.IsPaddingSymbol(v.NormalizedSymbol(c)) <==> v.IsPaddingSymbol(c)
    ensures v.ShouldIgnore(v.NormalizedSymbol(c)) <==> v.ShouldIgnore(c)
  {
    hide Variant.NormalizedSymbol, Variant.Symbol, Variant.Layout;
    NormalizingKeepsSpecials(v, c);
  }

  lemma {:induction false} CleanedUnfolds(v: Variant, s: string)
    requires s != ""
    ensures v.ShouldIgnore(s[0]) ==> Cleaned(v, s) == Cleaned(v, s[1..])
    ensures !v.ShouldIgnore(s[0]) ==> Cleaned(v, s) == [v.NormalizedSymbol(s[0])] + Cleaned(v, s[1..])
  {
    hide Variant.NormalizedSymbol, Variant.ShouldIgnore;
    assert v.ShouldIgnore(s[0]) ==> "" + Cleaned(v, s[1..]) == Cleaned(v, s[1..]);
  }

  lemma {:induction false} VisibleOfOneMore(v: Variant, c: char, s: string)
    ensures Visible(v, [c] + s) == if v.ShouldIgnore(c) then Visible(v, s) else if c
        == '\0' then "" else [c] + Visible(v, s)
  {
    hide Variant.ShouldIgnore;
    assert ([c] + s)[1..] == s;
  }

  lemma {:induction false} NormalizedOneMore(v: Variant, c: char, s: string)
    ensures NormalizedText(v, [c] + s) == [v.NormalizedSymbol(c)] + NormalizedText(v, s)
  {
    hide Variant.NormalizedSymbol;
  }

  lemma {:induction false} VisibleOfCleaned(v: Variant, s: string)
    ensures Visible(v, Cleaned(v, s)) == NormalizedText(v, Visible(v, s))
  {
    if s != "" {
      hide Visible, Cleaned, NormalizedText, Variant.NormalizedSymbol, Variant.ShouldIgnore;
      var c, rest := s[0], s[1..];
      assert s == [c] + rest;
      VisibleOfCleaned(v, rest);
      NormalizingKeepsSpecials(v, c);
      NormalizingKeepsIndex(v, c);
      CleanedUnfolds(v, s);
      VisibleOfOneMore(v, c, rest);
      VisibleOfOneMore(v, v.NormalizedSymbol(c), Cleaned(v, rest));
      NormalizedOneMore(v, c, Visible(v, rest));
      NormalizedNothing(v);
    }
  }

  lemma {:induction false} NormalizedNothing(v: Variant)
    ensures NormalizedText(v, "") == ""
  {
  }

  lemma PartsOfNormalized(v: Variant, data: string, r: string)
    requires AllInAlphabet(v, data)
    ensures AllInAlphabet(v, NormalizedText(v, data))
    ensures var x, y := DecodeParts(v, data, r), DecodeParts(v, NormalizedText(v, data), NormalizedText(v, r));
      x.bytes == y.bytes && (x.error == None <==> y.error == None)
  {
    hide InAlphabet, IndexOf, WholeBlocks, DecodeTail, TailAccepted, Leftover;
    hide Variant.Layout, Variant.NormalizedSymbol, Codec.EncodedBlockSize, Variant.IsPaddingSymbol;
    forall i | 0 <= i < |data| ensures InAlphabet(v, NormalizedText(v, data)[i]) {
      NormalizingKeepsIndex(v, data[i]);
    }
    forall i | 0 <= i < |data| ensures DigitAt(v, NormalizedText(v, data)[i]) == DigitAt(v, data[i]) {
      NormalizingKeepsIndex(v, data[i]);
    }
    assert DigitsOf(v, NormalizedText(v, data)) == DigitsOf(v, data);
    NormalizedPadding(v, r);
  }

  lemma NormalizedPadding(v: Variant, r: string)
    ensures AllPadding(NormalizedText(v, r)) <==> AllPadding(r)
    ensures r != "" ==> v.IsPaddingSymbol(NormalizedText(v, r)[0]) == v.IsPaddingSymbol(r[0])
  {
    hide Variant.NormalizedSymbol;
    forall i | 0 <= i < |r| ensures NormalizedText(v, r)[i] == '=' <==> r[i] == '=' {
      NormalizingKeepsSpecials(v, r[i]);
    }
    if r != "" { NormalizingKeepsIndex(v, r[0]); }
  }

  /** Hyphens and look-alike symbols do not matter: a text and its cleaned form decode alike. */
  lemma {:induction false} Leniency(v: Variant, s: string)
    ensures Decode(v, s).bytes == Decode(v, Cleaned(v, s)).bytes
    ensures Decode(v, s).error == None <==> Decode(v, Cleaned(v, s)).error == None
  {
    hide InAlphabet, DecodeParts, Visible, NormalizedText, Cleaned, Decode, AllInAlphabet;
    var p := Visible(v, s);
    var n := DataLength(v, p);
    var data, r := p[..n], p[n..];
    assert AllInAlphabet(v, data) by { SplitFacts(v, p); }
    SplitFacts(v, p);
    VisibleOfCleaned(v, s);
    NormalizedSplit(v, data, r);
    PartsOfNormalized(v, data, r);
    DecodeIsParts(v, s, data, r);
    DecodeIsParts(v, Cleaned(v, s), NormalizedText(v, data), NormalizedText(v, r));
  }

  lemma {:induction false} SplitFacts(v: Variant, p: string)
    ensures var n := DataLength(v, p);
      AllInAlphabet(v, p[..n]) && p == p[..n] + p[n..] && (p[n..] == "" || !InAlphabet(v, p[n..][0]))
  {
    hide InAlphabet;
  }

  lemma NormalizedSplit(v: Variant, data: string, r: string)
    requires r == "" || !InAlphabet(v, r[0])
    ensures NormalizedText(v, data + r) == NormalizedText(v, data) + NormalizedText(v, r)
    ensures NormalizedText(v, r) == "" || !InAlphabet(v, NormalizedText(v, r)[0])
  {
    hide InAlphabet, Variant.NormalizedSymbol;
    if r != "" { NormalizingKeepsIndex(v, r[0]); }
  }

  // ---- the RFC's bit string ----

  /** Digit k of the encoding holds bits k * w to k * w + w - 1 of the input, zeros past its end. */
  lemma {:induction false} EncodedDigitIsBits(c: Codec, b: seq<bv8>, k: nat, i: nat)
    requires k < |EncodeDigits(c, b)| && i < BitsPerDigit(c)
    ensures DigitBit(c, EncodeDigits(c, b)[k], i) == ByteBit(b, k * BitsPerDigit(c) + i)
    decreases |b|
  {
    hide BlockDigits, TailDigits, DigitBit, ByteBit;
    var n := c.BinaryBlockSize();
    if |b| >= n {
      var e := c.EncodedBlockSize();
      if k < e {
        BlockDigitIsBits(c, b[..n], k, i);
        BitsOfPrefix(c, b, k * BitsPerDigit(c) + i);
      } else {
        EncodedDigitIsBits(c, b[n..], k - e, i);
        BitsOfSuffix(c, b, k, i);
      }
    } else if b != [] {
      TailDigitIsBits(c, b, k, i);
    }
  }

  lemma BitsOfPrefix(c: Codec, b: seq<bv8>, j: nat)
    requires |b| >= c.BinaryBlockSize() && j < c.BinaryBlockSize() * 8
    ensures ByteBit(b[..c.BinaryBlockSize()], j) == ByteBit(b, j)
  {
    hide BitMask;
  }

  lemma BitsOfSuffix(c: Codec, b: seq<bv8>, k: nat, i: nat)
    requires |b| >= c.BinaryBlockSize() && k >= c.EncodedBlockSize()
    ensures ByteBit(b[c.BinaryBlockSize()..], (k - c.EncodedBlockSize()) * BitsPerDigit(c) + i)
        == ByteBit(b, k * BitsPerDigit(c) + i)
  {
    hide BitMask;
    match c
    case Base64 => assert (k - 4) * 6 + i == k * 6 + i - 24;
    case Base32 => assert (k - 8) * 5 + i == k * 5 + i - 40;
    case Hex => assert (k - 2) * 4 + i == k * 4 + i - 8;
  }
}
