/** The codecs by the printed tables: which character stands for what, what is written, and what is read from a text. */
module CodecTable {
  import opened Wrappers
  import opened CodecVariants
  import opened CodecBits
  import opened StreamCodec
  import opened CodecTheorems
  import opened CodecAcceptance
  import opened CodecCanonical

  // ---- which character stands for which number ----

  /** The alphabet with its letters in the other case, where decoding takes either. */
  function OtherCase(v: Variant): string {
    match v
    case Base64Rfc4648 | Base64Url | Base64UrlUnpadded => Alphabet(v)
    case Base32Rfc4648 => "abcdefghijklmnopqrstuvwxyz234567"
    case Base32Hex => "0123456789abcdefghijklmnopqrstuv"
    case Base32Crockford => "0123456789abcdefghjkmnpqrstvwxyz"
    case HexLower => "0123456789ABCDEF"
    case HexUpper => "0123456789abcdef"
  }

  predicate LooksLike(c: char, i: nat) {
    || (i == 0 && (c == 'O' || c == 'o'))
    || (i == 1 && (c == 'I' || c == 'i' || c == 'L' || c == 'l'))
  }

  predicate StandsFor(v: Variant, c: char, i: nat) {
    || (i < |Alphabet(v)| && c == Alphabet(v)[i])
    || (i < |OtherCase(v)| && c == OtherCase(v)[i])
    || (v == Base32Crockford && LooksLike(c, i))
  }

  lemma NormalizedBase64(v: Variant, c: char, i: nat)
    requires v.Layout() == Base64 && i < 64
    ensures v.NormalizedSymbol(c) == v.Symbol(i) <==> StandsFor(v, c, i)
  {
    hide Alphabet, Variant.Symbol;
    SymbolsAreTheAlphabet(v, i);
  }

  lemma NormalizedBase32Rfc4648(c: char, i: nat)
    requires i < 32
    ensures Base32Rfc4648.NormalizedSymbol(c) == Base32Rfc4648.Symbol(i) <==> StandsFor(Base32Rfc4648, c, i)
  {
    hide Alphabet, OtherCase;
    SymbolsAreTheAlphabet(Base32Rfc4648, i);
    LettersThenDigits(i);
  }

  lemma LettersThenDigits(i: nat)
    requires i < 32
    ensures |OtherCase(Base32Rfc4648)| == 32
    ensures OtherCase(Base32Rfc4648)[i] == if i < 26 then 'a' + i as char else '2' + (i - 26) as char
  {
  }

  lemma NormalizedBase32Hex(c: char, i: nat)
    requires i < 32
    ensures Base32Hex.NormalizedSymbol(c) == Base32Hex.Symbol(i) <==> StandsFor(Base32Hex, c, i)
  {
    hide Alphabet, OtherCase;
    SymbolsAreTheAlphabet(Base32Hex, i);
    DigitsThenLetters(i);
  }

  lemma DigitsThenLetters(i: nat)
    requires i < 32
    ensures |OtherCase(Base32Hex)| == 32
    ensures OtherCase(Base32Hex)[i] == if i < 10 then '0' + i as char else 'a' + (i - 10) as char
  {
  }

  /** The Crockford alphabet in lower case: letters but i, l, o and u. */
  function CrockfordLower(i: nat): char
    requires i < 32
  {
    if i < 10 then '0' + i as char
    else if i < 18 then 'a' + (i - 10) as char
    else if i < 20 then 'j' + (i - 18) as char
    else if i < 22 then 'm' + (i - 20) as char
    else if i < 27 then 'p' + (i - 22) as char
    else 'v' + (i - 27) as char
  }

  lemma NormalizedCrockford(c: char, i: nat)
    requires i < 32
    ensures Base32Crockford.NormalizedSymbol(c) == Base32Crockford.Symbol(i) <==> StandsFor(Base32Crockford, c, i)
  {
    hide Alphabet, OtherCase;
    SymbolsAreTheAlphabet(Base32Crockford, i);
    CrockfordLowerIs(i);
    NormalizedLetters(c, i);
  }

  lemma CrockfordLowerIs(i: nat)
    requires i < 32
    ensures |OtherCase(Base32Crockford)| == 32 && OtherCase(Base32Crockford)[i] == CrockfordLower(i)
  {
  }

  lemma NormalizedLetters(c: char, i: nat)
    requires i < 32
    ensures Base32Crockford.NormalizedSymbol(c) == Base32Crockford.Symbol(i) <==>
      c == Base32Crockford.Symbol(i) || c == CrockfordLower(i) || LooksLike(c, i)
  {
  }

  lemma NormalizedHex(v: Variant, c: char, i: nat)
    requires v.Layout() == Hex && i < 16
    ensures v.NormalizedSymbol(c) == v.Symbol(i) <==> StandsFor(v, c, i)
  {
    HexAlphabets(v, i);
    assert OtherCase(v)[i] ==
      if i < 10 then '0' + i as char else if v.HexLower? then 'A' + (i - 10) as char else 'a' + (i - 10) as char;
  }

  lemma NormalizedIs(v: Variant, c: char, i: nat)
    requires i < v.Layout().Radix()
    ensures v.NormalizedSymbol(c) == v.Symbol(i) <==> StandsFor(v, c, i)
  {
    hide Variant.NormalizedSymbol, Variant.Symbol, StandsFor;
    match v
    case Base64Rfc4648 | Base64Url | Base64UrlUnpadded => NormalizedBase64(v, c, i);
    case Base32Rfc4648 => NormalizedBase32Rfc4648(c, i);
    case Base32Hex => NormalizedBase32Hex(c, i);
    case Base32Crockford => NormalizedCrockford(c, i);
    case HexLower | HexUpper => NormalizedHex(v, c, i);
  }

  lemma TableLengths(v: Variant)
    ensures |Alphabet(v)| == |OtherCase(v)| == v.Layout().Radix() > 1
  {
  }

  lemma StandsForIsBelow(v: Variant, c: char, i: nat)
    requires StandsFor(v, c, i)
    ensures i < v.Layout().Radix()
  {
    hide Alphabet, OtherCase, Variant.Layout, Codec.Radix;
    TableLengths(v);
  }

  /** The lookup table of the decoder is the printed one. */
  lemma TableIsPrinted(v: Variant, c: char, i: nat)
    ensures InAlphabet(v, c) && IndexOf(v, c) == i <==> StandsFor(v, c, i)
  {
    hide InAlphabet, IndexOf, Variant.NormalizedSymbol, Variant.Symbol, StandsFor, Variant.Layout;
    if InAlphabet(v, c) && IndexOf(v, c) == i {
      SymbolAtIndex(v, c);
      NormalizedIs(v, c, i);
    }
    if StandsFor(v, c, i) {
      StandsForIsBelow(v, c, i);
      NormalizedIs(v, c, i);
      LookupInvertsSymbol(v, i);
      NormalizingKeepsIndex(v, c);
    }
  }

  ghost predicate IsSymbol(v: Variant, c: char) { exists i :: StandsFor(v, c, i) }

  lemma SymbolsAreThose(v: Variant, c: char)
    ensures InAlphabet(v, c) <==> IsSymbol(v, c)
  {
    hide InAlphabet, IndexOf, StandsFor;
    if InAlphabet(v, c) { TableIsPrinted(v, c, IndexOf(v, c)); }
    if i :| StandsFor(v, c, i) { TableIsPrinted(v, c, i); }
  }

  // ---- what is looked at ----

  function WithoutHyphens(s: string): string {
    if s == "" then "" else (if s[0] == '-' then "" else [s[0]]) + WithoutHyphens(s[1..])
  }

  /** The text before the first NUL, for Crockford without its hyphens. */
  function Shown(v: Variant, s: string): string {
    if v == Base32Crockford then WithoutHyphens(UpToNul(s)) else UpToNul(s)
  }

  lemma {:induction false} VisibleIsShown(v: Variant, s: string)
    ensures Visible(v, s) == Shown(v, s)
  {
    if s != "" {
      VisibleIsShown(v, s[1..]);
      if s[0] != '\0' && s[0] != '-' { assert ([s[0]] + UpToNul(s[1..]))[1..] == UpToNul(s[1..]); }
      if s[0] == '-' {
        assert ([s[0]] + UpToNul(s[1..]))[1..] == UpToNul(s[1..]);
        assert "" + WithoutHyphens(UpToNul(s[1..])) == WithoutHyphens(UpToNul(s[1..]));
      }
    }
  }

  // ---- what decode says of a text ----

  /** How many symbols make a block, and how many bits a symbol carries. */
  function BlockOf(v: Variant): nat {
    match v
    case Base64Rfc4648 | Base64Url | Base64UrlUnpadded => 4
    case Base32Rfc4648 | Base32Hex | Base32Crockford => 8
    case HexLower | HexUpper => 2
  }

  function BitsOf(v: Variant): nat {
    match v
    case Base64Rfc4648 | Base64Url | Base64UrlUnpadded => 6
    case Base32Rfc4648 | Base32Hex | Base32Crockford => 5
    case HexLower | HexUpper => 4
  }

  predicate DemandsPadding(v: Variant) {
    v == Base64Rfc4648 || v == Base64Url || v == Base32Rfc4648 || v == Base32Hex
  }

  predicate TakesPadding(v: Variant) { DemandsPadding(v) || v == Base64UrlUnpadded }

  /** So many symbols of a block hold no whole number of bytes without wasting a symbol. */
  predicate NoTailOf(v: Variant, t: nat) {
    match v
    case Base32Rfc4648 | Base32Hex | Base32Crockford => t == 1 || t == 3 || t == 6
    case _ => t == 1
  }

  /** Symbols, then k times '='. */
  ghost predicate SymbolsThen(v: Variant, p: string, k: nat) {
    && k <= |p| && (forall i :: 0 <= i < |p| - k ==> IsSymbol(v, p[i]))
    && forall i :: |p| - k <= i < |p| ==> p[i] == '='
  }

  /** The '=' after t symbols of a started block: all those that complete it, or none where that is allowed. */
  predicate PaddedWell(v: Variant, t: nat, k: nat) {
    if k == 0 then !DemandsPadding(v) else TakesPadding(v) && t + k == BlockOf(v)
  }

  ghost predicate IsText(v: Variant, p: string, k: nat) {
    SymbolsThen(v, p, k) &&
    var t := (|p| - k) % BlockOf(v);
    if t == 0 then k == 0 else !NoTailOf(v, t) && PaddedWell(v, t, k)
  }

  ghost predicate HasBadTail(v: Variant, p: string, k: nat, t: nat) {
    SymbolsThen(v, p, k) && t == (|p| - k) % BlockOf(v) && NoTailOf(v, t) && PaddedWell(v, t, k)
  }

  ghost predicate HasFault(v: Variant, p: string, i: nat, x: char) {
    && i < |p| && p[i] == x && (forall j :: 0 <= j < i ==> IsSymbol(v, p[j]))
    && !IsSymbol(v, x) && !(TakesPadding(v) && x == '=')
  }

  ghost predicate IsTextWithAny(v: Variant, p: string) { exists k :: IsText(v, p, k) }

  ghost predicate HasFaultAtAny(v: Variant, p: string, x: char) { exists i :: HasFault(v, p, i, x) }

  ghost predicate HasBadTailWithAny(v: Variant, p: string, t: nat) { exists k :: HasBadTail(v, p, k, t) }

  /** What is wrong with a text, by the tables. */
  ghost predicate Says(v: Variant, p: string, e: Option<ParseError>) {
    match e
    case None => IsTextWithAny(v, p)
    case Some(SymbolError(x)) => HasFaultAtAny(v, p, x)
    case Some(InvalidInputLength(t)) => HasBadTailWithAny(v, p, t)
    case Some(PaddingError) =>
      !IsTextWithAny(v, p) && (forall x :: !HasFaultAtAny(v, p, x)) && forall t :: !HasBadTailWithAny(v, p, t)
  }

  lemma TablesAgree(v: Variant)
    ensures v.Layout().EncodedBlockSize() == BlockOf(v) && BitsPerDigit(v.Layout()) == BitsOf(v)
    ensures v.RequiresPadding() <==> DemandsPadding(v)
    ensures v.GeneratesPadding() <==> DemandsPadding(v)
    ensures v.AllowsPadding() <==> TakesPadding(v)
    ensures forall c :: v.IsPaddingSymbol(c) <==> TakesPadding(v) && c == '='
    ensures forall t :: 0 < t < BlockOf(v) ==> (TailAccepted(v.Layout(), t) <==> !NoTailOf(v, t))
  {
  }

  lemma SplitIs(v: Variant, p: string, k: nat)
    ensures SymbolsThen(v, p, k) <==> k <= |p| && AllInAlphabet(v, p[..|p| - k]) && AllPadding(p[|p| - k..])
  {
    hide InAlphabet, IsSymbol;
    if k <= |p| {
      forall i | 0 <= i < |p| - k ensures IsSymbol(v, p[i]) <==> InAlphabet(v, p[..|p| - k][i]) {
        SymbolsAreThose(v, p[i]);
      }
      assert forall i :: |p| - k <= i < |p| ==> p[i] == p[|p| - k..][i - (|p| - k)];
    }
  }

  lemma {:induction false} BlockLeftover(v: Variant, n: nat)
    ensures Leftover(v.Layout(), n) == n % BlockOf(v)
  {
    hide Leftover, Variant.Layout;
    TablesAgree(v);
    LeftoverIsModulo(v.Layout(), n);
  }

  lemma TextIs(v: Variant, p: string, k: nat)
    ensures IsText(v, p, k) <==> Acceptable(v, p, k)
  {
    hide InAlphabet, SymbolsThen, AllInAlphabet, AllPadding, TailAccepted, NoTailOf, Leftover;
    hide Variant.Layout, Codec.EncodedBlockSize, DemandsPadding, TakesPadding, BlockOf;
    hide Variant.RequiresPadding, Variant.AllowsPadding;
    TablesAgree(v);
    SplitIs(v, p, k);
    if k <= |p| {
      BlockLeftover(v, |p| - k);
    }
  }

  lemma BadTailIs(v: Variant, p: string, k: nat, t: nat)
    ensures HasBadTail(v, p, k, t) <==> LengthFaultAt(v, p, t, k)
  {
    hide InAlphabet, SymbolsThen, AllInAlphabet, AllPadding, TailAccepted, NoTailOf, Leftover, NoSuchTail;
    hide Variant.Layout, Codec.EncodedBlockSize, DemandsPadding, TakesPadding, BlockOf;
    hide Variant.RequiresPadding, Variant.AllowsPadding;
    TablesAgree(v);
    NoTailOfNothing(v);
    SplitIs(v, p, k);
    if k <= |p| {
      BlockLeftover(v, |p| - k);
      if t == Leftover(v.Layout(), |p| - k) && t > 0 { RefusedTailsAreNoTails(v.Layout(), t); }
    }
  }

  lemma NoTailOfNothing(v: Variant)
    ensures !NoTailOf(v, 0) && BlockOf(v) > 1
  {
  }

  lemma FaultIs(v: Variant, p: string, x: char)
    ensures HasFaultAtAny(v, p, x) <==> FirstFault(v, p, x)
  {
    hide InAlphabet, IsSymbol, TakesPadding, Variant.IsPaddingSymbol;
    TablesAgree(v);
    forall i: nat ensures HasFault(v, p, i, x) <==>
      i < |p| && p[i] == x && AllInAlphabet(v, p[..i]) && !InAlphabet(v, x) && !v.IsPaddingSymbol(x)
    {
      FaultAt(v, p, i, x);
    }
  }

  lemma FaultAt(v: Variant, p: string, i: nat, x: char)
    ensures HasFault(v, p, i, x) <==>
      i < |p| && p[i] == x && AllInAlphabet(v, p[..i]) && !InAlphabet(v, x) && !v.IsPaddingSymbol(x)
  {
    hide InAlphabet, IsSymbol, TakesPadding, Variant.IsPaddingSymbol;
    TablesAgree(v);
    SymbolsAreThose(v, x);
    if i < |p| {
      forall j | 0 <= j < i ensures IsSymbol(v, p[j]) <==> InAlphabet(v, p[..i][j]) { SymbolsAreThose(v, p[j]); }
    }
  }

  lemma SomeTextIs(v: Variant, p: string)
    ensures IsTextWithAny(v, p) <==> Accepts(v, p)
  {
    hide IsText, Acceptable;
    forall k: nat ensures IsText(v, p, k) <==> Acceptable(v, p, k) { TextIs(v, p, k); }
    if k: nat :| Acceptable(v, p, k) { assert IsText(v, p, k); }
  }

  lemma SomeBadTailIs(v: Variant, p: string, t: nat)
    ensures HasBadTailWithAny(v, p, t) <==> LengthFault(v, p, t)
  {
    hide HasBadTail, LengthFaultAt;
    forall k: nat ensures HasBadTail(v, p, k, t) <==> LengthFaultAt(v, p, t, k) { BadTailIs(v, p, k, t); }
    if k: nat :| LengthFaultAt(v, p, t, k) { assert HasBadTail(v, p, k, t); }
  }

  lemma SaysIs(v: Variant, p: string, e: Option<ParseError>)
    ensures Says(v, p, e) <==> ErrorOf(v, p, e)
  {
    hide IsTextWithAny, Accepts, HasFaultAtAny, FirstFault, HasBadTailWithAny, LengthFault;
    SomeTextIs(v, p);
    forall x ensures HasFaultAtAny(v, p, x) <==> FirstFault(v, p, x) { FaultIs(v, p, x); }
    forall t: nat ensures HasBadTailWithAny(v, p, t) <==> LengthFault(v, p, t) { SomeBadTailIs(v, p, t); }
  }

  /** The outcome of decode for every text and every variant, success and each exception, by the tables alone. */
  lemma OutcomeByTheTables(v: Variant, s: string, e: Option<ParseError>)
    ensures Decode(v, s).error == e <==> Says(v, Shown(v, s), e)
  {
    hide Decode, Visible, Shown, Says, ErrorOf;
    VisibleIsShown(v, s);
    ErrorsTellTheFault(v, s, e);
    SaysIs(v, Shown(v, s), e);
  }

  // ---- what encode writes ----

  /** How many '=' end the encoding of n bytes. */
  function PaddingNumber(v: Variant, n: nat): nat {
    match v
    case Base64Rfc4648 | Base64Url => if n % 3 == 0 then 0 else 3 - n % 3
    case Base32Rfc4648 | Base32Hex =>
      if n % 5 == 0 then 0 else if n % 5 == 1 then 6 else if n % 5 == 2 then 4 else if n % 5 == 3 then 3 else 1
    case Base64UrlUnpadded | Base32Crockford | HexLower | HexUpper => 0
  }

  /** As many symbols as it takes to hold the bits of n bytes. */
  function SymbolNumber(v: Variant, n: nat): nat { (8 * n + BitsOf(v) - 1) / BitsOf(v) }

  /** Character x of the alphabet, and its bits are these of the input, most significant first. */
  ghost predicate IsSlice(v: Variant, b: seq<bv8>, c: char, from: nat) {
    exists x: nat :: x < |Alphabet(v)| && c == Alphabet(v)[x] && HasBits(v, b, x, from)
  }

  ghost predicate HasBits(v: Variant, b: seq<bv8>, x: nat, from: nat) {
    x < 64 && forall i: nat :: i < BitsPerDigit(v.Layout()) ==> HasBit(v, b, x, from, i)
  }

  ghost predicate HasBit(v: Variant, b: seq<bv8>, x: nat, from: nat, i: nat)
    requires x < 64 && i < BitsPerDigit(v.Layout())
  {
    DigitBit(v.Layout(), x as bv8, i) <==> ByteBit(b, from + i)
  }

  lemma {:induction false} DigitCount(v: Variant, b: seq<bv8>)
    ensures |EncodeDigits(v.Layout(), b)| == SymbolNumber(v, |b|)
  {
    hide BlockDigits, TailDigits, BitsOf;
    var c := v.Layout();
    var n := c.BinaryBlockSize();
    if |b| >= n {
      DigitCount(v, b[n..]);
      SymbolsOfBlock(v, |b|);
    } else {
      SymbolsOfTail(v, |b|);
    }
  }

  lemma SymbolsOfBlock(v: Variant, n: nat)
    requires n >= v.Layout().BinaryBlockSize()
    ensures SymbolNumber(v, n) == v.Layout().EncodedBlockSize() + SymbolNumber(v, n - v.Layout().BinaryBlockSize())
  {
    match v.Layout() case Base64 => case Base32 => case Hex =>
  }

  lemma SymbolsOfTail(v: Variant, n: nat)
    requires n < v.Layout().BinaryBlockSize()
    ensures SymbolNumber(v, n) == if n == 0 then 0 else NumEncodedTailSymbols(v.Layout(), n)
  {
    match v.Layout() case Base64 => case Base32 => case Hex =>
  }

  lemma {:induction false} PaddingIsThat(v: Variant, n: nat)
    ensures PaddingAfter(v, Leftover(v.Layout(), SymbolNumber(v, n))) == PaddingNumber(v, n)
  {
    hide Leftover, SymbolNumber;
    var c := v.Layout();
    if n >= c.BinaryBlockSize() {
      PaddingIsThat(v, n - c.BinaryBlockSize());
      SymbolsOfBlock(v, n);
      LeftoverOfBlockAnd(c, SymbolNumber(v, n - c.BinaryBlockSize()));
      PaddingOfBlock(v, n);
    } else {
      SymbolsOfTail(v, n);
      ShortLeftover(c, SymbolNumber(v, n));
    }
  }

  lemma {:induction false} ShortLeftover(c: Codec, n: nat)
    ensures n < c.EncodedBlockSize() ==> Leftover(c, n) == n
  {
  }

  lemma PaddingOfBlock(v: Variant, n: nat)
    requires n >= v.Layout().BinaryBlockSize()
    ensures PaddingNumber(v, n) == PaddingNumber(v, n - v.Layout().BinaryBlockSize())
  {
  }

  /** What encode writes, for every variant: slice after slice of the input's bits, and the '=' of the variant. */
  lemma {:induction false} EncodesByTheTables(v: Variant, b: seq<bv8>)
    ensures var s := Encode(v, b); var n := SymbolNumber(v, |b|);
      && |s| == n + PaddingNumber(v, |b|)
      && (forall i :: 0 <= i < n ==> IsSlice(v, b, s[i], i * BitsOf(v)))
      && forall i :: n <= i < |s| ==> s[i] == '='
  {
    hide Encode, EncodeDigits, SymbolNumber, PaddingNumber, IsSlice, Variant.Layout, BelowRadix, PaddingAfter, BitsOf;
    hide Leftover, SymbolOf;
    var c := v.Layout();
    var d := EncodeDigits(c, b);
    EncodeShape(v, b);
    DigitCount(v, b);
    PaddingIsThat(v, |b|);
    forall i | 0 <= i < |d| ensures IsSlice(v, b, SymbolOf(v, d[i]), i * BitsOf(v)) { SymbolIsSlice(v, b, i); }
  }

  lemma {:induction false} SymbolIsSlice(v: Variant, b: seq<bv8>, k: nat)
    requires k < |EncodeDigits(v.Layout(), b)| && BelowRadix(v.Layout(), EncodeDigits(v.Layout(), b)[k])
    ensures IsSlice(v, b, SymbolOf(v, EncodeDigits(v.Layout(), b)[k]), k * BitsOf(v))
  {
    hide EncodeDigits, Alphabet, Variant.Layout, Variant.Symbol, DigitBit, ByteBit, BelowRadix, BitsOf, Codec.Radix;
    var c := v.Layout();
    var x := EncodeDigits(c, b)[k];
    BelowRadixAsNumber(c, x);
    RadixIsSmall(c);
    SymbolsAreTheAlphabet(v, x as nat);
    TablesAgree(v);
    var n, from := x as nat, k * BitsOf(v);
    forall i: nat | i < BitsPerDigit(c) ensures HasBit(v, b, n, from, i) { EncodedDigitIsBits(c, b, k, i); }
    assert HasBits(v, b, n, from);
  }

  lemma RadixIsSmall(c: Codec)
    ensures c.Radix() <= 64
  {
  }

  // ---- what decode reads ----

  /** Bit j of the output is a bit of the number that character j / w stands for. */
  ghost predicate ReadsBit(v: Variant, p: string, out: seq<bv8>, j: nat) {
    var w := BitsPerDigit(v.Layout());
    j / w < |p| && forall x: nat :: StandsFor(v, p[j / w], x) ==>
      x < 64 && (ByteBit(out, j) <==> DigitBit(v.Layout(), x as bv8, j % w))
  }

  /** All whole bytes that the symbols p hold, bit by bit. */
  ghost predicate ReadsAs(v: Variant, p: string, out: seq<bv8>) {
    |out| == |p| * BitsOf(v) / 8 && forall j: nat :: j < 8 * |out| ==> ReadsBit(v, p, out, j)
  }

  /** The value of an accepted text, bit by bit, by the tables alone. */
  lemma {:induction false} DecodesByTheTables(v: Variant, s: string, k: nat)
    requires IsText(v, Shown(v, s), k)
    ensures var p := Shown(v, s); k <= |p| && ReadsAs(v, p[..|p| - k], Decode(v, s).bytes)
  {
    hide Decode, Visible, Shown, IsText, Acceptable, DataLength, InAlphabet, DigitsOf, Value, DecodeParts, AllPadding;
    hide BitsOf, ReadsBit, Variant.Layout, Decodable, BytesIn;
    var p := Shown(v, s);
    VisibleIsShown(v, s);
    TextIs(v, p, k);
    AcceptableIsTheSplit(v, p, k);
    var data, r := p[..|p| - k], p[|p| - k..];
    SplitFacts(v, p);
    DecodeIsParts(v, s, data, r);
    AcceptableParts(v, data, r);
    assert p == data + r;
    AcceptedValue(v, data, r);
    var c, d := v.Layout(), DigitsOf(v, data);
    ValueSize(c, d);
    BytesByBits(v, |d|);
    forall j: nat | j < 8 * |Value(c, d)| ensures ReadsBit(v, data, Value(c, d), j) { ValueReadsBit(v, data, j); }
  }

  lemma BytesByBits(v: Variant, n: nat)
    ensures BytesIn(v.Layout(), n) == n * BitsOf(v) / 8
  {
    match v.Layout() case Base64 => case Base32 => case Hex =>
  }

  lemma ValueReadsBit(v: Variant, data: string, j: nat)
    requires AllInAlphabet(v, data) && Decodable(v.Layout(), DigitsOf(v, data))
    requires j < 8 * |Value(v.Layout(), DigitsOf(v, data))|
    ensures ReadsBit(v, data, Value(v.Layout(), DigitsOf(v, data)), j)
  {
    hide InAlphabet, AllInAlphabet, Value, Decodable, BelowRadix, Variant.Layout, Variant.Symbol;
    hide DigitsOf, DigitBit, ByteBit, BitsPerDigit, StandsFor, Symbols, BytesIn, NormalizedText;
    var c, d := v.Layout(), DigitsOf(v, data);
    SymbolsOfDigits(v, data);
    ValueBit(c, d, j);
    DigitIs(v, data, j / BitsPerDigit(c));
  }

  lemma DigitIs(v: Variant, data: string, k: nat)
    requires AllInAlphabet(v, data) && k < |data|
    ensures forall x: nat :: StandsFor(v, data[k], x) ==> x < 64 && x as bv8 == DigitsOf(v, data)[k]
  {
    hide InAlphabet, IndexOf, StandsFor, Variant.Layout, Codec.Radix;
    forall x: nat | StandsFor(v, data[k], x) ensures x < 64 && x as bv8 == DigitsOf(v, data)[k] {
      TableIsPrinted(v, data[k], x);
      IndexClasses(v, data[k]);
      RadixIsSmall(v.Layout());
    }
  }

  /** Bit j of a value is the bit at that place of its digits. */
  lemma ValueBit(c: Codec, d: Digits, j: nat)
    requires Decodable(c, d) && AllBelowRadix(c, d) && j < 8 * |Value(c, d)|
    ensures var w := BitsPerDigit(c);
      w > 0 && j / w < |d| && j % w < w && ByteBit(Value(c, d), j) == DigitBit(c, d[j / w], j % w)
  {
    hide Value, Decodable, Canonical, EncodeDigits, BelowRadix, BytesIn, DigitBit, ByteBit, BitsPerDigit;
    var w := BitsPerDigit(c);
    ValueSize(c, d);
    DigitOfBit(c, |d|, j);
    EncodeDigitsInvertValue(c, d);
    EncodedDigitIsBits(c, Value(c, d), j / w, j % w) by { CanonicalKeepsBit(c, d, j); }
    CanonicalKeepsBit(c, d, j);
  }

  /** The bits of whole bytes lie within the digits. */
  lemma DigitOfBit(c: Codec, n: nat, j: nat)
    requires j < 8 * BytesIn(c, n)
    ensures var w := BitsPerDigit(c); w > 0 && j / w < n && j % w < w && j / w * w + j % w == j
  {
    match c case Base64 => case Base32 => case Hex =>
  }

  /** And clearing the unused bits leaves them alone. */
  lemma CanonicalKeepsBit(c: Codec, d: Digits, j: nat)
    requires Decodable(c, d) && j < 8 * BytesIn(c, |d|)
    ensures var w := BitsPerDigit(c);
      w > 0 && j / w < |d| == |Canonical(c, d)|
          && DigitBit(c, Canonical(c, d)[j / w], j % w) == DigitBit(c, d[j / w], j % w)
  {
    hide Canonical, ClearBits, UnusedMask, DigitBit, Leftover, TailAccepted;
    var w := BitsPerDigit(c);
    DigitOfBit(c, |d|, j);
    CanonicalShape(c, d);
    var t := Leftover(c, |d|);
    if t > 0 && j / w == |d| - 1 {
      LastBits(c, |d|, j);
      MaskKeepsBit(c, t, d[|d| - 1], j % w);
    }
  }

  /** Which bits of the last digit of a tail are used. */
  function UsedBits(c: Codec, t: nat): nat {
    match c
    case Base64 => if t == 2 then 2 else 4
    case Base32 => if t == 2 then 3 else if t == 4 then 1 else if t == 5 then 4 else 2
    case Hex => 4
  }

  lemma {:induction false} LastBits(c: Codec, n: nat, j: nat)
    requires j < 8 * BytesIn(c, n) && j / BitsPerDigit(c) == n - 1
    requires Leftover(c, n) > 0 && TailAccepted(c, Leftover(c, n))
    ensures j % BitsPerDigit(c) < UsedBits(c, Leftover(c, n))
  {
    hide Leftover, BytesIn, UsedBits, TailAccepted;
    var t, w := Leftover(c, n), BitsPerDigit(c);
    BytesInSplits(c, n);
    LeftoverIsModulo(c, n);
    BitOfTail(c, n, t, j);
    LastBitsOfTail(c, t, j % w);
  }

  /** The whole blocks before a tail hold as many bits in symbols as in bytes. */
  lemma BitOfTail(c: Codec, n: nat, t: nat, j: nat)
    requires n % c.EncodedBlockSize() == t > 0 && j / BitsPerDigit(c) == n - 1
    requires j < 8 * (n / c.EncodedBlockSize() * c.BinaryBlockSize() + BytesIn(c, t))
    ensures (t - 1) * BitsPerDigit(c) + j % BitsPerDigit(c) < 8 * BytesIn(c, t)
  {
    hide BytesIn;
    match c case Base64 => case Base32 => case Hex =>
  }

  lemma LastBitsOfTail(c: Codec, t: nat, i: nat)
    requires TailAccepted(c, t) && (t - 1) * BitsPerDigit(c) + i < 8 * BytesIn(c, t)
    ensures i < UsedBits(c, t)
  {
  }

  lemma MaskKeepsBit(c: Codec, t: nat, x: bv8, i: nat)
    requires TailAccepted(c, t) && i < UsedBits(c, t) && i < BitsPerDigit(c)
    ensures DigitBit(c, ClearBits(x, UnusedMask(c, t)), i) == DigitBit(c, x, i)
  {
  }

  // ---- the bound on the size is sharp ----

  lemma {:induction false} VisibleBeforeHyphen(s: string)
    requires forall i :: 0 <= i < |s| ==> s[i] != '\0' && s[i] != '-'
    ensures Visible(Base32Crockford, s + "-") == s
  {
    if s == "" {
      assert s + "-" == "-" && "-"[1..] == "";
    } else {
      assert (s + "-")[0] == s[0] && (s + "-")[1..] == s[1..] + "-";
      VisibleBeforeHyphen(s[1..]);
      assert s == [s[0]] + s[1..];
    }
  }

  /** n times the first symbol. */
  lemma Zeros(v: Variant, n: nat) returns (data: string)
    ensures |data| == n && AllInAlphabet(v, data) && Decode(v, data) == DecodeParts(v, data, "")
    ensures v == Base32Crockford ==> Decode(v, data + "-") == DecodeParts(v, data, "")
  {
    hide InAlphabet, DecodeParts, Decode, Visible, DigitsOf, SymbolOf;
    var d: Digits := seq(n, _ => 0);
    ZeroIsDigit(v.Layout());
    assert AllBelowRadix(v.Layout(), d);
    data := Symbols(v, d);
    SymbolsReadBack(v, d);
    SymbolsAndPaddingAreVisible(v, data, 0);
    assert data + Padding(0) == data && Padding(0) == "";
    if v == Base32Crockford {
      HyphenIsIgnored();
      VisibleBeforeHyphen(data);
      assert data + "" == data;
      DecodeIsParts(v, data + "-", data, "");
    }
  }

  lemma ZeroIsDigit(c: Codec)
    ensures BelowRadix(c, 0)
  {
  }

  lemma HyphenIsIgnored()
    ensures Base32Crockford.ShouldIgnore('-')
  {
  }

  /** Symbols without padding: all bytes of a legal tail, and otherwise those of the whole blocks. */
  lemma {:induction false} UnpaddedSize(v: Variant, data: string)
    requires AllInAlphabet(v, data)
    ensures var c := v.Layout(); var t := Leftover(c, |data|);
      |DecodeParts(v, data, "").bytes|
        == BytesIn(c, if !v.RequiresPadding() && TailAccepted(c, t) then |data| else |data| - t)
  {
    hide InAlphabet, DigitsOf, WholeBlocks, DecodeTail, TailAccepted, Leftover, BytesIn, Variant.Layout;
    hide Codec.EncodedBlockSize, Codec.BinaryBlockSize;
    var c, d := v.Layout(), DigitsOf(v, data);
    var t := Leftover(c, |d|);
    WholeBlocksSize(c, d);
    BytesInUnfolds(c, |d| - t);
    BytesInSplits(c, |d|);
    if TailAccepted(c, t) { TailSize(c, d[|d| - t..]); TailIsNotEmpty(c, t); }
  }

  lemma TailIsNotEmpty(c: Codec, t: nat)
    ensures TailAccepted(c, t) ==> t > 0
  {
  }

  /** A symbol that no tail may end with holds no byte of its own. */
  lemma WastedSymbol(c: Codec, t: nat)
    requires t < c.EncodedBlockSize() && !TailAccepted(c, t)
    ensures t <= 1 ==> BytesIn(c, t) == 0
    ensures t > 1 ==> c == Base32 && TailAccepted(c, t - 1) && BytesIn(c, t) == BytesIn(c, t - 1)
  {
  }

  lemma {:induction false} LeftoverOfOneLess(c: Codec, n: nat)
    requires Leftover(c, n) > 0
    ensures n > 0 && Leftover(c, n - 1) == Leftover(c, n) - 1
  {
    hide Codec.EncodedBlockSize;
    if n >= c.EncodedBlockSize() { LeftoverOfOneLess(c, n - c.EncodedBlockSize()); }
  }

  /** decoded_max_size is reached by a text of every length, if need be by one with a hyphen in it. */
  lemma SizeBoundIsReached(v: Variant, n: nat) returns (s: string)
    ensures |s| == n && |Decode(v, s).bytes| == DecodedMaxSize(v, n)
  {
    hide InAlphabet, DecodeParts, Decode, DecodedMaxSize, Leftover, BytesIn, TailAccepted, Variant.Layout;
    hide Codec.EncodedBlockSize, Codec.BinaryBlockSize;
    var c := v.Layout();
    var t := Leftover(c, n);
    MaxSizeIsBytesIn(v, n);
    BytesInSplits(c, n);
    BytesInUnfolds(c, 0);
    s := Zeros(v, n);
    UnpaddedSize(v, s);
    if !v.RequiresPadding() && !TailAccepted(c, t) {
      WastedSymbol(c, t);
      if t > 1 {
        UnpaddedBase32(v);
        LeftoverOfOneLess(c, n);
        BytesInSplits(c, n - 1);
        s := Zeros(v, n - 1);
        UnpaddedSize(v, s);
        s := s + "-";
      }
    }
  }

  lemma UnpaddedBase32(v: Variant)
    ensures v.Layout() == Base32 && !v.RequiresPadding() ==> v == Base32Crockford
  {
  }

  // ---- texts that read alike ----

  predicate MayBeSkipped(v: Variant, c: char) { v == Base32Crockford && c == '-' }

  ghost predicate SameSymbol(v: Variant, c: char, d: char) {
    c == d || exists i :: StandsFor(v, c, i) && StandsFor(v, d, i)
  }

  /** Two texts that differ only in hyphens that count for nothing, and in characters that stand for the same. */
  ghost predicate Alike(v: Variant, s: string, t: string)
    decreases |s| + |t|
  {
    || (s == t == "")
    || (s != "" && MayBeSkipped(v, s[0]) && Alike(v, s[1..], t))
    || (t != "" && MayBeSkipped(v, t[0]) && Alike(v, s, t[1..]))
    || (s != "" && t != "" && SameSymbol(v, s[0], t[0]) && Alike(v, s[1..], t[1..]))
  }

  lemma SameNormalized(v: Variant, c: char, d: char)
    requires SameSymbol(v, c, d)
    ensures v.NormalizedSymbol(c) == v.NormalizedSymbol(d) && v.ShouldIgnore(c) == v.ShouldIgnore(d)
  {
    hide StandsFor, InAlphabet, IndexOf, Variant.NormalizedSymbol, Variant.Symbol, Variant.ShouldIgnore;
    if i :| StandsFor(v, c, i) && StandsFor(v, d, i) {
      TableIsPrinted(v, c, i);
      TableIsPrinted(v, d, i);
      SymbolAtIndex(v, c);
      SymbolAtIndex(v, d);
      IndexClasses(v, c);
      IndexClasses(v, d);
    }
  }

  lemma {:induction false} AlikeAreCleanedAlike(v: Variant, s: string, t: string)
    requires Alike(v, s, t)
    ensures Cleaned(v, s) == Cleaned(v, t)
    decreases |s| + |t|
  {
    hide Cleaned, SameSymbol, Variant.NormalizedSymbol;
    if s != "" { CleanedUnfolds(v, s); }
    if t != "" { CleanedUnfolds(v, t); }
    if s == t == "" {
    } else if s != "" && MayBeSkipped(v, s[0]) && Alike(v, s[1..], t) {
      AlikeAreCleanedAlike(v, s[1..], t);
    } else if t != "" && MayBeSkipped(v, t[0]) && Alike(v, s, t[1..]) {
      AlikeAreCleanedAlike(v, s, t[1..]);
    } else {
      AlikeAreCleanedAlike(v, s[1..], t[1..]);
      SameNormalized(v, s[0], t[0]);
    }
  }

  /** Such texts decode alike: to the same bytes, and both with or both without an exception. */
  lemma {:induction false} AlikeDecodeAlike(v: Variant, s: string, t: string)
    requires Alike(v, s, t)
    ensures Decode(v, s).bytes == Decode(v, t).bytes
    ensures Decode(v, s).error == None <==> Decode(v, t).error == None
  {
    hide Decode, Cleaned, Alike;
    AlikeAreCleanedAlike(v, s, t);
    Leniency(v, s);
    Leniency(v, t);
  }
}
