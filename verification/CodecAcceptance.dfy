/** Which texts decode, how long results are, and how far a decoded text is from the canonical one. */
module CodecAcceptance {
  import opened Wrappers
  import opened CodecVariants
  import opened CodecBits
  import opened StreamCodec
  import opened CodecTheorems

  // ---- exact acceptance where padding is required ----

  /** How many '=' may close a text: those that complete a legal tail, or none. */
  predicate PaddingCount(c: Codec, k: nat) {
    match c
    case Base64 => k <= 2
    case Base32 => k == 0 || k == 1 || k == 3 || k == 4 || k == 6
    case Hex => k == 0
  }

  /** RFC 4648: whole blocks of alphabet symbols, the last of which may end in k '='. */
  ghost predicate WellFormed(v: Variant, p: string, k: nat) {
    && Leftover(v.Layout(), |p|) == 0  // a whole number of blocks
    && k <= |p| && PaddingCount(v.Layout(), k)
    && AllInAlphabet(v, p[..|p| - k]) && AllPadding(p[|p| - k..])
  }

  function UpToNul(s: string): string {
    if s == "" || s[0] == '\0' then "" else [s[0]] + UpToNul(s[1..])
  }

  lemma {:induction false} VisibleIsUpToNul(v: Variant, s: string)
    requires v.AllowsPadding()
    ensures Visible(v, s) == UpToNul(s)
  {
    if s != "" { VisibleIsUpToNul(v, s[1..]); }
  }

  lemma {:induction false} LeftoverOfBase64(n: nat)
    ensures Leftover(Base64, n) == n % 4
  {
    if n >= 4 { LeftoverOfBase64(n - 4); }
  }

  lemma {:induction false} LeftoverOfBase32(n: nat)
    ensures Leftover(Base32, n) == n % 8
  {
    if n >= 8 { LeftoverOfBase32(n - 8); }
  }

  lemma {:induction false} LeftoverOfHex(n: nat)
    ensures Leftover(Hex, n) == n % 2
  {
    if n >= 2 { LeftoverOfHex(n - 2); }
  }

  lemma {:induction false} LeftoverIsModulo(c: Codec, n: nat)
    ensures Leftover(c, n) == n % c.EncodedBlockSize()
  {
    hide Leftover;
    match c
    case Base64 => LeftoverOfBase64(n);
    case Base32 => LeftoverOfBase32(n);
    case Hex => LeftoverOfHex(n);
  }

  lemma {:induction false} PaddingCompletes(c: Codec, n: nat, k: nat)
    requires k < c.EncodedBlockSize()
    ensures Leftover(c, n + k) == 0 <==> Leftover(c, n) == if k == 0 then 0 else c.EncodedBlockSize() - k
  {
    hide Codec.EncodedBlockSize;
    if n >= c.EncodedBlockSize() { PaddingCompletes(c, n - c.EncodedBlockSize(), k); }
  }

  lemma TailsAndPadding(c: Codec, t: nat)
    requires t < c.EncodedBlockSize()
    ensures t == 0 || TailAccepted(c, t) <==> PaddingCount(c, if t == 0 then 0 else c.EncodedBlockSize() - t)
  {
  }

  /** Acceptance in terms of the split into symbols and rest. */
  lemma AcceptedParts(v: Variant, data: string, r: string)
    requires v.RequiresPadding() && AllInAlphabet(v, data) && (r == "" || !InAlphabet(v, r[0]))
    ensures DecodeParts(v, data, r).error == None <==> WellFormed(v, data + r, |r|)
  {
    hide InAlphabet, WholeBlocks, DecodeTail, TailAccepted, Leftover, DigitsOf, Variant.Layout, Codec.EncodedBlockSize;
    var c := v.Layout();
    var t := Leftover(c, |data|);
    assert (data + r)[..|data|] == data && (data + r)[|data|..] == r;
    TailsAndPadding(c, t);
    if |r| < c.EncodedBlockSize() {
      PaddingCompletes(c, |data|, |r|);
    } else {
      PaddingCountIsShort(c, |r|);
    }
  }

  lemma PaddingCountIsShort(c: Codec, k: nat)
    requires k >= c.EncodedBlockSize()
    ensures !PaddingCount(c, k)
  {
  }

  lemma {:induction false} WellFormedIsTheSplit(v: Variant, p: string, k: nat)
    requires v.AllowsPadding() && WellFormed(v, p, k)
    ensures DataLength(v, p) == |p| - k
  {
    hide InAlphabet, IndexOf, Variant.Layout, Codec.EncodedBlockSize;
    IndexClasses(v, '=');
    DataLengthIs(v, p[..|p| - k], p[|p| - k..]);
    assert p[..|p| - k] + p[|p| - k..] == p;
  }

  /** For the padded variants, decode accepts exactly the well-formed texts before the first NUL. */
  lemma {:induction false} ExactAcceptance(v: Variant, s: string)
    requires v.RequiresPadding()
    ensures Decode(v, s).error == None <==> exists k :: WellFormed(v, UpToNul(s), k)
  {
    hide InAlphabet, DecodeParts, WellFormed, Variant.Layout, Codec.EncodedBlockSize, Visible, UpToNul;
    var p := UpToNul(s);
    VisibleIsUpToNul(v, s);
    var n := DataLength(v, p);
    assert p[..n] + p[n..] == p;
    AcceptedParts(v, p[..n], p[n..]);
    if k :| WellFormed(v, p, k) {
      WellFormedIsTheSplit(v, p, k);
      assert |p[n..]| == k;
    }
  }

  /** Symbols that fill whole blocks and a legal tail, and the '=' that the variant demands or allows after a tail. */
  ghost predicate Acceptable(v: Variant, p: string, k: nat) {
    var c := v.Layout();
    k <= |p| && AllInAlphabet(v, p[..|p| - k]) && AllPadding(p[|p| - k..]) &&
    var t := Leftover(c, |p| - k);
    if t == 0 then k == 0
    else
      && TailAccepted(c, t)
      && if k == 0 then !v.RequiresPadding() else v.AllowsPadding() && t + k == c.EncodedBlockSize()
  }

  ghost predicate Accepts(v: Variant, p: string) { exists k :: Acceptable(v, p, k) }

  lemma AcceptableParts(v: Variant, data: string, r: string)
    requires AllInAlphabet(v, data) && (r == "" || !InAlphabet(v, r[0]))
    ensures DecodeParts(v, data, r).error == None <==> Acceptable(v, data + r, |r|)
  {
    hide InAlphabet, WholeBlocks, DecodeTail, TailAccepted, Leftover, DigitsOf, Variant.Layout, Codec.EncodedBlockSize;
    assert (data + r)[..|data|] == data && (data + r)[|data|..] == r;
  }

  lemma {:induction false} AcceptableIsTheSplit(v: Variant, p: string, k: nat)
    requires Acceptable(v, p, k)
    ensures DataLength(v, p) == |p| - k
  {
    hide InAlphabet, IndexOf, Variant.Layout, Codec.EncodedBlockSize, TailAccepted, Leftover;
    IndexClasses(v, '=');
    DataLengthIs(v, p[..|p| - k], p[|p| - k..]);
    assert p[..|p| - k] + p[|p| - k..] == p;
  }

  /** The same for all eight variants: odd hex and base32 tails of 1, 3 or 6 symbols are among what is refused. */
  lemma {:induction false} AcceptanceOfEveryVariant(v: Variant, s: string)
    ensures Decode(v, s).error == None <==> Accepts(v, Visible(v, s))
  {
    hide InAlphabet, DecodeParts, Acceptable, Variant.Layout, Codec.EncodedBlockSize, Visible;
    var p := Visible(v, s);
    var n := DataLength(v, p);
    assert p[..n] + p[n..] == p;
    AcceptableParts(v, p[..n], p[n..]);
    assert DecodeParts(v, p[..n], p[n..]).error == None <==> Acceptable(v, p, |p[n..]|);
    if k :| Acceptable(v, p, k) {
      AcceptableIsTheSplit(v, p, k);
      assert |p[n..]| == k;
    }
  }

  /** No tail of bytes is encoded to t symbols. */
  ghost predicate NoSuchTail(c: Codec, t: nat) {
    forall b: seq<bv8> :: 0 < |b| < c.BinaryBlockSize() ==> |TailDigits(c, b)| != t
  }

  lemma {:induction false} RefusedTailsAreNoTails(c: Codec, t: nat)
    requires 0 < t < c.EncodedBlockSize()
    ensures TailAccepted(c, t) <==> !NoSuchTail(c, t)
  {
    if TailAccepted(c, t) {
      var x: Digits := seq(t, _ => 0);
      var b := DecodeTail(c, x);
      assert |TailDigits(c, b)| == t;
    } else {
      forall b: seq<bv8> | 0 < |b| < c.BinaryBlockSize() ensures |TailDigits(c, b)| != t { TailsAreLegal(c, b); }
    }
  }

  /** Some number of '=' after these symbols makes them decode. */
  ghost predicate Curable(v: Variant, data: string) {
    exists k: nat :: Decode(v, data + Padding(k)).error == None
  }

  lemma {:induction false} EqualsIsNoSymbol(v: Variant)
    ensures !InAlphabet(v, '=')
  {
    hide Variant.Symbol;
    SearchFindsTheFirst(v, v.NormalizedSymbol('='), 0);
    var k := Search(v, v.NormalizedSymbol('='), 0);
    NormalizingKeepsSpecials(v, '=');
    if k != INVALID_IDX { SymbolsAreOrdinary(v, k); }
  }

  lemma {:induction false} SymbolsAndPaddingAreVisible(v: Variant, data: string, k: nat)
    requires AllInAlphabet(v, data)
    ensures Visible(v, data + Padding(k)) == data + Padding(k)
    ensures Decode(v, data + Padding(k)) == DecodeParts(v, data, Padding(k))
  {
    hide InAlphabet, IndexOf, Visible, DecodeParts, Decode, Variant.Layout;
    EqualsIsNoSymbol(v);
    var s := data + Padding(k);
    forall i | 0 <= i < |s| ensures s[i] != '\0' && !v.ShouldIgnore(s[i]) { IndexClasses(v, s[i]); }
    VisibleKeepsOrdinary(v, s);
    DecodeIsParts(v, s, data, Padding(k));
  }

  lemma {:induction false} CurableIffLegal(v: Variant, data: string)
    requires AllInAlphabet(v, data)
    ensures Curable(v, data) <==> Decodable(v.Layout(), DigitsOf(v, data))
  {
    hide InAlphabet, DecodeParts, Decode, TailAccepted, Leftover, DigitsOf, Acceptable, Variant.Layout;
    hide Codec.EncodedBlockSize;
    var c := v.Layout();
    if Decodable(c, DigitsOf(v, data)) {
      var k := PaddingAfter(v, Leftover(c, |data|));
      SymbolsAndPaddingAreVisible(v, data, k);
      PartsFullyPadded(v, data, k);
    }
    if Curable(v, data) {
      var k: nat :| Decode(v, data + Padding(k)).error == None;
      EqualsIsNoSymbol(v);
      SymbolsAndPaddingAreVisible(v, data, k);
      AcceptableParts(v, data, Padding(k));
      AcceptableIsDecodable(v, data, Padding(k));
    }
  }

  lemma {:induction false} AcceptableIsDecodable(v: Variant, data: string, r: string)
    requires AllInAlphabet(v, data) && Acceptable(v, data + r, |r|)
    ensures Decodable(v.Layout(), DigitsOf(v, data))
  {
    hide InAlphabet, TailAccepted, Leftover, DigitsOf, Variant.Layout, Codec.EncodedBlockSize;
  }

  /** x is the first character outside the alphabet, and no padding. */
  ghost predicate FirstFault(v: Variant, p: string, x: char) {
    exists i: nat :: i < |p| && p[i] == x && AllInAlphabet(v, p[..i]) && !InAlphabet(v, x) && !v.IsPaddingSymbol(x)
  }

  lemma {:induction false} FirstFaultIsEnd(v: Variant, p: string, i: nat)
    requires i < |p| && AllInAlphabet(v, p[..i]) && !InAlphabet(v, p[i])
    ensures DataLength(v, p) == i
  {
    hide InAlphabet;
    assert p[i..][0] == p[i];
    DataLengthIs(v, p[..i], p[i..]);
    assert p[..i] + p[i..] == p;
  }

  lemma {:induction false} EndIsFirstFault(v: Variant, p: string)
    requires var n := DataLength(v, p); n < |p| && !v.IsPaddingSymbol(p[n])
    ensures FirstFault(v, p, p[DataLength(v, p)])
  {
    hide InAlphabet, DataLength;
    var n := DataLength(v, p);
    assert AllInAlphabet(v, p[..n]);
  }

  lemma {:induction false} FirstFaultIs(v: Variant, p: string, x: char)
    ensures var n := DataLength(v, p);
      FirstFault(v, p, x) <==> n < |p| && x == p[n] && !v.IsPaddingSymbol(x)
  {
    hide InAlphabet, DataLength, Variant.IsPaddingSymbol;
    if FirstFault(v, p, x) {
      var i: nat :| i < |p| && p[i] == x && AllInAlphabet(v, p[..i]) && !InAlphabet(v, x) && !v.IsPaddingSymbol(x);
      FirstFaultIsEnd(v, p, i);
    }
    var n := DataLength(v, p);
    if n < |p| && !v.IsPaddingSymbol(p[n]) { EndIsFirstFault(v, p); }
  }

  /**
   * All that is wrong with p is that t symbols are left after the whole blocks; padding, if any, is as it should be.
   */
  ghost predicate LengthFault(v: Variant, p: string, t: nat) {
    exists k: nat :: LengthFaultAt(v, p, t, k)
  }

  ghost predicate LengthFaultAt(v: Variant, p: string, t: nat, k: nat) {
    var c := v.Layout();
    && k <= |p| && AllInAlphabet(v, p[..|p| - k]) && AllPadding(p[|p| - k..])
    && t == Leftover(c, |p| - k) && t > 0 && NoSuchTail(c, t)
    && if k == 0 then !v.RequiresPadding() else v.AllowsPadding() && t + k == c.EncodedBlockSize()
  }

  lemma {:induction false} LengthFaultIsTheSplit(v: Variant, p: string, t: nat, k: nat)
    requires LengthFaultAt(v, p, t, k)
    ensures DataLength(v, p) == |p| - k
  {
    hide InAlphabet, IndexOf, NoSuchTail, Leftover, Variant.Layout, Codec.EncodedBlockSize;
    EqualsIsNoSymbol(v);
    DataLengthIs(v, p[..|p| - k], p[|p| - k..]);
    assert p[..|p| - k] + p[|p| - k..] == p;
  }

  /** Length errors in terms of the split into symbols and rest. */
  lemma {:induction false} LengthErrorParts(v: Variant, data: string, r: string, t: nat)
    requires AllInAlphabet(v, data) && (r == "" || !InAlphabet(v, r[0]))
    ensures DecodeParts(v, data, r).error == Some(InvalidInputLength(t)) <==> LengthFaultAt(v, data + r, t, |r|)
  {
    hide InAlphabet, WholeBlocks, DecodeTail, TailAccepted, Leftover, DigitsOf, NoSuchTail;
    hide Variant.Layout, Codec.EncodedBlockSize;
    assert (data + r)[..|data|] == data && (data + r)[|data|..] == r;
    var n := Leftover(v.Layout(), |data|);
    if n > 0 { RefusedTailsAreNoTails(v.Layout(), n); }
  }

  lemma {:induction false} LengthErrorIff(v: Variant, s: string, t: nat)
    ensures Decode(v, s).error == Some(InvalidInputLength(t)) <==> LengthFault(v, Visible(v, s), t)
  {
    hide InAlphabet, DecodeParts, LengthFaultAt, Visible, DataLength;
    var p := Visible(v, s);
    SplitAtFault(v, p);
    var n := DataLength(v, p);
    LengthErrorParts(v, p[..n], p[n..], t);
    if LengthFault(v, p, t) {
      var k: nat :| LengthFaultAt(v, p, t, k);
      LengthFaultIsTheSplit(v, p, t, k);
      assert |p[n..]| == k;
    }
  }

  lemma {:induction false} SplitAtFault(v: Variant, p: string)
    ensures var n := DataLength(v, p);
      AllInAlphabet(v, p[..n]) && p[..n] + p[n..] == p && (p[n..] == "" || !InAlphabet(v, p[n..][0]))
  {
    hide InAlphabet;
  }

  /** Which error a text has, if any; the three conditions and acceptance exclude each other. */
  ghost predicate ErrorOf(v: Variant, p: string, e: Option<ParseError>) {
    match e
    case None => Accepts(v, p)
    case Some(SymbolError(x)) => FirstFault(v, p, x)
    case Some(InvalidInputLength(t)) => LengthFault(v, p, t)
    case Some(PaddingError) =>
      !Accepts(v, p) && (forall x :: !FirstFault(v, p, x)) && forall t :: !LengthFault(v, p, t)
  }

  lemma {:induction false} ErrorOfCases(v: Variant, p: string, d: Option<ParseError>, e: Option<ParseError>)
    requires d == None <==> Accepts(v, p)
    requires forall x :: d == Some(SymbolError(x)) <==> FirstFault(v, p, x)
    requires forall t :: d == Some(InvalidInputLength(t)) <==> LengthFault(v, p, t)
    ensures d == e <==> ErrorOf(v, p, e)
  {
    hide FirstFault, LengthFault, Accepts;
    match e {
      case Some(PaddingError) => {
        if d != None && d != e {
          match d.value {
            case SymbolError(x) => { assert FirstFault(v, p, x); }
            case InvalidInputLength(t) => { assert LengthFault(v, p, t); }
            case PaddingError => {}
          }
        }
      }
      case _ => {}
    }
  }

  /**
   * Exactly which exception is thrown, on the visible text: a symbol error names the first character outside the
   * alphabet, if that is no padding; a length error reports the symbols left over when nothing else is wrong and no
   * tail encodes to that many; a padding error is thrown for everything else that is not accepted.
   */
  lemma {:induction false} ErrorsTellTheFault(v: Variant, s: string, e: Option<ParseError>)
    ensures Decode(v, s).error == e <==> ErrorOf(v, Visible(v, s), e)
  {
    hide InAlphabet, DecodeParts, FirstFault, LengthFault, Accepts, Visible, Decode;
    var p := Visible(v, s);
    AcceptanceOfEveryVariant(v, s);
    forall x ensures Decode(v, s).error == Some(SymbolError(x)) <==> FirstFault(v, p, x) { SymbolErrorIff(v, s, x); }
    forall t ensures Decode(v, s).error == Some(InvalidInputLength(t)) <==> LengthFault(v, p, t) {
      LengthErrorIff(v, s, t);
    }
    ErrorOfCases(v, p, Decode(v, s).error, e);
  }

  lemma {:induction false} SymbolErrorIff(v: Variant, s: string, x: char)
    ensures Decode(v, s).error == Some(SymbolError(x)) <==> FirstFault(v, Visible(v, s), x)
  {
    hide InAlphabet, WholeBlocks, DecodeTail, TailAccepted, Leftover, DigitsOf, Visible, FirstFault;
    hide WellPadded, Variant.Layout, Codec.EncodedBlockSize;
    FirstFaultIs(v, Visible(v, s), x);
  }

  /**
   * What could have been done about it: after a length error no padding would have helped; a padding error needs a
   * variant with padding, and other padding would have helped unless the number of symbols is impossible as well.
   */
  lemma {:induction false} PaddingCures(v: Variant, s: string)
    ensures var p := Visible(v, s); var data := p[..DataLength(v, p)];
      var t := Leftover(v.Layout(), |data|); var e := Decode(v, s).error;
      && (forall k :: e == Some(InvalidInputLength(k)) ==> k == t && !Curable(v, data))
      && (e == Some(PaddingError) ==>
            v.AllowsPadding() && (Curable(v, data) <==> t == 0 || !NoSuchTail(v.Layout(), t)))
  {
    hide InAlphabet, WholeBlocks, DecodeTail, TailAccepted, Leftover, DigitsOf, Visible, NoSuchTail;
    hide Curable, Variant.Layout, Codec.EncodedBlockSize;
    var c := v.Layout();
    var p := Visible(v, s);
    var n := DataLength(v, p);
    assert |p[..n]| == n;
    CurableIffLegal(v, p[..n]);
    if Leftover(c, n) > 0 { RefusedTailsAreNoTails(c, Leftover(c, n)); }
  }

  // ---- sizes ----

  /** The two branches of stream_codec::encoded_size. */
  function SizeWithPadding(n: nat, b: nat, e: nat): int
    requires b > 0
  {
    (n + (b - 1) - (n + (b - 1)) % b) * e / b
  }

  function SizeWithoutPadding(n: nat, b: nat, e: nat): int
    requires b > 0
  {
    n * e / b + if (n * e) % b != 0 then 1 else 0
  }

  function EncodedSize(v: Variant, n: nat): int {
    var b, e := v.Layout().BinaryBlockSize(), v.Layout().EncodedBlockSize();
    if v.GeneratesPadding() then SizeWithPadding(n, b, e) else SizeWithoutPadding(n, b, e)
  }

  /** stream_codec::decoded_max_size. */
  function DecodedMaxSize(v: Variant, n: nat): nat {
    var b, e := v.Layout().BinaryBlockSize(), v.Layout().EncodedBlockSize();
    n / e * b + if v.RequiresPadding() then 0 else n % e * b / e
  }

  lemma SizeStep(c: Codec, n: nat)
    requires n >= c.BinaryBlockSize()
    ensures var b, e := c.BinaryBlockSize(), c.EncodedBlockSize();
      && SizeWithPadding(n, b, e) == e + SizeWithPadding(n - b, b, e)
      && SizeWithoutPadding(n, b, e) == e + SizeWithoutPadding(n - b, b, e)
  {
    match c
    case Base64 =>
      assert n * 4 == (n - 3) * 4 + 12;
      assert (n + 2) % 3 == (n - 3 + 2) % 3;
    case Base32 =>
      assert n * 8 == (n - 5) * 8 + 40;
      assert (n + 4) % 5 == (n - 5 + 4) % 5;
    case Hex =>
  }

  lemma SizeOfTail(c: Codec, n: nat)
    requires n < c.BinaryBlockSize()
    ensures var b, e := c.BinaryBlockSize(), c.EncodedBlockSize();
      && SizeWithPadding(n, b, e) == (if n == 0 then 0 else e)
      && SizeWithoutPadding(n, b, e) == if n == 0 then 0 else NumEncodedTailSymbols(c, n)
  {
    match c
    case Base64 =>
      assert n == 0 || n == 1 || n == 2;
    case Base32 =>
      assert n == 0 || n == 1 || n == 2 || n == 3 || n == 4;
    case Hex =>
  }

  /** encoded_size is exact. */
  lemma {:induction false} EncodedSizeIsExact(v: Variant, b: seq<bv8>)
    ensures |Encode(v, b)| == EncodedSize(v, |b|)
  {
    hide BlockSymbols, TailSymbols, SizeWithPadding, SizeWithoutPadding, NumEncodedTailSymbols;
    hide Variant.Layout, Codec.EncodedBlockSize, Codec.BinaryBlockSize;
    var n := v.Layout().BinaryBlockSize();
    if |b| >= n {
      SizeStep(v.Layout(), |b|);
      EncodedSizeIsExact(v, b[n..]);
    } else {
      SizeOfTail(v.Layout(), |b|);
    }
  }

  lemma BlockBound(c: Codec, n: nat)
    requires n >= c.EncodedBlockSize()
    ensures n * c.BinaryBlockSize() / c.EncodedBlockSize()
        == c.BinaryBlockSize() + (n - c.EncodedBlockSize()) * c.BinaryBlockSize() / c.EncodedBlockSize()
  {
    match c case Base64 => case Base32 => case Hex =>
  }

  lemma {:induction false} WholeBlocksSize(c: Codec, d: Digits)
    ensures |WholeBlocks(c, d)| == (|d| - Leftover(c, |d|)) * c.BinaryBlockSize() / c.EncodedBlockSize()
  {
    hide DecodeBlock, Codec.EncodedBlockSize, Codec.BinaryBlockSize;
    var e := c.EncodedBlockSize();
    if |d| >= e {
      WholeBlocksSize(c, d[e..]);
      BlockBound(c, |d| - Leftover(c, |d|));
    }
  }

  /** n symbols hold this many whole bytes. */
  function BytesIn(c: Codec, n: nat): nat {
    n * c.BinaryBlockSize() / c.EncodedBlockSize()
  }

  lemma BytesInOfParts(c: Codec, q: nat, t: nat)
    requires t < c.EncodedBlockSize()
    ensures BytesIn(c, c.EncodedBlockSize() * q + t) == c.BinaryBlockSize() * q + BytesIn(c, t)
    ensures BytesIn(c, 0) == 0
  {
    match c case Base64 => case Base32 => case Hex =>
  }

  lemma BytesInSplits(c: Codec, n: nat)
    ensures var t := Leftover(c, n);
      && BytesIn(c, n) == BytesIn(c, n - t) + BytesIn(c, t)
      && BytesIn(c, n - t) == n / c.EncodedBlockSize() * c.BinaryBlockSize()
      && BytesIn(c, n - t + c.EncodedBlockSize()) == BytesIn(c, n - t) + c.BinaryBlockSize()
  {
    hide Leftover, BytesIn;
    LeftoverIsModulo(c, n);
    var e := c.EncodedBlockSize();
    var q, t := n / e, n % e;
    assert n == e * q + t by { match c case Base64 => case Base32 => case Hex => }
    assert n - t + e == e * (q + 1) by { match c case Base64 => case Base32 => case Hex => }
    BytesInOfParts(c, q, t);
    BytesInOfParts(c, q, 0);
    BytesInOfParts(c, q + 1, 0);
  }

  lemma BytesInGrows(c: Codec, m: nat, n: nat)
    requires m <= n
    ensures BytesIn(c, m) <= BytesIn(c, n)
  {
    match c case Base64 => case Base32 => case Hex =>
  }

  lemma TailSize(c: Codec, x: Digits)
    requires TailAccepted(c, |x|)
    ensures |DecodeTail(c, x)| == BytesIn(c, |x|) < c.BinaryBlockSize()
  {
    hide DecodeTail;
    match c case Base64 => case Base32 => case Hex =>
  }

  lemma ValueSize(c: Codec, d: Digits)
    requires Decodable(c, d)
    ensures |Value(c, d)| == BytesIn(c, |d|)
  {
    hide DecodeTail, TailAccepted, WholeBlocks, Leftover, BytesIn, Codec.EncodedBlockSize, Codec.BinaryBlockSize;
    var t := Leftover(c, |d|);
    BytesInSplits(c, |d|);
    WholeBlocksSize(c, d);
    BytesInUnfolds(c, |d| - t);
    if t > 0 { TailSize(c, d[|d| - t..]); } else { BytesInUnfolds(c, 0); }
  }

  lemma BytesInUnfolds(c: Codec, n: nat)
    ensures BytesIn(c, n) == n * c.BinaryBlockSize() / c.EncodedBlockSize()
    ensures BytesIn(c, 0) == 0
  {
  }

  /** An accepted text yields exactly the bytes its symbols have room for. */
  lemma {:induction false} AcceptedSize(v: Variant, s: string, k: nat)
    requires v.RequiresPadding() && WellFormed(v, UpToNul(s), k)
    ensures |Decode(v, s).bytes| == BytesIn(v.Layout(), |UpToNul(s)| - k)
  {
    hide InAlphabet, DecodeParts, WellFormed, Variant.Layout, BytesIn, Value, DigitsOf, Decodable;
    var p := UpToNul(s);
    ExactAcceptance(v, s);
    VisibleIsUpToNul(v, s);
    WellFormedIsTheSplit(v, p, k);
    var n := |p| - k;
    AcceptedValue(v, p[..n], p[n..]);
    ValueSize(v.Layout(), DigitsOf(v, p[..n]));
  }

  lemma AcceptedValue(v: Variant, data: string, r: string)
    requires AllInAlphabet(v, data) && DecodeParts(v, data, r).error == None
    ensures Decodable(v.Layout(), DigitsOf(v, data))
    ensures DecodeParts(v, data, r).bytes == Value(v.Layout(), DigitsOf(v, data))
  {
    hide InAlphabet, WholeBlocks, DecodeTail, TailAccepted, Leftover, DigitsOf, Variant.Layout, Codec.EncodedBlockSize;
  }

  lemma {:induction false} VisibleIsNoLonger(v: Variant, s: string)
    ensures |Visible(v, s)| <= |s|
  {
    if s != "" { VisibleIsNoLonger(v, s[1..]); }
  }

  lemma PartsBound(v: Variant, data: string, r: string)
    requires AllInAlphabet(v, data)
    ensures |DecodeParts(v, data, r).bytes| <= DecodedMaxSize(v, |data| + |r|)
  {
    hide InAlphabet, WholeBlocks, DecodeTail, TailAccepted, Leftover, DigitsOf, Variant.Layout;
    hide Codec.EncodedBlockSize, Codec.BinaryBlockSize, BytesIn, DecodedMaxSize;
    var c := v.Layout();
    var n := |data|;
    var t := Leftover(c, n);
    MaxSizeIsBytesIn(v, n + |r|);
    BytesInSplits(c, n);
    WholeBlocksSize(c, DigitsOf(v, data));
    BytesInUnfolds(c, n - t);
    if DecodeParts(v, data, r).error == None && t > 0 {
      TailSize(c, DigitsOf(v, data)[n - t..]);
      if v.RequiresPadding() { MaxSizeGrows(v, n - t + c.EncodedBlockSize(), n + |r|); MaxSizeOfBlocks(v, n); }
    }
    MaxSizeGrows(v, n, n + |r|);
    MaxSizeIsBytesIn(v, n);
  }

  lemma {:induction false} MaxSizeOfBlocks(v: Variant, n: nat)
    ensures var c := v.Layout(); var whole := n - Leftover(c, n);
            DecodedMaxSize(v, whole + c.EncodedBlockSize()) >= BytesIn(c, whole) + c.BinaryBlockSize()
  {
    hide BytesIn, DecodedMaxSize, Codec.EncodedBlockSize, Codec.BinaryBlockSize, Variant.Layout;
    var c := v.Layout();
    var whole := n - Leftover(c, n);
    WholePartIsWhole(c, n);
    MaxSizeIsBytesIn(v, whole + c.EncodedBlockSize());
    BytesInSplits(c, n);
  }

  lemma {:induction false} WholePartIsWhole(c: Codec, n: nat)
    ensures Leftover(c, n - Leftover(c, n)) == 0
  {
    if n >= c.EncodedBlockSize() { WholePartIsWhole(c, n - c.EncodedBlockSize()); }
  }

  lemma {:induction false} MaxSizeIsBytesIn(v: Variant, n: nat)
    ensures var c := v.Layout();
            DecodedMaxSize(v, n) == BytesIn(c, if v.RequiresPadding() then n - Leftover(c, n) else n)
  {
    var c := v.Layout();
    LeftoverIsModulo(c, n);
    BytesInSplits(c, n);
  }

  lemma MaxSizeGrows(v: Variant, m: nat, n: nat)
    requires m <= n
    ensures DecodedMaxSize(v, m) <= DecodedMaxSize(v, n)
  {
    hide BytesIn, Variant.Layout, DecodedMaxSize;
    var c := v.Layout();
    MaxSizeIsBytesIn(v, m);
    MaxSizeIsBytesIn(v, n);
    BytesInGrows(c, m, n);
    WholePartGrows(c, m, n);
    BytesInGrows(c, m - Leftover(c, m), n - Leftover(c, n));
  }

  lemma {:induction false} WholePartGrows(c: Codec, m: nat, n: nat)
    requires m <= n
    ensures m - Leftover(c, m) <= n - Leftover(c, n)
  {
    LeftoverIsModulo(c, m);
    LeftoverIsModulo(c, n);
    match c case Base64 => case Base32 => case Hex =>
  }

  /** decoded_max_size bounds what decode appends, whether or not it ends in an exception. */
  lemma DecodedSizeBound(v: Variant, s: string)
    ensures |Decode(v, s).bytes| <= DecodedMaxSize(v, |s|)
  {
    hide InAlphabet, DecodeParts, DecodedMaxSize, Visible;
    var p := Visible(v, s);
    var n := DataLength(v, p);
    PartsBound(v, p[..n], p[n..]);
    VisibleIsNoLonger(v, s);
    MaxSizeGrows(v, |p|, |s|);
  }
}
