/** The three bit layouts of cppcodec and the eight alphabets that instantiate them. */
module CodecVariants {

  datatype Codec = Base64 | Base32 | Hex {
    function BinaryBlockSize(): (n: nat)
      ensures 0 < n <= 5
    {
      match this case Base64 => 3 case Base32 => 5 case Hex => 1
    }

    function EncodedBlockSize(): (n: nat)
      ensures 2 <= n <= 8
    {
      match this case Base64 => 4 case Base32 => 8 case Hex => 2
    }

    /** How many indexes a symbol distinguishes: 6, 5 or 4 bits' worth. */
    function Radix(): nat {
      match this case Base64 => 64 case Base32 => 32 case Hex => 16
    }
  }

  datatype Variant =
    | Base64Rfc4648 | Base64Url | Base64UrlUnpadded
    | Base32Rfc4648 | Base32Hex | Base32Crockford
    | HexLower | HexUpper
  {
    function Layout(): Codec {
      match this
      case Base64Rfc4648 | Base64Url | Base64UrlUnpadded => Base64
      case Base32Rfc4648 | Base32Hex | Base32Crockford => Base32
      case HexLower | HexUpper => Hex
    }

    predicate GeneratesPadding() { Base64Rfc4648? || Base64Url? || Base32Rfc4648? || Base32Hex? }

    predicate RequiresPadding() { GeneratesPadding() }

    predicate AllowsPadding() { GeneratesPadding() || Base64UrlUnpadded? }

    predicate IsPaddingSymbol(c: char) { AllowsPadding() && c == '=' }

    predicate IsEofSymbol(c: char) { c == '\0' }

    predicate ShouldIgnore(c: char) { Base32Crockford? && c == '-' }

    /** The symbol at position i of the alphabet table. */
    function Symbol(i: nat): char
      requires i < Layout().Radix()
    {
      match this
      case Base64Rfc4648 => if i == 62 then '+' else if i == 63 then '/' else Letters64(i)
      case Base64Url | Base64UrlUnpadded => if i == 62 then '-' else if i == 63 then '_' else Letters64(i)
      case Base32Rfc4648 => if i < 26 then 'A' + i as char else '2' + (i - 26) as char
      case Base32Hex => DigitsThen('A', i)
      case Base32Crockford =>
        if i < 10 then '0' + i as char
        else if i < 18 then 'A' + (i - 10) as char  // no I
        else if i < 20 then 'J' + (i - 18) as char  // no L
        else if i < 22 then 'M' + (i - 20) as char  // no O
        else if i < 27 then 'P' + (i - 22) as char  // no U
        else 'V' + (i - 27) as char
      case HexLower => DigitsThen('a', i)
      case HexUpper => DigitsThen('A', i)
    }

    function NormalizedSymbol(c: char): char {
      match this
      case Base64Rfc4648 | Base64Url | Base64UrlUnpadded => c
      case Base32Rfc4648 => if 'a' <= c <= 'z' then c - 'a' + 'A' else c
      case Base32Hex => if 'a' <= c <= 'v' then c - 'a' + 'A' else c
      case Base32Crockford =>
        if c == 'O' || c == 'o' then '0'
        else if c == 'I' || c == 'i' || c == 'L' || c == 'l' then '1'
        else if 'a' <= c <= 'z' then c - 'a' + 'A'
        else c
      case HexLower => if 'A' <= c <= 'F' then c - 'A' + 'a' else c
      case HexUpper => if 'a' <= c <= 'f' then c - 'a' + 'A' else c
    }
  }

  function Letters64(i: nat): char
    requires i < 62
  {
    if i < 26 then 'A' + i as char else if i < 52 then 'a' + (i - 26) as char else '0' + (i - 52) as char
  }

  function DigitsThen(first: char, i: nat): char
    requires i < 32 && 'A' <= first <= 'a'
  {
    if i < 10 then '0' + i as char else first + (i - 10) as char
  }

  // ---- the reference: the alphabets as RFC 4648 and Crockford print them ----

  function Alphabet(v: Variant): (s: string) {
    match v
    case Base64Rfc4648 => Letters() + "0123456789+/"
    case Base64Url | Base64UrlUnpadded => Letters() + "0123456789-_"
    case Base32Rfc4648 => "ABCDEFGHIJKLMNOPQRSTUVWXYZ234567"
    case Base32Hex => "0123456789ABCDEFGHIJKLMNOPQRSTUV"
    case Base32Crockford => "0123456789ABCDEFGHJKMNPQRSTVWXYZ"
    case HexLower => "0123456789abcdef"
    case HexUpper => "0123456789ABCDEF"
  }

  function Letters(): (s: string)
    ensures |s| == 52
  {
    "ABCDEFGHIJKLMNOPQRSTUVWXYZ" + "abcdefghijklmnopqrstuvwxyz"
  }

  lemma LetterAt(i: nat)
    requires i < 52
    ensures Letters()[i] == if i < 26 then 'A' + i as char else 'a' + (i - 26) as char
  {
    if i < 26 {
      assert Letters()[i] == "ABCDEFGHIJKLMNOPQRSTUVWXYZ"[i];
    } else {
      assert Letters()[i] == "abcdefghijklmnopqrstuvwxyz"[i - 26];
    }
  }

  lemma DigitAndTwo(i: nat, last: string)
    requires i < 12 && |last| == 2
    ensures ("0123456789" + last)[i] == if i < 10 then '0' + i as char else last[i - 10]
  {
  }

  lemma Base64Alphabets(v: Variant, i: nat)
    requires v.Layout() == Base64 && i < 64
    ensures |Alphabet(v)| == 64 && v.Symbol(i) == Alphabet(v)[i]
  {
    hide Letters;
    if i < 52 { LetterAt(i); } else { DigitAndTwo(i - 52, if v.Base64Rfc4648? then "+/" else "-_"); }
  }

  lemma Base32Rfc4648Alphabet(i: nat)
    requires i < 32
    ensures |Alphabet(Base32Rfc4648)| == 32 && Base32Rfc4648.Symbol(i) == Alphabet(Base32Rfc4648)[i]
  {
  }

  lemma Base32HexAlphabet(i: nat)
    requires i < 32
    ensures |Alphabet(Base32Hex)| == 32 && Base32Hex.Symbol(i) == Alphabet(Base32Hex)[i]
  {
  }

  lemma CrockfordAlphabet(i: nat)
    requires i < 32
    ensures |Alphabet(Base32Crockford)| == 32 && Base32Crockford.Symbol(i) == Alphabet(Base32Crockford)[i]
  {
  }

  lemma HexAlphabets(v: Variant, i: nat)
    requires v.Layout() == Hex && i < 16
    ensures |Alphabet(v)| == 16 && v.Symbol(i) == Alphabet(v)[i]
  {
  }

  /** The symbols are the printed alphabets, position by position. */
  lemma SymbolsAreTheAlphabet(v: Variant, i: nat)
    requires i < v.Layout().Radix()
    ensures |Alphabet(v)| == v.Layout().Radix() && v.Symbol(i) == Alphabet(v)[i]
  {
    hide Variant.Symbol, Alphabet;
    match v
    case Base64Rfc4648 | Base64Url | Base64UrlUnpadded => Base64Alphabets(v, i);
    case Base32Rfc4648 => Base32Rfc4648Alphabet(i);
    case Base32Hex => Base32HexAlphabet(i);
    case Base32Crockford => CrockfordAlphabet(i);
    case HexLower | HexUpper => HexAlphabets(v, i);
  }

  // ---- the inverse lookup table ----

  // Indexes share one small integer with three stop classes, told apart by the bits above the low eight.
  const PADDING_IDX: nat := 0x100
  const INVALID_IDX: nat := 0x200
  const EOF_IDX: nat := 0x400

  predicate IsStopCharacter(idx: nat) { idx / 0x100 != 0 }

  /** Searches the alphabet upwards from position i; INVALID_IDX when the symbol is not in it. */
  function Search(v: Variant, c: char, i: nat): (k: nat)
    requires i <= v.Layout().Radix()
    ensures k == INVALID_IDX || i <= k < v.Layout().Radix()
    decreases v.Layout().Radix() - i
  {
    if i == v.Layout().Radix() then INVALID_IDX
    else if v.Symbol(i) == c then i
    else Search(v, c, i + 1)
  }

  lemma {:induction false} SearchFindsTheFirst(v: Variant, c: char, i: nat)
    requires i <= v.Layout().Radix()
    ensures var k := Search(v, c, i);
            if k == INVALID_IDX then forall j :: i <= j < v.Layout().Radix() ==> v.Symbol(j) != c
            else v.Symbol(k) == c && forall j :: i <= j < k ==> v.Symbol(j) != c
    decreases v.Layout().Radix() - i
  {
    hide Variant.Symbol;
    if i < v.Layout().Radix() && v.Symbol(i) != c { SearchFindsTheFirst(v, c, i + 1); }
  }

  predicate InAlphabet(v: Variant, c: char) {
    Search(v, v.NormalizedSymbol(c), 0) != INVALID_IDX
  }

  function IndexOf(v: Variant, c: char): nat {
    var n := v.NormalizedSymbol(c);
    var k := Search(v, n, 0);
    if k != INVALID_IDX then k
    else if v.IsEofSymbol(n) then EOF_IDX
    else if v.IsPaddingSymbol(n) then PADDING_IDX
    else INVALID_IDX
  }

  lemma SymbolsAreOrdinary(v: Variant, i: nat)
    requires i < v.Layout().Radix()
    ensures v.Symbol(i) != '\0' && v.Symbol(i) != '=' && !v.ShouldIgnore(v.Symbol(i))
    ensures v.NormalizedSymbol(v.Symbol(i)) == v.Symbol(i)
  {
  }

  lemma NormalizingKeepsSpecials(v: Variant, c: char)
    ensures v.NormalizedSymbol(c) == '\0' <==> c == '\0'
    ensures v.NormalizedSymbol(c) == '=' <==> c == '='
    ensures v.NormalizedSymbol(c) == '-' <==> c == '-'
    ensures v.NormalizedSymbol(v.NormalizedSymbol(c)) == v.NormalizedSymbol(c)
  {
  }

  /** The table separates its four classes: a data symbol is below the radix, the other three carry a stop bit. */
  lemma IndexClasses(v: Variant, c: char)
    ensures InAlphabet(v, c) <==> IndexOf(v, c) < v.Layout().Radix()
    ensures InAlphabet(v, c) <==> !IsStopCharacter(IndexOf(v, c))
    ensures IndexOf(v, c) == EOF_IDX <==> c == '\0'
    ensures IndexOf(v, c) == PADDING_IDX <==> v.IsPaddingSymbol(c)
    ensures IndexOf(v, c) == INVALID_IDX <==> !InAlphabet(v, c) && c != '\0' && !v.IsPaddingSymbol(c)
    ensures InAlphabet(v, c) ==> !v.ShouldIgnore(c)
  {
    NormalizingKeepsSpecials(v, c);
    SearchFindsTheFirst(v, v.NormalizedSymbol(c), 0);
    var k := Search(v, v.NormalizedSymbol(c), 0);
    if k != INVALID_IDX { SymbolsAreOrdinary(v, k); }
  }

  /** A data symbol stands for itself up to normalisation. */
  lemma SymbolAtIndex(v: Variant, c: char)
    requires InAlphabet(v, c)
    ensures IndexOf(v, c) < v.Layout().Radix() && v.Symbol(IndexOf(v, c)) == v.NormalizedSymbol(c)
  {
    SearchFindsTheFirst(v, v.NormalizedSymbol(c), 0);
  }

  lemma SymbolsAreDistinct(v: Variant, i: nat, j: nat)
    requires i < j < v.Layout().Radix()
    ensures v.Symbol(i) != v.Symbol(j)
  {
  }

  /** The table inverts the alphabet: looking up symbol i gives back i. */
  lemma LookupInvertsSymbol(v: Variant, i: nat)
    requires i < v.Layout().Radix()
    ensures InAlphabet(v, v.Symbol(i)) && IndexOf(v, v.Symbol(i)) == i
  {
    SymbolsAreOrdinary(v, i);
    SearchFindsTheFirst(v, v.Symbol(i), 0);
    var k := Search(v, v.Symbol(i), 0);
    if k < i { SymbolsAreDistinct(v, k, i); }
  }
}
