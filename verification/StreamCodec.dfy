/**
 * stream_codec.hpp: the block encoder and the decoder that fills an index array, against declarative specifications.
 */
module StreamCodec {
  import opened Wrappers
  import opened CodecVariants
  import opened CodecBits

  datatype ParseError =
    | SymbolError(symbol: char)
    | PaddingError
    | InvalidInputLength(found: nat)

  /** What decode leaves behind: the exception, if any, and the bytes appended to the result before it. */
  datatype Decoded = Decoded(error: Option<ParseError>, bytes: seq<bv8>)

  // ---- digits and symbols ----

  function SymbolOf(v: Variant, x: bv8): char
    requires BelowRadix(v.Layout(), x)
  {
    v.Symbol(x as nat)
  }

  function Symbols(v: Variant, d: Digits): (s: string)
    requires AllBelowRadix(v.Layout(), d)
    ensures |s| == |d|
  {
    seq(|d|, i requires 0 <= i < |d| => SymbolOf(v, d[i]))
  }

  function Padding(n: nat): (s: string)
    ensures |s| == n && forall i :: 0 <= i < n ==> s[i] == '='
  {
    seq(n, _ => '=')
  }

  /** n modulo the encoded block size. */
  function Leftover(c: Codec, n: nat): (r: nat)
    ensures r < c.EncodedBlockSize() && r <= n
  {
    if n < c.EncodedBlockSize() then n else Leftover(c, n - c.EncodedBlockSize())
  }

  // ---- encoding: the specification ----

  function BlockSymbols(v: Variant, b: seq<bv8>): (s: string)
    requires |b| == v.Layout().BinaryBlockSize()
    ensures |s| == v.Layout().EncodedBlockSize()
  {
    BlockDigitsBelowRadix(v.Layout(), b);
    Symbols(v, BlockDigits(v.Layout(), b))
  }

  function TailSymbols(v: Variant, b: seq<bv8>): (s: string)
    requires 0 < |b| < v.Layout().BinaryBlockSize()
    ensures |s| == NumEncodedTailSymbols(v.Layout(), |b|)
  {
    TailDigitsBelowRadix(v.Layout(), b);
    Symbols(v, TailDigits(v.Layout(), b))
  }

  function Encode(v: Variant, b: seq<bv8>): string {
    var n := v.Layout().BinaryBlockSize();
    if |b| >= n then BlockSymbols(v, b[..n]) + Encode(v, b[n..])
    else if b == [] then ""
    else
      var t := TailSymbols(v, b);
      t + if v.GeneratesPadding() then Padding(v.Layout().EncodedBlockSize() - |t|) else ""
  }

  // ---- encoding: the templates and the loop ----

  /** enc<n>::block: symbols 0 to n - 1 of a full block. */
  function EncBlock(v: Variant, n: nat, src: seq<bv8>): (s: string)
    requires |src| == v.Layout().BinaryBlockSize() && n <= v.Layout().EncodedBlockSize()
    ensures s == BlockSymbols(v, src)[..n]
  {
    if n == 0 then ""
    else
      BlockDigitsBelowRadix(v.Layout(), src);
      assert BelowRadix(v.Layout(), BlockDigits(v.Layout(), src)[n - 1]);
      EncBlock(v, n - 1, src) + [SymbolOf(v, Index(v.Layout(), n - 1, src))]
  }

  /** enc<n>::tail: the symbols of a tail from position E - n on, the last one abbreviated. */
  function EncTail(v: Variant, n: nat, src: seq<bv8>, numSymbols: nat): (s: string)
    requires 0 < |src| < v.Layout().BinaryBlockSize()
    requires numSymbols == NumEncodedTailSymbols(v.Layout(), |src|)
    requires v.Layout().EncodedBlockSize() - numSymbols < n <= v.Layout().EncodedBlockSize()
    ensures s == TailSymbols(v, src)[v.Layout().EncodedBlockSize() - n..]
  {
    var c := v.Layout();
    TailDigitsBelowRadix(c, src);
    var i := c.EncodedBlockSize() - n;
    assert BelowRadix(c, TailDigits(c, src)[i]);
    assert TailSymbols(v, src)[i..] == [TailSymbols(v, src)[i]] + TailSymbols(v, src)[i + 1..];
    if numSymbols == i + 1 then [SymbolOf(v, IndexLast(c, src))]
    else [SymbolOf(v, Index(c, i, src))] + EncTail(v, n - 1, src, numSymbols)
  }

  lemma Associates(a: string, b: string, c: string)
    ensures a + (b + c) == a + b + c
  {
  }

  lemma {:induction false} EncodeUnfolds(v: Variant, src: seq<bv8>, pos: nat)
    requires pos <= |src|
    ensures var n := v.Layout().BinaryBlockSize();
            Encode(v, src[pos..]) ==
            if pos + n <= |src| then BlockSymbols(v, src[pos..pos + n]) + Encode(v, src[pos + n..])
            else if pos == |src| then ""
            else Encode(v, src[pos..])
  {
    hide BlockSymbols, TailSymbols;
    var n := v.Layout().BinaryBlockSize();
    if pos + n <= |src| {
      assert src[pos..][..n] == src[pos..pos + n] && src[pos..][n..] == src[pos + n..];
    }
  }

  method EncodeStream(v: Variant, src: seq<bv8>) returns (encoded: string)
    ensures encoded == Encode(v, src)
  {
    hide Encode, BlockSymbols, TailSymbols, EncBlock, EncTail, NumEncodedTailSymbols;
    hide Variant.Layout, Variant.GeneratesPadding, Codec.BinaryBlockSize, Codec.EncodedBlockSize;
    var size := v.Layout().BinaryBlockSize();
    var pos := 0;
    encoded := "";
    assert src[0..] == src;
    if |src| >= size {
      var srcEnd := |src| - size;
      while pos <= srcEnd
        invariant pos <= |src|
        invariant Encode(v, src) == encoded + Encode(v, src[pos..])
      {
        EncodeUnfolds(v, src, pos);
        Associates(encoded, BlockSymbols(v, src[pos..pos + size]), Encode(v, src[pos + size..]));
        encoded := encoded + EncBlock(v, v.Layout().EncodedBlockSize(), src[pos..pos + size]);
        pos := pos + size;
      }
    }
    EncodeUnfolds(v, src, pos);
    if pos < |src| {
      var tail := EncodeTail(v, src[pos..]);
      encoded := encoded + tail;
    }
  }

  method EncodeTail(v: Variant, src: seq<bv8>) returns (encoded: string)
    requires 0 < |src| < v.Layout().BinaryBlockSize()
    ensures encoded == Encode(v, src)
  {
    hide TailSymbols, EncTail, NumEncodedTailSymbols;
    hide Variant.Layout, Variant.GeneratesPadding, Codec.BinaryBlockSize, Codec.EncodedBlockSize;
    var size := v.Layout().EncodedBlockSize();
    var numSymbols := NumEncodedTailSymbols(v.Layout(), |src|);
    encoded := EncTail(v, size, src, numSymbols);
    if v.GeneratesPadding() {
      encoded := Pad(encoded, size - numSymbols);
    }
  }

  method Pad(encoded: string, n: nat) returns (padded: string)
    ensures padded == encoded + Padding(n)
  {
    padded := encoded;
    for i := 0 to n
      invariant padded == encoded + Padding(i)
    {
      padded := padded + "=";
    }
  }

  // ---- decoding: the specification ----

  /** The characters decode looks at: ignored ones dropped, everything from the first NUL on cut off. */
  function Visible(v: Variant, s: string): string {
    if s == "" then ""
    else if v.ShouldIgnore(s[0]) then Visible(v, s[1..])
    else if s[0] == '\0' then ""
    else [s[0]] + Visible(v, s[1..])
  }

  /** The length of the longest prefix that lies in the alphabet. */
  function DataLength(v: Variant, p: string): (n: nat)
    ensures n <= |p|
    ensures forall i :: 0 <= i < n ==> InAlphabet(v, p[i])
    ensures n < |p| ==> !InAlphabet(v, p[n])
  {
    if p == "" || !InAlphabet(v, p[0]) then 0 else 1 + DataLength(v, p[1..])
  }

  ghost predicate AllInAlphabet(v: Variant, p: string) {
    forall i :: 0 <= i < |p| ==> InAlphabet(v, p[i])
  }

  function DigitAt(v: Variant, c: char): bv8
    requires InAlphabet(v, c)
  {
    IndexClasses(v, c);
    IndexOf(v, c) as bv8
  }

  function DigitsOf(v: Variant, p: string): (d: Digits)
    requires AllInAlphabet(v, p)
    ensures |d| == |p|
  {
    seq(|p|, i requires 0 <= i < |p| => DigitAt(v, p[i]))
  }

  /** The digits that fill whole blocks, decoded; a started block at the end is left out. */
  function WholeBlocks(c: Codec, d: Digits): seq<bv8> {
    var n := c.EncodedBlockSize();
    if |d| < n then [] else DecodeBlock(c, d[..n]) + WholeBlocks(c, d[n..])
  }

  predicate AllPadding(r: string) {
    forall i :: 0 <= i < |r| ==> r[i] == '='
  }

  /** What may follow n data symbols: nothing, or the '=' that complete a started block. */
  predicate WellPadded(v: Variant, n: nat, r: string) {
    var t := Leftover(v.Layout(), n);
    if r == "" then v.RequiresPadding() ==> t == 0
    else t > 0 && AllPadding(r) && t + |r| == v.Layout().EncodedBlockSize()
  }

  /** The outcome for visible text that is `data` from the alphabet followed by `r`, which does not start in it. */
  function DecodeParts(v: Variant, data: string, r: string): Decoded
    requires AllInAlphabet(v, data)
  {
    var c := v.Layout();
    var d := DigitsOf(v, data);
    var t := Leftover(c, |d|);
    if r != "" && !v.IsPaddingSymbol(r[0]) then Decoded(Some(SymbolError(r[0])), WholeBlocks(c, d))
    else if !WellPadded(v, |d|, r) then Decoded(Some(PaddingError), WholeBlocks(c, d))
    else if t == 0 then Decoded(None, WholeBlocks(c, d))
    else if !TailAccepted(c, t) then Decoded(Some(InvalidInputLength(t)), WholeBlocks(c, d))
    else Decoded(None, WholeBlocks(c, d) + DecodeTail(c, d[|d| - t..]))
  }

  function Decode(v: Variant, s: string): Decoded {
    var p := Visible(v, s);
    var n := DataLength(v, p);
    DecodeParts(v, p[..n], p[n..])
  }

  // ---- decoding: the loops over the index array ----

  lemma {:induction false} WholeBlocksThenRest(c: Codec, d: Digits, r: Digits)
    requires Leftover(c, |d|) == 0 && |r| <= c.EncodedBlockSize()
    ensures Leftover(c, |d + r|) == if |r| < c.EncodedBlockSize() then |r| else 0
    ensures WholeBlocks(c, d + r) == WholeBlocks(c, d) + if |r| < c.EncodedBlockSize() then [] else DecodeBlock(c, r)
  {
    hide DecodeBlock;
    var n := c.EncodedBlockSize();
    if d == [] {
      assert d + r == r && r[..|r|] == r;
    } else {
      assert (d + r)[..n] == d[..n] && (d + r)[n..] == d[n..] + r;
      WholeBlocksThenRest(c, d[n..], r);
    }
  }

  lemma {:induction false} DataLengthIs(v: Variant, data: string, r: string)
    requires AllInAlphabet(v, data) && (r == "" || !InAlphabet(v, r[0]))
    ensures DataLength(v, data + r) == |data|
  {
    hide InAlphabet;
    var p := data + r;
    assert forall i :: 0 <= i < |data| ==> p[i] == data[i];
    assert r != "" ==> p[|data|] == r[0];
  }

  lemma {:induction false} DecodeIsParts(v: Variant, s: string, data: string, r: string)
    requires AllInAlphabet(v, data) && (r == "" || !InAlphabet(v, r[0]))
    requires Visible(v, s) == data + r
    ensures Decode(v, s) == DecodeParts(v, data, r)
  {
    hide DecodeParts;
    DataLengthIs(v, data, r);
    assert (data + r)[..|data|] == data && (data + r)[|data|..] == r;
  }

  function Narrow(idx: seq<nat>): (d: Digits)
    requires forall i :: 0 <= i < |idx| ==> idx[i] < 0x100
    ensures |d| == |idx|
  {
    seq(|idx|, i requires 0 <= i < |idx| => idx[i] as bv8)
  }

  lemma {:induction false} VisibleFrom(v: Variant, s: string, i: nat)
    requires i <= |s|
    ensures i == |s| ==> Visible(v, s[i..]) == ""
    ensures i < |s| ==>
      Visible(v, s[i..]) ==
        if v.ShouldIgnore(s[i]) then Visible(v, s[i + 1..])
        else if s[i] == '\0' then ""
        else [s[i]] + Visible(v, s[i + 1..])
  {
    if i < |s| { assert s[i..][1..] == s[i + 1..]; }
  }

  /** decode's invariant: `data` has been read, `whole` of it decoded to `out`, and `part` waits in the index array. */
  ghost predicate Reading(v: Variant, s: string, src: nat, data: string, whole: Digits, part: seq<nat>, out: seq<bv8>) {
    && src <= |s| && AllInAlphabet(v, data)
    && Visible(v, s) == data + Visible(v, s[src..])
    && (forall i :: 0 <= i < |part| ==> part[i] < 0x100)
    && DigitsOf(v, data) == whole + Narrow(part)
    && Leftover(v.Layout(), |whole|) == 0 && out == WholeBlocks(v.Layout(), whole)
  }

  lemma ReadingStarts(v: Variant, s: string)
    ensures Reading(v, s, 0, "", [], [], [])
  {
    assert s[0..] == s;
  }

  lemma ReadingSkips(v: Variant, s: string, src: nat, data: string, whole: Digits, part: seq<nat>, out: seq<bv8>)
    requires src < |s| && v.ShouldIgnore(s[src]) && Reading(v, s, src, data, whole, part, out)
    ensures Reading(v, s, src + 1, data, whole, part, out)
  {
    VisibleFrom(v, s, src);
  }

  lemma DigitsOfOneMore(v: Variant, data: string, c: char)
    requires AllInAlphabet(v, data) && InAlphabet(v, c)
    ensures AllInAlphabet(v, data + [c]) && DigitsOf(v, data + [c]) == DigitsOf(v, data) + [DigitAt(v, c)]
  {
    hide InAlphabet, DigitAt;
  }

  lemma NarrowOneMore(part: seq<nat>, x: nat)
    requires x < 0x100 && forall i :: 0 <= i < |part| ==> part[i] < 0x100
    ensures Narrow(part + [x]) == Narrow(part) + [x as bv8]
    ensures forall i :: 0 <= i < |part + [x]| ==> (part + [x])[i] < 0x100
  {
  }

  lemma ReadingTakes(v: Variant, s: string, src: nat, data: string, whole: Digits, part: seq<nat>, out: seq<bv8>)
    requires src < |s| && InAlphabet(v, s[src]) && Reading(v, s, src, data, whole, part, out)
    ensures Reading(v, s, src + 1, data + [s[src]], whole, part + [IndexOf(v, s[src])], out)
  {
    hide InAlphabet, IndexOf, WholeBlocks, Visible, Leftover, DigitsOf, Narrow, AllInAlphabet;
    hide Variant.Layout, Variant.ShouldIgnore, Codec.Radix, Variant.IsPaddingSymbol;
    VisibleFrom(v, s, src);
    OrdinaryIsVisible(v, s[src]);
    Associates(data, [s[src]], Visible(v, s[src + 1..]));
    DigitsTaken(v, data, s[src], whole, part);
  }

  lemma OrdinaryIsVisible(v: Variant, c: char)
    requires InAlphabet(v, c)
    ensures !v.ShouldIgnore(c) && c != '\0'
  {
    hide InAlphabet, IndexOf;
    IndexClasses(v, c);
  }

  lemma DigitsTaken(v: Variant, data: string, c: char, whole: Digits, part: seq<nat>)
    requires AllInAlphabet(v, data) && InAlphabet(v, c) && forall i :: 0 <= i < |part| ==> part[i] < 0x100
    requires DigitsOf(v, data) == whole + Narrow(part)
    ensures AllInAlphabet(v, data + [c]) && forall i :: 0 <= i < |part + [IndexOf(v, c)]| ==>
        (part + [IndexOf(v, c)])[i] < 0x100
    ensures DigitsOf(v, data + [c]) == whole + Narrow(part + [IndexOf(v, c)])
  {
    hide InAlphabet, IndexOf, DigitsOf, Narrow, AllInAlphabet, DigitAt;
    IndexIsSmall(v, c);
    DigitsOfOneMore(v, data, c);
    NarrowOneMore(part, IndexOf(v, c));
    assert (whole + Narrow(part)) + [DigitAt(v, c)] == whole + (Narrow(part) + [DigitAt(v, c)]);
  }

  lemma IndexIsSmall(v: Variant, c: char)
    requires InAlphabet(v, c)
    ensures IndexOf(v, c) < 0x100 && DigitAt(v, c) == IndexOf(v, c) as bv8
  {
    hide InAlphabet, IndexOf;
    IndexClasses(v, c);
  }

  lemma ReadingFlushes(v: Variant, s: string, src: nat, data: string, whole: Digits, part: seq<nat>, out: seq<bv8>)
    requires Reading(v, s, src, data, whole, part, out) && |part| == v.Layout().EncodedBlockSize()
    ensures Reading(v, s, src, data, whole + Narrow(part), [], out + DecodeBlock(v.Layout(), Narrow(part)))
  {
    hide DecodeBlock, WholeBlocks, Visible;
    WholeBlocksThenRest(v.Layout(), whole, Narrow(part));
  }

  lemma {:induction false} ReadingEnds(v: Variant, s: string, src: nat, data: string, whole: Digits, part: seq<nat>,
      out: seq<bv8>)
    requires Reading(v, s, src, data, whole, part, out) && |part| < v.Layout().EncodedBlockSize()
    requires src < |s| ==> !InAlphabet(v, s[src]) && !v.ShouldIgnore(s[src])
    ensures AllInAlphabet(v, data) && |part| == Leftover(v.Layout(), |data|)
    ensures out == WholeBlocks(v.Layout(), DigitsOf(v, data))
    ensures Narrow(part) == DigitsOf(v, data)[|data| - |part|..]
    ensures Decode(v, s) == DecodeParts(v, data, Visible(v, s[src..]))
  {
    hide InAlphabet, WholeBlocks, Visible, Decode, DecodeParts;
    VisibleFrom(v, s, src);
    WholeBlocksThenRest(v.Layout(), whole, Narrow(part));
    DecodeIsParts(v, s, data, Visible(v, s[src..]));
  }

  /** The first loop of decode: fills and decodes blocks until a stop character or the end of the input. */
  method DecodeStream(v: Variant, s: string) returns (error: Option<ParseError>, out: seq<bv8>)
    ensures Decoded(error, out) == Decode(v, s)
  {
    hide DecodeBlock, IndexOf, InAlphabet, DecodeParts, Decode, Visible, DigitsOf, Narrow, AllInAlphabet;
    hide Leftover, WholeBlocks, Reading;
    hide Variant.Layout, Variant.ShouldIgnore, Codec.BinaryBlockSize, Codec.EncodedBlockSize, Variant.IsPaddingSymbol;
    var c := v.Layout();
    var size := c.EncodedBlockSize();
    var idx := new nat[size](_ => 0);
    idx[0] := EOF_IDX;
    var ptr, src := 0, 0;
    out := [];
    ghost var data, whole := "", [];
    ReadingStarts(v, s);
    while src < |s|
      invariant 0 <= src <= |s| && ptr < size == idx.Length
      invariant Reading(v, s, src, data, whole, idx[..ptr], out)
      invariant forall i :: 0 <= i < size ==> idx[i] < 0x100 || (i == ptr == 0 && idx[i] == EOF_IDX)
    {
      if v.ShouldIgnore(s[src]) {
        ReadingSkips(v, s, src, data, whole, idx[..ptr], out);
        src := src + 1;
        continue;
      }
      ghost var part := idx[..ptr];
      idx[ptr] := IndexOf(v, s[src]);
      IndexClasses(v, s[src]);
      assert idx[..ptr] == part && idx[..ptr + 1] == part + [idx[ptr]];
      if IsStopCharacter(idx[ptr]) {
        break;
      }
      ReadingTakes(v, s, src, data, whole, part, out);
      data := data + [s[src]];
      src := src + 1;
      ptr := ptr + 1;
      if ptr == size {
        assert idx[..ptr] == idx[..];
        ReadingFlushes(v, s, src, data, whole, idx[..], out);
        out := out + DecodeBlock(c, Narrow(idx[..]));
        whole := whole + Narrow(idx[..]);
        ptr := 0;
        assert idx[..ptr] == [];
      }
    }
    ReadingEnds(v, s, src, data, whole, idx[..ptr], out);
    error, out := DecodeEnd(v, s, src, idx, ptr, out, data);
  }

  lemma PaddedVariantsIgnoreNothing(v: Variant)
    requires v.AllowsPadding()
    ensures forall c :: !v.ShouldIgnore(c)
  {
  }

  /** From position start to src there are n '=' and nothing else. */
  ghost predicate Counted(v: Variant, s: string, start: nat, src: nat, n: nat) {
    start <= src <= |s| && Visible(v, s[start..]) == Padding(n) + Visible(v, s[src..])
  }

  lemma CountingStarts(v: Variant, s: string, start: nat)
    requires start <= |s|
    ensures Counted(v, s, start, start, 0)
  {
    hide Visible;
    assert Padding(0) + Visible(v, s[start..]) == Visible(v, s[start..]);
  }

  /** What the next character means for the count. */
  lemma {:induction false} CountingGoesOn(v: Variant, s: string, start: nat, src: nat, n: nat)
    requires v.AllowsPadding() && Counted(v, s, start, src, n)
    ensures src == |s| || s[src] == '\0' ==> Visible(v, s[start..]) == Padding(n)
    ensures src < |s| && v.IsPaddingSymbol(s[src]) ==> Counted(v, s, start, src + 1, n + 1)
    ensures src < |s| && v.IsPaddingSymbol(s[src]) ==> |Visible(v, s[start..])| >= n + 1
    ensures src < |s| && s[src] != '\0' && !v.IsPaddingSymbol(s[src]) ==> !AllPadding(Visible(v, s[start..]))
  {
    hide Visible, Variant.ShouldIgnore;
    PaddedVariantsIgnoreNothing(v);
    VisibleFrom(v, s, src);
    var r := Visible(v, s[start..]);
    if src == |s| || s[src] == '\0' {
      assert Padding(n) + "" == Padding(n);
    } else {
      assert r[n] == s[src];
      if v.IsPaddingSymbol(s[src]) { assert Padding(n) + ([s[src]] + Visible(v, s[src + 1..]))
          == Padding(n + 1) + Visible(v, s[src + 1..]); }
    }
  }

  /** decode's second loop: counts the '=' from position start on, keeping the last index read in idx[ptr]. */
  method CountPadding(v: Variant, s: string, start: nat, idx: array<nat>, ptr: nat) returns (last: nat, failed: bool)
    requires start < |s| && v.IsPaddingSymbol(s[start]) && ptr < idx.Length && idx[ptr] == PADDING_IDX
    modifies idx
    ensures forall i :: 0 <= i < ptr ==> idx[i] == old(idx[i])
    ensures !failed ==>
      ptr < last <= idx.Length && Visible(v, s[start..]) == Padding(last - ptr) && idx[ptr] == PADDING_IDX
    ensures failed ==> !AllPadding(Visible(v, s[start..])) || ptr + |Visible(v, s[start..])| > idx.Length
  {
    hide IndexOf, InAlphabet, Visible, Variant.ShouldIgnore, Padding, AllPadding, Counted;
    CountingStarts(v, s, start);
    CountingGoesOn(v, s, start, start, 0);
    var src := start + 1;
    last := ptr + 1;
    while src < |s|
      invariant start < src <= |s| && ptr < last <= idx.Length
      invariant forall i :: 0 <= i < ptr ==> idx[i] == old(idx[i])
      invariant idx[ptr] == PADDING_IDX && Counted(v, s, start, src, last - ptr)
    {
      idx[ptr] := IndexOf(v, s[src]);
      IndexClasses(v, s[src]);
      CountingGoesOn(v, s, start, src, last - ptr);
      src := src + 1;
      if idx[ptr] == EOF_IDX {
        idx[ptr] := PADDING_IDX;
        return last, false;
      }
      if idx[ptr] != PADDING_IDX {
        return last, true;
      }
      last := last + 1;
      if last > idx.Length {
        return last, true;
      }
    }
    CountingGoesOn(v, s, start, src, last - ptr);
    return last, false;
  }

  /** The rest of decode: the stop character, the padding and the tail. */
  method DecodeEnd(v: Variant, s: string, src: nat, idx: array<nat>, ptr: nat, blocks: seq<bv8>, ghost data: string)
    returns (error: Option<ParseError>, out: seq<bv8>)
    requires src <= |s| && ptr < v.Layout().EncodedBlockSize() == idx.Length
    requires AllInAlphabet(v, data) && ptr == Leftover(v.Layout(), |data|)
    requires blocks == WholeBlocks(v.Layout(), DigitsOf(v, data))
    requires forall i :: 0 <= i < ptr ==> idx[i] < 0x100
    requires Narrow(idx[..ptr]) == DigitsOf(v, data)[|data| - ptr..]
    requires src < |s| ==> idx[ptr] == IndexOf(v, s[src]) && !InAlphabet(v, s[src]) && !v.ShouldIgnore(s[src])
    requires src == |s| ==> idx[ptr] < 0x100 || idx[ptr] == EOF_IDX
    modifies idx
    ensures Decoded(error, out) == DecodeParts(v, data, Visible(v, s[src..]))
  {
    hide DecodeBlock, DecodeTail, IndexOf, InAlphabet, WholeBlocks, Leftover, Visible, Narrow, DigitsOf;
    hide Variant.Layout, Codec.EncodedBlockSize, Variant.ShouldIgnore;
    out := blocks;
    VisibleFrom(v, s, src);
    if src < |s| { IndexClasses(v, s[src]); }
    if idx[ptr] == INVALID_IDX {
      return Some(SymbolError(s[src])), out;
    }
    var last := ptr;
    if v.AllowsPadding() && idx[last] == PADDING_IDX {
      if last == 0 {
        return Some(PaddingError), out;
      }
      var failed;
      last, failed := CountPadding(v, s, src, idx, ptr);
      if failed {
        return Some(PaddingError), out;
      }
    }
    if last != 0 {
      if (v.RequiresPadding() || (v.AllowsPadding() && idx[ptr] == PADDING_IDX)) && last != idx.Length {
        return Some(PaddingError), out;
      }
      if !TailAccepted(v.Layout(), ptr) {
        return Some(InvalidInputLength(ptr)), out;
      }
      assert idx[..ptr] == old(idx[..ptr]);
      out := out + DecodeTail(v.Layout(), Narrow(idx[..ptr]));
    }
    return None, out;
  }
}
