/** The chunked body of section 4.1 of RFC 7230, and what the reader makes of it. */
module ChunkedRfc {
  import opened TextSearch
  import opened ChunkedStreams
  import opened Chunked
  import opened ChunkedRoundTrip
  import opened ChunkedGrammar
  import opened HexNumbers

  /** chunk-size, chunk-ext and chunk-data; sizes may have leading zeros and digits of either case. */
  datatype RfcChunk = RfcChunk(size: string, ext: string, data: string)

  /** last-chunk and trailer-part; the lines of the trailer without their CR LF. */
  datatype RfcEnd = RfcEnd(zeros: string, ext: string, trailer: seq<string>)

  /** 1*HEXDIG, and the number that these digits stand for by their places. */
  ghost predicate IsSize(size: string, n: nat) {
    size != "" && exists values :: Denotes(size, values) && PlaceSum(values) == n
  }

  /** What matters of an extension: it is empty or begins with a semicolon, and does not leave its line. */
  predicate IsExtension(ext: string) {
    '\n' !in ext && (ext == "" || ext[0] == ';')
  }

  predicate IsField(line: string) { line != "" && '\n' !in line }

  ghost predicate IsRfcChunk(c: RfcChunk) { c.data != "" && IsSize(c.size, |c.data|) && IsExtension(c.ext) }

  ghost predicate IsRfcEnd(e: RfcEnd) {
    IsSize(e.zeros, 0) && IsExtension(e.ext) && forall i :: 0 <= i < |e.trailer| ==> IsField(e.trailer[i])
  }

  ghost predicate IsRfcBody(chunks: seq<RfcChunk>, e: RfcEnd) {
    IsRfcEnd(e) && forall i :: 0 <= i < |chunks| ==> IsRfcChunk(chunks[i])
  }

  function Fields(trailer: seq<string>): string {
    if trailer == [] then "" else trailer[0] + "\r\n" + Fields(trailer[1..])
  }

  function EndText(e: RfcEnd): string { e.zeros + e.ext + "\r\n" + (Fields(e.trailer) + "\r\n") }

  function RfcChunkText(c: RfcChunk): string { c.size + c.ext + "\r\n" + (c.data + "\r\n") }

  function RfcText(chunks: seq<RfcChunk>, e: RfcEnd): string {
    if chunks == [] then EndText(e) else RfcChunkText(chunks[0]) + RfcText(chunks[1..], e)
  }

  function RfcData(chunks: seq<RfcChunk>): string {
    if chunks == [] then "" else chunks[0].data + RfcData(chunks[1..])
  }

  // ---- size lines ----

  lemma {:induction false} CStringStarts(a: string, b: string)
    requires '\0' !in a
    ensures CString(a + b) == a + CString(b)
  {
    if a == "" {
      assert a + b == b;
    } else {
      assert (a + b)[0] == a[0] && (a + b)[1..] == a[1..] + b;
      CStringStarts(a[1..], b);
    }
  }

  lemma {:induction false} SizeIsNumber(size: string, n: nat)
    requires IsSize(size, n)
    ensures size != "" && (forall k :: 0 <= k < |size| ==> IsHex(size[k])) && NumberOf(size) == n
  {
    hide IsHex, NumberOf, PlaceSum, Denotes;
    var values :| Denotes(size, values) && PlaceSum(values) == n;
    NumberIsPlaceSum(size, values);
  }

  lemma StrtoulReadsSize(size: string, tail: string, n: nat)
    requires IsSize(size, n) && n <= ULONG_MAX
    requires tail == "" || tail[0] == ';' || tail[0] == '\r'
    ensures Strtoul(size + tail) == Number(n, |size|)
  {
    hide NumberOf, DigitsEnd, IsSize;
    SizeIsNumber(size, n);
    var s := size + tail;
    var m := |size|;
    assert forall k :: 0 <= k < m ==> s[k] == size[k];
    assert IsHex(s[0]);
    if m < |s| { assert s[m] == tail[0]; }
    if 1 < |s| { assert s[1] == ';' || s[1] == '\r' || IsHex(s[1]); }
    assert SkipSpace(s, 0) == 0 && s[0] != '-' && s[0] != '+';
    DigitsEndIs(s, 0, m);
    assert s[0..m] == size;
  }

  /** The size line of a chunk is read whole, extension and all, as its size. */
  lemma SizeLineIsRead(size: string, ext: string, n: nat, more: string)
    requires IsSize(size, n) && IsExtension(ext) && n < ULONG_MAX
    ensures var line := size + ext + "\r\n";
      StatesSize(line, n) && IsLine(line, more, true) && IsLine(line, more, false)
  {
    hide Strtoul, NumberOf, IsSize;
    var line := size + ext + "\r\n";
    SizeIsNumber(size, n);
    HexIsNoControl(size);
    CStringStarts(size, ext + "\r\n");
    assert line == size + (ext + "\r\n");
    CStringOfTail(ext);
    StrtoulReadsSize(size, CString(ext + "\r\n"), n);
    LineEndsHere(size + ext, more);
  }

  lemma HexIsNoControl(size: string)
    requires forall k :: 0 <= k < |size| ==> IsHex(size[k])
    ensures '\0' !in size && '\n' !in size
  {
    assert !IsHex('\0') && !IsHex('\n');
  }

  lemma {:induction false} CStringOfTail(ext: string)
    requires IsExtension(ext)
    ensures var t := CString(ext + "\r\n"); t == "" || t[0] == ';' || t[0] == '\r'
  {
    assert ext != "" ==> (ext + "\r\n")[0] == ';';
    assert ext == "" ==> (ext + "\r\n")[0] == '\r';
  }

  lemma LineEndsHere(text: string, more: string)
    requires '\n' !in text
    ensures IsLine(text + "\r\n", more, true) && IsLine(text + "\r\n", more, false)
  {
    var line := text + "\r\n";
    assert line[..|line| - 1] == text + "\r";
  }

  lemma BlankLine(more: string)
    ensures IsLine("\r\n", more, true) && IsLine("\r\n", more, false) && IsBlank("\r\n")
  {
    LineEndsHere("", more);
    assert "" + "\r\n" == "\r\n";
    NoNul("\r\n");
  }

  // ---- bodies ----

  lemma ChunkIsRaw(c: RfcChunk, more: string, broken: bool)
    requires IsRfcChunk(c) && |c.data| < ULONG_MAX
    ensures var raw := RawChunk(c.size + c.ext + "\r\n", c.data, "\r\n");
      IsChunk(raw, more, broken) && IsBlank(raw.end) && RfcChunkText(c) + more == ChunkText(raw, more)
  {
    hide StatesSize, IsLine, IsBlank;
    SizeLineIsRead(c.size, c.ext, |c.data|, c.data + ("\r\n" + more));
    BlankLine(more);
  }

  lemma EndIsRaw(e: RfcEnd, more: string, broken: bool)
    requires IsRfcEnd(e) && e.trailer == []
    ensures var last := Last(e.zeros + e.ext + "\r\n", "\r\n");
      Closes(last, more, broken) && EndText(e) + more == ClosingText(last, more)
  {
    hide StatesSize, IsLine, IsBlank;
    SizeLineIsRead(e.zeros, e.ext, 0, "\r\n" + more);
    BlankLine(more);
    assert Fields(e.trailer) + "\r\n" == "\r\n";
  }

  predicate Readable(chunks: seq<RfcChunk>) { forall i :: 0 <= i < |chunks| ==> |chunks[i].data| < ULONG_MAX }

  lemma {:induction false} BodyHasLine(chunks: seq<RfcChunk>, e: RfcEnd, more: string, broken: bool)
    requires IsRfcBody(chunks, e) && Readable(chunks)
    ensures HasLine(RfcText(chunks, e) + more, broken)
  {
    hide HasLine, LineOf, StatesSize, IsLine, IsSize, IsExtension, IsField, Fields;
    if chunks == [] {
      var t := Fields(e.trailer) + "\r\n" + more;
      SizeLineIsRead(e.zeros, e.ext, 0, t);
      LineIsTaken(e.zeros + e.ext + "\r\n", t, broken);
      assert EndText(e) + more == (e.zeros + e.ext + "\r\n") + t;
    } else {
      var c := chunks[0];
      var t := c.data + "\r\n" + (RfcText(chunks[1..], e) + more);
      SizeLineIsRead(c.size, c.ext, |c.data|, t);
      LineIsTaken(c.size + c.ext + "\r\n", t, broken);
      assert RfcText(chunks, e) + more == (c.size + c.ext + "\r\n") + t;
    }
  }

  /** Every body of the RFC without a trailer is read whole, and what follows it stays in the stream. */
  lemma {:induction false} RfcBodyIsRead(chunks: seq<RfcChunk>, e: RfcEnd, more: string, broken: bool)
    requires IsRfcBody(chunks, e) && Readable(chunks) && e.trailer == []
    ensures ReadContent(RfcText(chunks, e) + more, broken) == Received(true, RfcData(chunks), more)
  {
    hide ReadContent, IsRfcChunk, IsRfcEnd, IsChunk, Closes, IsBlank, HasLine, ChunkText, ClosingText;
    hide RfcChunkText, EndText;
    if chunks == [] {
      EndIsRaw(e, more, broken);
      LastIsRead(Last(e.zeros + e.ext + "\r\n", "\r\n"), more, broken);
    } else {
      var c := chunks[0];
      var rest := RfcText(chunks[1..], e) + more;
      assert RfcText(chunks, e) + more == RfcChunkText(c) + rest;
      RfcBodyIsRead(chunks[1..], e, more, broken);
      BodyHasLine(chunks[1..], e, more, broken);
      ChunkIsRaw(c, rest, broken);
      ChunkIsRead(RawChunk(c.size + c.ext + "\r\n", c.data, "\r\n"), rest, broken);
    }
  }

  lemma {:induction false} CStringIsPrefix(s: string)
    ensures CString(s) <= s
  {
    if s != "" { CStringIsPrefix(s[1..]); }
  }

  lemma FieldIsNotBlank(field: string)
    requires IsField(field)
    ensures !IsBlank(field + "\r\n")
  {
    hide CString;
    var line := field + "\r\n";
    CStringIsPrefix(line);
    assert line[1] == if |field| > 1 then field[1] else '\r';
  }

  lemma TrailerEndIsRefused(e: RfcEnd, more: string, broken: bool)
    requires IsRfcEnd(e) && e.trailer != []
    ensures !ReadContent(EndText(e) + more, broken).ok
  {
    hide Strtoul, LineOf, HasLine, CString, IsLine, Fields, IsSize, IsExtension;
    var field := e.trailer[0];
    var t := Fields(e.trailer[1..]) + "\r\n" + more;
    var line := e.zeros + e.ext + "\r\n";
    FieldsStart(e.trailer, more);
    SizeLineIsRead(e.zeros, e.ext, 0, field + "\r\n" + t);
    LineEndsHere(field, t);
    FieldIsNotBlank(field);
    LineIsTaken(line, field + "\r\n" + t, broken);
    LineIsTaken(field + "\r\n", t, broken);
    assert EndText(e) + more == line + ((field + "\r\n") + t);
    Slices(line, (field + "\r\n") + t);
  }

  lemma {:induction false} FieldsStart(trailer: seq<string>, more: string)
    requires trailer != []
    ensures Fields(trailer) + "\r\n" + more == (trailer[0] + "\r\n") + (Fields(trailer[1..]) + "\r\n" + more)
  {
  }

  /** No body of the RFC with a trailer is accepted, though its data has been delivered by then. */
  lemma {:induction false} TrailersAreRefused(chunks: seq<RfcChunk>, e: RfcEnd, more: string, broken: bool)
    requires IsRfcBody(chunks, e) && Readable(chunks) && e.trailer != []
    ensures !ReadContent(RfcText(chunks, e) + more, broken).ok
  {
    hide ReadContent, IsRfcChunk, IsRfcEnd, IsChunk, IsBlank, HasLine, ChunkText, RfcChunkText, EndText;
    if chunks == [] {
      TrailerEndIsRefused(e, more, broken);
    } else {
      var c := chunks[0];
      var rest := RfcText(chunks[1..], e) + more;
      assert RfcText(chunks, e) + more == RfcChunkText(c) + rest;
      TrailersAreRefused(chunks[1..], e, more, broken);
      BodyHasLine(chunks[1..], e, more, broken);
      ChunkIsRaw(c, rest, broken);
      ChunkIsRead(RawChunk(c.size + c.ext + "\r\n", c.data, "\r\n"), rest, broken);
    }
  }

  /** So of the bodies of the RFC the reader accepts exactly those without a trailer. */
  lemma {:induction false} RfcBodyIsReadIffNoTrailer(chunks: seq<RfcChunk>, e: RfcEnd, more: string, broken: bool)
    requires IsRfcBody(chunks, e) && Readable(chunks)
    ensures var r := ReadContent(RfcText(chunks, e) + more, broken);
      && (r.ok <==> e.trailer == [])
      && (r.ok ==> r == Received(true, RfcData(chunks), more))
  {
    hide *;
    if e.trailer == [] { RfcBodyIsRead(chunks, e, more, broken); } else { TrailersAreRefused(chunks, e, more, broken); }
  }

  /** The reader accepts more than the RFC: here a size line that ends in a bare LF. */
  lemma BareLineFeedIsAccepted(broken: bool)
    ensures ReadContent("0\n\r\n", broken) == Received(true, "", "") && Complete("0\n\r\n", broken)
  {
    hide ReadContent;
    var last := Last("0\n", "\r\n");
    BlankLine("");
    assert "\r\n" + "" == "\r\n" && "0\n" + "\r\n" == "0\n\r\n";
    NoNul("0\n");
    BareSize();
    assert Closes(last, "", broken);
    LastIsRead(last, "", broken);
    assert Reads("0\n\r\n", [], last, "", broken);
  }

  lemma BareSize()
    ensures StatesSize("0\n", 0) && IsLine("0\n", "\r\n", true) && IsLine("0\n", "\r\n", false)
  {
    NoNul("0\n");
    var s := "0\n";
    assert DigitsEnd(s, 0) == 1;
    assert s[0..1] == "0" && NumberOf("0") == 0;
  }

  // ---- what the reader's own grammar says of lines ----

  /** A line states a size if what precedes its first NUL begins with a number that does not look like an overflow. */
  lemma {:induction false} StatesSizeIff(line: string, n: nat)
    ensures StatesSize(line, n) <==>
      n != 0xFFFF_FFFF_FFFF_FFFF && exists x ::
        IsNumeral(x) && TextOfNumeral(x) == CString(line) && Converted(x.sign, PlaceSum(x.values)) == n
  {
    hide Strtoul, IsNumeral, TextOfNumeral, Converted, PlaceSum;
    var s := CString(line);
    var size := Strtoul(s);
    StrtoulIff(s, size.value, size.end);
    forall x | IsNumeral(x) && TextOfNumeral(x) == s
      ensures |x.tail| < |s| && size == Number(Converted(x.sign, PlaceSum(x.values)), |s| - |x.tail|)
    {
      NumeralIsRead(x);
    }
  }

  /** A line is blank if it is CR LF, or CR LF and a NUL with anything after it. */
  lemma BlankIff(line: string)
    ensures IsBlank(line) <==> line == "\r\n" || "\r\n\0" <= line
  {
    hide CString;
    if line == "\r\n" || "\r\n\0" <= line {
      CStringIs("\r\n", line[2..]);
      assert line == "\r\n" + line[2..];
    }
    if IsBlank(line) {
      CStringEnds(line);
      assert line[..2] == "\r\n";
    }
  }

  lemma {:induction false} CStringEnds(s: string)
    ensures CString(s) <= s && (|CString(s)| < |s| ==> s[|CString(s)|] == '\0')
  {
    if s != "" && s[0] != '\0' { CStringEnds(s[1..]); }
  }
}
