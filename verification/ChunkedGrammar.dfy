/** Exactly which streams the chunked reader accepts: whole bodies, and bodies cut short by a stray line. */
module ChunkedGrammar {
  import opened TextSearch
  import opened ChunkedStreams
  import opened Chunked

  // ---- the grammar ----

  /** A chunk as it stands in the stream: its size line, its data and the line after the data. */
  datatype RawChunk = RawChunk(line: string, data: string, end: string)

  /** How an accepted stream ends: with the last-chunk and a blank line, or with a chunk that no blank line follows. */
  datatype Closing = Last(line: string, end: string) | Stray(chunk: RawChunk)

  function ChunkText(c: RawChunk, rest: string): string { c.line + (c.data + (c.end + rest)) }

  function ClosingText(closing: Closing, rest: string): string {
    match closing
    case Last(line, end) => line + (end + rest)
    case Stray(c) => ChunkText(c, rest)
  }

  function Text(chunks: seq<RawChunk>, closing: Closing, rest: string): string {
    if chunks == [] then ClosingText(closing, rest) else ChunkText(chunks[0], Text(chunks[1..], closing, rest))
  }

  /** One line and what follows it: it ends with its only LF, or with the stream if that does not break. */
  predicate IsLine(line: string, rest: string, broken: bool) {
    && line != "" && '\n' !in line[..|line| - 1]
    && (line[|line| - 1] == '\n' || (rest == "" && !broken))
  }

  predicate StatesSize(line: string, n: nat) {
    var size := Strtoul(CString(line));
    size.end != 0 && size.value != ULONG_MAX && size.value == n
  }

  predicate IsBlank(line: string) { CString(line) == "\r\n" }

  /** Size line, that much data, and some line. */
  predicate IsChunk(c: RawChunk, rest: string, broken: bool) {
    && IsLine(c.line, c.data + (c.end + rest), broken) && StatesSize(c.line, |c.data|) && c.data != ""
    && IsLine(c.end, rest, broken)
  }

  predicate Closes(closing: Closing, rest: string, broken: bool) {
    match closing
    case Last(line, end) =>
      IsLine(line, end + rest, broken) && StatesSize(line, 0) && IsLine(end, rest, broken) && IsBlank(end)
    case Stray(c) => IsChunk(c, rest, broken) && !IsBlank(c.end)
  }

  /** Chunks each followed by a blank line, and a closing. */
  predicate WellFormed(chunks: seq<RawChunk>, closing: Closing, rest: string, broken: bool) {
    if chunks == [] then Closes(closing, rest, broken)
    else
      && IsChunk(chunks[0], Text(chunks[1..], closing, rest), broken) && IsBlank(chunks[0].end)
      && WellFormed(chunks[1..], closing, rest, broken)
  }

  function DataIn(chunks: seq<RawChunk>, closing: Closing): string {
    if chunks != [] then chunks[0].data + DataIn(chunks[1..], closing)
    else if closing.Stray? then closing.chunk.data
    else ""
  }

  // ---- lines ----

  lemma LineIsTaken(line: string, rest: string, broken: bool)
    ensures IsLine(line, rest, broken) <==> HasLine(line + rest, broken) && line == LineOf(line + rest)
  {
    var s := line + rest;
    var f := Find(s, "\n");
    if f < |s| { assert s[f..f + 1] == "\n" && s[f] == '\n'; }
    forall i: nat | i < |s| && s[i] == '\n' ensures OccursAt(s, "\n", i) && f <= i {
      assert s[i..i + 1] == "\n";
      assert OccursAt(s, "\n", i);
    }
    if IsLine(line, rest, broken) {
      var n := |line| - 1;
      assert s[n] == line[n] && forall i :: 0 <= i < n ==> s[i] == line[..n][i];
      assert s[..|line|] == line;
    }
  }

  lemma SplitLine(s: string, broken: bool)
    requires HasLine(s, broken)
    ensures var line, rest := LineOf(s), s[|LineOf(s)|..]; s == line + rest && IsLine(line, rest, broken)
  {
    LineIsTaken(LineOf(s), s[|LineOf(s)|..], broken);
  }

  lemma Slices(a: string, b: string)
    ensures (a + b)[..|a|] == a && (a + b)[|a|..] == b && |a + b| == |a| + |b|
  {
  }

  // ---- what the grammar means for the reader ----

  lemma LastIsRead(closing: Closing, rest: string, broken: bool)
    requires closing.Last? && Closes(closing, rest, broken)
    ensures ReadContent(ClosingText(closing, rest), broken) == Received(true, "", rest)
  {
    hide Strtoul, LineOf, HasLine, CString, IsLine;
    LineIsTaken(closing.line, closing.end + rest, broken);
    LineIsTaken(closing.end, rest, broken);
    Slices(closing.line, closing.end + rest);
    Slices(closing.end, rest);
  }

  lemma StrayIsRead(c: RawChunk, rest: string, broken: bool)
    requires IsChunk(c, rest, broken) && !IsBlank(c.end)
    ensures ReadContent(ChunkText(c, rest), broken) == Received(true, c.data, rest)
  {
    hide Strtoul, LineOf, HasLine, CString, IsLine;
    LineIsTaken(c.line, c.data + (c.end + rest), broken);
    LineIsTaken(c.end, rest, broken);
    Slices(c.line, c.data + (c.end + rest));
    Slices(c.data, c.end + rest);
    Slices(c.end, rest);
  }

  lemma ChunkIsRead(c: RawChunk, rest: string, broken: bool)
    requires IsChunk(c, rest, broken) && IsBlank(c.end) && HasLine(rest, broken)
    ensures ReadContent(ChunkText(c, rest), broken) == Prepend(c.data, ReadContent(rest, broken))
  {
    hide Strtoul, LineOf, HasLine, CString, IsLine;
    LineIsTaken(c.line, c.data + (c.end + rest), broken);
    LineIsTaken(c.end, rest, broken);
    SplitLine(rest, broken);
    Slices(c.line, c.data + (c.end + rest));
    NextChunk(c.line, c.data + (c.end + rest), broken, c.data, c.end + rest, c.end, rest, LineOf(rest),
        rest[|LineOf(rest)|..]);
  }

  lemma {:induction false} TextHasLine(chunks: seq<RawChunk>, closing: Closing, rest: string, broken: bool)
    requires WellFormed(chunks, closing, rest, broken)
    ensures HasLine(Text(chunks, closing, rest), broken)
  {
    hide HasLine, LineOf, IsLine;
    if chunks != [] {
      var c := chunks[0];
      LineIsTaken(c.line, c.data + (c.end + Text(chunks[1..], closing, rest)), broken);
    } else if closing.Last? {
      LineIsTaken(closing.line, closing.end + rest, broken);
    } else {
      LineIsTaken(closing.chunk.line, closing.chunk.data + (closing.chunk.end + rest), broken);
    }
  }

  /** A stream of the grammar is read with success, up to its closing, and its data delivered. */
  lemma {:induction false} WellFormedIsRead(chunks: seq<RawChunk>, closing: Closing, rest: string, broken: bool)
    requires WellFormed(chunks, closing, rest, broken)
    ensures ReadContent(Text(chunks, closing, rest), broken) == Received(true, DataIn(chunks, closing), rest)
  {
    hide ReadContent, IsChunk, IsBlank, HasLine, ChunkText;
    if chunks != [] {
      TextHasLine(chunks[1..], closing, rest, broken);
      ChunkIsRead(chunks[0], Text(chunks[1..], closing, rest), broken);
      WellFormedIsRead(chunks[1..], closing, rest, broken);
    } else if closing.Last? {
      LastIsRead(closing, rest, broken);
    } else {
      StrayIsRead(closing.chunk, rest, broken);
    }
  }

  // ---- what success means for the stream ----

  /** The first chunk of a stream that is read with success and has one. */
  lemma ChunkOfSuccess(s: string, broken: bool) returns (c: RawChunk, rest: string)
    requires ReadContent(s, broken).ok && !StatesSize(LineOf(s), 0)
    ensures s == ChunkText(c, rest) && IsChunk(c, rest, broken) && |rest| < |s|
    ensures IsBlank(c.end) ==> ReadContent(rest, broken).ok
  {
    hide Strtoul, LineOf, HasLine, CString, IsLine;
    SplitLine(s, broken);
    var line, s1 := LineOf(s), s[|LineOf(s)|..];
    var n := Strtoul(CString(line)).value;
    var data, s2 := s1[..n], s1[n..];
    SplitLine(s2, broken);
    var end := LineOf(s2);
    rest := s2[|end|..];
    c := RawChunk(line, data, end);
    assert s1 == data + (end + rest);
  }

  lemma LastOfSuccess(s: string, broken: bool) returns (closing: Closing, rest: string)
    requires ReadContent(s, broken).ok && StatesSize(LineOf(s), 0)
    ensures s == ClosingText(closing, rest) && Closes(closing, rest, broken) && closing.Last?
  {
    hide Strtoul, LineOf, HasLine, CString, IsLine;
    SplitLine(s, broken);
    var s1 := s[|LineOf(s)|..];
    SplitLine(s1, broken);
    closing, rest := Last(LineOf(s), LineOf(s1)), s1[|LineOf(s1)|..];
  }

  lemma {:induction false} SuccessIsWellFormed(s: string, broken: bool)
    returns (chunks: seq<RawChunk>, closing: Closing, rest: string)
    ensures ReadContent(s, broken).ok ==> s == Text(chunks, closing, rest) && WellFormed(chunks, closing, rest, broken)
    decreases |s|
  {
    hide ReadContent, IsChunk, IsBlank, StatesSize, ChunkText, IsLine, LineOf;
    chunks, closing, rest := [], Last("", ""), "";
    if ReadContent(s, broken).ok {
      if StatesSize(LineOf(s), 0) {
        closing, rest := LastOfSuccess(s, broken);
      } else {
        var c, more := ChunkOfSuccess(s, broken);
        if IsBlank(c.end) {
          chunks, closing, rest := SuccessIsWellFormed(more, broken);
          chunks := [c] + chunks;
        } else {
          closing, rest := Stray(c), more;
        }
      }
    }
  }

  // ---- there is only one way to read a stream ----

  lemma SameLine(a: string, x: string, b: string, y: string, broken: bool)
    requires IsLine(a, x, broken) && IsLine(b, y, broken) && a + x == b + y
    ensures a == b && x == y
  {
    hide HasLine, LineOf, IsLine;
    LineIsTaken(a, x, broken);
    LineIsTaken(b, y, broken);
    Slices(a, x);
    Slices(b, y);
  }

  lemma SameChunk(c: RawChunk, x: string, d: RawChunk, y: string, broken: bool)
    requires IsChunk(c, x, broken) && IsChunk(d, y, broken) && ChunkText(c, x) == ChunkText(d, y)
    ensures c == d && x == y
  {
    hide IsLine, Strtoul, CString;
    SameLine(c.line, c.data + (c.end + x), d.line, d.data + (d.end + y), broken);
    Slices(c.data, c.end + x);
    Slices(d.data, d.end + y);
    SameLine(c.end, x, d.end, y, broken);
  }

  lemma ChunkIsNoLast(c: RawChunk, x: string, closing: Closing, y: string, broken: bool)
    requires IsChunk(c, x, broken) && closing.Last? && Closes(closing, y, broken)
    ensures ChunkText(c, x) != ClosingText(closing, y)
  {
    hide IsLine, Strtoul, CString;
    if ChunkText(c, x) == ClosingText(closing, y) {
      SameLine(c.line, c.data + (c.end + x), closing.line, closing.end + y, broken);
    }
  }

  lemma SameClosing(a: Closing, x: string, b: Closing, y: string, broken: bool)
    requires Closes(a, x, broken) && Closes(b, y, broken) && ClosingText(a, x) == ClosingText(b, y)
    ensures a == b && x == y
  {
    hide IsLine, IsChunk, ChunkText, StatesSize, IsBlank;
    if a.Stray? && b.Stray? {
      SameChunk(a.chunk, x, b.chunk, y, broken);
    } else if a.Stray? {
      ChunkIsNoLast(a.chunk, x, b, y, broken);
    } else if b.Stray? {
      ChunkIsNoLast(b.chunk, y, a, x, broken);
    } else {
      SameLine(a.line, a.end + x, b.line, b.end + y, broken);
      SameLine(a.end, x, b.end, y, broken);
    }
  }

  lemma ChunkIsNoClosing(c: RawChunk, x: string, closing: Closing, y: string, broken: bool)
    requires IsChunk(c, x, broken) && IsBlank(c.end) && Closes(closing, y, broken)
    ensures ChunkText(c, x) != ClosingText(closing, y)
  {
    hide IsLine, IsChunk, ChunkText, StatesSize, IsBlank;
    if closing.Last? {
      ChunkIsNoLast(c, x, closing, y, broken);
    } else if ChunkText(c, x) == ChunkText(closing.chunk, y) {
      SameChunk(c, x, closing.chunk, y, broken);
    }
  }

  lemma {:induction false} ReadingIsUnique(
      chunks: seq<RawChunk>, closing: Closing, rest: string,
      chunks': seq<RawChunk>, closing': Closing, rest': string, broken: bool)
    ensures WellFormed(chunks, closing, rest, broken) && WellFormed(chunks', closing', rest', broken)
      && Text(chunks, closing, rest) == Text(chunks', closing', rest')
      ==> chunks == chunks' && closing == closing' && rest == rest'
  {
    hide IsChunk, ChunkText, IsBlank, Closes, ClosingText;
    if
      || !WellFormed(chunks, closing, rest, broken) || !WellFormed(chunks', closing', rest', broken)
      || Text(chunks, closing, rest) != Text(chunks', closing', rest')
    {
    } else if chunks != [] && chunks' != [] {
      SameChunk(chunks[0], Text(chunks[1..], closing, rest), chunks'[0], Text(chunks'[1..], closing', rest'), broken);
      ReadingIsUnique(chunks[1..], closing, rest, chunks'[1..], closing', rest', broken);
      assert chunks == [chunks[0]] + chunks[1..] && chunks' == [chunks'[0]] + chunks'[1..];
    } else if chunks != [] {
      ChunkIsNoClosing(chunks[0], Text(chunks[1..], closing, rest), closing', rest', broken);
    } else if chunks' != [] {
      ChunkIsNoClosing(chunks'[0], Text(chunks'[1..], closing', rest'), closing, rest, broken);
    } else {
      SameClosing(closing, rest, closing', rest', broken);
    }
  }

  // ---- exact acceptance ----

  ghost predicate Reads(s: string, chunks: seq<RawChunk>, closing: Closing, rest: string, broken: bool) {
    s == Text(chunks, closing, rest) && WellFormed(chunks, closing, rest, broken)
  }

  /**
   * A whole body by the reader's grammar: chunks, last-chunk, blank line, with lines ended by LF and sizes as strtoul
   * reads them.
   */
  ghost predicate Complete(s: string, broken: bool) {
    exists chunks, closing, rest :: Reads(s, chunks, closing, rest, broken) && closing.Last?
  }

  /** Chunks, the last of which is followed by a line that is not blank. */
  ghost predicate CutShort(s: string, broken: bool) {
    exists chunks, closing, rest :: Reads(s, chunks, closing, rest, broken) && closing.Stray?
  }

  /** The reader succeeds on whole bodies and on bodies cut short, and on nothing else; no stream is both. */
  lemma SuccessIffCompleteOrCutShort(s: string, broken: bool)
    ensures ReadContent(s, broken).ok <==> Complete(s, broken) || CutShort(s, broken)
    ensures !(Complete(s, broken) && CutShort(s, broken))
  {
    hide ReadContent, Text, WellFormed;
    if ReadContent(s, broken).ok {
      var chunks, closing, rest := SuccessIsWellFormed(s, broken);
      assert Reads(s, chunks, closing, rest, broken);
    }
    if Complete(s, broken) {
      var chunks, closing, rest :| Reads(s, chunks, closing, rest, broken) && closing.Last?;
      WellFormedIsRead(chunks, closing, rest, broken);
      if CutShort(s, broken) {
        var chunks', closing', rest' :| Reads(s, chunks', closing', rest', broken) && closing'.Stray?;
        ReadingIsUnique(chunks, closing, rest, chunks', closing', rest', broken);
      }
    } else if CutShort(s, broken) {
      var chunks, closing, rest :| Reads(s, chunks, closing, rest, broken) && closing.Stray?;
      WellFormedIsRead(chunks, closing, rest, broken);
    }
  }

  function AllChunks(chunks: seq<RawChunk>, closing: Closing): seq<RawChunk> {
    chunks + if closing.Stray? then [closing.chunk] else []
  }

  lemma {:induction false} ChunksEndBlank(chunks: seq<RawChunk>, closing: Closing, rest: string, broken: bool)
    requires WellFormed(chunks, closing, rest, broken)
    ensures forall i :: 0 <= i < |chunks| ==> IsBlank(chunks[i].end)
  {
    hide IsBlank, IsChunk;
    if chunks != [] {
      ChunksEndBlank(chunks[1..], closing, rest, broken);
      assert forall i :: 0 < i < |chunks| ==> chunks[i] == chunks[1..][i - 1];
    }
  }

  /** A success means that the whole body was read if and only if a blank line followed the data of every chunk read. */
  lemma {:induction false} WholeBodyIffLinesBlank(s: string, broken: bool)
    returns (chunks: seq<RawChunk>, closing: Closing, rest: string)
    ensures ReadContent(s, broken).ok ==>
      && Reads(s, chunks, closing, rest, broken)
      && ReadContent(s, broken) == Received(true, DataIn(chunks, closing), rest)
      && (Complete(s, broken) <==> forall c :: c in AllChunks(chunks, closing) ==> IsBlank(c.end))
  {
    hide ReadContent, Text, WellFormed, IsBlank;
    chunks, closing, rest := SuccessIsWellFormed(s, broken);
    if ReadContent(s, broken).ok {
      WellFormedIsRead(chunks, closing, rest, broken);
      ChunksEndBlank(chunks, closing, rest, broken);
      SuccessIffCompleteOrCutShort(s, broken);
      if closing.Stray? {
        StrayIsNotBlank(chunks, closing, rest, broken);
        assert AllChunks(chunks, closing)[|chunks|] == closing.chunk;
      }
      assert Reads(s, chunks, closing, rest, broken);
    }
  }

  lemma {:induction false} StrayIsNotBlank(chunks: seq<RawChunk>, closing: Closing, rest: string, broken: bool)
    requires WellFormed(chunks, closing, rest, broken) && closing.Stray?
    ensures !IsBlank(closing.chunk.end)
  {
    hide IsBlank, IsChunk;
    if chunks != [] { StrayIsNotBlank(chunks[1..], closing, rest, broken); }
  }
}
