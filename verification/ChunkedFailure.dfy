/** What the chunked reader leaves behind when it fails: the data handed over by then, and the bytes not yet read. */
module ChunkedFailure {
  import opened TextSearch
  import opened ChunkedStreams
  import opened Chunked
  import opened ChunkedGrammar

  /** No line can be read: nothing is left, or the stream breaks before the next LF. */
  predicate NoLine(s: string, broken: bool) { '\n' !in s && (s == "" || broken) }

  /** A size line and what follows it, which cannot be read as the rest of a chunk or as the end of the body. */
  ghost predicate StuckAfter(line: string, s: string, data: string, rest: string, broken: bool) {
    || ((forall n: nat :: !StatesSize(line, n)) && data == "" && rest == s)
    || (StatesSize(line, 0) && NoEnd(s, rest, broken) && data == "")
    || ((exists n: nat :: StatesSize(line, n) && n > |s|) && data == s && rest == "")
    || (data != "" && StatesSize(line, |data|) && rest == "" && exists t :: s == data + t && NoLine(t, broken))
  }

  /** After the last-chunk there is no line, or one that is not blank. */
  ghost predicate NoEnd(s: string, rest: string, broken: bool) {
    || (NoLine(s, broken) && rest == "")
    || exists end :: s == end + rest && IsLine(end, rest, broken) && !IsBlank(end)
  }

  /** The reader is about to read a size line, and gets no further than this. */
  ghost predicate Stuck(s: string, data: string, rest: string, broken: bool) {
    || (NoLine(s, broken) && data == "" && rest == "")
    || exists line, t :: s == line + t && IsLine(line, t, broken) && StuckAfter(line, t, data, rest, broken)
  }

  function ChunksText(chunks: seq<RawChunk>, rest: string): string {
    if chunks == [] then rest else ChunkText(chunks[0], ChunksText(chunks[1..], rest))
  }

  function ChunksData(chunks: seq<RawChunk>): string {
    if chunks == [] then "" else chunks[0].data + ChunksData(chunks[1..])
  }

  /** Chunks, each followed by a blank line. */
  predicate Clean(chunks: seq<RawChunk>, rest: string, broken: bool) {
    chunks == [] ||
    (IsChunk(chunks[0], ChunksText(chunks[1..], rest), broken) && IsBlank(chunks[0].end)
      && Clean(chunks[1..], rest, broken))
  }

  lemma NoLineIs(s: string, broken: bool)
    ensures NoLine(s, broken) <==> !HasLine(s, broken)
  {
    if f: nat :| f < |s| && s[f] == '\n' {
      assert s[f..f + 1] == "\n";
      assert OccursAt(s, "\n", f);
    }
    var f := Find(s, "\n");
    if f < |s| { assert s[f..f + 1][0] == s[f]; }
  }

  lemma {:induction false} NoSizeIs(line: string)
    ensures (forall n: nat :: !StatesSize(line, n)) <==>
      Strtoul(CString(line)).end == 0 || Strtoul(CString(line)).value == ULONG_MAX
    ensures forall n: nat :: StatesSize(line, n) ==> n == Strtoul(CString(line)).value
  {
    hide Strtoul, CString;
    var size := Strtoul(CString(line));
    assert size.end != 0 && size.value != ULONG_MAX ==> StatesSize(line, size.value);
  }

  // ---- a stream that is stuck is read so ----

  lemma NoEndIsRead(s: string, rest: string, broken: bool)
    requires NoEnd(s, rest, broken)
    ensures rest == if HasLine(s, broken) then s[|LineOf(s)|..] else ""
    ensures !(HasLine(s, broken) && IsBlank(LineOf(s)))
  {
    hide HasLine, LineOf, IsLine, IsBlank;
    NoLineIs(s, broken);
    if HasLine(s, broken) {
      var end :| s == end + rest && IsLine(end, rest, broken) && !IsBlank(end);
      LineIsTaken(end, rest, broken);
      Slices(end, rest);
    } else if end :| s == end + rest && IsLine(end, rest, broken) && !IsBlank(end) {
      LineIsTaken(end, rest, broken);
    }
  }

  lemma {:induction false} StuckAfterIsRead(line: string, s: string, data: string, rest: string, broken: bool)
    requires StuckAfter(line, s, data, rest, broken)
    ensures ReadChunks(line, s, broken) == Received(false, data, rest)
  {
    hide Strtoul, LineOf, HasLine, CString, NoEnd;
    NoSizeIs(line);
    if StatesSize(line, 0) {
      if NoEnd(s, rest, broken) { NoEndIsRead(s, rest, broken); }
    } else if StatesSize(line, |data|) && exists t :: s == data + t && NoLine(t, broken) {
      var t :| s == data + t && NoLine(t, broken);
      Slices(data, t);
      NoLineIs(t, broken);
    }
  }

  lemma StuckIsRead(s: string, data: string, rest: string, broken: bool)
    requires Stuck(s, data, rest, broken)
    ensures ReadContent(s, broken) == Received(false, data, rest)
  {
    hide LineOf, HasLine, IsLine, StuckAfter, NoLine, ReadChunks;
    NoLineIs(s, broken);
    if line, t :| s == line + t && IsLine(line, t, broken) && StuckAfter(line, t, data, rest, broken) {
      LineIsTaken(line, t, broken);
      Slices(line, t);
      StuckAfterIsRead(line, t, data, rest, broken);
    }
  }

  /** A chunk after which no line can be read. */
  lemma NothingAfterChunk(c: RawChunk, s: string, broken: bool)
    requires IsChunk(c, s, broken) && IsBlank(c.end) && !HasLine(s, broken)
    ensures ReadContent(ChunkText(c, s), broken) == Received(false, c.data, "")
  {
    hide Strtoul, LineOf, HasLine, CString, IsLine;
    LineIsTaken(c.line, c.data + (c.end + s), broken);
    LineIsTaken(c.end, s, broken);
    Slices(c.line, c.data + (c.end + s));
    Slices(c.data, c.end + s);
    Slices(c.end, s);
  }

  lemma ChunkStarts(c: RawChunk, s: string, broken: bool)
    requires IsChunk(c, s, broken)
    ensures HasLine(ChunkText(c, s), broken)
  {
    hide HasLine, LineOf, IsLine, StatesSize;
    LineIsTaken(c.line, c.data + (c.end + s), broken);
  }

  lemma {:induction false} CleanThenStuck(chunks: seq<RawChunk>, s: string, data: string, rest: string, broken: bool)
    requires Clean(chunks, s, broken) && Stuck(s, data, rest, broken)
    ensures ReadContent(ChunksText(chunks, s), broken) == Received(false, ChunksData(chunks) + data, rest)
  {
    hide ReadContent, IsChunk, IsBlank, HasLine, ChunkText, Stuck;
    StuckIsRead(s, data, rest, broken);
    if chunks != [] {
      var more := ChunksText(chunks[1..], s);
      CleanThenStuck(chunks[1..], s, data, rest, broken);
      if HasLine(more, broken) {
        ChunkIsRead(chunks[0], more, broken);
      } else {
        NothingAfterChunk(chunks[0], more, broken);
        if |chunks| > 1 { ChunkStarts(chunks[1], ChunksText(chunks[1..][1..], s), broken); }
        NothingIsRead(more, broken);
      }
    }
  }

  lemma NothingIsRead(s: string, broken: bool)
    requires !HasLine(s, broken)
    ensures ReadContent(s, broken) == Received(false, "", "")
  {
  }

  // ---- and a stream on which the reader fails is stuck ----

  lemma FailureIsStuck(s: string, broken: bool)
    requires !ReadContent(s, broken).ok && !(HasLine(s, broken) && BeginsWithChunk(s, broken))
    ensures var r := ReadContent(s, broken); Stuck(s, r.data, r.rest, broken)
  {
    hide Strtoul, LineOf, HasLine, CString, StuckAfter, IsLine;
    NoLineIs(s, broken);
    if HasLine(s, broken) {
      SplitLine(s, broken);
      FailureAfterLine(LineOf(s), s[|LineOf(s)|..], broken);
    }
  }

  /** The whole of a chunk is there, and a blank line after it. */
  predicate BeginsWithChunk(s: string, broken: bool)
    requires HasLine(s, broken)
  {
    HoldsChunk(LineOf(s), s[|LineOf(s)|..], broken)
  }

  predicate HoldsChunk(line: string, s: string, broken: bool) {
    var size := Strtoul(CString(line));
    && size.end != 0 && size.value != ULONG_MAX && 0 < size.value <= |s|
    && HasLine(s[size.value..], broken) && IsBlank(LineOf(s[size.value..]))
  }

  lemma {:induction false} FailureAfterLine(line: string, s: string, broken: bool)
    requires !ReadChunks(line, s, broken).ok && !HoldsChunk(line, s, broken)
    ensures var r := ReadChunks(line, s, broken); StuckAfter(line, s, r.data, r.rest, broken)
  {
    hide Strtoul, LineOf, HasLine, CString, IsLine, NoEnd;
    NoSizeIs(line);
    var size := Strtoul(CString(line));
    var r := ReadChunks(line, s, broken);
    if size.end != 0 && size.value != ULONG_MAX {
      assert StatesSize(line, size.value);
      if size.value == 0 {
        FailureAtEnd(s, r.rest, broken);
      } else if |s| >= size.value {
        var data, t := s[..size.value], s[size.value..];
        assert s == data + t;
        NoLineIs(t, broken);
      }
    }
  }

  lemma FailureAtEnd(s: string, rest: string, broken: bool)
    requires !(HasLine(s, broken) && IsBlank(LineOf(s)))
    requires rest == if HasLine(s, broken) then s[|LineOf(s)|..] else ""
    ensures NoEnd(s, rest, broken)
  {
    hide HasLine, LineOf, IsLine, IsBlank;
    NoLineIs(s, broken);
    if HasLine(s, broken) { SplitLine(s, broken); }
  }

  /** The chunk at the front, and what the reader makes of the rest. */
  lemma FirstChunk(s: string, broken: bool) returns (c: RawChunk, rest: string)
    requires HasLine(s, broken) && BeginsWithChunk(s, broken)
    ensures s == ChunkText(c, rest) && IsChunk(c, rest, broken) && IsBlank(c.end) && |rest| < |s|
    ensures ReadContent(s, broken) == Prepend(c.data, ReadContent(rest, broken))
  {
    hide Strtoul, LineOf, HasLine, CString, IsLine;
    SplitLine(s, broken);
    var line, s1 := LineOf(s), s[|LineOf(s)|..];
    var n := Strtoul(CString(line)).value;
    var data, s2 := s1[..n], s1[n..];
    SplitLine(s2, broken);
    var end := LineOf(s2);
    rest := s2[|end|..];
    c := RawChunk(line, data, end);
    assert s1 == data + (end + rest);
    if HasLine(rest, broken) {
      ChunkIsRead(c, rest, broken);
    } else {
      NothingAfterChunk(c, rest, broken);
    }
  }

  lemma {:induction false} FailureHasReason(s: string, broken: bool)
    returns (chunks: seq<RawChunk>, left: string, data: string)
    requires !ReadContent(s, broken).ok
    ensures s == ChunksText(chunks, left) && Clean(chunks, left, broken)
    ensures var r := ReadContent(s, broken); Stuck(left, data, r.rest, broken) && r.data == ChunksData(chunks) + data
    decreases |s|
  {
    hide ReadContent, IsChunk, IsBlank, HasLine, ChunkText, Stuck, BeginsWithChunk;
    if HasLine(s, broken) && BeginsWithChunk(s, broken) {
      var c, rest := FirstChunk(s, broken);
      chunks, left, data := FailureHasReason(rest, broken);
      chunks := [c] + chunks;
    } else {
      FailureIsStuck(s, broken);
      chunks, left, data := [], s, ReadContent(s, broken).data;
    }
  }

  ghost predicate FailsBy(s: string, chunks: seq<RawChunk>, left: string, data: string, r: Received, broken: bool) {
    && s == ChunksText(chunks, left) && Clean(chunks, left, broken)
    && Stuck(left, data, r.rest, broken) && r.data == ChunksData(chunks) + data
  }

  /**
   * The reader fails, having handed over this data and left these bytes, if and only if the stream is whole chunks
   * followed by something it is stuck at, and that data and those bytes are what this says.
   */
  lemma FailureIff(s: string, data: string, rest: string, broken: bool)
    ensures ReadContent(s, broken) == Received(false, data, rest) <==>
      exists chunks, left, d :: FailsBy(s, chunks, left, d, Received(false, data, rest), broken)
  {
    hide ReadContent, Clean, Stuck, ChunksText;
    var r := Received(false, data, rest);
    if ReadContent(s, broken) == r {
      var chunks, left, d := FailureHasReason(s, broken);
      assert FailsBy(s, chunks, left, d, r, broken);
    }
    if chunks, left, d :| FailsBy(s, chunks, left, d, r, broken) { CleanThenStuck(chunks, left, d, rest, broken); }
  }
}
