/** What the receiver of a chunked body makes of it when the connection gives out before the end. */
module ChunkedTruncation {
  import opened TextSearch
  import opened ChunkedStreams
  import opened Chunked
  import opened ChunkedRoundTrip

  // ---- a cut within one chunk ----

  /** A size line with nothing after it is no body. */
  lemma {:induction false} NothingAfter(line: string, broken: bool)
    ensures !ReadChunks(line, "", broken).ok
  {
    hide Strtoul, CString;
  }

  lemma CutInSizeLine(s: string, broken: bool)
    requires '\n' !in s
    ensures !ReadContent(s, broken).ok
  {
    hide Find, ReadChunks;
    NoNewline(s);
    assert s[|s|..] == "";
    NothingAfter(s, broken);
  }

  lemma ReturnHasNoNewline(more: string, broken: bool)
    ensures LineOf("\r") == "\r" && (HasLine("\r", broken) <==> !broken) && CString("\r") != "\r\n"
    ensures !HasLine("", broken)
  {
    hide Find;
    NoNewline("\r");
    NoNewline("");
    NoNul("\r");
  }

  lemma {:induction false} CutInData(data: string, u: string, broken: bool)
    requires |u| < |data| < ULONG_MAX
    ensures !ReadContent(Hex(|data|) + "\r\n" + u, broken).ok
  {
    hide Hex, Strtoul, LineOf, HasLine, CString;
    SizeLine(|data|, u);
  }

  lemma {:induction false} CutAfterData(data: string, broken: bool)
    requires data != "" && |data| < ULONG_MAX
    ensures !ReadContent(Hex(|data|) + "\r\n" + data, broken).ok
  {
    hide Hex, Strtoul, LineOf, HasLine, CString;
    SizeLine(|data|, data);
    ReturnHasNoNewline("", broken);
    assert data[|data|..] == "";
  }

  lemma {:induction false} CutAfterReturn(data: string, broken: bool)
    requires data != "" && |data| < ULONG_MAX
    ensures ReadContent(Hex(|data|) + "\r\n" + (data + "\r"), broken).ok <==> !broken
    ensures !broken ==> ReadContent(Hex(|data|) + "\r\n" + (data + "\r"), broken) == Received(true, data, "")
  {
    hide Hex, Strtoul, LineOf, HasLine, CString;
    ReturnHasNoNewline("", broken);
    TextIsPrefix(data + "\r", data, "\r");
    SizeLine(|data|, data + "\r");
    if !broken {
      assert Unended(data, "\r") == Hex(|data|) + "\r\n" + (data + "\r");
      UnendedIsRead(data, "\r", broken);
    }
  }

  lemma Prefix(a: string, b: string, m: nat)
    requires m <= |a + b|
    ensures m <= |a| ==> (a + b)[..m] == a[..m]
    ensures m >= |a| ==> (a + b)[..m] == a + b[..m - |a|]
  {
  }

  /** Of a chunk cut anywhere before its end, only the cut between its last CR and LF is taken for a success. */
  lemma CutChunk(data: string, m: nat, broken: bool)
    requires data != "" && |data| < ULONG_MAX && m < |Chunk(data)|
    ensures var r := ReadContent(Chunk(data)[..m], broken);
      && (r.ok <==> !broken && m + 1 == |Chunk(data)|)
      && (r.ok ==> r == Received(true, data, ""))
  {
    hide Hex, ReadContent;
    var h := Hex(|data|);
    HexHasNoControls(|data|);
    assert Chunk(data) == (h + "\r\n") + (data + "\r\n");
    Prefix(h + "\r\n", data + "\r\n", m);
    if m < |h| + 2 {
      Prefix(h + "\r", "\n", m);
      assert h + "\r\n" == (h + "\r") + "\n";
      CutInSizeLine((h + "\r")[..m], broken);
    } else {
      var n := m - |h| - 2;
      Prefix(data, "\r\n", n);
      if n < |data| {
        CutInData(data, data[..n], broken);
      } else if n == |data| {
        assert data + "\r\n"[..0] == data;
        CutAfterData(data, broken);
      } else {
        assert "\r\n"[..1] == "\r";
        CutAfterReturn(data, broken);
      }
    }
  }

  /** A last-chunk cut anywhere before its end is no success. */
  lemma CutLast(m: nat, broken: bool)
    requires m < |DONE_MARKER|
    ensures !ReadContent(DONE_MARKER[..m], broken).ok
  {
    hide ReadContent;
    if m < 3 {
      CutInSizeLine(DONE_MARKER[..m], broken);
    } else {
      assert DONE_MARKER[..m] == (Hex(0) + "\r\n") + if m == 3 then "" else "\r";
      LastUnended(if m == 3 then "" else "\r", broken);
    }
  }

  lemma LastUnended(tail: string, broken: bool)
    requires tail == "" || tail == "\r"
    ensures !ReadContent((Hex(0) + "\r\n") + tail, broken).ok
  {
    hide Hex, Strtoul, LineOf, HasLine, CString;
    SizeLine(0, tail);
    ReturnHasNoNewline("", broken);
  }

  // ---- a cut anywhere in a run of operations ----

  /** The cut falls between the last CR and LF of the chunk that write i, before any done, sends. */
  predicate CutsLineEnd(ops: seq<Op>, m: nat, i: nat) {
    i < FirstDone(ops) && ops[i] != WriteOp("") && m + 1 == |TextOf(ops[..i + 1])|
  }

  /** The cut comes after the first done. */
  predicate DoneArrives(ops: seq<Op>, m: nat) {
    var k := FirstDone(ops);
    k < |ops| && |TextOf(ops[..k + 1])| <= m
  }

  lemma {:induction false} TextOfPrefix(ops: seq<Op>, i: nat)
    requires ops != [] && 0 < i <= |ops|
    ensures TextOf(ops[..i]) == OpText(ops[0]) + TextOf(ops[1..][..i - 1])
    ensures |TextOf(ops[..i])| >= |OpText(ops[0])|
  {
    assert ops[..i][0] == ops[0] && ops[..i][1..] == ops[1..][..i - 1];
  }

  /** What the receiver makes of the first m bytes. */
  ghost predicate ReadTruncated(ops: seq<Op>, m: nat, broken: bool)
    requires m <= |TextOf(ops)|
  {
    var r := ReadContent(TextOf(ops)[..m], broken);
    var k := FirstDone(ops);
    && (r.ok <==> DoneArrives(ops, m) || (!broken && exists i: nat :: CutsLineEnd(ops, m, i)))
    && (DoneArrives(ops, m) ==> r == Received(true, DataOf(ops[..k]), TextOf(ops)[|TextOf(ops[..k + 1])|..m]))
    && (!broken ==> forall i: nat :: CutsLineEnd(ops, m, i) ==> r == Received(true, DataOf(ops[..i + 1]), ""))
  }

  lemma {:induction false} TruncatedDone(ops: seq<Op>, m: nat, broken: bool)
    requires ops != [] && ops[0].DoneOp? && m <= |TextOf(ops)|
    ensures ReadTruncated(ops, m, broken)
  {
    hide ReadContent, HasLine;
    var rest := TextOf(ops[1..]);
    Prefix(DONE_MARKER, rest, m);
    TextOfPrefix(ops, 1);
    assert ops[..1] == [ops[0]] && ops[1..][..0] == [];
    assert TextOf(ops[..1]) == DONE_MARKER + "" == DONE_MARKER;
    if m < |DONE_MARKER| {
      CutLast(m, broken);
    } else {
      LastChunk(rest[..m - |DONE_MARKER|], broken);
      assert TextOf(ops)[|DONE_MARKER|..m] == rest[..m - |DONE_MARKER|];
    }
  }

  /** The cuts in line ends and the dones of a run that starts with a write are those of the rest of the run. */
  lemma {:induction false} CutsOfRest(ops: seq<Op>, m: nat)
    requires ops != [] && ops[0].WriteOp? && m >= |OpText(ops[0])|
    ensures var n := m - |OpText(ops[0])|; var rest := ops[1..];
      && (DoneArrives(ops, m) <==> DoneArrives(rest, n))
      && (forall i: nat :: i > 0 ==> (CutsLineEnd(ops, m, i) <==> CutsLineEnd(rest, n, i - 1)))
      && !CutsLineEnd(ops, m, 0)
  {
    hide OpText;
    var rest := ops[1..];
    var k := FirstDone(rest);
    if k < |rest| { TextOfPrefix(ops, k + 2); }
    TextOfPrefix(ops, 1);
    forall i: nat | 0 < i < |ops| ensures TextOf(ops[..i + 1]) == OpText(ops[0]) + TextOf(rest[..i]) {
      TextOfPrefix(ops, i + 1);
    }
    assert rest[..0] == [];
  }

  lemma {:induction false} ChunkIsLong(data: string)
    ensures |Chunk(data)| > 1
  {
    hide Hex;
  }

  lemma {:induction false} CutFirst(ops: seq<Op>, m: nat)
    requires ops != [] && ops[0].WriteOp? && m < |OpText(ops[0])|
    ensures !DoneArrives(ops, m)
    ensures forall i: nat :: CutsLineEnd(ops, m, i) <==> i == 0 && m + 1 == |OpText(ops[0])|
  {
    hide Chunk;
    var k := FirstDone(ops);
    if k < |ops| { TextOfPrefix(ops, k + 1); }
    TextOfPrefix(ops, 1);
    assert ops[1..][..0] == [];
    forall i: nat | 0 < i < k && ops[i] != WriteOp("") ensures |TextOf(ops[..i + 1])| > |OpText(ops[0])| {
      TextOfOneMore(ops, i);
      TextOfPrefix(ops, i);
      ChunkIsLong(ops[i].text);
    }
  }

  lemma {:induction false} TruncatedInFirst(ops: seq<Op>, m: nat, broken: bool)
    requires Representable(ops) && ops != [] && ops[0].WriteOp? && m < |OpText(ops[0])|
    ensures m <= |TextOf(ops)| && ReadTruncated(ops, m, broken)
  {
    hide ReadContent, Chunk, DoneArrives, CutsLineEnd;
    var data := ops[0].text;
    CutChunk(data, m, broken);
    Prefix(Chunk(data), TextOf(ops[1..]), m);
    CutFirst(ops, m);
    DataOfFirst(ops);
    assert CutsLineEnd(ops, m, 0) <==> m + 1 == |Chunk(data)|;
  }

  lemma {:induction false} DataOfFirst(ops: seq<Op>)
    requires ops != [] && ops[0].WriteOp?
    ensures DataOf(ops[..1]) == ops[0].text
  {
    assert ops[..1][1..] == [];
  }

  lemma {:induction false} DataOfMore(ops: seq<Op>, i: nat)
    requires ops != [] && ops[0].WriteOp? && 0 < i <= |ops|
    ensures DataOf(ops[..i]) == ops[0].text + DataOf(ops[1..][..i - 1])
  {
    assert ops[..i][0] == ops[0] && ops[..i][1..] == ops[1..][..i - 1];
  }

  /** Reading past a write that arrived whole. */
  lemma {:induction false} WriteThenMore(data: string, more: string, broken: bool)
    requires |data| < ULONG_MAX
    ensures var r := ReadContent(OpText(WriteOp(data)) + more, broken); var q := ReadContent(more, broken);
      && (r.ok <==> q.ok) && (q.ok ==> r == Prepend(data, q))
  {
    hide Chunk, ReadChunks;
    if data == "" {
      assert "" + more == more;
      PrependNothing(ReadContent(more, broken));
    } else {
      OneChunk(data, more, broken);
    }
  }

  /**
   * A receiver that gets only the first m bytes of what the operations send succeeds if and only if the first done is
   * among them, or the stream ends cleanly right between the CR and the LF that end the chunk of a write before it.
   */
  lemma {:induction false} OpsReadTruncated(ops: seq<Op>, m: nat, broken: bool)
    requires Representable(ops) && m <= |TextOf(ops)|
    ensures ReadTruncated(ops, m, broken)
  {
    hide ReadTruncated;
    if ops == [] {
      TruncatedNothing(m, broken);
    } else if ops[0].DoneOp? {
      TruncatedDone(ops, m, broken);
    } else if m < |OpText(ops[0])| {
      TruncatedInFirst(ops, m, broken);
    } else {
      hide OpText;
      OpsReadTruncated(ops[1..], m - |OpText(ops[0])|, broken);
      TruncatedLater(ops, m, broken);
    }
  }

  lemma {:induction false} TruncatedNothing(m: nat, broken: bool)
    requires m == 0
    ensures TextOf([]) == "" && ReadTruncated([], m, broken)
  {
    hide ReadContent;
    NothingToRead(broken);
  }

  lemma {:induction false} TruncatedLater(ops: seq<Op>, m: nat, broken: bool)
    requires Representable(ops) && ops != [] && ops[0].WriteOp? && |OpText(ops[0])| <= m <= |TextOf(ops)|
    requires ReadTruncated(ops[1..], m - |OpText(ops[0])|, broken)
    ensures ReadTruncated(ops, m, broken)
  {
    hide ReadContent, OpText, DoneArrives, CutsLineEnd;
    var t, rest, n := OpText(ops[0]), ops[1..], m - |OpText(ops[0])|;
    Prefix(t, TextOf(rest), m);
    WriteThenMore(ops[0].text, TextOf(rest)[..n], broken);
    CutsOfRest(ops, m);
    if DoneArrives(ops, m) { RestAfterDone(ops, m); }
    forall i: nat | CutsLineEnd(ops, m, i) ensures i > 0 && CutsLineEnd(rest, n, i - 1) && CutInside(ops, i) {
      CutIsInside(ops, m, i);
    }
    forall i: nat | CutsLineEnd(rest, n, i) ensures CutsLineEnd(ops, m, i + 1) {
      assert CutsLineEnd(rest, n, (i + 1) - 1);
    }
  }

  ghost predicate CutInside(ops: seq<Op>, i: nat)
    requires ops != [] && ops[0].WriteOp?
  {
    0 < i < |ops| && DataOf(ops[..i + 1]) == ops[0].text + DataOf(ops[1..][..i])
  }

  lemma {:induction false} CutIsInside(ops: seq<Op>, m: nat, i: nat)
    requires ops != [] && ops[0].WriteOp? && m >= |OpText(ops[0])| && CutsLineEnd(ops, m, i)
    ensures CutInside(ops, i)
  {
    CutsOfRest(ops, m);
    DataOfMore(ops, i + 1);
  }

  lemma {:induction false} TailAfter(a: string, b: string, i: nat, n: nat)
    requires i <= n <= |b|
    ensures (a + b)[|a| + i..|a| + n] == b[i..n]
  {
  }

  lemma {:induction false} RestAfterDone(ops: seq<Op>, m: nat)
    requires ops != [] && ops[0].WriteOp? && |OpText(ops[0])| <= m <= |TextOf(ops)| && DoneArrives(ops, m)
    ensures var rest, n := ops[1..], m - |OpText(ops[0])|; var k := FirstDone(rest);
      && FirstDone(ops) == k + 1 && k < |rest| && |TextOf(rest[..k + 1])| <= n
      && DataOf(ops[..k + 1]) == ops[0].text + DataOf(rest[..k])
      && TextOf(ops)[|TextOf(ops[..k + 2])|..m] == TextOf(rest)[|TextOf(rest[..k + 1])|..n]
  {
    hide OpText, TextOf, DataOf;
    var k := FirstDone(ops[1..]);
    TextOfPrefix(ops, |ops|);
    assert ops[..|ops|] == ops && ops[1..][..|ops| - 1] == ops[1..];
    TextOfPrefix(ops, k + 2);
    DataOfMore(ops, k + 1);
    var t := OpText(ops[0]);
    TailAfter(t, TextOf(ops[1..]), |TextOf(ops[1..][..k + 1])|, m - |t|);
  }

  // ---- transfers over connections that give out ----

  /** The bytes of these operations that get through a connection with this much room. */
  function Sent(ops: seq<Op>, room: nat): string { Taken(TextOf(ops), room) }

  /**
   * For every provider and every connection: the receiver succeeds if and only if done is reached and gets through, or
   * the connection gives out between the CR and the LF that end a chunk, and that looks like the end of the stream.
   */
  lemma {:induction false} TransferOverConnection(calls: seq<ProviderCall>, room: nat, broken: bool)
    requires Representable(Performed(calls).ops)
    ensures var ops := Performed(calls).ops; var r := ReadContent(Sent(ops, room), broken);
      && (DoneIsReached(calls) <==> FirstDone(ops) < |ops|)
      && (r.ok <==> DoneArrives(ops, room) || (!broken && exists i: nat :: CutsLineEnd(ops, room, i)))
      && (DoneArrives(ops, room) ==> r.data == DataOf(ops[..FirstDone(ops)]))
      && (!broken ==> forall i: nat :: CutsLineEnd(ops, room, i) ==> r == Received(true, DataOf(ops[..i + 1]), ""))
  {
    hide ReadContent, DoneIsReached, Performed, CutsLineEnd, DoneArrives, TextOf, Taken;
    var ops := Performed(calls).ops;
    PerformedDone(calls);
    FirstDoneIn(ops);
    SentIsPrefix(ops, room);
    OpsReadTruncated(ops, |Sent(ops, room)|, broken);
    forall i: nat ensures CutsLineEnd(ops, |Sent(ops, room)|, i) <==> CutsLineEnd(ops, room, i) {
      CutsWithinRoom(ops, room, i);
    }
    DoneWithinRoom(ops, room);
  }

  lemma {:induction false} SentIsPrefix(ops: seq<Op>, room: nat)
    ensures var m := |Sent(ops, room)|; m <= |TextOf(ops)| && Sent(ops, room) == TextOf(ops)[..m]
  {
    hide TextOf;
  }

  lemma {:induction false} CutsWithinRoom(ops: seq<Op>, room: nat, i: nat)
    ensures CutsLineEnd(ops, |Sent(ops, room)|, i) <==> CutsLineEnd(ops, room, i)
  {
    hide TextOf;
    if i < FirstDone(ops) { TextOfOneMore(ops, i); }
  }

  lemma {:induction false} DoneWithinRoom(ops: seq<Op>, room: nat)
    ensures DoneArrives(ops, |Sent(ops, room)|) <==> DoneArrives(ops, room)
  {
    hide TextOf;
    if FirstDone(ops) < |ops| { TextOfOneMore(ops, FirstDone(ops)); }
  }

  lemma {:induction false} DataSplits(ops: seq<Op>, i: nat)
    requires i <= |ops|
    ensures DataOf(ops) == DataOf(ops[..i]) + DataOf(ops[i..])
    ensures DataOf(ops) == DataOf(ops[..i]) <==> DataOf(ops[i..]) == ""
  {
    hide DataOf;
    assert ops == ops[..i] + ops[i..];
    DataOfBoth(ops[..i], ops[i..]);
    assert |DataOf(ops)| == |DataOf(ops[..i])| + |DataOf(ops[i..])|;
  }

  /** The cut in a line end comes after all the data. */
  predicate CutsLastLineEnd(ops: seq<Op>, m: nat, i: nat) {
    CutsLineEnd(ops, m, i) && DataOf(ops[i + 1..]) == ""
  }

  /** All the data written arrives if and only if it precedes what makes the receiver succeed. */
  lemma {:induction false} AllDataArrivesIff(calls: seq<ProviderCall>, room: nat, broken: bool)
    requires Representable(Performed(calls).ops)
    ensures var ops := Performed(calls).ops; var r := ReadContent(Sent(ops, room), broken);
      r.ok && r.data == DataOf(ops) <==>
        || (DoneArrives(ops, room) && DataOf(ops[FirstDone(ops)..]) == "")
        || (!broken && exists i: nat :: CutsLastLineEnd(ops, room, i))
  {
    hide ReadContent, DoneIsReached, Performed, CutsLineEnd, DoneArrives, TextOf, Taken, DataOf;
    var ops := Performed(calls).ops;
    TransferOverConnection(calls, room, broken);
    DataSplits(ops, FirstDone(ops));
    forall i: nat | CutsLineEnd(ops, room, i)
      ensures i < |ops| && !DoneArrives(ops, room)
      ensures DataOf(ops) == DataOf(ops[..i + 1]) <==> CutsLastLineEnd(ops, room, i)
    {
      CutComesBeforeDone(ops, room, i);
      DataSplits(ops, i + 1);
    }
  }

  lemma {:induction false} CutComesBeforeDone(ops: seq<Op>, m: nat, i: nat)
    requires CutsLineEnd(ops, m, i)
    ensures i < |ops| && !DoneArrives(ops, m)
  {
    hide TextOf;
    var k := FirstDone(ops);
    if k < |ops| {
      TextOfOneMore(ops[..k + 1], i);
      assert ops[..k + 1][..i + 1] == ops[..i + 1] && ops[..k + 1][..i] == ops[..i];
    }
  }

  /** What the writer reports as a success, the receiver takes for one exactly when done was reached. */
  lemma {:induction false} WriterSuccess(calls: seq<ProviderCall>, room: nat, broken: bool)
    requires Representable(Performed(calls).ops) && Outcome(calls, room) == Success
    ensures ReadContent(Sent(Performed(calls).ops, room), broken).ok <==> DoneIsReached(calls)
  {
    hide ReadContent, DoneIsReached, Performed, TextOf;
    OutcomeIsPerformed(calls, room);
    TransferSucceedsIffDoneIsReached(calls, "", broken);
  }

  /** A cut one byte before the end of a chunk: the rest of the data is lost, and the receiver reports success. */
  lemma {:induction false} CutGoesUnnoticed(a: string, b: string)
    requires 0 < |a| < ULONG_MAX && 0 < |b| < ULONG_MAX
    ensures var calls := OneWritePerCall([a, b]); var room := |Chunk(a)| - 1;
      && DoneIsReached(calls) && Outcome(calls, room) == WriteFailed
      && ReadContent(Sent(Performed(calls).ops, room), false) == Received(true, a, "")
  {
    hide ReadContent, Chunk, OneWritePerCall;
    var calls := OneWritePerCall([a, b]);
    var room := |Chunk(a)| - 1;
    ChunkIsLong(a);
    OneWritePerCallIs(a, b);
    CutChunk(a, room, false);
  }

  lemma {:induction false} OneWritePerCallIs(a: string, b: string)
    requires a != "" && b != ""
    ensures var calls := OneWritePerCall([a, b]); var room := |Chunk(a)| - 1;
      && |Chunk(a)| > 0 && DoneIsReached(calls) && Outcome(calls, room) == WriteFailed
      && Sent(Performed(calls).ops, room) == Chunk(a)[..room]
  {
    hide Chunk;
    ChunkIsLong(a);
    var calls := OneWritePerCall([a, b]);
    var c := calls[0];
    assert c == ProviderCall([WriteOp(a)], true) && calls[1] == ProviderCall([WriteOp(b)], true);
    assert calls[2] == ProviderCall([DoneOp], true);
    assert DoneOp in calls[2].ops && forall j: nat :: j < 2 ==> Continues(calls[j]);
    assert [WriteOp(a)][1..] == [];
    assert TextOf(c.ops) == Chunk(a) + "" == Chunk(a);
    var rest := Performed(calls[1..]).ops;
    assert Performed(calls).ops == c.ops + rest;
    TextOfBoth(c.ops, rest);
    Prefix(Chunk(a), TextOf(rest), |Chunk(a)| - 1);
  }
}
