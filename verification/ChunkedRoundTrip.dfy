/** When the chunked reader gives back what the chunked writer was given. */
module ChunkedRoundTrip {
  import opened TextSearch
  import opened ChunkedStreams
  import opened Chunked

  function Concat(pieces: seq<string>): string {
    if pieces == [] then "" else pieces[0] + Concat(pieces[1..])
  }

  lemma NoNewline(s: string)
    requires '\n' !in s
    ensures Find(s, "\n") == |s|
  {
    forall i: nat | i < |s| ensures !OccursAt(s, "\n", i) {
      assert i + 1 <= |s| ==> s[i..i + 1][0] == s[i] != '\n';
    }
    FindIs(s, "\n", |s|);
  }

  /** A line without LF, then CR LF: getline stops right there. */
  lemma LineBefore(text: string, more: string)
    requires '\n' !in text
    ensures LineOf(text + "\r\n" + more) == text + "\r\n" && HasLine(text + "\r\n" + more, true)
    ensures HasLine(text + "\r\n" + more, false)
    ensures (text + "\r\n" + more)[|text| + 2..] == more
  {
    hide Find;
    var s := text + "\r\n" + more;
    assert s == (text + "\r") + ("\n" + more);
    NoNewline(text + "\r");
    FindBefore(text + "\r", "\n" + more, "\n");
    assert s[..|text| + 2] == text + "\r\n";
  }

  lemma {:induction false} HexHasNoControls(n: nat)
    ensures '\n' !in Hex(n) && '\0' !in Hex(n)
  {
    HexIsDigits(n);
    assert !IsHex('\n') && !IsHex('\0');
  }

  /** The size line of a chunk reads back as its size. */
  lemma {:induction false} SizeLine(n: nat, more: string)
    requires n <= ULONG_MAX
    ensures var line := Hex(n) + "\r\n"; var s := line + more;
      && LineOf(s) == line && HasLine(s, true) && HasLine(s, false) && s[|line|..] == more
      && Strtoul(CString(line)) == Number(n, |Hex(n)|) && |Hex(n)| > 0
  {
    hide Hex, Strtoul, LineOf, HasLine;
    HexHasNoControls(n);
    LineBefore(Hex(n), more);
    NoNul(Hex(n) + "\r\n");
    StrtoulReadsHex(n, "\r\n");
  }

  lemma EndLine(more: string)
    ensures LineOf("\r\n" + more) == "\r\n" && HasLine("\r\n" + more, true) && HasLine("\r\n" + more, false)
    ensures ("\r\n" + more)[2..] == more && CString("\r\n") == "\r\n"
  {
    hide LineOf, HasLine;
    LineBefore("", more);
    assert "" + "\r\n" + more == "\r\n" + more;
    NoNul("\r\n");
  }

  lemma Regroup(size: string, end: string, data: string, more: string)
    ensures (size + end + data + end) + more == (size + end) + (data + (end + more))
  {
  }

  lemma {:induction false} ChunkShape(data: string, more: string)
    ensures Chunk(data) + more == (Hex(|data|) + "\r\n") + (data + ("\r\n" + more))
  {
    hide Hex;
    Regroup(Hex(|data|), "\r\n", data, more);
  }

  /** Reading a chunk: its data, then whatever follows is read the same way. */
  lemma OneChunk(data: string, more: string, broken: bool)
    requires data != "" && |data| < ULONG_MAX
    ensures ReadContent(Chunk(data) + more, broken) ==
      if HasLine(more, broken) then Prepend(data, ReadContent(more, broken)) else Received(false, data, "")
  {
    hide Hex, Strtoul, LineOf, HasLine, CString, Chunk;
    var line := Hex(|data|) + "\r\n";
    var s := data + ("\r\n" + more);
    ChunkShape(data, more);
    SizeLine(|data|, s);
    EndLine(more);
    TextIsPrefix(s, data, "\r\n" + more);
    if HasLine(more, broken) {
      assert more == LineOf(more) + more[|LineOf(more)|..];
      assert "\r\n" + more == LineOf("\r\n" + more) + more;
      NextChunk(line, s, broken, data, "\r\n" + more, "\r\n", more, LineOf(more), more[|LineOf(more)|..]);
    }
  }

  lemma LastChunk(more: string, broken: bool)
    ensures ReadContent(DONE_MARKER + more, broken) == Received(true, "", more) && HasLine(DONE_MARKER + more, broken)
  {
    hide Strtoul, LineOf, HasLine, CString;
    assert Hex(0) == "0";
    assert DONE_MARKER + more == (Hex(0) + "\r\n") + ("\r\n" + more);
    SizeLine(0, "\r\n" + more);
    EndLine(more);
  }

  lemma ChunkHasLine(data: string, more: string, broken: bool)
    requires |data| <= ULONG_MAX
    ensures HasLine(Chunk(data) + more, broken)
  {
    hide Hex, HasLine, Chunk;
    ChunkShape(data, more);
    SizeLine(|data|, data + ("\r\n" + more));
  }

  // ---- a run of operations, read back ----

  function DataOf(ops: seq<Op>): string {
    if ops == [] then "" else (if ops[0].WriteOp? then ops[0].text else "") + DataOf(ops[1..])
  }

  /** Lengths that a size_t can hold, short of the value strtoul reports overflow with. */
  predicate Representable(ops: seq<Op>) {
    forall i :: 0 <= i < |ops| && ops[i].WriteOp? ==> |ops[i].text| < ULONG_MAX
  }

  function FirstDone(ops: seq<Op>): (k: nat)
    ensures k <= |ops| && (k < |ops| ==> ops[k].DoneOp?)
    ensures forall i :: 0 <= i < k ==> ops[i].WriteOp?
  {
    if ops == [] || ops[0].DoneOp? then 0 else 1 + FirstDone(ops[1..])
  }

  /** The reader stops at the first done: with the data written before it, leaving whatever comes after it. */
  ghost predicate ReadBack(ops: seq<Op>, more: string, broken: bool) {
    var k := FirstDone(ops);
    var s := TextOf(ops) + more;
    if k == |ops| then more == "" ==> !ReadContent(s, broken).ok
    else ReadContent(s, broken) == Received(true, DataOf(ops[..k]), TextOf(ops[k + 1..]) + more) && HasLine(s, broken)
  }

  lemma {:induction false} OpsReadBack(ops: seq<Op>, more: string, broken: bool)
    requires Representable(ops)
    ensures ReadBack(ops, more, broken)
  {
    hide Chunk, ReadContent, HasLine;
    if ops == [] {
      NothingToRead(broken);
    } else {
      var rest := ops[1..];
      var k := FirstDone(ops);
      assert TextOf(ops) + more == OpText(ops[0]) + (TextOf(rest) + more);
      match ops[0] {
        case DoneOp => {
          LastChunk(TextOf(rest) + more, broken);
          assert ops[..k] == [];
        }
        case WriteOp(data) => {
          OpsReadBack(rest, more, broken);
          FirstOfMore(ops);
          if data == "" {
            assert TextOf(ops) + more == TextOf(rest) + more;
          } else {
            OneChunk(data, TextOf(rest) + more, broken);
            ChunkHasLine(data, TextOf(rest) + more, broken);
          }
        }
      }
    }
  }

  lemma NothingToRead(broken: bool)
    ensures !ReadContent("", broken).ok
  {
  }

  lemma {:induction false} FirstOfMore(ops: seq<Op>)
    requires ops != [] && ops[0].WriteOp?
    ensures var k := FirstDone(ops[1..]); FirstDone(ops) == k + 1 && (k == |ops| - 1 <==> k + 1 == |ops|)
    ensures var k := FirstDone(ops[1..]);
      k < |ops| - 1 ==> DataOf(ops[..k + 1]) == ops[0].text + DataOf(ops[1..][..k]) && ops[k + 2..] == ops[1..][k + 1..]
  {
    var k := FirstDone(ops[1..]);
    if k < |ops| - 1 { assert ops[..k + 1][1..] == ops[1..][..k]; }
  }

  // ---- when a transfer succeeds ----

  /** A call after which the provider is asked again. */
  predicate Continues(c: ProviderCall) { c.goesOn && StillAvailable(c.ops) }

  /** Some call says done, and every call before it goes on and does not end in an empty write. */
  ghost predicate DoneIsReached(calls: seq<ProviderCall>) {
    exists i: nat :: i < |calls| && DoneOp in calls[i].ops && forall j: nat :: j < i ==> Continues(calls[j])
  }

  lemma {:induction false} PerformedDone(calls: seq<ProviderCall>)
    ensures DoneOp in Performed(calls).ops <==> DoneIsReached(calls)
  {
    hide StillAvailable;
    if calls != [] && !(DoneOp in calls[0].ops) && Continues(calls[0]) {
      PerformedDone(calls[1..]);
      if DoneIsReached(calls[1..]) {
        var rest := calls[1..];
        var i: nat :| i < |rest| && DoneOp in rest[i].ops && forall j: nat :: j < i ==> Continues(rest[j]);
        forall j: nat | j < i + 1 ensures Continues(calls[j]) {
          if j > 0 { assert Continues(rest[j - 1]); }
        }
        assert DoneOp in calls[i + 1].ops;
      }
      if DoneIsReached(calls) {
        var i: nat :| i < |calls| && DoneOp in calls[i].ops && forall j: nat :: j < i ==> Continues(calls[j]);
        assert DoneOp in calls[1..][i - 1].ops;
        forall j: nat | j < i - 1 ensures Continues(calls[1..][j]) { assert Continues(calls[j + 1]); }
      }
    } else if calls != [] && DoneOp in calls[0].ops {
      assert calls[0].ops == Performed(calls).ops[..|calls[0].ops|];
    }
  }

  lemma {:induction false} FirstDoneIn(ops: seq<Op>)
    ensures FirstDone(ops) < |ops| <==> DoneOp in ops
  {
    if ops != [] { FirstDoneIn(ops[1..]); }
  }

  /**
   * However the provider groups its writes into calls, the receiver succeeds if and only if done is reached, and then
   * has the data written before the first done; what is sent after it, now or later, stays in the stream.
   */
  lemma {:induction false} TransferSucceedsIffDoneIsReached(calls: seq<ProviderCall>, more: string, broken: bool)
    requires Representable(Performed(calls).ops)
    ensures var ops := Performed(calls).ops; var k := FirstDone(ops);
      && (ReadContent(TextOf(ops), broken).ok <==> DoneIsReached(calls))
      && (DoneIsReached(calls) ==>
            k < |ops| && ReadContent(TextOf(ops) + more, broken)
                == Received(true, DataOf(ops[..k]), TextOf(ops[k + 1..]) + more))
  {
    hide ReadContent, DoneIsReached, Representable, Performed, TextOf;
    var ops := Performed(calls).ops;
    PerformedDone(calls);
    FirstDoneIn(ops);
    OpsReadBack(ops, more, broken);
    OpsReadBack(ops, "", broken);
    assert TextOf(ops) + "" == TextOf(ops);
  }

  /** The receiver gets all that was written, and nothing is left over. */
  predicate WholeTransfer(ops: seq<Op>, broken: bool) {
    var r := ReadContent(TextOf(ops), broken);
    r.ok && r.data == DataOf(ops) && r.rest == ""
  }

  /** After the first done there are only empty writes. */
  predicate NothingAfterDone(ops: seq<Op>) {
    forall j :: FirstDone(ops) < j < |ops| ==> ops[j] == WriteOp("")
  }

  /** All of it arrives if and only if done is reached and nothing but empty writes follows it. */
  lemma {:induction false} WholeTransferIff(calls: seq<ProviderCall>, broken: bool)
    requires Representable(Performed(calls).ops)
    ensures WholeTransfer(Performed(calls).ops, broken) <==>
        DoneIsReached(calls) && NothingAfterDone(Performed(calls).ops)
  {
    hide ReadContent, DoneIsReached, Representable, Performed, TextOf;
    var ops := Performed(calls).ops;
    TransferSucceedsIffDoneIsReached(calls, "", broken);
    assert TextOf(ops) + "" == TextOf(ops);
    PerformedDone(calls);
    FirstDoneIn(ops);
    var k := FirstDone(ops);
    if k < |ops| {
      SilentText(ops[k + 1..]);
      DataAround(ops, k);
      assert forall j :: k < j < |ops| ==> ops[j] == ops[k + 1..][j - k - 1];
    }
  }

  lemma {:induction false} SilentText(ops: seq<Op>)
    ensures TextOf(ops) == "" <==> forall j :: 0 <= j < |ops| ==> ops[j] == WriteOp("")
    ensures TextOf(ops) == "" ==> DataOf(ops) == ""
  {
    if ops != [] {
      SilentText(ops[1..]);
      assert forall j :: 0 < j < |ops| ==> ops[j] == ops[1..][j - 1];
      assert ops[0].WriteOp? && ops[0].text != "" ==> |Chunk(ops[0].text)| > 0;
    }
  }

  lemma {:induction false} DataOfBoth(a: seq<Op>, b: seq<Op>)
    ensures DataOf(a + b) == DataOf(a) + DataOf(b)
  {
    if a == [] {
      assert a + b == b;
    } else {
      assert (a + b)[0] == a[0] && (a + b)[1..] == a[1..] + b;
      DataOfBoth(a[1..], b);
    }
  }

  lemma {:induction false} DataAround(ops: seq<Op>, k: nat)
    requires k < |ops| && ops[k].DoneOp?
    ensures DataOf(ops) == DataOf(ops[..k]) + DataOf(ops[k + 1..])
  {
    assert ops == ops[..k] + ops[k..] && ops[k..][1..] == ops[k + 1..];
    DataOfBoth(ops[..k], ops[k..]);
  }

  // ---- consequences ----

  function Writes(pieces: seq<string>): (ops: seq<Op>)
    ensures |ops| == |pieces| && forall i :: 0 <= i < |pieces| ==> ops[i] == WriteOp(pieces[i])
  {
    seq(|pieces|, i requires 0 <= i < |pieces| => WriteOp(pieces[i]))
  }

  lemma {:induction false} DataOfWrites(pieces: seq<string>)
    ensures DataOf(Writes(pieces) + [DoneOp]) == Concat(pieces)
  {
    var ops := Writes(pieces) + [DoneOp];
    if pieces != [] {
      assert ops[1..] == Writes(pieces[1..]) + [DoneOp];
      DataOfWrites(pieces[1..]);
    }
  }

  function Flatten(calls: seq<ProviderCall>): seq<Op> {
    if calls == [] then [] else calls[0].ops + Flatten(calls[1..])
  }

  /** A provider that never gives up before it has said done performs all its operations, however it groups them. */
  lemma {:induction false} GroupingDoesNotMatter(calls: seq<ProviderCall>, ops: seq<Op>)
    requires Flatten(calls) == ops && ops != [] && ops[|ops| - 1].DoneOp?
    requires forall i :: 0 <= i < |ops| - 1 ==> ops[i].WriteOp? && ops[i].text != ""
    requires forall i :: 0 <= i < |calls| ==> calls[i].goesOn
    ensures Performed(calls) == Performance(ops, true)
  {
    var c := calls[0];
    assert ops[..|c.ops|] == c.ops && ops[|c.ops|..] == Flatten(calls[1..]);
    if |c.ops| < |ops| { GroupingDoesNotMatter(calls[1..], ops[|c.ops|..]); }
  }

  /** Non-empty pieces and a done at the end arrive whole under every grouping into calls. */
  lemma {:induction false} NonEmptyWritesArrive(calls: seq<ProviderCall>, pieces: seq<string>, broken: bool)
    requires Flatten(calls) == Writes(pieces) + [DoneOp] && forall i :: 0 <= i < |calls| ==> calls[i].goesOn
    requires forall i :: 0 <= i < |pieces| ==> 0 < |pieces[i]| < ULONG_MAX
    ensures Performed(calls).finished
    ensures ReadContent(TextOf(Performed(calls).ops), broken) == Received(true, Concat(pieces), "")
  {
    hide ReadContent, Performed, TextOf, Concat, DataOf;
    GroupingDoesNotMatter(calls, Writes(pieces) + [DoneOp]);
    WritesThenDone(pieces, broken);
  }

  lemma {:induction false} WritesThenDone(pieces: seq<string>, broken: bool)
    requires forall i :: 0 <= i < |pieces| ==> |pieces[i]| < ULONG_MAX
    ensures ReadContent(TextOf(Writes(pieces) + [DoneOp]), broken) == Received(true, Concat(pieces), "")
  {
    hide ReadContent, DataOf, Concat;
    var ops := Writes(pieces) + [DoneOp];
    OpsReadBack(ops, "", broken);
    assert TextOf(ops) + "" == TextOf(ops);
    FirstDoneIn(ops);
    var n := |pieces|;
    assert ops[n] == DoneOp && FirstDone(ops) == n && ops[n + 1..] == [];
    DataOfWrites(pieces);
    NothingData(ops[n + 1..]);
    DataAround(ops, n);
  }

  lemma {:induction false} NothingData(ops: seq<Op>)
    requires ops == []
    ensures DataOf(ops) == "" && forall s: string :: s + DataOf(ops) == s
  {
  }

  /** Made in one call, even empty writes do no harm. */
  lemma {:induction false} OneCallArrives(pieces: seq<string>, broken: bool)
    requires forall i :: 0 <= i < |pieces| ==> |pieces[i]| < ULONG_MAX
    ensures var calls := [ProviderCall(Writes(pieces) + [DoneOp], true)];
      ReadContent(TextOf(Performed(calls).ops), broken) == Received(true, Concat(pieces), "")
  {
    hide ReadContent, TextOf, Concat;
    WritesThenDone(pieces, broken);
  }

  /** A provider that writes one piece a call, and says done in a call of its own. */
  function OneWritePerCall(pieces: seq<string>): (calls: seq<ProviderCall>)
    ensures |calls| == |pieces| + 1
  {
    seq(|pieces|, i requires 0 <= i < |pieces| => ProviderCall([WriteOp(pieces[i])], true))
        + [ProviderCall([DoneOp], true)]
  }

  /** Such a transfer succeeds if and only if no write was empty, and then delivers exactly what was written. */
  lemma {:induction false} OneWritePerCallIffNoneEmpty(pieces: seq<string>, broken: bool)
    requires forall i :: 0 <= i < |pieces| ==> |pieces[i]| < ULONG_MAX
    ensures var r := ReadContent(TextOf(Performed(OneWritePerCall(pieces)).ops), broken);
      && (r.ok <==> "" !in pieces)
      && ("" !in pieces ==> r == Received(true, Concat(pieces), ""))
  {
    hide ReadContent, Performed, TextOf, Concat;
    var calls := OneWritePerCall(pieces);
    PerformedIsRepresentable(calls);
    TransferSucceedsIffDoneIsReached(calls, "", broken);
    if "" in pieces {
      var e: nat :| e < |pieces| && pieces[e] == "";
      assert !Continues(calls[e]);
    } else {
      FlattenOneWritePerCall(pieces);
      NonEmptyWritesArrive(calls, pieces, broken);
    }
  }

  lemma {:induction false} PerformedIsRepresentable(calls: seq<ProviderCall>)
    requires forall i :: 0 <= i < |calls| ==> Representable(calls[i].ops)
    ensures Representable(Performed(calls).ops)
  {
    if calls != [] { PerformedIsRepresentable(calls[1..]); }
  }

  lemma {:induction false} FlattenOneWritePerCall(pieces: seq<string>)
    ensures Flatten(OneWritePerCall(pieces)) == Writes(pieces) + [DoneOp]
  {
    var calls := OneWritePerCall(pieces);
    if pieces != [] {
      assert calls[1..] == OneWritePerCall(pieces[1..]);
      FlattenOneWritePerCall(pieces[1..]);
      assert [WriteOp(pieces[0])] + (Writes(pieces[1..]) + [DoneOp]) == Writes(pieces) + [DoneOp];
    } else {
      assert calls[1..] == [];
    }
  }

  // ---- a body that breaks off unnoticed ----

  /** A size line and its data, followed by something that is not a blank line. */
  function Unended(data: string, tail: string): string { Hex(|data|) + "\r\n" + (data + tail) }

  lemma UnendedIsRead(data: string, tail: string, broken: bool)
    requires data != "" && |data| < ULONG_MAX && HasLine(tail, broken) && CString(LineOf(tail)) != "\r\n"
    ensures ReadContent(Unended(data, tail), broken) == Received(true, data, tail[|LineOf(tail)|..])
    ensures HasLine(Unended(data, tail), broken)
  {
    hide Hex, Strtoul, LineOf, HasLine, CString;
    SizeLine(|data|, data + tail);
    TextIsPrefix(data + tail, data, tail);
  }

  /**
   * The reader is laxer than section 4.1 of RFC 7230: at any chunk, data not followed by CR LF ends the transfer as a
   * success, however much of the body is missing.
   */
  lemma {:induction false} MissingLineEndIsAccepted(pieces: seq<string>, data: string, tail: string, broken: bool)
    requires forall i :: 0 <= i < |pieces| ==> 0 < |pieces[i]| < ULONG_MAX
    requires data != "" && |data| < ULONG_MAX && HasLine(tail, broken) && CString(LineOf(tail)) != "\r\n"
    ensures var s := TextOf(Writes(pieces)) + Unended(data, tail);
      ReadContent(s, broken) == Received(true, Concat(pieces) + data, tail[|LineOf(tail)|..]) && HasLine(s, broken)
  {
    hide Chunk, ReadContent, HasLine, Unended, LineOf, CString;
    if pieces == [] {
      UnendedIsRead(data, tail, broken);
      assert TextOf(Writes(pieces)) + Unended(data, tail) == Unended(data, tail) && Concat(pieces) + data == data;
    } else {
      var more := TextOf(Writes(pieces[1..])) + Unended(data, tail);
      MissingLineEndIsAccepted(pieces[1..], data, tail, broken);
      assert Writes(pieces)[1..] == Writes(pieces[1..]);
      assert TextOf(Writes(pieces)) + Unended(data, tail) == Chunk(pieces[0]) + more;
      OneChunk(pieces[0], more, broken);
      ChunkHasLine(pieces[0], more, broken);
      assert pieces[0] + (Concat(pieces[1..]) + data) == Concat(pieces) + data;
    }
  }
}
