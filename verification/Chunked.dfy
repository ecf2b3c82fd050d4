/** httplib's chunked transfer coding: the writer, the reader, and what becomes of the data between them. */
module Chunked {
  import opened ChunkedStreams

  // ---- the reader ----

  /** The outcome of read_content_chunked: success, the data handed to the receiver, and the bytes not yet read. */
  datatype Received = Received(ok: bool, data: string, rest: string)

  function Prepend(data: string, r: Received): Received { r.(data := data + r.data) }

  /** The loop after a chunk-size line has been read; s is what follows it. */
  function ReadChunks(line: string, s: string, broken: bool): Received
    decreases |s|
  {
    var size := Strtoul(CString(line));
    if size.end == 0 || size.value == ULONG_MAX then Received(false, "", s)
    else if size.value == 0 then
      if HasLine(s, broken) && CString(LineOf(s)) == "\r\n" then Received(true, "", s[|LineOf(s)|..])
      else Received(false, "", if HasLine(s, broken) then s[|LineOf(s)|..] else "")
    else if |s| < size.value then Received(false, s, "")
    else
      var data, after := s[..size.value], s[size.value..];
      if !HasLine(after, broken) then Received(false, data, "")
      else
        var s2 := after[|LineOf(after)|..];
        if CString(LineOf(after)) != "\r\n" then Received(true, data, s2)  // the code calls this success
        else if !HasLine(s2, broken) then Received(false, data, "")
        else Prepend(data, ReadChunks(LineOf(s2), s2[|LineOf(s2)|..], broken))
  }

  function ReadContent(s: string, broken: bool): Received {
    if HasLine(s, broken) then ReadChunks(LineOf(s), s[|LineOf(s)|..], broken) else Received(false, "", "")
  }

  /** read_content_with_length: reads until len bytes have been handed over, in pieces of the stream's choosing. */
  method ReadWithLength(strm: InStream, len: nat) returns (ok: bool, data: string)
    modifies strm
    ensures ok == (|old(strm.rest)| >= len)
    ensures old(strm.rest) == data + strm.rest
    ensures |data| == if ok then len else |old(strm.rest)|
  {
    data := "";
    while |data| < len
      invariant |data| <= len && old(strm.rest) == data + strm.rest
      decreases len - |data|
    {
      var want := len - |data|;
      ghost var before := strm.rest;
      var n, piece := strm.Read(if want < RECV_BUFSIZ then want else RECV_BUFSIZ);
      if n <= 0 { return false, data; }
      assert data + (piece + strm.rest) == (data + piece) + strm.rest;
      data := data + piece;
    }
    return true, data;
  }

  method ReadContentChunked(strm: InStream) returns (ok: bool, data: string)
    modifies strm
    ensures ok == ReadContent(old(strm.rest), strm.broken).ok
    ensures data == ReadContent(old(strm.rest), strm.broken).data
    ensures strm.rest == ReadContent(old(strm.rest), strm.broken).rest
  {
    hide Strtoul, LineOf, HasLine, CString;
    var buf := new char[16];
    var reader := new StreamLineReader(strm, buf);
    data := "";
    ghost var s := strm.rest;
    ok := reader.GetLine();
    if !ok { return; }
    TextIsPrefix(s, reader.Text(), strm.rest);
    PrependNothing(ReadContent(s, strm.broken));
    var chunkLen;
    while true
      invariant reader.Valid()
      invariant ReadContent(s, strm.broken) == Prepend(data, ReadChunks(reader.Text(), strm.rest, strm.broken))
      decreases |strm.rest|
    {
      ghost var line, s1 := reader.Text(), strm.rest;
      var size := Strtoul(CString(reader.Text()));
      if size.end == 0 { return false, data; }
      chunkLen := size.value;
      if chunkLen == ULONG_MAX { return false, data; }
      if chunkLen == 0 { break; }
      var piece;
      ok, piece := ReadWithLength(strm, chunkLen);
      ghost var before := data;
      data := data + piece;
      TextIsPrefix(s1, piece, strm.rest);
      if !ok { return false, data; }
      ghost var s2 := strm.rest;
      ok := reader.GetLine();
      if !ok { return false, data; }
      TextIsPrefix(s2, reader.Text(), strm.rest);
      if CString(reader.Text()) != "\r\n" { break; }
      ghost var line2, s3 := reader.Text(), strm.rest;
      ok := reader.GetLine();
      if !ok { return false, data; }
      NextChunk(line, s1, strm.broken, piece, s2, line2, s3, reader.Text(), strm.rest);
      PrependTwice(before, piece, ReadChunks(reader.Text(), strm.rest, strm.broken));
    }
    if chunkLen == 0 {
      ok := reader.GetLine();
      if !ok || CString(reader.Text()) != "\r\n" { return false, data; }
    }
    return true, data;
  }

  lemma TextIsPrefix(s: string, text: string, rest: string)
    requires s == text + rest
    ensures s[..|text|] == text && s[|text|..] == rest && |rest| <= |s|
  {
  }

  lemma PrependTwice(a: string, b: string, r: Received)
    ensures Prepend(a, Prepend(b, r)) == Prepend(a + b, r)
  {
    assert a + (b + r.data) == (a + b) + r.data;
  }

  /** A well-formed chunk: data, its CR LF, and the next size line. */
  lemma {:induction false} NextChunk(line: string, s: string, broken: bool, data: string, s1: string, end: string,
      s2: string, next: string, s3: string)
    requires var size := Strtoul(CString(line)); size.end != 0 && size.value != ULONG_MAX && size.value == |data| > 0
    requires s == data + s1 && s1 == end + s2 && s2 == next + s3
    requires HasLine(s1, broken) && end == LineOf(s1) && CString(end) == "\r\n"
    requires HasLine(s2, broken) && next == LineOf(s2)
    ensures ReadChunks(line, s, broken) == Prepend(data, ReadChunks(next, s3, broken))
  {
    hide Strtoul, LineOf, HasLine, CString;
    TextIsPrefix(s, data, s1);
    TextIsPrefix(s1, end, s2);
    TextIsPrefix(s2, next, s3);
  }

  lemma PrependNothing(r: Received)
    ensures Prepend("", r) == r
  {
    assert "" + r.data == r.data;
  }

  // ---- the writer ----

  /** A connection that takes `room` more bytes before it fails, as few at a time as it likes. */
  class OutStream {
    var written: string
    var room: nat

    constructor (room: nat)
      ensures written == "" && this.room == room
    {
      written, this.room := "", room;
    }

    method Write(d: string) returns (length: int)
      requires d != ""
      modifies this
      ensures old(room) == 0 ==> length < 0 && written == old(written) && room == 0
      ensures old(room) > 0 ==> 0 < length <= |d| && length <= old(room)
      ensures old(room) > 0 ==> written == old(written) + d[..length] && room == old(room) - length
    {
      if room == 0 { return -1; }
      var k: nat :| 0 < k <= |d| && k <= room;
      written, room := written + d[..k], room - k;
      return k;
    }
  }

  /** What a connection with this much room takes of a text. */
  function Taken(text: string, room: nat): (t: string)
    ensures t <= text && |t| <= room
    ensures |text| <= room ==> t == text
  {
    if |text| <= room then text else text[..room]
  }

  /** Nothing follows a text that did not fit. */
  lemma TakenInTwo(a: string, b: string, room: nat)
    ensures |a| > room ==> Taken(a + b, room) == Taken(a, room)
    ensures |a| <= room ==> Taken(a, room) == a && Taken(a + b, room) == a + Taken(b, room - |a|)
    ensures |a + b| == |a| + |b|
    ensures |a| <= room ==> forall s: string :: s + Taken(a + b, room) == (s + a) + Taken(b, room - |a|)
  {
  }

  /** write_data: all of d, or as much as the connection takes. */
  method WriteData(strm: OutStream, d: string) returns (ok: bool)
    modifies strm
    ensures ok == (|d| <= old(strm.room))
    ensures strm.written == old(strm.written) + Taken(d, old(strm.room))
    ensures strm.room == old(strm.room) - |Taken(d, old(strm.room))|
  {
    var offset := 0;
    while offset < |d|
      invariant offset <= |d| && strm.written == old(strm.written) + d[..offset] && strm.room == old(strm.room) - offset
      decreases |d| - offset
    {
      var length := strm.Write(d[offset..]);
      if length < 0 { return false; }
      assert d[..offset] + d[offset..][..length] == d[..offset + length];
      offset := offset + length;
    }
    return true;
  }

  function Chunk(payload: string): string { Hex(|payload|) + "\r\n" + payload + "\r\n" }

  const DONE_MARKER := "0\r\n\r\n"

  /** The DataSink of write_content_chunked, with the identity compressor. */
  class ChunkedSink {
    const strm: OutStream
    var offset: nat
    var dataAvailable: bool
    var ok: bool

    constructor (strm: OutStream)
      ensures this.strm == strm && offset == 0 && dataAvailable && ok
    {
      this.strm, offset, dataAvailable, ok := strm, 0, true, true;
    }

    /** An empty write emits nothing, and says that there is no more data. */
    method Write(d: string) returns (result: bool)
      modifies this, strm
      ensures result == ok
      ensures !old(ok) ==> !ok && dataAvailable == old(dataAvailable) && offset == old(offset)
      ensures !old(ok) ==> strm.written == old(strm.written) && strm.room == old(strm.room)
      ensures old(ok) ==> dataAvailable == (d != "") && offset == old(offset) + |d|
      ensures old(ok) ==> var text := if d == "" then "" else Chunk(d);
        && ok == (|text| <= old(strm.room))
        && strm.written == old(strm.written) + Taken(text, old(strm.room))
        && strm.room == old(strm.room) - |Taken(text, old(strm.room))|
    {
      if ok {
        dataAvailable := |d| > 0;
        offset := offset + |d|;
        if d != "" {
          var size := FromIToHex(|d|);
          ok := WriteData(strm, size + "\r\n" + d + "\r\n");
        }
      }
      return ok;
    }

    /** Ends the data with the last-chunk and an empty trailer; the identity compressor holds nothing back. */
    method Done()
      modifies this, strm
      ensures offset == old(offset)
      ensures !old(ok) ==> !ok && dataAvailable == old(dataAvailable)
      ensures !old(ok) ==> strm.written == old(strm.written) && strm.room == old(strm.room)
      ensures old(ok) ==> !dataAvailable && ok == (|DONE_MARKER| <= old(strm.room))
      ensures old(ok) ==>
        && strm.written == old(strm.written) + Taken(DONE_MARKER, old(strm.room))
        && strm.room == old(strm.room) - |Taken(DONE_MARKER, old(strm.room))|
    {
      if !ok { return; }
      dataAvailable := false;
      ok := WriteData(strm, DONE_MARKER);
    }
  }

  // ---- what a content provider does to the sink ----

  datatype Op = WriteOp(text: string) | DoneOp

  /** One call of the provider: any number of writes and dones, and what it returns. */
  datatype ProviderCall = ProviderCall(ops: seq<Op>, goesOn: bool)

  function OpText(op: Op): string {
    match op
    case WriteOp(text) => if text == "" then "" else Chunk(text)
    case DoneOp => DONE_MARKER
  }

  function TextOf(ops: seq<Op>): string {
    if ops == [] then "" else OpText(ops[0]) + TextOf(ops[1..])
  }

  /** data_available after these operations, true before them: only the last one decides. */
  predicate StillAvailable(ops: seq<Op>) {
    ops == [] || (ops[|ops| - 1].WriteOp? && ops[|ops| - 1].text != "")
  }

  /** The operations made before the loop ends, and whether it ends because the data does. */
  datatype Performance = Performance(ops: seq<Op>, finished: bool)

  /** A provider that has no call left gives up. */
  function Performed(calls: seq<ProviderCall>): Performance {
    if calls == [] then Performance([], false)
    else
      var c := calls[0];
      if !c.goesOn || !StillAvailable(c.ops) then Performance(c.ops, c.goesOn)
      else
        var rest := Performed(calls[1..]);
        Performance(c.ops + rest.ops, rest.finished)
  }

  datatype WriteError = Success | Canceled | WriteFailed

  /** What write_content_chunked reports on a connection with this much room. */
  function Outcome(calls: seq<ProviderCall>, room: nat): WriteError {
    if calls == [] || !calls[0].goesOn then Canceled
    else
      var ops := calls[0].ops;
      if |TextOf(ops)| > room then WriteFailed
      else if !StillAvailable(ops) then Success
      else Outcome(calls[1..], room - |TextOf(ops)|)
  }

  lemma {:induction false} TextOfBoth(a: seq<Op>, b: seq<Op>)
    ensures TextOf(a + b) == TextOf(a) + TextOf(b)
  {
    hide OpText;
    if a == [] {
      assert a + b == b;
    } else {
      assert (a + b)[0] == a[0] && (a + b)[1..] == a[1..] + b;
      TextOfBoth(a[1..], b);
    }
  }

  lemma TextOfOneMore(ops: seq<Op>, i: nat)
    requires i < |ops|
    ensures TextOf(ops[..i + 1]) == TextOf(ops[..i]) + OpText(ops[i])
    ensures |TextOf(ops[..i + 1])| <= |TextOf(ops)|
  {
    hide OpText;
    TextOfBoth(ops[..i], [ops[i]]);
    assert ops[..i + 1] == ops[..i] + [ops[i]] && [ops[i]][1..] == [];
    TextOfBoth(ops[..i + 1], ops[i + 1..]);
    assert ops == ops[..i + 1] + ops[i + 1..];
  }

  method PerformOne(sink: ChunkedSink, op: Op)
    modifies sink, sink.strm
    ensures !old(sink.ok) ==>
        !sink.ok && sink.strm.written == old(sink.strm.written) && sink.strm.room == old(sink.strm.room)
    ensures old(sink.ok) ==>
      && sink.ok == (|OpText(op)| <= old(sink.strm.room))
      && sink.strm.written == old(sink.strm.written) + Taken(OpText(op), old(sink.strm.room))
      && sink.strm.room == old(sink.strm.room) - |Taken(OpText(op), old(sink.strm.room))|
      && sink.dataAvailable == StillAvailable([op])
  {
    hide Chunk, Taken;
    match op {
      case WriteOp(text) => { var _ := sink.Write(text); }
      case DoneOp => { sink.Done(); }
    }
  }

  /** A call of the provider, from the sink's side; it does not look at what write returns. */
  method Perform(sink: ChunkedSink, ops: seq<Op>)
    requires sink.ok
    modifies sink, sink.strm
    ensures sink.ok == (|TextOf(ops)| <= old(sink.strm.room))
    ensures sink.strm.written == old(sink.strm.written) + Taken(TextOf(ops), old(sink.strm.room))
    ensures sink.strm.room == old(sink.strm.room) - |Taken(TextOf(ops), old(sink.strm.room))|
    ensures sink.ok ==> sink.dataAvailable == if ops == [] then old(sink.dataAvailable) else StillAvailable(ops)
  {
    hide OpText, TextOf, Taken;
    ghost var room, before := sink.strm.room, sink.strm.written;
    NothingText(ops, before, room);
    for i := 0 to |ops|
      invariant sink.ok == (|TextOf(ops[..i])| <= room)
      invariant sink.strm.written == before + Taken(TextOf(ops[..i]), room)
      invariant sink.strm.room == room - |Taken(TextOf(ops[..i]), room)|
      invariant sink.ok ==> sink.dataAvailable == if i == 0 then old(sink.dataAvailable) else StillAvailable(ops[..i])
    {
      TextOfOneMore(ops, i);
      TakenInTwo(TextOf(ops[..i]), OpText(ops[i]), room);
      PerformOne(sink, ops[i]);
    }
    assert ops[..|ops|] == ops;
  }

  lemma NothingText(ops: seq<Op>, before: string, room: nat)
    ensures TextOf(ops[..0]) == "" && Taken("", room) == "" && before + "" == before
  {
  }

  /** write_content_chunked with such a provider. */
  method WriteContentChunked(strm: OutStream, calls: seq<ProviderCall>) returns (ok: bool, error: WriteError)
    modifies strm
    ensures error == Outcome(calls, old(strm.room)) && ok == error.Success?
    ensures ok == (Performed(calls).finished && |TextOf(Performed(calls).ops)| <= old(strm.room))
    ensures strm.written == old(strm.written) + Taken(TextOf(Performed(calls).ops), old(strm.room))
  {
    hide TextOf, StillAvailable, Taken, Performed;
    OutcomeIsPerformed(calls, strm.room);
    ghost var room, before := strm.room, strm.written;
    var sink := new ChunkedSink(strm);
    var i := 0;
    ghost var said: seq<Op> := [];
    NothingSaid(calls);
    NothingText([], before, room);
    while sink.dataAvailable
      invariant i <= |calls| && sink.ok && sink.strm == strm && fresh(sink)
      invariant Performed(calls)
          == if sink.dataAvailable then Before(said, Performed(calls[i..])) else Performance(said, true)
      invariant Outcome(calls, room) == if sink.dataAvailable then Outcome(calls[i..], strm.room) else Success
      invariant |TextOf(said)| <= room && strm.room == room - |TextOf(said)| && strm.written == before + TextOf(said)
      decreases |calls| - i, sink.dataAvailable
    {
      if i == |calls| {
        NothingMore(said, room);
        return false, Canceled;
      }
      ghost var ops := calls[i].ops;
      SaidOneMore(calls, i, said);
      SaidAndTaken(calls, i, said, room);
      Perform(sink, calls[i].ops);
      if !calls[i].goesOn { return false, Canceled; }
      if !sink.ok { return false, WriteFailed; }
      said := said + ops;
      i := i + 1;
    }
    return true, Success;
  }

  lemma {:induction false} NothingMore(said: seq<Op>, room: nat)
    requires |TextOf(said)| <= room
    ensures Before(said, Performed([])).ops == said && Taken(TextOf(said), room) == TextOf(said)
  {
  }

  /** What call i adds to the wire, and what the calls after it do if it fails or ends the loop. */
  lemma {:induction false} SaidAndTaken(calls: seq<ProviderCall>, i: nat, said: seq<Op>, room: nat)
    requires i < |calls| && |TextOf(said)| <= room
    ensures var c := calls[i]; var t := TextOf(said); var all := TextOf(Before(said, Performed(calls[i..])).ops);
      && Taken(t + TextOf(c.ops), room) == t + Taken(TextOf(c.ops), room - |t|)
      && (!c.goesOn || |t + TextOf(c.ops)| > room ==> Taken(all, room) == t + Taken(TextOf(c.ops), room - |t|))
    ensures Taken(TextOf(calls[i].ops), room - |TextOf(said)|) == TextOf(calls[i].ops) <==>
        |TextOf(said)| + |TextOf(calls[i].ops)| <= room
  {
    hide TextOf, StillAvailable;
    var c := calls[i];
    var t := TextOf(said);
    TakenInTwo(t, TextOf(c.ops), room);
    TextOfBoth(said, c.ops);
    if c.goesOn && StillAvailable(c.ops) {
      var more := Performed(calls[i + 1..]).ops;
      assert calls[i..][1..] == calls[i + 1..];
      assert said + (c.ops + more) == (said + c.ops) + more;
      TextOfBoth(said + c.ops, more);
      TakenInTwo(t + TextOf(c.ops), TextOf(more), room);
    }
  }

  function Before(said: seq<Op>, p: Performance): Performance { p.(ops := said + p.ops) }

  lemma {:induction false} NothingSaid(calls: seq<ProviderCall>)
    ensures TextOf([]) == "" && calls[0..] == calls && Before([], Performed(calls)) == Performed(calls)
  {
  }

  lemma {:induction false} SaidOneMore(calls: seq<ProviderCall>, i: nat, said: seq<Op>)
    requires i < |calls|
    ensures TextOf(said + calls[i].ops) == TextOf(said) + TextOf(calls[i].ops)
    ensures StillAvailable([])
    ensures var c := calls[i];
      c.goesOn ==> (Before(said, Performed(calls[i..])) ==
        if StillAvailable(c.ops) then Before(said + c.ops, Performed(calls[i + 1..]))
        else Performance(said + c.ops, true))
    ensures calls[i..][0] == calls[i] && calls[i..][1..] == calls[i + 1..]
  {
    hide TextOf;
    TextOfBoth(said, calls[i].ops);
    assert said + (calls[i].ops + Performed(calls[i + 1..]).ops)
        == (said + calls[i].ops) + Performed(calls[i + 1..]).ops;
  }

  /** Success means that the data ended and the connection took it all. */
  lemma {:induction false} OutcomeIsPerformed(calls: seq<ProviderCall>, room: nat)
    ensures Outcome(calls, room).Success? <==> Performed(calls).finished && |TextOf(Performed(calls).ops)| <= room
  {
    hide TextOf, StillAvailable;
    if calls != [] && calls[0].goesOn && StillAvailable(calls[0].ops) {
      TextOfBoth(calls[0].ops, Performed(calls[1..]).ops);
      if |TextOf(calls[0].ops)| <= room { OutcomeIsPerformed(calls[1..], room - |TextOf(calls[0].ops)|); }
    }
  }

  // ---- which error, in terms of the calls ----

  function AllOps(calls: seq<ProviderCall>): seq<Op> {
    if calls == [] then [] else calls[0].ops + AllOps(calls[1..])
  }

  /**
   * Call n ends the loop, with this report: every call before it went on,
       ended in a non-empty write if it did anything,
   * and found room for its text. A provider that gives up is reported as such even if the connection has failed too.
   */
  predicate EndsLoop(calls: seq<ProviderCall>, room: nat, n: nat, e: WriteError) {
    && n <= |calls| && |TextOf(AllOps(calls[..n]))| <= room
    && (forall j :: 0 <= j < n ==> calls[j].goesOn && StillAvailable(calls[j].ops))
    && match e
       case Canceled => n == |calls| || !calls[n].goesOn
       case WriteFailed => n < |calls| && calls[n].goesOn && |TextOf(AllOps(calls[..n + 1]))| > room
       case Success =>
         n < |calls| && calls[n].goesOn && |TextOf(AllOps(calls[..n + 1]))| <= room && !StillAvailable(calls[n].ops)
  }

  lemma {:induction false} TextOfFirst(calls: seq<ProviderCall>, n: nat)
    requires 0 < n <= |calls|
    ensures |TextOf(AllOps(calls[..n]))| == |TextOf(calls[0].ops)| + |TextOf(AllOps(calls[1..][..n - 1]))|
  {
    hide TextOf;
    assert calls[..n][0] == calls[0] && calls[..n][1..] == calls[1..][..n - 1];
    TextOfBoth(calls[0].ops, AllOps(calls[1..][..n - 1]));
  }

  lemma NoOps()
    ensures TextOf(AllOps([])) == ""
  {
  }

  /** Past a call that went on, the loop ends for the remaining calls in the remaining room. */
  lemma {:induction false} EndsLoopLater(calls: seq<ProviderCall>, room: nat, n: nat, e: WriteError)
    requires calls != [] && n > 0
    requires calls[0].goesOn && StillAvailable(calls[0].ops) && |TextOf(calls[0].ops)| <= room
    ensures EndsLoop(calls, room, n, e) <==> EndsLoop(calls[1..], room - |TextOf(calls[0].ops)|, n - 1, e)
  {
    hide TextOf, StillAvailable, AllOps;
    if n <= |calls| {
      TextOfFirst(calls, n);
      if n < |calls| { TextOfFirst(calls, n + 1); }
      forall j | 0 <= j < n - 1 ensures calls[1..][j] == calls[j + 1] {
      }
    }
  }

  lemma {:induction false} EndsLoopNow(calls: seq<ProviderCall>, room: nat, e: WriteError)
    ensures EndsLoop(calls, room, 0, e) <==>
      match e
      case Canceled => calls == [] || !calls[0].goesOn
      case WriteFailed => calls != [] && calls[0].goesOn && |TextOf(calls[0].ops)| > room
      case Success =>
        calls != [] && calls[0].goesOn && |TextOf(calls[0].ops)| <= room && !StillAvailable(calls[0].ops)
  {
    hide TextOf, StillAvailable, AllOps;
    NoOps();
    assert calls[..0] == [];
    if calls != [] {
      TextOfFirst(calls, 1);
      assert calls[1..][..0] == [];
    }
  }

  /** Exactly when each outcome is reported, for every provider and every connection. */
  lemma {:induction false} OutcomeIff(calls: seq<ProviderCall>, room: nat, e: WriteError)
    ensures Outcome(calls, room) == e <==> exists n: nat :: EndsLoop(calls, room, n, e)
  {
    hide TextOf, StillAvailable, EndsLoop;
    EndsLoopNow(calls, room, e);
    if calls != [] && calls[0].goesOn && StillAvailable(calls[0].ops) && |TextOf(calls[0].ops)| <= room {
      var left := room - |TextOf(calls[0].ops)|;
      OutcomeIff(calls[1..], left, e);
      forall n: nat | n > 0 ensures EndsLoop(calls, room, n, e) <==> EndsLoop(calls[1..], left, n - 1, e) {
        EndsLoopLater(calls, room, n, e);
      }
      if n: nat :| EndsLoop(calls[1..], left, n, e) { assert EndsLoop(calls, room, n + 1, e); }
    } else {
      forall n: nat | n > 0 ensures !EndsLoop(calls, room, n, e) { OnlyNow(calls, room, n, e); }
    }
  }

  lemma {:induction false} OnlyNow(calls: seq<ProviderCall>, room: nat, n: nat, e: WriteError)
    requires n > 0
    requires calls == [] || !calls[0].goesOn || !StillAvailable(calls[0].ops) || |TextOf(calls[0].ops)| > room
    ensures !EndsLoop(calls, room, n, e)
  {
    hide TextOf, StillAvailable, AllOps;
    if 0 < n <= |calls| { TextOfFirst(calls, n); }
  }
}
