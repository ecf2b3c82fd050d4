/** The converse: an unsafe content is lost for some way of cutting the body. */
module MultipartExact {
  import opened TextSearch
  import opened MultipartHeaders
  import opened Multipart
  import opened MultipartItems
  import opened MultipartRoundTrip

  // ---- once overrun, always overrun ----

  lemma {:induction false} OverrunStays(events: seq<Event>, more: seq<Event>, items: seq<Item>, k: nat)
    requires Overrun(events, items, k)
    ensures Overrun(events + more, items, k)
  {
    if more == [] {
      assert events + more == events;
    } else {
      var init := more[..|more| - 1];
      OverrunStays(events, init, items, k);
      assert events + more == (events + init) + [more[|more| - 1]];
      CollectedStep(events + init, more[|more| - 1]);
    }
  }

  lemma {:induction false} HeadersAppend(p: Parser, accept: Callbacks)
    ensures p.events <= Headers(p, accept).p.events
    decreases |p.buf|
  {
    hide Find;
    var pos := Find(p.buf, CRLF);
    if 0 < pos < |p.buf| {
      var q := p.Erase(pos + 2).(file := WithHeader(p.file, p.buf[..pos]));
      assert q.events == p.events;
      HeadersAppend(q, accept);
      assert Headers(p, accept) == Headers(q, accept);
    }
  }

  lemma BodyAppends(p: Parser, accept: Callbacks)
    ensures p.events <= BodyText(p, accept).p.events && p.events <= BodyDelimiter(p, accept).p.events
  {
    hide Find, FindPartialFrom;
  }

  lemma StepAppends(p: Parser, accept: Callbacks)
    requires p.buf != ""
    ensures p.events <= Step(p, accept).p.events
  {
    hide Headers, BodyText, BodyDelimiter, Find;
    HeadersAppend(p, accept);
    BodyAppends(p, accept);
    BodyAppends(BodyText(p, accept).p, accept);
  }

  lemma {:induction false} RunAppends(p: Parser, accept: Callbacks)
    ensures p.events <= Run(p, accept).p.events
    decreases |p.buf|, if p.state == 1 then 1 else 0
  {
    hide Step;
    if p.buf != "" {
      StepAppends(p, accept);
      var o := Step(p, accept);
      if o.Next? { RunAppends(o.p, accept); }
    }
  }

  lemma {:induction false} FeedAppends(p: Parser, chunks: seq<string>, accept: Callbacks)
    ensures p.events <= Feed(p, chunks, accept).p.events
    decreases |chunks|
  {
    hide Run;
    if chunks != [] {
      RunAppends(p.(buf := p.buf + chunks[0]), accept);
      var r := ParseChunk(p, chunks[0], accept);
      if r.ok { FeedAppends(r.p, chunks[1..], accept); }
    }
  }

  lemma PrefixOverrun(events: seq<Event>, more: seq<Event>, items: seq<Item>, k: nat)
    requires Overrun(events, items, k) && events <= more
    ensures Overrun(more, items, k)
  {
    OverrunStays(events, more[|events|..], items, k);
    assert events + more[|events|..] == more;
  }

  lemma {:induction false} OverrunIsWrong(events: seq<Event>, items: seq<Item>, k: nat)
    requires Overrun(events, items, k)
    ensures Collected(events) != Sent(items)
  {
  }

  // ---- reaching a content with nothing buffered ----

  lemma {:induction false} FeedInTwo(p: Parser, a: seq<string>, b: seq<string>, accept: Callbacks)
    requires Feed(p, a, accept).ok
    ensures Feed(p, a + b, accept) == Feed(Feed(p, a, accept).p, b, accept)
    decreases |a|
  {
    hide Run;
    if a == [] {
      assert a + b == b;
    } else {
      assert (a + b)[0] == a[0] && (a + b)[1..] == a[1..] + b;
      FeedInTwo(ParseChunk(p, a[0], accept).p, a[1..], b, accept);
    }
  }

  lemma {:induction false} ConcatInTwo(a: seq<string>, b: seq<string>)
    ensures Concat(a + b) == Concat(a) + Concat(b)
  {
    if a == [] {
      assert a + b == b;
    } else {
      assert (a + b)[0] == a[0] && (a + b)[1..] == a[1..] + b;
      ConcatInTwo(a[1..], b);
    }
  }

  lemma {:induction false} RunOfOneStep(p: Parser, q: Parser, accept: Callbacks)
    requires p.buf != "" && Step(p, accept) == Next(q) && q.buf == ""
    ensures Run(p, accept) == Parsed(q, true)
  {
    hide Step;
  }

  /** A parser with an empty buffer meets a chunk that is exactly the next piece of the body. */
  lemma Refill(p: Parser, chunk: string, rest: string, items: seq<Item>, ph: Phase) returns (q: Parser)
    requires Inv(p, chunk + rest, items, ph) && p.buf == ""
    ensures q == p.(buf := p.buf + chunk) && q.buf == chunk && Inv(q, rest, items, ph)
  {
    q := p.(buf := p.buf + chunk);
    assert p.buf + (chunk + rest) == chunk + rest;
  }

  lemma NothingBuffered(p: Parser, rest: string, items: seq<Item>, ph: Phase)
    requires Inv(p, rest, items, ph) && rest == Rest(p.boundary, items, ph)
    ensures p.buf == ""
  {
    assert |p.buf + rest| == |rest|;
  }

  lemma HeaderChunk(p: Parser, items: seq<Item>, k: nat, accept: Callbacks) returns (chunk: string)
    requires k < |items| && items != []
    requires Inv(p, Rest(p.boundary, items, AtEntry(k)), items, AtEntry(k)) && p.buf == "" && AcceptsAll(accept)
    ensures var rest := Rest(p.boundary, items, InBody(k, 0)); var r := ParseChunk(p, chunk, accept);
      && chunk + rest == Rest(p.boundary, items, AtEntry(k))
      && r.ok && r.p.buf == "" && r.p.boundary == p.boundary && Inv(r.p, rest, items, InBody(k, 0))
  {
    hide Find, LegalItems, HeaderLines, Run, PartsBy, Collected, Headers, Step, Inv, Rest;
    chunk := Lines(HeaderLines(items[k])) + CRLF;
    var rest := Rest(p.boundary, items, InBody(k, 0));
    HeaderChunkShape(p.boundary, items, k);
    var q := Refill(p, chunk, rest, items, AtEntry(k));
    EntryStep(q, rest, items, k, accept);
    var h := q.(file := NO_FILE, state := 2);
    RunSkips(q, h, accept);
    HeadersArrive(h, items, k, accept);
  }

  /** With all the headers of an entry in the buffer and nothing after them, a run ends at the start of its content. */
  lemma {:induction false} HeadersArrive(h: Parser, items: seq<Item>, k: nat, accept: Callbacks)
    requires k < |items| && h.buf != "" && AcceptsAll(accept)
    requires Inv(h, Rest(h.boundary, items, InBody(k, 0)), items, InHeaders(k, 0))
    ensures var r := Run(h, accept);
      && r.ok && r.p.buf == "" && r.p.boundary == h.boundary
      && Inv(r.p, Rest(h.boundary, items, InBody(k, 0)), items, InBody(k, 0))
  {
    hide Find, LegalItems, HeaderLines, Run, PartsBy, Collected, Headers, Rest, Step;
    var rest := Rest(h.boundary, items, InBody(k, 0));
    var j := HeadersRun(h, rest, items, k, 0, accept);
    var o := Headers(h, accept);
    HeadersShrink(h, accept);
    if o.Stop? { HeadersAreComplete(o.p, rest, items, k, j); }
    NothingBuffered(o.p, rest, items, InBody(k, 0));
    HeaderStep(h, accept);
    RunOfOneStep(h, o.p, accept);
  }

  lemma {:induction false} HeaderStep(h: Parser, accept: Callbacks)
    requires h.buf != "" && h.state == 2
    ensures Step(h, accept) == Headers(h, accept)
  {
  }

  lemma {:induction false} RunSkips(p: Parser, q: Parser, accept: Callbacks)
    requires p.buf != "" && Step(p, accept) == Next(q)
    ensures Run(p, accept) == Run(q, accept)
  {
    hide Step;
  }

  lemma HeaderChunkShape(boundary: string, items: seq<Item>, k: nat)
    requires k < |items|
    ensures (Lines(HeaderLines(items[k])) + CRLF) + Rest(boundary, items, InBody(k, 0))
        == Rest(boundary, items, AtEntry(k))
  {
    hide HeaderLines;
    assert items[k..][0] == items[k] && items[k..][1..] == items[k + 1..];
    assert items[k].content[0..] == items[k].content;
  }

  /** The header state cannot be waiting when all the headers are in. */
  lemma HeadersAreComplete(p: Parser, rest: string, items: seq<Item>, k: nat, j: nat)
    requires Inv(p, rest, items, InHeaders(k, j)) && rest == Rest(p.boundary, items, InBody(k, 0))
    ensures Find(p.buf, CRLF) < |p.buf|
  {
    var lines := Lines(HeaderLines(items[k])[j..]);
    assert items[k].content[0..] == items[k].content;
    assert lines + (CRLF + rest) == (lines + CRLF) + rest;
    var m := |lines|;
    assert |p.buf| == m + 2;
    assert p.buf == ((lines + CRLF) + rest)[..m + 2] == lines + CRLF;
    assert OccursAt(p.buf, CRLF, m);
  }

  lemma BodyChunk(p: Parser, items: seq<Item>, k: nat, accept: Callbacks) returns (chunk: string)
    requires k < |items| && items != []
    requires Inv(p, Rest(p.boundary, items, InBody(k, 0)), items, InBody(k, 0)) && p.buf == "" && AcceptsAll(accept)
    ensures var rest := Rest(p.boundary, items, AfterPart(k)); var r := ParseChunk(p, chunk, accept);
      && chunk + rest == Rest(p.boundary, items, InBody(k, 0))
      && r.ok && r.p.buf == "" && r.p.boundary == p.boundary && Inv(r.p, rest, items, AfterPart(k))
  {
    hide Find, LegalItems, HeaderLines, Run, PartsBy, Collected, Safe, Step, After;
    chunk := items[k].content + Delimiter(p.boundary);
    var rest := Rest(p.boundary, items, AfterPart(k));
    assert items[k].content[0..] == items[k].content;
    var q := Refill(p, chunk, rest, items, InBody(k, 0));
    var d := BodyStep(q, rest, items, k, 0, accept);
    var o := Step(q, accept);
    NothingBuffered(o.p, rest, items, AfterPart(k));
    RunOfOneStep(q, o.p, accept);
  }

  lemma SeparatorChunk(p: Parser, items: seq<Item>, k: nat, accept: Callbacks)
    requires k + 1 < |items|
    requires Inv(p, Rest(p.boundary, items, AfterPart(k)), items, AfterPart(k)) && p.buf == "" && AcceptsAll(accept)
    ensures var rest := Rest(p.boundary, items, AtEntry(k + 1)); var r := ParseChunk(p, CRLF, accept);
      && CRLF + rest == Rest(p.boundary, items, AfterPart(k))
      && r.ok && r.p.buf == "" && r.p.boundary == p.boundary && Inv(r.p, rest, items, AtEntry(k + 1))
  {
    hide Find, LegalItems, HeaderLines, Run, PartsBy, Collected, Step, Tail;
    var rest := Rest(p.boundary, items, AtEntry(k + 1));
    var q := Refill(p, CRLF, rest, items, AfterPart(k));
    AfterStep(q, rest, items, k, accept);
    var o := Step(q, accept);
    NothingBuffered(o.p, rest, items, AtEntry(k + 1));
    RunOfOneStep(q, o.p, accept);
  }

  /**
   * Some first chunks lead to the start of item k's content, whatever comes before, with nothing left in the buffer.
   */
  lemma {:induction false} Reach(boundary: string, items: seq<Item>, k: nat, accept: Callbacks)
    returns (chunks: seq<string>)
    requires LegalItems(boundary, items) && k < |items| && AcceptsAll(accept)
    ensures var rest := Rest(boundary, items, InBody(k, 0)); var r := Feed(Fresh(boundary), chunks, accept);
      && Concat(chunks) + rest == Body(boundary, items)
      && r.ok && r.p.buf == "" && r.p.boundary == boundary && Inv(r.p, rest, items, InBody(k, 0))
  {
    hide Inv, Rest, Run, Body, Fresh, Feed, Concat;
    var p;
    chunks, p := ReachEntry(boundary, items, k, accept);
    chunks, p := HeaderMore(boundary, items, accept, chunks, p, k);
  }

  lemma {:induction false} FeedOneMore(p: Parser, chunks: seq<string>, chunk: string, accept: Callbacks)
    requires Feed(p, chunks, accept).ok
    ensures Feed(p, chunks + [chunk], accept) == ParseChunk(Feed(p, chunks, accept).p, chunk, accept)
    ensures Concat(chunks + [chunk]) == Concat(chunks) + chunk
  {
    hide Run;
    FeedInTwo(p, chunks, [chunk], accept);
    ConcatInTwo(chunks, [chunk]);
    assert Concat([chunk]) == chunk + "";
    var q := Feed(p, chunks, accept).p;
    assert [chunk][1..] == [];
    var r := ParseChunk(q, chunk, accept);
    assert Feed(q, [chunk], accept) == if r.ok then Feed(r.p, [], accept) else r;
  }

  /** Some first chunks have led to this phase, with nothing left in the buffer. */
  ghost predicate LedTo(boundary: string, items: seq<Item>, accept: Callbacks, chunks: seq<string>, p: Parser,
      ph: Phase) {
    && PhaseOk(items, ph) && items != []
    && Feed(Fresh(boundary), chunks, accept) == Parsed(p, true)
    && Concat(chunks) + Rest(boundary, items, ph) == Body(boundary, items)
    && p.buf == "" && p.boundary == boundary && Inv(p, Rest(boundary, items, ph), items, ph)
  }

  lemma {:induction false} OneChunkMore(boundary: string, items: seq<Item>, accept: Callbacks, chunks: seq<string>,
      p: Parser,
      ph: Phase, chunk: string, ph': Phase)
    requires LedTo(boundary, items, accept, chunks, p, ph) && PhaseOk(items, ph')
    requires chunk + Rest(boundary, items, ph') == Rest(boundary, items, ph)
    requires var r := ParseChunk(p, chunk, accept);
      r.ok && r.p.buf == "" && r.p.boundary == boundary && Inv(r.p, Rest(boundary, items, ph'), items, ph')
    ensures LedTo(boundary, items, accept, chunks + [chunk], ParseChunk(p, chunk, accept).p, ph')
  {
    hide Inv, Rest, Run, Body, Fresh, PhaseOk, Feed, Concat;
    FeedOneMore(Fresh(boundary), chunks, chunk, accept);
    assert Concat(chunks) + (chunk + Rest(boundary, items, ph'))
        == (Concat(chunks) + chunk) + Rest(boundary, items, ph');
  }

  lemma HeaderMore(boundary: string, items: seq<Item>, accept: Callbacks, chunks: seq<string>, p: Parser, k: nat)
    returns (chunks': seq<string>, p': Parser)
    requires AcceptsAll(accept) && LedTo(boundary, items, accept, chunks, p, AtEntry(k))
    ensures LedTo(boundary, items, accept, chunks', p', InBody(k, 0))
  {
    hide Inv, Rest, Run, Body, Fresh, Feed, Concat;
    var chunk := HeaderChunk(p, items, k, accept);
    OneChunkMore(boundary, items, accept, chunks, p, AtEntry(k), chunk, InBody(k, 0));
    chunks', p' := chunks + [chunk], ParseChunk(p, chunk, accept).p;
  }

  lemma BodyMore(boundary: string, items: seq<Item>, accept: Callbacks, chunks: seq<string>, p: Parser, k: nat)
    returns (chunks': seq<string>, p': Parser)
    requires AcceptsAll(accept) && LedTo(boundary, items, accept, chunks, p, InBody(k, 0))
    ensures LedTo(boundary, items, accept, chunks', p', AfterPart(k))
  {
    hide Inv, Rest, Run, Body, Fresh, Feed, Concat;
    var chunk := BodyChunk(p, items, k, accept);
    OneChunkMore(boundary, items, accept, chunks, p, InBody(k, 0), chunk, AfterPart(k));
    chunks', p' := chunks + [chunk], ParseChunk(p, chunk, accept).p;
  }

  lemma SeparatorMore(boundary: string, items: seq<Item>, accept: Callbacks, chunks: seq<string>, p: Parser, k: nat)
    returns (chunks': seq<string>, p': Parser)
    requires k + 1 < |items| && AcceptsAll(accept) && LedTo(boundary, items, accept, chunks, p, AfterPart(k))
    ensures LedTo(boundary, items, accept, chunks', p', AtEntry(k + 1))
  {
    hide Inv, Rest, Run, Body, Fresh, Feed, Concat;
    SeparatorChunk(p, items, k, accept);
    OneChunkMore(boundary, items, accept, chunks, p, AfterPart(k), CRLF, AtEntry(k + 1));
    chunks', p' := chunks + [CRLF], ParseChunk(p, CRLF, accept).p;
  }

  lemma {:induction false} ReachEntry(boundary: string, items: seq<Item>, k: nat, accept: Callbacks)
    returns (chunks: seq<string>, p: Parser)
    requires LegalItems(boundary, items) && k < |items| && AcceptsAll(accept)
    ensures LedTo(boundary, items, accept, chunks, p, AtEntry(k))
  {
    hide LedTo, LegalItems;
    if k == 0 {
      chunks, p := FirstLine(boundary, items, accept);
    } else {
      chunks, p := ReachEntry(boundary, items, k - 1, accept);
      chunks, p := HeaderMore(boundary, items, accept, chunks, p, k - 1);
      chunks, p := BodyMore(boundary, items, accept, chunks, p, k - 1);
      chunks, p := SeparatorMore(boundary, items, accept, chunks, p, k - 1);
    }
  }

  lemma FirstLine(boundary: string, items: seq<Item>, accept: Callbacks) returns (chunks: seq<string>, p: Parser)
    requires LegalItems(boundary, items) && AcceptsAll(accept)
    ensures LedTo(boundary, items, accept, chunks, p, AtEntry(0))
  {
    hide Run, Find, HeaderLines, Step, LegalItems, Body;
    var line := "--" + boundary + CRLF;
    assert items != [] by { LegalItemsExist(boundary, items); }
    assert items[0..] == items;
    var rest := Rest(boundary, items, AtEntry(0));
    chunks := [line];
    BodyShape(boundary, items);
    assert CLOSING[0] == '-';
    StartsFresh(boundary, items);
    var q := Refill(Fresh(boundary), line, rest, items, AtStart);
    StartStep(q, rest, items, accept);
    p := Step(q, accept).p;
    assert p.buf == "" && p.boundary == boundary;
    RunOfOneStep(q, p, accept);
    FeedOneMore(Fresh(boundary), [], line, accept);
    assert [] + [line] == chunks && Concat([]) + line == line;
  }

  lemma LegalItemsExist(boundary: string, items: seq<Item>)
    requires LegalItems(boundary, items)
    ensures items != []
  {
  }

  // ---- an unsafe content, one character at a time ----

  function Characters(s: string): seq<string> {
    if s == "" then [] else [s[..1]] + Characters(s[1..])
  }

  lemma {:induction false} CharactersConcat(s: string)
    ensures Concat(Characters(s)) == s
  {
    if s != "" {
      CharactersConcat(s[1..]);
      assert Characters(s)[1..] == Characters(s[1..]);
    }
  }

  /** Feeding a text character by character: the first one, and the rest. */
  lemma {:induction false} FeedCharacters(p: Parser, rest: string, accept: Callbacks)
    requires rest != ""
    ensures var r := Run(p.(buf := p.buf + rest[..1]), accept);
      Feed(p, Characters(rest), accept) == if r.ok then Feed(r.p, Characters(rest[1..]), accept) else r
  {
    hide Run;
    assert Characters(rest)[0] == rest[..1] && Characters(rest)[1..] == Characters(rest[1..]);
  }

  lemma {:induction false} TakeOne(p: Parser, rest: string, items: seq<Item>, ph: Phase)
    requires Inv(p, rest, items, ph) && rest != ""
    ensures Inv(p.(buf := p.buf + rest[..1]), rest[1..], items, ph)
  {
    hide LegalItems, Rest, PartsBy, Collected;
    assert (p.buf + rest[..1]) + rest[1..] == p.buf + rest;
  }

  /** Fed character by character, an unsafe rest of content ends in an overrun, or is refused. */
  lemma {:induction false} Drip(p: Parser, rest: string, items: seq<Item>, k: nat, d: nat, accept: Callbacks)
    requires Inv(p, rest, items, InBody(k, d)) && AcceptsAll(accept)
    requires !Safe(|p.boundary| + 4, items[k].content[d..]) && |p.buf| < |p.boundary| + 4
    ensures var r := Feed(p, Characters(rest), accept); r.ok ==> Overrun(r.p.events, items, k)
    decreases |rest|
  {
    hide Find, LegalItems, HeaderLines, Run, PartsBy, Collected, Safe, Step, Rest, Overrun, Inv, Feed, Characters;
    EndingIsLong(p, rest, items, k, d);
    TakeOne(p, rest, items, InBody(k, d));
    FeedCharacters(p, rest, accept);
    var q := p.(buf := p.buf + rest[..1]);
    var later := rest[1..];
    var d' := BodyStep(q, later, items, k, d, accept);
    var o := Step(q, accept);
    if o.Stop? {
      StoppedRun(q, accept);
      Drip(o.p, later, items, k, d', accept);
    } else if Inv(o.p, later, items, InBody(k, d')) {
      RunOfOneStep(q, o.p, accept);
      Drip(o.p, later, items, k, d', accept);
    } else {
      OverrunIsKept(q, later, items, k, accept);
    }
  }

  /** A step that overruns spoils the rest of the transfer. */
  lemma {:induction false} OverrunIsKept(q: Parser, later: string, items: seq<Item>, k: nat, accept: Callbacks)
    requires q.buf != "" && Step(q, accept).Next? && Overrun(Step(q, accept).p.events, items, k)
    ensures var r := Run(q, accept);
      Overrun(r.p.events, items, k) && Overrun(Feed(r.p, Characters(later), accept).p.events, items, k)
  {
    hide Step, Run, Feed, Overrun, Characters;
    var p := Step(q, accept).p;
    RunSkips(q, p, accept);
    RunAppends(p, accept);
    var r := Run(q, accept);
    FeedAppends(r.p, Characters(later), accept);
    PrefixOverrun(p.events, r.p.events, items, k);
    PrefixOverrun(r.p.events, Feed(r.p, Characters(later), accept).p.events, items, k);
  }

  lemma {:induction false} StoppedRun(p: Parser, accept: Callbacks)
    requires p.buf != "" && Step(p, accept).Stop?
    ensures var o := Step(p, accept); Run(p, accept) == Parsed(o.p, o.ok)
  {
    hide Step;
  }

  /** An unsafe content makes some way of cutting the body fail. */
  lemma UnsafeContentFails(boundary: string, items: seq<Item>, k: nat, accept: Callbacks) returns (chunks: seq<string>)
    requires LegalItems(boundary, items) && AcceptsAll(accept)
    requires k < |items| && !Safe(|boundary| + 4, items[k].content)
    ensures Concat(chunks) == Body(boundary, items) && !RoundTrips(boundary, items, chunks, accept)
  {
    hide Find, LegalItems, HeaderLines, Run, Collected, Safe, Step, Rest, Inv, Body, Fresh, Overrun;
    var before := Reach(boundary, items, k, accept);
    var rest := Rest(boundary, items, InBody(k, 0));
    var p := Feed(Fresh(boundary), before, accept).p;
    chunks := before + Characters(rest);
    FeedInTwo(Fresh(boundary), before, Characters(rest), accept);
    ConcatInTwo(before, Characters(rest));
    CharactersConcat(rest);
    assert items[k].content[0..] == items[k].content;
    Drip(p, rest, items, k, 0, accept);
    var r := Feed(p, Characters(rest), accept);
    if r.ok { OverrunIsWrong(r.p.events, items, k); }
  }

  /**
   * For legal items with readable headers, every way of cutting the body into chunks round trips
   * if and only if every content is safe.
   */
  lemma RoundTripIffSafe(boundary: string, items: seq<Item>, accept: Callbacks)
    requires LegalItems(boundary, items) && AllReadable(items) && AcceptsAll(accept)
    ensures (forall chunks :: Concat(chunks) == Body(boundary, items) ==> RoundTrips(boundary, items, chunks, accept))
            <==> AllSafe(boundary, items)
  {
    hide LegalItems, RoundTrips, Body, Safe, Concat;
    if AllSafe(boundary, items) {
      forall chunks | Concat(chunks) == Body(boundary, items) ensures RoundTrips(boundary, items, chunks, accept) {
        SafeContentsRoundTrip(boundary, items, chunks, accept);
      }
    } else {
      var k :| 0 <= k < |items| && !Safe(|boundary| + 4, items[k].content);
      var chunks := UnsafeContentFails(boundary, items, k, accept);
    }
  }

  /** In particular contents without CR LF "--" round trip. */
  lemma {:induction false} NoDashesRoundTrip(boundary: string, items: seq<Item>, chunks: seq<string>, accept: Callbacks)
    requires LegalItems(boundary, items) && AllReadable(items) && AcceptsAll(accept)
    requires forall k :: 0 <= k < |items| ==> !Occurs(items[k].content, DASHES)
    requires Concat(chunks) == Body(boundary, items)
    ensures RoundTrips(boundary, items, chunks, accept)
  {
    SafeContentsRoundTrip(boundary, items, chunks, accept);
  }

  // ---- why there must be an item ----

  lemma ClosingIsNoOpening(boundary: string, buf: string, rest: string)
    requires buf + rest == "--" + boundary + "--\r\n" && |buf| >= |boundary| + 4
    ensures Find(buf, "--" + boundary + CRLF) != 0
  {
    var pattern := "--" + boundary + CRLF;
    var n := |boundary| + 2;
    assert buf[n] == (buf + rest)[n] == '-' && pattern[n] == '\r';
    assert buf[0..|pattern|][n] == '-';
  }

  lemma {:induction false} ClosingIsRefused(p: Parser, chunks: seq<string>, accept: Callbacks)
    requires p.state == 0 && |p.buf| < |p.boundary| + 4 && p.buf + Concat(chunks) == "--" + p.boundary + "--\r\n"
    ensures !Feed(p, chunks, accept).ok
    decreases |chunks|
  {
    hide Find;
    if chunks != [] {
      var q := p.(buf := p.buf + chunks[0]);
      assert q.buf + Concat(chunks[1..]) == p.buf + Concat(chunks);
      if |q.buf| < |p.boundary| + 4 {
        ClosingIsRefused(q, chunks[1..], accept);
      } else {
        ClosingIsNoOpening(p.boundary, q.buf, Concat(chunks[1..]));
      }
    }
  }

  /** The body built from no items at all is refused, however it is cut. */
  lemma {:induction false} NoItemsAreRefused(boundary: string, chunks: seq<string>, accept: Callbacks)
    requires Concat(chunks) == Body(boundary, [])
    ensures !Feed(Fresh(boundary), chunks, accept).ok
  {
    hide Feed;
    ClosingIsRefused(Fresh(boundary), chunks, accept);
  }

  // ---- the condition bites ----

  const EXAMPLE_BOUNDARY := "bb"
  const EXAMPLE := Item("n", "\r\n--x", "", "")

  /** A five-character content without the delimiter in it that does not survive every cut. */
  lemma LegalButUnsafe(accept: Callbacks) returns (chunks: seq<string>)
    requires AcceptsAll(accept)
    ensures LegalItems(EXAMPLE_BOUNDARY, [EXAMPLE])
    ensures Concat(chunks) == Body(EXAMPLE_BOUNDARY, [EXAMPLE])
    ensures !RoundTrips(EXAMPLE_BOUNDARY, [EXAMPLE], chunks, accept)
  {
    var h := HeaderLines(EXAMPLE);
    assert |h| == 1;
    NoBreakNoLineEnd(h[0]);
    var c := EXAMPLE.content;
    FindIs(c, Delimiter(EXAMPLE_BOUNDARY), |c|);
    assert c[0..4] == DASHES;
    FindIs(c, DASHES, 0);
    chunks := UnsafeContentFails(EXAMPLE_BOUNDARY, [EXAMPLE], 0, accept);
  }
}
