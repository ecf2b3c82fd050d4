/**
 * What becomes of a transfer as a whole: when the parser fails, when it is valid, and what may come before and after.
 */
module MultipartVerdict {
  import opened TextSearch
  import opened MultipartHeaders
  import opened Multipart
  import opened MultipartItems
  import opened MultipartRoundTrip
  import opened MultipartConditions

  // ---- whatever is sent, and whatever the callbacks say ----

  /** Callback n was refused. */
  predicate RefusedAt(events: seq<Event>, n: nat, accept: Callbacks) {
    0 < n <= |events| && !accept(events[..n])
  }

  ghost predicate NoneRefused(events: seq<Event>, accept: Callbacks) {
    forall n :: 0 < n <= |events| ==> !RefusedAt(events, n, accept)
  }

  /** Exactly the last callback was refused. */
  ghost predicate LastRefused(events: seq<Event>, accept: Callbacks) {
    events != [] && !accept(events) && NoneRefused(events[..|events| - 1], accept)
  }

  /** The parser goes on: nothing was refused, it is valid in the final state only, and off counts what was consumed. */
  ghost predicate GoesOn(p: Parser, accept: Callbacks, total: nat) {
    NoneRefused(p.events, accept) && (p.valid <==> p.state == 5) && p.state <= 5 && p.off + |p.buf| == total
  }

  /** The parser has failed: on a refused callback, or in one of the two states that can fail by themselves. */
  ghost predicate Failed(p: Parser, accept: Callbacks) {
    && !p.valid
    && (LastRefused(p.events, accept) || (NoneRefused(p.events, accept) && (p.state == 0 || p.state == 5)))
  }

  ghost predicate Fine(o: Outcome, accept: Callbacks, total: nat) {
    match o
    case Next(q) => GoesOn(q, accept, total)
    case Stop(q, ok) => if ok then GoesOn(q, accept, total) else Failed(q, accept)
  }

  lemma OneMoreEvent(events: seq<Event>, e: Event, accept: Callbacks)
    requires NoneRefused(events, accept)
    ensures accept(events + [e]) ==> NoneRefused(events + [e], accept)
    ensures !accept(events + [e]) ==> LastRefused(events + [e], accept)
  {
    var more := events + [e];
    assert more[..|more| - 1] == events && more[..|more|] == more;
    forall n | 0 < n <= |events| ensures !RefusedAt(more, n, accept) {
      assert more[..n] == events[..n] && !RefusedAt(events, n, accept);
    }
  }

  lemma {:induction false} HeadersAreFine(p: Parser, accept: Callbacks, total: nat)
    requires GoesOn(p, accept, total) && p.state == 2
    ensures Fine(Headers(p, accept), accept, total)
    decreases |p.buf|
  {
    hide Find, WithHeader, NoneRefused, LastRefused;
    var pos := Find(p.buf, CRLF);
    if 0 < pos < |p.buf| {
      HeadersAreFine(p.Erase(pos + 2).(file := WithHeader(p.file, p.buf[..pos])), accept, total);
    } else if pos < |p.buf| {
      OneMoreEvent(p.events, Header(p.file), accept);
    }
  }

  lemma BodyIsFine(p: Parser, accept: Callbacks, total: nat)
    requires GoesOn(p, accept, total) && p.state == 3
    ensures Fine(BodyText(p, accept), accept, total) && (BodyText(p, accept).Next? ==> BodyText(p, accept).p.state == 3)
    ensures Fine(BodyDelimiter(p, accept), accept, total)
  {
    hide Find, FindPartialFrom, NoneRefused, LastRefused;
    if |p.buf| >= |DASHES| { OneMoreEvent(p.events, Content(p.buf[..FindPartialFrom(p.buf, DASHES, 0)]), accept); }
    var pattern := Delimiter(p.boundary);
    if |pattern| <= |p.buf| {
      var pos := Find(p.buf, pattern);
      OneMoreEvent(p.events, Content(p.buf[..pos]), accept);
      OneMoreEvent(p.events, Content(p.buf[..|pattern|]), accept);
    }
  }

  lemma StepIsFine(p: Parser, accept: Callbacks, total: nat)
    requires GoesOn(p, accept, total) && p.buf != ""
    ensures Fine(Step(p, accept), accept, total)
  {
    hide Find, Headers, BodyText, BodyDelimiter, NoneRefused, LastRefused;
    if p.state == 2 {
      HeadersAreFine(p, accept, total);
    } else if p.state == 3 {
      BodyIsFine(p, accept, total);
      var o := BodyText(p, accept);
      if o.Next? { BodyIsFine(o.p, accept, total); }
    }
  }

  lemma {:induction false} RunIsFine(p: Parser, accept: Callbacks, total: nat)
    requires GoesOn(p, accept, total)
    ensures var r := Run(p, accept); if r.ok then GoesOn(r.p, accept, total) else Failed(r.p, accept)
    decreases |p.buf|, if p.state == 1 then 1 else 0
  {
    hide Step, GoesOn, Failed;
    if p.buf != "" {
      StepIsFine(p, accept, total);
      var o := Step(p, accept);
      if o.Next? { RunIsFine(o.p, accept, total); }
    }
  }

  lemma {:induction false} FeedIsFine(p: Parser, chunks: seq<string>, accept: Callbacks, total: nat)
    requires GoesOn(p, accept, total)
    ensures var r := Feed(p, chunks, accept);
      if r.ok then GoesOn(r.p, accept, total + |Concat(chunks)|) else Failed(r.p, accept)
    decreases |chunks|
  {
    hide Run, NoneRefused, LastRefused;
    if chunks != [] {
      var q := p.(buf := p.buf + chunks[0]);
      var now := total + |chunks[0]|;
      RunIsFine(q, accept, now);
      var r := Run(q, accept);
      if r.ok { FeedIsFine(r.p, chunks[1..], accept, now); }
    }
  }

  /**
   * The verdict on any transfer, under any callbacks. The parser is valid exactly if it has succeeded so far and is in
   * its final state. A refused callback is the last one, and makes it fail; besides that it fails only in its first and
   * in its final state. As long as it succeeds, every byte is either counted as consumed or still in the buffer.
   */
  lemma {:induction false} FeedVerdict(boundary: string, chunks: seq<string>, accept: Callbacks)
    ensures var r := Feed(Fresh(boundary), chunks, accept);
      && (r.p.valid <==> r.ok && r.p.state == 5)
      && (forall n :: RefusedAt(r.p.events, n, accept) ==> !r.ok && n == |r.p.events|)
      && (!r.ok ==> RefusedAt(r.p.events, |r.p.events|, accept) || r.p.state == 0 || r.p.state == 5)
      && (r.ok ==> r.p.off + |r.p.buf| == |Concat(chunks)|)
  {
    hide Feed, Concat;
    FeedIsFine(Fresh(boundary), chunks, accept, 0);
    var r := Feed(Fresh(boundary), chunks, accept);
    if LastRefused(r.p.events, accept) { LastIsOnly(r.p.events, accept); }
  }

  lemma LastIsOnly(events: seq<Event>, accept: Callbacks)
    requires LastRefused(events, accept)
    ensures forall n :: RefusedAt(events, n, accept) ==> n == |events|
    ensures RefusedAt(events, |events|, accept)
  {
    assert events[..|events|] == events;
    var init := events[..|events| - 1];
    forall n: nat | RefusedAt(events, n, accept) ensures n == |events| {
      if n < |events| {
        assert init[..n] == events[..n];
        assert RefusedAt(init, n, accept);
      }
    }
  }

  // ---- what must come first ----

  lemma OpeningIs(buf: string, pattern: string)
    requires |pattern| <= |buf| && pattern != ""
    ensures Find(buf, pattern) == 0 <==> pattern <= buf
  {
    if pattern <= buf { assert OccursAt(buf, pattern, 0); }
  }

  /**
   * A transfer that does not begin with the boundary line fails as soon as that can be told,
       with nothing delivered; one
   * shorter than the line waits.
   */
  lemma {:induction false} WaitsForOpening(p: Parser, chunks: seq<string>, accept: Callbacks)
    requires p.state == 0 && |p.buf| < |p.boundary| + 4
    ensures var text := p.buf + Concat(chunks); var line := "--" + p.boundary
        + "\r\n"; var r := Feed(p, chunks, accept);
      && (|text| < |line| ==> r == Parsed(p.(buf := text), true))
      && (|text| >= |line| && !(line <= text) ==> !r.ok && r.p.events == p.events && r.p.state == 0)
    decreases |chunks|
  {
    hide Find, Headers, BodyText, BodyDelimiter;
    var text := p.buf + Concat(chunks);
    if chunks == [] {
      assert text == p.buf;
    } else {
      var q := p.(buf := p.buf + chunks[0]);
      assert q.buf + Concat(chunks[1..]) == text;
      if |q.buf| < |p.boundary| + 4 {
        WaitsForOpening(q, chunks[1..], accept);
        assert Run(q, accept) == Parsed(q, true);
      } else {
        var line := "--" + p.boundary + CRLF;
        OpeningIs(q.buf, line);
        assert q.buf[..|line|] == text[..|line|];
      }
    }
  }

  lemma {:induction false} OpeningDecides(boundary: string, chunks: seq<string>, accept: Callbacks)
    ensures var text := Concat(chunks); var line := "--" + boundary + "\r\n";
      var r := Feed(Fresh(boundary), chunks, accept);
      && (|text| < |line| ==> r.ok && !r.p.valid && r.p.events == [])
      && (|text| >= |line| && !(line <= text) ==> !r.ok && !r.p.valid && r.p.events == [])
  {
    hide Feed, Concat;
    WaitsForOpening(Fresh(boundary), chunks, accept);
    assert "" + Concat(chunks) == Concat(chunks);
    FeedVerdict(boundary, chunks, accept);
  }

  // ---- what may come last ----

  /** Deliverable items followed by any text in place of the closing "--", CR LF. */
  lemma {:induction false} DeliverableThen(boundary: string, items: seq<Item>, closing: string, chunks: seq<string>,
      accept: Callbacks)
    requires LegalBoundary(boundary) && Deliverable(boundary, items) && AcceptsAll(accept)
    requires !("\r\n" <= closing) && Concat(chunks) == BodyWith(boundary, items, closing)
    ensures var r := Feed(Fresh(boundary), chunks, accept);
      && Collected(r.p.events) == Sent(items)
      && (r.p.valid <==> closing == "--\r\n")
      && (!r.ok <==> "--\r\n" <= closing && |closing| > 4)
  {
    hide Feed, Concat, BodyWith, Deliverable, LegalItems, AllReadable, AllSafe, Collected, InfoOf, HeaderLines;
    DeliverableIsLegal(boundary, items);
    ReadableItemsAreRead(items);
    ClosingDecides(boundary, items, closing, chunks, accept);
  }

  /** Nothing may follow a complete body: whatever does, in the same chunk or later, makes the transfer fail. */
  lemma {:induction false} NothingMayFollow(boundary: string, items: seq<Item>, more: string, chunks: seq<string>,
      accept: Callbacks)
    requires LegalBoundary(boundary) && Deliverable(boundary, items) && AcceptsAll(accept)
    requires Concat(chunks) == Body(boundary, items) + more && more != ""
    ensures var r := Feed(Fresh(boundary), chunks, accept);
      !r.ok && !r.p.valid && Collected(r.p.events) == Sent(items)
  {
    hide Feed, Concat, Deliverable, Collected;
    var closing := "--\r\n" + more;
    assert closing[0] == '-' && closing[..4] == "--\r\n";
    assert Body(boundary, items) + more == BodyWith(boundary, items, closing);
    DeliverableThen(boundary, items, closing, chunks, accept);
  }

  /** And of a body that breaks off, nothing is taken for complete, and nothing fails. */
  lemma {:induction false} BrokenOffBodyWaits(boundary: string, items: seq<Item>, missing: string, chunks: seq<string>,
      accept: Callbacks)
    requires LegalBoundary(boundary) && Deliverable(boundary, items) && AcceptsAll(accept)
    requires Concat(chunks) + missing == Body(boundary, items) && missing != ""
    ensures var r := Feed(Fresh(boundary), chunks, accept); r.ok && !r.p.valid
  {
    hide Feed, Concat, Body, Deliverable, LegalItems, AllReadable, AllSafe;
    DeliverableIsLegal(boundary, items);
    TruncatedBodyWaits(boundary, items, chunks, missing, accept);
  }
}
