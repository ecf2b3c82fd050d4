/**
 * What else a body must satisfy to be read back, and the condition that is exact for everything the builder accepts.
 */
module MultipartConditions {
  import opened TextSearch
  import opened MultipartHeaders
  import opened Multipart
  import opened MultipartItems
  import opened MultipartRoundTrip
  import opened MultipartExact

  // ---- what is delivered of headers holds no line end ----

  predicate CleanInfo(file: FileInfo) {
    NoBreak(file.name) && NoBreak(file.filename) && !Occurs(file.contentType, CRLF)
  }

  ghost predicate CleanEvents(events: seq<Event>) {
    forall i :: 0 <= i < |events| && events[i].Header? ==> CleanInfo(events[i].file)
  }

  ghost predicate CleanParser(p: Parser) { CleanInfo(p.file) && CleanEvents(p.events) }

  lemma PartHasNone(s: string, pat: string, i: nat, j: nat)
    requires pat != "" && i <= j <= |s| && !Occurs(s, pat)
    ensures !Occurs(s[i..j], pat)
  {
    hide FindFrom;
    SuffixHasNone(s, pat, i);
    assert s[i..] == s[i..j] + s[j..];
    FindInPrefix(s[i..j], s[j..], pat);
  }

  lemma HeaderKeepsClean(file: FileInfo, line: string)
    requires CleanInfo(file) && !Occurs(line, CRLF)
    ensures CleanInfo(WithHeader(file, line))
  {
    hide Trimmed, Disposition, Occurs, NoBreak;
    if StartsWithCaseIgnore(line, CONTENT_TYPE) {
      var text := line[|CONTENT_TYPE|..];
      assert text == line[|CONTENT_TYPE|..|line|];
      PartHasNone(line, CRLF, |CONTENT_TYPE|, |line|);
      var i, j := TrimmedEnds(text);
      PartHasNone(text, CRLF, i, j);
    } else if Disposition(line).Some? {
      NamesHaveNoBreak(line);
    }
  }

  lemma MatchHasNoBreak(line: string, i: nat, j: nat, q: nat, names: Names)
    requires MatchesAt(line, i, j, q, names)
    ensures NoBreak(names.name) && NoBreak(names.filename)
  {
    hide WordAt, AllSpace, EndsAt, NoBreak;
    EndsWithoutBreak(line, q + 1, names.filename);
  }

  lemma NamesHaveNoBreak(line: string)
    requires Disposition(line).Some?
    ensures var names := Disposition(line).value; NoBreak(names.name) && NoBreak(names.filename)
  {
    hide Disposition, MatchesAt, NoBreak;
    DispositionMatches(line);
    var names := Disposition(line).value;
    var i: nat, j: nat, q: nat :| MatchesAt(line, i, j, q, names);
    MatchHasNoBreak(line, i, j, q, names);
  }

  /** What precedes the first occurrence of a pattern does not contain it. */
  lemma BeforeFirst(s: string, pat: string, pos: nat)
    requires pat != "" && pos <= Find(s, pat)
    ensures !Occurs(s[..pos], pat)
  {
    hide FindFrom;
    assert s[..pos] + s[pos..] == s;
    FindInPrefix(s[..pos], s[pos..], pat);
  }

  lemma {:induction false} HeadersClean(p: Parser, accept: Callbacks)
    requires CleanParser(p)
    ensures CleanParser(Headers(p, accept).p)
    decreases |p.buf|
  {
    hide Find, Occurs, WithHeader, CleanInfo;
    var pos := Find(p.buf, CRLF);
    if 0 < pos < |p.buf| {
      BeforeFirst(p.buf, CRLF, pos);
      HeaderKeepsClean(p.file, p.buf[..pos]);
      HeadersClean(p.Erase(pos + 2).(file := WithHeader(p.file, p.buf[..pos])), accept);
    }
  }

  lemma {:induction false} RunClean(p: Parser, accept: Callbacks)
    requires CleanParser(p)
    ensures CleanParser(Run(p, accept).p)
    decreases |p.buf|, if p.state == 1 then 1 else 0
  {
    hide Find, FindPartialFrom, Occurs, Headers;
    if p.buf != "" {
      if p.state == 2 { HeadersClean(p, accept); }
      NoFileIsClean();
      var o := Step(p, accept);
      assert CleanParser(o.p);
      if o.Next? { RunClean(o.p, accept); }
    }
  }

  lemma {:induction false} FeedClean(p: Parser, chunks: seq<string>, accept: Callbacks)
    requires CleanParser(p)
    ensures CleanParser(Feed(p, chunks, accept).p)
    decreases |chunks|
  {
    hide Run, CleanInfo;
    if chunks != [] {
      RunClean(p.(buf := p.buf + chunks[0]), accept);
      var r := ParseChunk(p, chunks[0], accept);
      if r.ok { FeedClean(r.p, chunks[1..], accept); }
    }
  }

  lemma {:induction false} CollectedClean(events: seq<Event>)
    requires CleanEvents(events)
    ensures forall k :: 0 <= k < |Collected(events)| ==> CleanInfo(Collected(events)[k].file)
  {
    hide CleanInfo;
    if events != [] { CollectedClean(events[..|events| - 1]); }
  }

  /** Under any split, a round trip means that no name holds a CR or LF, and no content type CR LF. */
  lemma RoundTripNeedsCleanFields(boundary: string, items: seq<Item>, chunks: seq<string>, accept: Callbacks)
    requires RoundTrips(boundary, items, chunks, accept)
    ensures forall k :: 0 <= k < |items| ==> CleanInfo(Described(items[k]))
  {
    hide Feed, CleanInfo, Collected;
    var r := Feed(Fresh(boundary), chunks, accept);
    FreshIsClean(boundary);
    FeedClean(Fresh(boundary), chunks, accept);
    CollectedClean(r.p.events);
    forall k | 0 <= k < |items| ensures CleanInfo(Described(items[k])) {
      assert Sent(items)[k].file == Described(items[k]);
    }
  }

  lemma NoFileIsClean()
    ensures CleanInfo(NO_FILE)
  {
  }

  lemma FreshIsClean(boundary: string)
    ensures CleanParser(Fresh(boundary))
  {
  }

  // ---- contents delivered from one chunk hold no delimiter ----

  predicate DelimiterFree(boundary: string, parts: seq<Part>) {
    forall k :: 0 <= k < |parts| ==> !Occurs(parts[k].content, Delimiter(boundary))
  }

  /** Nothing has been delivered yet of the content being read. */
  predicate ContentStarts(parts: seq<Part>) { parts != [] && parts[|parts| - 1].content == "" }

  ghost predicate Whole(p: Parser) {
    DelimiterFree(p.boundary, Collected(p.events)) && (p.state == 3 ==> ContentStarts(Collected(p.events)))
  }

  lemma SuffixHasNone(s: string, pat: string, n: nat)
    requires pat != "" && Find(s, pat) == |s| && n <= |s|
    ensures Find(s[n..], pat) == |s[n..]|
  {
    var t := s[n..];
    forall i: nat | i < |t| ensures !OccursAt(t, pat, i) {
      assert i + |pat| <= |t| ==> s[n + i..n + i + |pat|] == t[i..i + |pat|];
      assert !OccursAt(s, pat, n + i);
    }
    FindIs(t, pat, |t|);
  }

  /** With no delimiter left in the buffer, and no more input, the body state is final. */
  lemma {:induction false} BodyNeverEnds(p: Parser, accept: Callbacks)
    requires p.state == 3 && Find(p.buf, Delimiter(p.boundary)) == |p.buf|
    ensures Run(p, accept).p.state == 3
    decreases |p.buf|
  {
    hide Find, FindPartialFrom;
    if p.buf != "" {
      var o := BodyText(p, accept);
      if o.Next? {
        SuffixHasNone(p.buf, Delimiter(p.boundary), |p.buf| - |o.p.buf|);
        var q := BodyDelimiter(o.p, accept);
        assert Step(p, accept) == q;
        if q.Next? {
          SuffixHasNone(o.p.buf, Delimiter(p.boundary), |o.p.buf| - |q.p.buf|);
          BodyNeverEnds(q.p, accept);
        }
      }
    }
  }

  lemma PrefixOccurs(s: string, prefix: string, pat: string, i: nat)
    requires prefix <= pat
    ensures OccursAt(s, pat, i) ==> OccursAt(s, prefix, i)
  {
    if OccursAt(s, pat, i) { assert s[i..i + |prefix|] == s[i..i + |pat|][..|prefix|]; }
  }

  /** Leaving out text that cannot begin the delimiter moves its first occurrence and no more. */
  lemma {:induction false} FindAfterText(s: string, boundary: string)
    ensures var pos := FindPartialFrom(s, DASHES, 0);
      Find(s, Delimiter(boundary)) == pos + Find(s[pos..], Delimiter(boundary))
  {
    hide FindFrom;
    var pat := Delimiter(boundary);
    var pos := FindPartialFrom(s, DASHES, 0);
    assert s + "" == s;
    FindPartialInPrefix(s, "", DASHES);
    var t := s[pos..];
    var f := pos + Find(t, pat);
    forall i: nat | pos <= i < |s| ensures OccursAt(s, pat, i) <==> OccursAt(t, pat, i - pos) {
      assert i + |pat| <= |s| ==> s[i..i + |pat|] == t[i - pos..i - pos + |pat|];
    }
    forall i: nat | i < pos ensures !OccursAt(s, pat, i) {
      PrefixOccurs(s, DASHES, pat, i);
    }
    FindIs(s, pat, f);
  }

  /** The body state entered with nothing delivered: the content comes out whole, or the state is final. */
  lemma BodyIsWhole(p: Parser, accept: Callbacks)
    requires p.state == 3 && p.buf != "" && Whole(p)
    ensures var o := Step(p, accept);
      || (o.Stop? && o.p.state == 3)
      || (o.Next? && o.p.state == 4 && Whole(o.p))
      || (o.Next? && Run(o.p, accept).p.state == 3)
  {
    hide Find, FindPartialFrom, Collected, Occurs, Run;
    var o := BodyText(p, accept);
    if o.Next? {
      var pos, pat := FindPartialFrom(p.buf, DASHES, 0), Delimiter(p.boundary);
      FindAfterText(p.buf, p.boundary);
      CollectedStep(p.events, Content(p.buf[..pos]));
      var q := BodyDelimiter(o.p, accept);
      if q.Next? {
        var pos2 := Find(o.p.buf, pat);
        if pos2 < |o.p.buf| {
          CollectedStep(o.p.events, Content(o.p.buf[..pos2]));
          assert "" + p.buf[..pos] + o.p.buf[..pos2] == p.buf[..pos + pos2];
          BeforeFirst(p.buf, pat, pos + pos2);
        } else {
          SuffixHasNone(o.p.buf, pat, |pat|);
          BodyNeverEnds(q.p, accept);
        }
      }
    }
  }

  lemma NothingInEmpty(boundary: string)
    ensures !Occurs("", Delimiter(boundary))
  {
  }

  lemma {:induction false} HeadersAreWhole(p: Parser, accept: Callbacks)
    requires p.state == 2 && Whole(p)
    ensures var o := Headers(p, accept); (o.Stop? && o.p.state == 2) || (o.Next? && o.p.state == 3 && Whole(o.p))
    decreases |p.buf|
  {
    hide Find, Collected, Occurs, WithHeader;
    var pos := Find(p.buf, CRLF);
    NothingInEmpty(p.boundary);
    if 0 < pos < |p.buf| {
      HeadersAreWhole(p.Erase(pos + 2).(file := WithHeader(p.file, p.buf[..pos])), accept);
    } else if pos == 0 {
      CollectedStep(p.events, Header(p.file));
    }
  }

  /** A run over one buffer that ends in the final state has delivered contents without delimiters. */
  lemma {:induction false} RunIsWhole(p: Parser, accept: Callbacks)
    requires Whole(p)
    ensures Run(p, accept).p.state == 5 ==> Whole(Run(p, accept).p)
    decreases |p.buf|, if p.state == 1 then 1 else 0
  {
    hide Find, FindPartialFrom, Collected, Headers, BodyText, BodyDelimiter, DelimiterFree, ContentStarts;
    if p.buf != "" {
      var o := Step(p, accept);
      if p.state == 2 {
        HeadersAreWhole(p, accept);
      } else if p.state == 3 {
        BodyIsWhole(p, accept);
      }
      if o.Next? && Whole(o.p) { RunIsWhole(o.p, accept); }
    }
  }

  /** A round trip in one chunk means that no content holds the delimiter. */
  lemma RoundTripNeedsNoDelimiter(boundary: string, items: seq<Item>, accept: Callbacks)
    requires RoundTrips(boundary, items, [Body(boundary, items)], accept)
    ensures forall k :: 0 <= k < |items| ==> !Occurs(items[k].content, Delimiter(boundary))
  {
    hide Run, Occurs, Body, Collected;
    var body := Body(boundary, items);
    var p := Fresh(boundary).(buf := "" + body);
    var r := Run(p, accept);
    assert [body][1..] == [];
    assert Feed(Fresh(boundary), [body], accept) == if r.ok then Feed(r.p, [], accept) else r;
    RunKeepsBoundary(p, accept);
    FreshIsWhole(boundary, body);
    RunIsWhole(p, accept);
    forall k | 0 <= k < |items| ensures !Occurs(items[k].content, Delimiter(boundary)) {
      assert Sent(items)[k].content == items[k].content;
    }
  }

  lemma FreshIsWhole(boundary: string, body: string)
    ensures Whole(Fresh(boundary).(buf := "" + body))
  {
  }

  lemma {:induction false} RunKeepsBoundary(p: Parser, accept: Callbacks)
    ensures Run(p, accept).p.boundary == p.boundary
    decreases |p.buf|, if p.state == 1 then 1 else 0
  {
    hide Step;
    if p.buf != "" {
      var o := Step(p, accept);
      if o.Next? { RunKeepsBoundary(o.p, accept); }
    }
  }

  // ---- the exact condition ----

  /**
   * What a caller can see of the items: some item, fields that read back, contents without delimiter, no unsafe skip.
   */
  ghost predicate Deliverable(boundary: string, items: seq<Item>) {
    && items != [] && AllReadable(items)
    && (forall k :: 0 <= k < |items| ==> !Occurs(items[k].content, Delimiter(boundary)))
    && AllSafe(boundary, items)
  }

  /** Clean fields make clean header lines. */
  lemma CleanFieldsCleanLines(item: Item)
    requires CleanInfo(Described(item))
    ensures forall j :: 0 <= j < |HeaderLines(item)| ==> !Occurs(HeaderLines(item)[j], CRLF)
  {
    hide Occurs, NameLine, HeaderLines;
    HeaderLinesAre(item);
    NameLineIsClean(item);
    if item.contentType != "" { TypeLineIsClean(item.contentType); }
  }

  lemma NameLineIsClean(item: Item)
    requires NoBreak(item.name) && NoBreak(item.filename)
    ensures !Occurs(NameLine(item), CRLF)
  {
    assert '\r' !in OPENING;
    AfterNameIs(item.filename);
    NoBreakNoLineEnd(NameLine(item));
  }

  lemma TypeLineIsClean(contentType: string)
    requires !Occurs(contentType, CRLF)
    ensures !Occurs("Content-Type: " + contentType, CRLF)
  {
    var before := "Content-Type: ";
    var s := before + contentType;
    assert '\r' !in before && |before| == 14;
    forall i: nat | i < |s| ensures !OccursAt(s, CRLF, i) {
      assert i + 2 <= |s| ==> s[i..i + 2][0] == s[i];
      if 14 <= i && i + 2 <= |s| { assert s[i..i + 2] == contentType[i - 14..i - 14 + 2]
          && !OccursAt(contentType, CRLF, i - 14); }
    }
    FindIs(s, CRLF, |s|);
  }

  lemma ReadableIsClean(item: Item)
    requires ReadableItem(item)
    ensures CleanInfo(Described(item))
  {
  }

  lemma CleanAndFreeIsLegal(boundary: string, items: seq<Item>)
    requires LegalBoundary(boundary) && items != []
    requires forall k :: 0 <= k < |items| ==> CleanInfo(Described(items[k]))
    requires forall k :: 0 <= k < |items| ==> !Occurs(items[k].content, Delimiter(boundary))
    ensures LegalItems(boundary, items)
  {
    hide Occurs, CleanInfo, HeaderLines, Delimiter, LegalBoundary;
    forall k | 0 <= k < |items|
      ensures forall j :: 0 <= j < |HeaderLines(items[k])| ==> !Occurs(HeaderLines(items[k])[j], CRLF)
    {
      CleanFieldsCleanLines(items[k]);
    }
  }

  /** What was read was meant: so the fields allow it. */
  lemma ReadAsMeantIsReadable(item: Item)
    requires InfoOf(HeaderLines(item)) == Described(item) && CleanInfo(Described(item))
    ensures ReadableItem(item)
  {
    hide NameEndsEarly, Occurs, NoBreak, BlankAtAnEnd;
    HeadersReadIff(item);
  }

  lemma {:induction false} RoundTripNeedsReadableItems(boundary: string, items: seq<Item>, chunks: seq<string>,
      accept: Callbacks)
    requires LegalItems(boundary, items) && AllSafe(boundary, items) && AcceptsAll(accept)
    requires Concat(chunks) == Body(boundary, items) && RoundTrips(boundary, items, chunks, accept)
    ensures AllReadable(items)
  {
    hide Feed, CleanInfo, Collected, LegalItems, Body, BodyWith, AllSafe, HeaderLines, InfoOf, ReadableItem, Concat;
    RoundTripNeedsCleanFields(boundary, items, chunks, accept);
    BodyIsClosed(boundary, items);
    ClosingDecides(boundary, items, CLOSING, chunks, accept);
    forall k | 0 <= k < |items| ensures ReadableItem(items[k]) {
      assert Sent(items)[k].file == Expected(items)[k].file;
      ReadAsMeantIsReadable(items[k]);
    }
  }

  lemma BodyIsClosed(boundary: string, items: seq<Item>)
    ensures Body(boundary, items) == BodyWith(boundary, items, CLOSING) && !(CRLF <= CLOSING)
  {
    assert CLOSING[0] == '-';
  }

  lemma OneChunk(s: string)
    ensures Concat([s]) == s
  {
    assert [s][1..] == [] && s + "" == s;
  }

  /** Whatever is wrong with the items, some way of cutting the body fails. */
  lemma SomeSplitFails(boundary: string, items: seq<Item>, accept: Callbacks) returns (chunks: seq<string>)
    requires LegalBoundary(boundary) && AcceptsAll(accept) && !Deliverable(boundary, items)
    ensures Concat(chunks) == Body(boundary, items) && !RoundTrips(boundary, items, chunks, accept)
  {
    hide RoundTrips, Body, Safe, Occurs, CleanInfo, Delimiter, Concat, LegalBoundary, AllReadable, LegalItems;
    var body := Body(boundary, items);
    OneChunk(body);
    chunks := [body];
    if RoundTrips(boundary, items, [body], accept) {
      if items == [] { EmptyDoesNotRoundTrip(boundary, [body], accept); }
      RoundTripNeedsCleanFields(boundary, items, [body], accept);
      RoundTripNeedsNoDelimiter(boundary, items, accept);
      CleanAndFreeIsLegal(boundary, items);
      if AllSafe(boundary, items) {
        RoundTripNeedsReadableItems(boundary, items, [body], accept);
      } else {
        var k :| 0 <= k < |items| && !Safe(|boundary| + 4, items[k].content);
        chunks := UnsafeContentFails(boundary, items, k, accept);
      }
    }
  }

  lemma {:induction false} EmptyDoesNotRoundTrip(boundary: string, chunks: seq<string>, accept: Callbacks)
    requires Concat(chunks) == Body(boundary, [])
    ensures !RoundTrips(boundary, [], chunks, accept)
  {
    hide Feed, Body, Concat;
    NoItemsAreRefused(boundary, chunks, accept);
  }

  lemma DeliverableIsLegal(boundary: string, items: seq<Item>)
    requires LegalBoundary(boundary) && Deliverable(boundary, items)
    ensures LegalItems(boundary, items) && AllReadable(items) && AllSafe(boundary, items)
  {
    hide ReadableItem, Occurs, CleanInfo, Delimiter, LegalBoundary, LegalItems, AllSafe;
    forall k | 0 <= k < |items| ensures CleanInfo(Described(items[k])) { ReadableIsClean(items[k]); }
    CleanAndFreeIsLegal(boundary, items);
  }

  /**
   * For every boundary and every list of items the builder accepts: all splits of the body round trip if and only if
   * the items are deliverable.
   */
  lemma RoundTripIffDeliverable(boundary: string, items: seq<Item>, accept: Callbacks)
    requires LegalBoundary(boundary) && AcceptsAll(accept)
    ensures (forall chunks :: Concat(chunks) == Body(boundary, items) ==> RoundTrips(boundary, items, chunks, accept))
            <==> Deliverable(boundary, items)
  {
    hide RoundTrips, Body, Concat, LegalBoundary, Deliverable, AllReadable, LegalItems, AllSafe;
    if Deliverable(boundary, items) {
      DeliverableIsLegal(boundary, items);
      forall chunks | Concat(chunks) == Body(boundary, items) ensures RoundTrips(boundary, items, chunks, accept) {
        SafeContentsRoundTrip(boundary, items, chunks, accept);
      }
    } else {
      var chunks := SomeSplitFails(boundary, items, accept);
    }
  }
}
