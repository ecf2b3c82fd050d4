/** The parser undoes the builder, however the transport cuts the body; and exactly when it does. */
module MultipartRoundTrip {
  import opened TextSearch
  import opened MultipartHeaders
  import opened Multipart
  import opened MultipartItems

  // ---- what the callbacks add up to ----

  datatype Part = Part(file: FileInfo, content: string)

  /** A header callback opens a part; a content callback adds to the content of the last one. */
  function WithEvent(parts: seq<Part>, e: Event): seq<Part> {
    match e
    case Header(file) => parts + [Part(file, "")]
    case Content(text) =>
      if parts == [] then []
      else parts[|parts| - 1 := parts[|parts| - 1].(content := parts[|parts| - 1].content + text)]
  }

  function Collected(events: seq<Event>): seq<Part> {
    if events == [] then [] else WithEvent(Collected(events[..|events| - 1]), events[|events| - 1])
  }

  /** What was meant: the fields of the items. */
  function Sent(items: seq<Item>): (parts: seq<Part>)
    ensures |parts| == |items|
  {
    seq(|items|, i requires 0 <= i < |items| => Part(Described(items[i]), items[i].content))
  }

  /** What the parser makes of them: their headers as they are read. */
  function Expected(items: seq<Item>): (parts: seq<Part>)
    ensures |parts| == |items|
  {
    seq(|items|, i requires 0 <= i < |items| => Part(InfoOf(HeaderLines(items[i])), items[i].content))
  }

  ghost predicate AllReadable(items: seq<Item>) {
    forall k :: 0 <= k < |items| ==> ReadableItem(items[k])
  }

  lemma ReadableItemsAreRead(items: seq<Item>)
    requires AllReadable(items)
    ensures Expected(items) == Sent(items)
  {
    hide InfoOf, HeaderLines, ReadableItem;
    forall k | 0 <= k < |items| ensures InfoOf(HeaderLines(items[k])) == Described(items[k]) {
      OneItemIsRead(items[k]);
    }
  }

  lemma OneItemIsRead(item: Item)
    requires ReadableItem(item)
    ensures InfoOf(HeaderLines(item)) == Described(item)
  {
    hide NameEndsEarly;
    HeadersReadIff(item);
  }

  lemma {:induction false} CollectedStep(events: seq<Event>, e: Event)
    ensures Collected(events + [e]) == WithEvent(Collected(events), e)
  {
    assert (events + [e])[..|events|] == events;
  }

  function Concat(chunks: seq<string>): string {
    if chunks == [] then "" else chunks[0] + Concat(chunks[1..])
  }

  ghost predicate AcceptsAll(accept: Callbacks) { forall log :: accept(log) }

  /**
   * The whole transfer is accepted, ends valid in the final state, and delivers every item in order, field by field.
   */
  ghost predicate RoundTrips(boundary: string, items: seq<Item>, chunks: seq<string>, accept: Callbacks) {
    var r := Feed(Fresh(boundary), chunks, accept);
    r.ok && r.p.valid && r.p.state == 5 && Collected(r.p.events) == Sent(items)
  }

  /** RFC 2046: no header line breaks early, and no content contains the delimiter. */
  ghost predicate LegalItems(boundary: string, items: seq<Item>) {
    && LegalBoundary(boundary) && items != []
    && (forall k, j :: 0 <= k < |items| && 0 <= j < |HeaderLines(items[k])| ==> !Occurs(HeaderLines(items[k])[j], CRLF))
    && (forall k :: 0 <= k < |items| ==> !Occurs(items[k].content, Delimiter(boundary)))
  }

  /**
   * The parser skips n characters whenever CR LF "--" turns out not to be a delimiter, n being the delimiter's length.
   * A content is safe when no such skip runs past its end.
   */
  predicate Safe(n: nat, content: string)
    requires n > 0
    decreases |content|
  {
    var f := Find(content, DASHES);
    f == |content| || (|content| - f >= n && Safe(n, content[f + n..]))
  }

  // ---- where the parser stands in the body ----

  /** What ends a body: "--", CR LF. */
  const CLOSING := "--\r\n"

  /** Entries, and a boundary line ending in whatever `closing` is. */
  function BodyWith(boundary: string, items: seq<Item>, closing: string): string {
    Entries(boundary, items) + ("--" + boundary + closing)
  }

  /** The rest of a body after a boundary line, and after a delimiter. */
  function Tail(boundary: string, items: seq<Item>, closing: string := CLOSING): string
    requires items != []
    decreases |items|, 1
  {
    Lines(HeaderLines(items[0]))
    + (CRLF + (items[0].content + (Delimiter(boundary) + After(boundary, items[1..], closing))))
  }

  function After(boundary: string, items: seq<Item>, closing: string := CLOSING): string
    decreases |items|, 2
  {
    if items == [] then closing else CRLF + Tail(boundary, items, closing)
  }

  lemma Regroup(line: string, h: string, text: string, rest: string)
    ensures (line + h + CRLF + text + CRLF) + rest == line + (h + (CRLF + (text + (CRLF + rest))))
  {
  }

  lemma DelimiterStartsLine(boundary: string, rest: string)
    ensures CRLF + (("--" + boundary + CRLF) + rest) == Delimiter(boundary) + (CRLF + rest)
    ensures CRLF + ("--" + boundary + rest) == Delimiter(boundary) + rest
  {
  }

  lemma {:induction false} BodyShape(boundary: string, items: seq<Item>, closing: string := CLOSING)
    requires items != []
    ensures BodyWith(boundary, items, closing) == ("--" + boundary + CRLF) + Tail(boundary, items, closing)
    ensures Body(boundary, items) == BodyWith(boundary, items, CLOSING)
  {
    hide HeaderLines;
    var item, rest := items[0], items[1..];
    var last := "--" + boundary + closing;
    assert BodyWith(boundary, items, closing) == Entry(boundary, item) + (Entries(boundary, rest) + last);
    Regroup("--" + boundary + CRLF, Lines(HeaderLines(item)), item.content, Entries(boundary, rest) + last);
    if rest == [] {
      assert Entries(boundary, rest) + last == last;
      DelimiterStartsLine(boundary, closing);
    } else {
      BodyShape(boundary, rest, closing);
      DelimiterStartsLine(boundary, Tail(boundary, rest, closing));
    }
  }

  datatype Phase =
    | AtStart
    | AtEntry(k: nat)
    | InHeaders(k: nat, j: nat)
    | InBody(k: nat, d: nat)
    | AfterPart(k: nat)
    | Done

  ghost predicate PhaseOk(items: seq<Item>, ph: Phase) {
    match ph
    case AtStart | Done => true
    case AtEntry(k) => k < |items|
    case AfterPart(k) => k < |items|
    case InHeaders(k, j) => k < |items| && j <= |HeaderLines(items[k])|
    case InBody(k, d) => k < |items| && d <= |items[k].content|
  }

  function StateOf(ph: Phase): nat {
    match ph
    case AtStart => 0 case AtEntry(_) => 1 case InHeaders(_, _) => 2
    case InBody(_, _) => 3 case AfterPart(_) => 4 case Done => 5
  }

  /** The delimiter that ends item k, and what follows it. */
  function EndingOf(boundary: string, items: seq<Item>, k: nat, closing: string := CLOSING): string
    requires k < |items|
  {
    Delimiter(boundary) + After(boundary, items[k + 1..], closing)
  }

  /** What is still to be consumed. */
  function Rest(boundary: string, items: seq<Item>, ph: Phase, closing: string := CLOSING): string
    requires PhaseOk(items, ph) && items != []
  {
    match ph
    case AtStart => ("--" + boundary + CRLF) + Tail(boundary, items, closing)
    case AtEntry(k) => Tail(boundary, items[k..], closing)
    case InHeaders(k, j) =>
      Lines(HeaderLines(items[k])[j..]) + (CRLF + (items[k].content + EndingOf(boundary, items, k, closing)))
    case InBody(k, d) => items[k].content[d..] + EndingOf(boundary, items, k, closing)
    case AfterPart(k) => After(boundary, items[k + 1..], closing)
    case Done => if CLOSING <= closing then closing[4..] else ""
  }

  /** The parts collected by then. */
  function PartsBy(items: seq<Item>, ph: Phase): seq<Part>
    requires PhaseOk(items, ph)
  {
    match ph
    case AtStart => []
    case AtEntry(k) => Expected(items)[..k]
    case InHeaders(k, _) => Expected(items)[..k]
    case InBody(k, d) => Expected(items)[..k] + [Part(InfoOf(HeaderLines(items[k])), items[k].content[..d])]
    case AfterPart(k) => Expected(items)[..k + 1]
    case Done => Expected(items)
  }

  ghost predicate Inv(p: Parser, rest: string, items: seq<Item>, ph: Phase, closing: string := CLOSING) {
    && LegalItems(p.boundary, items) && PhaseOk(items, ph) && !(CRLF <= closing)
    && p.state == StateOf(ph)
    && p.buf + rest == Rest(p.boundary, items, ph, closing)
    && Collected(p.events) == PartsBy(items, ph)
    && (ph.InHeaders? ==> p.file == InfoOf(HeaderLines(items[ph.k])[..ph.j]))
    && (p.valid <==> ph.Done?) && (ph.Done? ==> CLOSING <= closing)
  }

  // ---- one step at a time ----

  lemma PrefixOf(buf: string, rest: string, x: string, y: string)
    requires buf + rest == x + y
    ensures |x| <= |buf| ==> buf[..|x|] == x && buf[|x|..] + rest == y
    ensures |buf| <= |x| ==> x[..|buf|] == buf && rest == x[|buf|..] + y
  {
    if |x| <= |buf| {
      assert buf[..|x|] == (buf + rest)[..|x|];
      assert buf[|x|..] + rest == (buf + rest)[|x|..];
    } else {
      assert buf == (x + y)[..|buf|];
      assert rest == (x + y)[|buf|..];
    }
  }

  lemma StartStep(p: Parser, rest: string, items: seq<Item>, accept: Callbacks, closing: string := CLOSING)
    requires Inv(p, rest, items, AtStart, closing) && p.buf != ""
    ensures var n := |p.boundary| + 4; var o := Step(p, accept);
      && o == (if |p.buf| < n then Stop(p, true) else Next(p.Erase(n).(state := 1)))
      && (o.Stop? ==> rest != "")
      && (o.Next? ==> Inv(o.p, rest, items, AtEntry(0), closing))
  {
    var pattern := "--" + p.boundary + CRLF;
    PrefixOf(p.buf, rest, pattern, Tail(p.boundary, items, closing));
    if |pattern| <= |p.buf| {
      FindIs(p.buf, pattern, 0);
      assert items[0..] == items;
    }
  }

  lemma EntryStep(p: Parser, rest: string, items: seq<Item>, k: nat, accept: Callbacks, closing: string := CLOSING)
    requires Inv(p, rest, items, AtEntry(k), closing) && p.buf != ""
    ensures Step(p, accept) == Next(p.(file := NO_FILE, state := 2))
    ensures Inv(p.(file := NO_FILE, state := 2), rest, items, InHeaders(k, 0), closing)
  {
    assert items[k..][0] == items[k] && items[k..][1..] == items[k + 1..];
    assert HeaderLines(items[k])[0..] == HeaderLines(items[k]) && HeaderLines(items[k])[..0] == [];
    assert InfoOf([]) == NO_FILE;
  }

  /** Nothing but an incomplete or a wrong closing is left. */
  predicate AtEnd(items: seq<Item>, ph: Phase, closing: string) {
    if CLOSING <= closing then ph.Done? else ph.AfterPart? && ph.k + 1 == |items|
  }

  lemma AfterStep(p: Parser, rest: string, items: seq<Item>, k: nat, accept: Callbacks, closing: string := CLOSING)
    requires Inv(p, rest, items, AfterPart(k), closing) && p.buf != ""
    ensures var o := Step(p, accept);
      && (o.Stop? ==> o.ok && o.p == p && (rest != "" || AtEnd(items, AfterPart(k), closing)))
      && (o.Next? ==> Inv(o.p, rest, items, if k + 1 < |items| then AtEntry(k + 1) else Done, closing))
      && (k + 1 < |items| && |p.buf| >= 2 ==> o.Next?)
  {
    hide Tail, HeaderLines, InfoOf;
    if k + 1 < |items| {
      PrefixOf(p.buf, rest, CRLF, Tail(p.boundary, items[k + 1..], closing));
    } else {
      ClosingStep(p.buf, rest, closing);
      assert Expected(items)[..k + 1] == Expected(items);
    }
  }

  /** What the state after a delimiter can find of a closing. */
  lemma ClosingStep(buf: string, rest: string, closing: string)
    requires buf + rest == closing && !(CRLF <= closing)
    ensures |buf| >= 2 ==> buf[..2] != CRLF
    ensures |buf| >= 4 ==> (buf[..4] == CLOSING <==> CLOSING <= closing)
    ensures |buf| >= 4 && CLOSING <= closing ==> buf[4..] + rest == closing[4..]
    ensures |buf| < 4 && CLOSING <= closing ==> rest != ""
  {
    if |buf| >= 2 { assert buf[..2] == closing[..2]; }
    if |buf| >= 4 {
      assert buf[..4] == closing[..4];
      assert buf[4..] + rest == closing[4..];
    }
  }

  lemma LineFacts(boundary: string, items: seq<Item>, k: nat, j: nat)
    requires LegalItems(boundary, items) && k < |items| && j < |HeaderLines(items[k])|
    ensures Find(HeaderLines(items[k])[j], CRLF) == |HeaderLines(items[k])[j]| > 0
  {
  }

  /** What the header state finds with lines j.. still to come. */
  lemma FindLineEnd(buf: string, rest: string, line: string, after: string)
    requires buf + rest == line + (CRLF + after) && Find(line, CRLF) == |line|
    ensures Find(buf, CRLF) == if |line| + 2 <= |buf| then |line| else |buf|
    ensures |line| + 2 <= |buf| ==> buf[..|line|] == line && buf[|line| + 2..] + rest == after
    ensures |line| + 2 > |buf| ==> rest != ""
  {
    FindBefore(line, CRLF + after, CRLF);
    FindInPrefix(buf, rest, CRLF);
    if |line| + 2 <= |buf| {
      PrefixOf(buf, rest, line, CRLF + after);
      PrefixOf(buf, rest, line + CRLF, after);
      assert (line + CRLF) + after == line + (CRLF + after);
    }
  }

  lemma {:induction false} HeadersRun(p: Parser, rest: string, items: seq<Item>, k: nat, j: nat, accept: Callbacks,
      closing: string := CLOSING)
    returns (j': nat)
    requires Inv(p, rest, items, InHeaders(k, j), closing) && AcceptsAll(accept)
    ensures var o := Headers(p, accept);
      && (o.Stop? ==>
            o.ok && Inv(o.p, rest, items, InHeaders(k, j'), closing) && Find(o.p.buf, CRLF) == |o.p.buf| && rest != "")
      && (o.Next? ==> Inv(o.p, rest, items, InBody(k, 0), closing))
    decreases |HeaderLines(items[k])| - j
  {
    hide HeaderLines, Lines, EndingOf, LegalItems, Find, WithHeader, InfoOf;
    var lines := HeaderLines(items[k]);
    var body := items[k].content + EndingOf(p.boundary, items, k, closing);
    j' := j;
    if j < |lines| {
      LinesFrom(lines, j, CRLF + body);
      LineFacts(p.boundary, items, k, j);
      FindLineEnd(p.buf, rest, lines[j], Lines(lines[j + 1..]) + (CRLF + body));
      if |lines[j]| + 2 <= |p.buf| {
        InfoOfMore(lines, j);
        var q := p.Erase(|lines[j]| + 2).(file := WithHeader(p.file, lines[j]));
        j' := HeadersRun(q, rest, items, k, j + 1, accept, closing);
      }
    } else {
      HeadersEnd(p, rest, items, k, accept, closing);
    }
  }

  lemma {:induction false} HeadersEnd(p: Parser, rest: string, items: seq<Item>, k: nat, accept: Callbacks,
      closing: string := CLOSING)
    requires k < |items| && Inv(p, rest, items, InHeaders(k, |HeaderLines(items[k])|), closing) && AcceptsAll(accept)
    ensures var o := Headers(p, accept);
      && (o.Stop? ==> o.ok && o.p == p && Find(p.buf, CRLF) == |p.buf| && rest != "")
      && (o.Next? ==> Inv(o.p, rest, items, InBody(k, 0), closing))
  {
    hide HeaderLines, Lines, EndingOf, LegalItems, Find, WithHeader, InfoOf;
    var lines := HeaderLines(items[k]);
    var body := items[k].content + EndingOf(p.boundary, items, k, closing);
    NoLinesLeft(lines, |lines|, body);
    FindLineEnd(p.buf, rest, "", body);
    if 2 <= |p.buf| {
      CollectedStep(p.events, Header(p.file));
      assert lines[..|lines|] == lines;
      assert items[k].content[0..] == items[k].content && items[k].content[..0] == "";
    }
  }

  lemma InfoOfMore(lines: seq<string>, j: nat)
    requires j < |lines|
    ensures InfoOf(lines[..j + 1]) == WithHeader(InfoOf(lines[..j]), lines[j])
  {
    hide WithHeader;
    assert lines[..j + 1][..j] == lines[..j];
  }

  lemma NoLinesLeft(lines: seq<string>, j: nat, body: string)
    requires j == |lines|
    ensures Lines(lines[j..]) + (CRLF + body) == "" + (CRLF + body)
    ensures Find("", CRLF) == 0
  {
  }

  lemma LinesFrom(lines: seq<string>, j: nat, x: string)
    requires j < |lines|
    ensures Lines(lines[j..]) + x == lines[j] + (CRLF + (Lines(lines[j + 1..]) + x))
  {
    assert lines[j..][0] == lines[j] && lines[j..][1..] == lines[j + 1..];
  }

  // ---- the body ----

  lemma FindInSuffix(c: string, pat: string, pos: nat)
    requires pos <= Find(c, pat) && pat != ""
    ensures Find(c[pos..], pat) == Find(c, pat) - pos
  {
    forall i: nat ensures OccursAt(c[pos..], pat, i) <==> OccursAt(c, pat, pos + i) {
      if pos + i + |pat| <= |c| { assert c[pos..][i..i + |pat|] == c[pos + i..pos + i + |pat|]; }
    }
    FindIs(c[pos..], pat, Find(c, pat) - pos);
  }

  lemma {:induction false} SafeSuffix(n: nat, c: string, pos: nat)
    requires n > 0 && pos <= Find(c, DASHES)
    ensures Find(c[pos..], DASHES) == Find(c, DASHES) - pos
    ensures Safe(n, c[pos..]) <==> Safe(n, c)
  {
    hide Find;
    var f := Find(c, DASHES);
    FindInSuffix(c, DASHES, pos);
    if f + n <= |c| { assert c[pos..][f - pos + n..] == c[f + n..]; }
  }

  lemma NotInSuffix(c: string, pat: string, pos: nat)
    requires !Occurs(c, pat) && pos <= |c| && pat != ""
    ensures Find(c[pos..], pat) == |c| - pos
  {
    forall i: nat | i < |c| - pos ensures !OccursAt(c[pos..], pat, i) {
      assert !OccursAt(c, pat, pos + i);
      if i + |pat| <= |c| - pos { assert c[pos..][i..i + |pat|] == c[pos + i..pos + i + |pat|]; }
    }
    FindIs(c[pos..], pat, |c| - pos);
  }

  lemma DelimiterLeads(boundary: string)
    requires LegalBoundary(boundary)
    ensures Leads(Delimiter(boundary)) && Leads(DASHES) && DASHES <= Delimiter(boundary)
  {
    var d := Delimiter(boundary);
    forall j | 0 < j < |d| ensures d[j] != d[0] {
      if j >= 4 { assert d[j] == boundary[j - 4]; }
    }
    assert d[..4] == DASHES;
  }

  /** More content was delivered for item k than it has. */
  ghost predicate Overrun(events: seq<Event>, items: seq<Item>, k: nat) {
    k < |items| && k < |Collected(events)| && |Collected(events)[k].content| > |items[k].content|
  }

  /** Delivering text from inside item k's content, or past its end. */
  lemma Deliver(p: Parser, items: seq<Item>, k: nat, d: nat, text: string)
    requires k < |items| && d <= |items[k].content| && Collected(p.events) == PartsBy(items, InBody(k, d))
    ensures var m := d + |text|; var q := p.Report(Content(text));
      && (m <= |items[k].content| && text == items[k].content[d..m] ==>
          Collected(q.events) == PartsBy(items, InBody(k, m)))
      && (m > |items[k].content| ==> Overrun(q.events, items, k))
  {
    hide Collected, HeaderLines;
    var c := items[k].content;
    CollectedStep(p.events, Content(text));
    if d + |text| <= |c| && text == c[d..d + |text|] { assert c[..d] + text == c[..d + |text|]; }
  }

  /** The buffer from pos on, in terms of the content from d on. */
  lemma BufferSplit(buf: string, rest: string, content: string, d: nat, ending: string, pos: nat)
    requires d <= |content| && buf + rest == content[d..] + ending && pos <= |buf| && d + pos <= |content|
    ensures buf[..pos] == content[d..d + pos]
    ensures buf[pos..] + rest == content[d + pos..] + ending
  {
    assert content[d..] == content[d..d + pos] + content[d + pos..];
    PrefixOf(buf, rest, content[d..d + pos], content[d + pos..] + ending);
    assert content[d..d + pos] + (content[d + pos..] + ending) == content[d..] + ending;
  }

  /** Handing over m characters of content keeps the invariant. */
  lemma DeliverInside(p: Parser, rest: string, items: seq<Item>, k: nat, d: nat, m: nat, closing: string := CLOSING)
    requires Inv(p, rest, items, InBody(k, d), closing) && m <= |p.buf| && d + m <= |items[k].content|
    ensures Inv(p.Report(Content(p.buf[..m])).Erase(m), rest, items, InBody(k, d + m), closing)
  {
    hide LegalItems, EndingOf, HeaderLines, Collected, PartsBy, Rest;
    RestInBody(p.boundary, items, k, d, closing);
    RestInBody(p.boundary, items, k, d + m, closing);
    BufferSplit(p.buf, rest, items[k].content, d, EndingOf(p.boundary, items, k, closing), m);
    Deliver(p, items, k, d, p.buf[..m]);
  }

  lemma RestInBody(boundary: string, items: seq<Item>, k: nat, d: nat, closing: string := CLOSING)
    requires k < |items| && d <= |items[k].content|
    ensures Rest(boundary, items, InBody(k, d), closing)
        == items[k].content[d..] + EndingOf(boundary, items, k, closing)
  {
  }

  /** The first half of the body state stays inside the content. */
  lemma BodyTextStep(p: Parser, rest: string, items: seq<Item>, k: nat, d: nat, accept: Callbacks,
      closing: string := CLOSING)
    requires Inv(p, rest, items, InBody(k, d), closing) && AcceptsAll(accept)
    ensures var o := BodyText(p, accept); var f := Find(items[k].content[d..], DASHES);
      && o.p.boundary == p.boundary
      && (o.Stop? ==> o == Stop(p, true) && |p.buf| < 4)
      && (o.Next? ==>
            var pos := |p.buf| - |o.p.buf|;
            && 0 <= pos <= f && Inv(o.p, rest, items, InBody(k, d + pos), closing)
            && (f + 4 <= |p.buf| ==> pos == f) && (f + 4 > |p.buf| ==> |o.p.buf| < 4))
  {
    hide Find, FindPartialFrom, HeaderLines, PartsBy, Collected, Inv;
    FindDashes(p, rest, items, k, d, closing);
    if |p.buf| >= 4 {
      DeliverInside(p, rest, items, k, d, FindPartialFrom(p.buf, DASHES, 0), closing);
    }
  }

  lemma FindDashes(p: Parser, rest: string, items: seq<Item>, k: nat, d: nat, closing: string := CLOSING)
    requires Inv(p, rest, items, InBody(k, d), closing)
    ensures k < |items| && d <= |items[k].content|
    ensures var pos := FindPartialFrom(p.buf, DASHES, 0); var f := Find(items[k].content[d..], DASHES);
      pos <= f <= |items[k].content| - d && (f + 4 <= |p.buf| ==> pos == f) && (f + 4 > |p.buf| ==> |p.buf| - pos < 4)
  {
    hide FindPartialFrom, HeaderLines, PartsBy, Collected, FindFrom;
    DelimiterLeads(p.boundary);
    FindBefore(items[k].content[d..], EndingOf(p.boundary, items, k, closing), DASHES);
    FindPartialInPrefix(p.buf, rest, DASHES);
  }

  /**
   * The second half, when the buffer starts where CR LF "--" was found: the delimiter ends the part if it is complete,
   * and otherwise as many characters as it has are taken for content, which is wrong when fewer are left.
   */
  lemma BodyDelimiterStep(p: Parser, rest: string, items: seq<Item>, k: nat, d: nat, accept: Callbacks,
      closing: string := CLOSING)
    requires Inv(p, rest, items, InBody(k, d), closing) && AcceptsAll(accept)
    ensures var o := BodyDelimiter(p, accept); var n := |p.boundary| + 4; var left := |items[k].content| - d;
      && (|p.buf| < n ==> o == Stop(p, true))
      && (|p.buf| >= n ==> o.Next?)
      && (|p.buf| >= left + n ==> Inv(o.p, rest, items, AfterPart(k), closing))
      && (n <= |p.buf| < left + n && left >= n ==>
          |o.p.buf| == |p.buf| - n && Inv(o.p, rest, items, InBody(k, d + n), closing))
      && (n <= |p.buf| < left + n && left < n ==> Overrun(o.p.events, items, k))
  {
    hide Find, HeaderLines, Collected, Inv, Delimiter;
    var n := |p.boundary| + 4;
    FindDelimiter(p, rest, items, k, d, closing);
    var c := items[k].content;
    if |p.buf| >= |c| - d + n {
      PartEnds(p, rest, items, k, d, closing);
    } else if |p.buf| >= n {
      if |c| - d >= n {
        DeliverInside(p, rest, items, k, d, n, closing);
      } else {
        Deliver(p, items, k, d, p.buf[..n]);
      }
    }
  }

  lemma FindDelimiter(p: Parser, rest: string, items: seq<Item>, k: nat, d: nat, closing: string := CLOSING)
    requires Inv(p, rest, items, InBody(k, d), closing)
    ensures k < |items| && d <= |items[k].content| && |Delimiter(p.boundary)| == |p.boundary| + 4
    ensures Collected(p.events) == PartsBy(items, InBody(k, d))
    ensures var left, n := |items[k].content| - d, |p.boundary| + 4;
      Find(p.buf, Delimiter(p.boundary)) == if left + n <= |p.buf| then left else |p.buf|
  {
    hide Find, HeaderLines, Collected, After;
    var c := items[k].content;
    DelimiterLeads(p.boundary);
    assert !Occurs(c, Delimiter(p.boundary));
    NotInSuffix(c, Delimiter(p.boundary), d);
    FindBefore(c[d..], EndingOf(p.boundary, items, k, closing), Delimiter(p.boundary));
    FindInPrefix(p.buf, rest, Delimiter(p.boundary));
  }

  lemma CloseBody(p: Parser, rest: string, items: seq<Item>, k: nat, closing: string := CLOSING)
    requires k < |items| && Inv(p, rest, items, InBody(k, |items[k].content|), closing)
    requires |Delimiter(p.boundary)| <= |p.buf|
    ensures Inv(p.Erase(|Delimiter(p.boundary)|).(state := 4), rest, items, AfterPart(k), closing)
  {
    hide LegalItems, HeaderLines, After, Delimiter, Collected;
    var c := items[k].content;
    assert c[|c|..] + EndingOf(p.boundary, items, k, closing) == EndingOf(p.boundary, items, k, closing);
    PrefixOf(p.buf, rest, Delimiter(p.boundary), After(p.boundary, items[k + 1..], closing));
    assert c[..|c|] == c;
    assert Expected(items)[..k] + [Expected(items)[k]] == Expected(items)[..k + 1];
  }

  lemma PartEnds(p: Parser, rest: string, items: seq<Item>, k: nat, d: nat, closing: string := CLOSING)
    requires Inv(p, rest, items, InBody(k, d), closing) && |items[k].content| - d + |p.boundary| + 4 <= |p.buf|
    ensures var m := |items[k].content| - d;
      Inv(p.Report(Content(p.buf[..m])).Erase(m + |Delimiter(p.boundary)|).(state := 4), rest, items, AfterPart(k),
          closing)
  {
    hide LegalItems, Rest, PartsBy, Collected, After, EndingOf, HeaderLines;
    var m := |items[k].content| - d;
    var q := p.Report(Content(p.buf[..m])).Erase(m);
    DeliverInside(p, rest, items, k, d, m, closing);
    CloseBody(q, rest, items, k, closing);
    assert p.buf[m..][|Delimiter(p.boundary)|..] == p.buf[m + |Delimiter(p.boundary)|..];
  }

  /** The body state as a whole. Only an unsafe content can be overrun; a buffer no longer than n is then used up. */
  lemma BodyStep(p: Parser, rest: string, items: seq<Item>, k: nat, d: nat, accept: Callbacks,
      closing: string := CLOSING)
    returns (d': nat)
    requires Inv(p, rest, items, InBody(k, d), closing) && AcceptsAll(accept) && p.buf != ""
    ensures var n := |p.boundary| + 4; var c := items[k].content; var o := Step(p, accept);
      && (o.Stop? ==> o.ok && Inv(o.p, rest, items, InBody(k, d'), closing) && |o.p.buf| < n)
      && (o.Next? ==>
            || (Inv(o.p, rest, items, AfterPart(k), closing) && (|p.buf| > n || Safe(n, c[d..])))
            || Inv(o.p, rest, items, InBody(k, d'), closing)
            || (Overrun(o.p.events, items, k) && !Safe(n, c[d..])))
      && (Inv(o.p, rest, items, InBody(k, d'), closing) ==> (Safe(n, c[d'..]) <==> Safe(n, c[d..])))
      && (|p.buf| <= n && o.Next? && Inv(o.p, rest, items, InBody(k, d'), closing) ==> o.p.buf == "")
      && (|p.buf| >= |c| - d + n ==> o.Next? && Inv(o.p, rest, items, AfterPart(k), closing))
  {
    hide Find, Safe, Collected, LegalItems, PartsBy, Rest, BodyText, BodyDelimiter;
    var n := |p.boundary| + 4;
    var c := items[k].content;
    BodyTextStep(p, rest, items, k, d, accept, closing);
    var o := BodyText(p, accept);
    d' := d;
    if o.Next? {
      var pos := |p.buf| - |o.p.buf|;
      var left := c[d + pos..];
      SafeSuffix(n, c[d..], pos);
      assert c[d..][pos..] == left;
      BodyDelimiterStep(o.p, rest, items, k, d + pos, accept, closing);
      d' := d + pos;
      if n <= |o.p.buf| {
        SafeAtDashes(n, left);
        if |o.p.buf| < |left| + n && |left| >= n {
          d' := d + pos + n;
          assert left[n..] == c[d'..];
        }
      }
    }
  }

  lemma {:induction false} SafeAtDashes(n: nat, c: string)
    requires n > 0 && Find(c, DASHES) == 0
    ensures Safe(n, c) <==> c == "" || (|c| >= n && Safe(n, c[n..]))
  {
    if |c| >= n { assert c[0 + n..] == c[n..]; }
  }

  // ---- safe contents survive every way of cutting the body ----

  ghost predicate AllSafe(boundary: string, items: seq<Item>) {
    forall k :: 0 <= k < |items| ==> Safe(|boundary| + 4, items[k].content)
  }

  ghost predicate SafeAt(p: Parser, items: seq<Item>, ph: Phase)
    requires PhaseOk(items, ph)
  {
    ph.InBody? ==> Safe(|p.boundary| + 4, items[ph.k].content[ph.d..])
  }

  lemma RestIsNotEmpty(boundary: string, items: seq<Item>, ph: Phase, closing: string := CLOSING)
    requires items != [] && PhaseOk(items, ph) && Rest(boundary, items, ph, closing) == ""
    ensures ph.Done? || (AtEnd(items, ph, closing) && closing == "")
  {
  }

  lemma StepKeeps(p: Parser, rest: string, items: seq<Item>, ph: Phase, accept: Callbacks, closing: string := CLOSING)
    returns (ph': Phase)
    requires Inv(p, rest, items, ph, closing) && AcceptsAll(accept) && p.buf != "" && AllSafe(p.boundary, items)
    requires SafeAt(p, items, ph) && !ph.Done?
    ensures var o := Step(p, accept);
      && Inv(o.p, rest, items, ph', closing) && SafeAt(o.p, items, ph')
      && (o.Stop? ==> o.ok && !ph'.Done? && (rest != "" || AtEnd(items, ph', closing)))
  {
    hide Safe, Find, Rest, PartsBy, Collected, InfoOf, HeaderLines;
    match ph
    case AtStart => StartStep(p, rest, items, accept, closing); ph' := if Step(p, accept).Next? then AtEntry(0) else ph;
    case AtEntry(k) => EntryStep(p, rest, items, k, accept, closing); ph' := InHeaders(k, 0);
    case InHeaders(k, j) =>
      var j' := HeadersRun(p, rest, items, k, j, accept, closing);
      ph' := if Step(p, accept).Next? then InBody(k, 0) else InHeaders(k, j');
      assert items[k].content[0..] == items[k].content;
    case InBody(k, d) =>
      var d' := BodyStep(p, rest, items, k, d, accept, closing);
      ph' := if Inv(Step(p, accept).p, rest, items, InBody(k, d'), closing) then InBody(k, d') else AfterPart(k);
      if Step(p, accept).Stop? { EndingIsLong(Step(p, accept).p, rest, items, k, d', closing); }
    case AfterPart(k) =>
      AfterStep(p, rest, items, k, accept, closing);
      ph' := if Step(p, accept).Stop? then ph else if k + 1 < |items| then AtEntry(k + 1) else Done;
  }

  lemma EndingIsLong(p: Parser, rest: string, items: seq<Item>, k: nat, d: nat, closing: string := CLOSING)
    requires Inv(p, rest, items, InBody(k, d), closing) && |p.buf| < |p.boundary| + 4
    ensures rest != ""
  {
  }

  /** After the closing has been read, whatever follows is refused, and the parser turns invalid. */
  ghost predicate TooLong(r: Parsed, items: seq<Item>, closing: string) {
    !r.ok && !r.p.valid && r.p.state == 5 && Collected(r.p.events) == Expected(items)
    && CLOSING <= closing && |closing| > 4
  }

  lemma {:induction false} DoneRun(p: Parser, rest: string, items: seq<Item>, accept: Callbacks, closing: string)
    requires Inv(p, rest, items, Done, closing) && p.buf != ""
    ensures var r := Run(p, accept); TooLong(r, items, closing) && !r.ok && r.p.boundary == p.boundary
  {
    hide Collected, InfoOf, HeaderLines, LegalItems;
  }

  lemma RunKeeps(p: Parser, rest: string, items: seq<Item>, ph: Phase, accept: Callbacks, closing: string := CLOSING)
    returns (ph': Phase)
    requires Inv(p, rest, items, ph, closing) && AcceptsAll(accept) && AllSafe(p.boundary, items)
    requires SafeAt(p, items, ph)
    ensures var r := Run(p, accept);
      && r.p.boundary == p.boundary && PhaseOk(items, ph')
      && if r.ok then
           && Inv(r.p, rest, items, ph', closing) && SafeAt(r.p, items, ph')
           && (ph'.Done? ==> r.p.buf == "") && (rest == "" ==> AtEnd(items, ph', closing))
         else TooLong(r, items, closing)
    decreases |p.buf|, if p.state == 1 then 1 else 0
  {
    hide Safe, Rest, PartsBy, Collected, Step, LegalItems, StateOf, PhaseOk, AtEnd, TooLong, SafeAt;
    ph' := ph;
    if p.buf == "" {
      EmptyBuffer(p, rest, items, ph, closing);
    } else if ph.Done? {
      DoneRun(p, rest, items, accept, closing);
      ph' := AtStart;
      AtStartIsOk(items);
    } else {
      ph' := StepKeeps(p, rest, items, ph, accept, closing);
      var o := Step(p, accept);
      if o.Next? { ph' := RunKeeps(o.p, rest, items, ph', accept, closing); }
    }
  }

  lemma EmptyBuffer(p: Parser, rest: string, items: seq<Item>, ph: Phase, closing: string := CLOSING)
    requires Inv(p, rest, items, ph, closing) && p.buf == ""
    ensures rest == "" ==> AtEnd(items, ph, closing)
  {
    if rest == "" { RestIsNotEmpty(p.boundary, items, ph, closing); }
  }

  /**
   * A transfer of safe contents, of which `left` is still to come at the end: it waits for that, or is at its end, or
   * has gone past it.
   */
  lemma {:induction false} FeedKeeps(p: Parser, chunks: seq<string>, left: string, items: seq<Item>, ph: Phase,
      accept: Callbacks, closing: string := CLOSING)
    returns (ph': Phase)
    requires Inv(p, Concat(chunks) + left, items, ph, closing) && AcceptsAll(accept) && AllSafe(p.boundary, items)
    requires SafeAt(p, items, ph) && (ph.Done? ==> p.buf == "")
    requires Concat(chunks) + left == "" ==> AtEnd(items, ph, closing)
    ensures var r := Feed(p, chunks, accept);
      && PhaseOk(items, ph')
      && if r.ok then
           Inv(r.p, left, items, ph', closing) && (ph'.Done? ==> r.p.buf == "")
               && (left == "" ==> AtEnd(items, ph', closing))
         else TooLong(r, items, closing)
    decreases |chunks|
  {
    hide Safe, Rest, PartsBy, Collected, LegalItems, StateOf, Run, AtEnd, TooLong, SafeAt;
    ph' := ph;
    if chunks == [] {
      assert Concat(chunks) + left == left;
    } else {
      var q := p.(buf := p.buf + chunks[0]);
      var more := Concat(chunks[1..]) + left;
      assert q.buf + more == p.buf + (Concat(chunks) + left);
      assert SafeAt(q, items, ph) by { SafeAtBoundary(p, q, items, ph); }
      ph' := RunKeeps(q, more, items, ph, accept, closing);
      var r := Run(q, accept);
      if r.ok { ph' := FeedKeeps(r.p, chunks[1..], left, items, ph', accept, closing); }
    }
  }

  lemma AtStartIsOk(items: seq<Item>)
    ensures PhaseOk(items, AtStart)
  {
  }

  lemma SafeAtBoundary(p: Parser, q: Parser, items: seq<Item>, ph: Phase)
    requires p.boundary == q.boundary && PhaseOk(items, ph) && SafeAt(p, items, ph)
    ensures SafeAt(q, items, ph)
  {
  }

  lemma StartsFresh(boundary: string, items: seq<Item>, closing: string := CLOSING)
    requires LegalItems(boundary, items) && !(CRLF <= closing)
    ensures Inv(Fresh(boundary), BodyWith(boundary, items, closing), items, AtStart, closing)
    ensures BodyWith(boundary, items, closing) != "" && Body(boundary, items) == BodyWith(boundary, items, CLOSING)
  {
    BodyShape(boundary, items, closing);
  }

  /**
   * Whatever the closing, and whatever the chunks: the parts are all delivered. The transfer ends valid exactly if the
   * closing is "--", CR LF, and it fails exactly if anything follows that; after any other text the parser waits.
   */
  lemma {:induction false} ClosingDecides(boundary: string, items: seq<Item>, closing: string, chunks: seq<string>,
      accept: Callbacks)
    requires LegalItems(boundary, items) && AllSafe(boundary, items) && AcceptsAll(accept) && !(CRLF <= closing)
    requires Concat(chunks) == BodyWith(boundary, items, closing)
    ensures var r := Feed(Fresh(boundary), chunks, accept);
      && Collected(r.p.events) == Expected(items)
      && (r.p.valid <==> closing == "--\r\n")
      && (!r.ok <==> "--\r\n" <= closing && |closing| > 4)
      && (r.p.state == 5 <==> "--\r\n" <= closing)
  {
    hide Safe, Feed, LegalItems, BodyWith, Collected, HeaderLines, InfoOf;
    StartsFresh(boundary, items, closing);
    assert Concat(chunks) + "" == Concat(chunks);
    var ph := FeedKeeps(Fresh(boundary), chunks, "", items, AtStart, accept, closing);
    var r := Feed(Fresh(boundary), chunks, accept);
    if r.ok { EndReached(r.p, items, ph, closing); }
  }

  lemma EndReached(p: Parser, items: seq<Item>, ph: Phase, closing: string)
    requires Inv(p, "", items, ph, closing) && AtEnd(items, ph, closing) && (ph.Done? ==> p.buf == "")
    ensures Collected(p.events) == Expected(items) && (p.valid <==> closing == CLOSING)
    ensures CLOSING <= closing <==> p.state == 5
    ensures CLOSING <= closing ==> closing == CLOSING
  {
    hide Collected, HeaderLines, InfoOf, Tail;
    assert Expected(items)[..|items|] == Expected(items);
    if ph.Done? { assert closing == CLOSING + closing[4..]; }
  }

  /** A body that breaks off, however it is cut, is neither refused nor taken for complete. */
  lemma {:induction false} TruncatedBodyWaits(boundary: string, items: seq<Item>, chunks: seq<string>, missing: string,
      accept: Callbacks)
    requires LegalItems(boundary, items) && AllSafe(boundary, items) && AcceptsAll(accept) && missing != ""
    requires Concat(chunks) + missing == Body(boundary, items)
    ensures var r := Feed(Fresh(boundary), chunks, accept); r.ok && !r.p.valid && r.p.state != 5
  {
    hide Safe, Feed, LegalItems, BodyWith, Body, Collected, HeaderLines, InfoOf;
    assert CLOSING[0] == '-';
    StartsFresh(boundary, items);
    var ph := FeedKeeps(Fresh(boundary), chunks, missing, items, AtStart, accept);
    var r := Feed(Fresh(boundary), chunks, accept);
    if r.ok { NotDoneYet(r.p, missing, items, ph); }
  }

  lemma NotDoneYet(p: Parser, missing: string, items: seq<Item>, ph: Phase)
    requires Inv(p, missing, items, ph) && missing != ""
    ensures !ph.Done? && !p.valid && p.state != 5
  {
    assert |p.buf + missing| >= |missing| > 0;
  }

  /** Whatever the chunks, a body of safe contents under readable headers is read back whole and in order. */
  lemma {:induction false} SafeContentsRoundTrip(boundary: string, items: seq<Item>, chunks: seq<string>,
      accept: Callbacks)
    requires LegalItems(boundary, items) && AllReadable(items) && AllSafe(boundary, items) && AcceptsAll(accept)
    requires Concat(chunks) == Body(boundary, items)
    ensures RoundTrips(boundary, items, chunks, accept)
  {
    hide Safe, Feed, LegalItems, BodyWith, Body, Collected, HeaderLines, InfoOf, ReadableItem;
    assert CLOSING[0] == '-';
    StartsFresh(boundary, items);
    ReadableItemsAreRead(items);
    ClosingDecides(boundary, items, CLOSING, chunks, accept);
  }
}
