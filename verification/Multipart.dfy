/** httplib's incremental multipart parser, as a machine over its buffer, and the builder of the bodies it reads. */
module Multipart {
  import opened Wrappers
  import opened TextSearch
  import opened MultipartHeaders

  const CRLF := "\r\n"
  const DASHES := "\r\n--"

  function Delimiter(boundary: string): string { CRLF + "--" + boundary }

  // ---- the parser's state ----

  /** The callbacks made so far: what the headers of an entry say, then pieces of its content. */
  datatype Event = Header(file: FileInfo) | Content(text: string)

  datatype Parser = Parser(boundary: string, state: nat, buf: string, valid: bool, off: nat, file: FileInfo,
      events: seq<Event>) {
    function Erase(n: nat): Parser
      requires n <= |buf|
    {
      this.(buf := buf[n..], off := off + n)
    }

    function Report(e: Event): Parser { this.(events := events + [e]) }

    function Refused(): Parser { this.(valid := false) }
  }

  function Fresh(boundary: string): Parser { Parser(boundary, 0, "", false, 0, NO_FILE, []) }

  /** Whether the callback that completes this log of events returned true. */
  type Callbacks = seq<Event> -> bool

  datatype Outcome = Next(p: Parser) | Stop(p: Parser, ok: bool)

  // ---- one turn of the parser's loop, state by state ----

  function InitialBoundary(p: Parser): Outcome {
    var pattern := "--" + p.boundary + CRLF;
    if |pattern| > |p.buf| then Stop(p, true)
    else if Find(p.buf, pattern) != 0 then Stop(p, false)
    else Next(p.Erase(|pattern|).(state := 1))
  }

  function Headers(p: Parser, accept: Callbacks): Outcome
    decreases |p.buf|
  {
    var pos := Find(p.buf, CRLF);
    if pos == |p.buf| then Stop(p, true)
    else if pos == 0 then
      var q := p.Report(Header(p.file));
      if !accept(q.events) then Stop(q.Refused(), false) else Next(q.Erase(2).(state := 3))
    else Headers(p.Erase(pos + 2).(file := WithHeader(p.file, p.buf[..pos])), accept)
  }

  /** First half of the body state: hand over what cannot start a delimiter. */
  function BodyText(p: Parser, accept: Callbacks): Outcome {
    if |DASHES| > |p.buf| then Stop(p, true)
    else
      var pos := FindPartialFrom(p.buf, DASHES, 0);
      var q := p.Report(Content(p.buf[..pos]));
      if !accept(q.events) then Stop(q.Refused(), false) else Next(q.Erase(pos))
  }

  /** Second half: look for the delimiter, or hand over as many characters as it has. */
  function BodyDelimiter(p: Parser, accept: Callbacks): Outcome {
    var pattern := Delimiter(p.boundary);
    if |pattern| > |p.buf| then Stop(p, true)
    else
      var pos := Find(p.buf, pattern);
      if pos < |p.buf| then
        var q := p.Report(Content(p.buf[..pos]));
        if !accept(q.events) then Stop(q.Refused(), false) else Next(q.Erase(pos + |pattern|).(state := 4))
      else
        var q := p.Report(Content(p.buf[..|pattern|]));
        if !accept(q.events) then Stop(q.Refused(), false) else Next(q.Erase(|pattern|))
  }

  function AfterDelimiter(p: Parser): Outcome {
    if |p.buf| < 2 then Stop(p, true)
    else if p.buf[..2] == CRLF then Next(p.Erase(2).(state := 1))
    else if |p.buf| < 4 then Stop(p, true)
    else if p.buf[..4] == "--\r\n" then Next(p.Erase(4).(valid := true, state := 5))
    else Stop(p, true)
  }

  function Step(p: Parser, accept: Callbacks): (o: Outcome)
    requires p.buf != ""
    ensures o.Next? ==> |o.p.buf| < |p.buf| || (p.state == 1 && o.p.state == 2 && o.p.buf == p.buf)
    ensures o.p.boundary == p.boundary
  {
    if p.state == 0 then InitialBoundary(p)
    else if p.state == 1 then Next(p.(file := NO_FILE, state := 2))
    else if p.state == 2 then HeadersShrink(p, accept); Headers(p, accept)
    else if p.state == 3 then
      var o := BodyText(p, accept);
      if o.Next? then BodyDelimiter(o.p, accept) else o
    else if p.state == 4 then AfterDelimiter(p)
    else Stop(p.Refused(), false)
  }

  lemma {:induction false} HeadersShrink(p: Parser, accept: Callbacks)
    ensures var o := Headers(p, accept); o.p.boundary == p.boundary && (o.Next? ==> |o.p.buf| < |p.buf|)
    decreases |p.buf|
  {
    var pos := Find(p.buf, CRLF);
    if 0 < pos < |p.buf| { HeadersShrink(p.Erase(pos + 2).(file := WithHeader(p.file, p.buf[..pos])), accept); }
  }

  datatype Parsed = Parsed(p: Parser, ok: bool)

  /** The loop of parse: steps until the buffer is empty or a state returns. */
  function Run(p: Parser, accept: Callbacks): Parsed
    decreases |p.buf|, if p.state == 1 then 1 else 0
  {
    if p.buf == "" then Parsed(p, true)
    else
      match Step(p, accept)
      case Next(q) => Run(q, accept)
      case Stop(q, ok) => Parsed(q, ok)
  }

  function ParseChunk(p: Parser, chunk: string, accept: Callbacks): Parsed { Run(p.(buf := p.buf + chunk), accept) }

  /** A whole transfer: chunks are parsed until one is refused. */
  function Feed(p: Parser, chunks: seq<string>, accept: Callbacks): Parsed
    decreases |chunks|
  {
    if chunks == [] then Parsed(p, true)
    else
      var r := ParseChunk(p, chunks[0], accept);
      if r.ok then Feed(r.p, chunks[1..], accept) else r
  }

  // ---- the class itself ----

  class MultipartFormDataParser {
    var boundary: string
    var buf: string
    var state: nat
    var isValid: bool
    var off: nat
    var file: FileInfo
    var events: seq<Event>

    ghost function Value(): Parser
      reads this
    {
      Parser(boundary, state, buf, isValid, off, file, events)
    }

    constructor (boundary: string)
      ensures Value() == Fresh(boundary)
    {
      this.boundary := boundary;
      buf, state, isValid, off, file, events := "", 0, false, 0, NO_FILE, [];
    }

    method Parse(chunk: string, accept: Callbacks) returns (ok: bool)
      modifies this
      ensures Parsed(Value(), ok) == ParseChunk(old(Value()), chunk, accept)
    {
      buf := buf + chunk;
      while buf != ""
        invariant Run(Value(), accept) == ParseChunk(old(Value()), chunk, accept)
        decreases |buf|, if state == 1 then 1 else 0
      {
        ghost var before := Value();
        if state == 0 {
          var pattern := "--" + boundary + CRLF;
          if |pattern| > |buf| { return true; }
          var pos := Find(buf, pattern);
          if pos != 0 { return false; }
          Erase(|pattern|);
          state := 1;
        } else if state == 1 {
          file := NO_FILE;
          state := 2;
        } else if state == 2 {
          var returned, result := ReadHeaders(accept);
          if returned { return result; }
        } else if state == 3 {
          var returned, result := ReadBodyText(accept);
          if returned { return result; }
          returned, result := ReadBodyDelimiter(accept);
          if returned { return result; }
        } else if state == 4 {
          if |buf| < 2 { return true; }
          if buf[..2] == CRLF {
            Erase(2);
            state := 1;
          } else {
            if |buf| < 4 { return true; }
            if buf[..4] == "--\r\n" {
              Erase(4);
              isValid := true;
              state := 5;
            } else {
              return true;
            }
          }
        } else {
          isValid := false;
          return false;
        }
        assert Step(before, accept) == Next(Value());
      }
      return true;
    }

    /** buf_.erase(0, n) and off_ += n. */
    method Erase(n: nat)
      requires n <= |buf|
      modifies this
      ensures Value() == old(Value()).Erase(n)
    {
      buf := buf[n..];
      off := off + n;
    }

    /** A callback; a refusal leaves the parser invalid. */
    method Report(e: Event, accept: Callbacks) returns (ok: bool)
      modifies this
      ensures ok == accept(old(Value()).Report(e).events)
      ensures Value() == if ok then old(Value()).Report(e) else old(Value()).Report(e).Refused()
    {
      events := events + [e];
      ok := accept(events);
      if !ok { isValid := false; }
    }

    /** A header line up to its CR LF at pos. */
    method TakeLine(pos: nat)
      requires pos + 2 <= |buf|
      modifies this
      ensures Value() == old(Value()).Erase(pos + 2).(file := WithHeader(old(file), old(buf)[..pos]))
    {
      var header := buf[..pos];
      var isType := StartWithCaseIgnore(header, CONTENT_TYPE);
      if isType {
        var text := TrimCopy(header[|CONTENT_TYPE|..]);
        file := file.(contentType := text);
      } else {
        var m := Disposition(header);
        if m.Some? { file := file.(name := m.value.name, filename := m.value.filename); }
      }
      Erase(pos + 2);
    }

    /** The header state: the inner loop over lines. */
    method ReadHeaders(accept: Callbacks) returns (returned: bool, result: bool)
      modifies this
      ensures Headers(old(Value()), accept) == if returned then Stop(Value(), result) else Next(Value())
    {
      hide FindFrom;
      var pos := Find(buf, CRLF);
      while pos < |buf|
        invariant pos == Find(buf, CRLF)
        invariant Headers(Value(), accept) == Headers(old(Value()), accept)
        decreases |buf|
      {
        if pos == 0 {
          var ok := Report(Header(file), accept);
          if !ok { return true, false; }
          Erase(2);
          state := 3;
          return false, true;
        }
        TakeLine(pos);
        pos := Find(buf, CRLF);
      }
      return true, true;
    }

    method ReadBodyText(accept: Callbacks) returns (returned: bool, result: bool)
      modifies this
      ensures BodyText(old(Value()), accept) == if returned then Stop(Value(), result) else Next(Value())
    {
      if |DASHES| > |buf| { return true, true; }
      var pos := FindString(buf, DASHES);
      var ok := Report(Content(buf[..pos]), accept);
      if !ok { return true, false; }
      Erase(pos);
      return false, true;
    }

    method ReadBodyDelimiter(accept: Callbacks) returns (returned: bool, result: bool)
      modifies this
      ensures BodyDelimiter(old(Value()), accept) == if returned then Stop(Value(), result) else Next(Value())
    {
      var pattern := Delimiter(boundary);
      if |pattern| > |buf| { return true, true; }
      var pos := Find(buf, pattern);
      if pos < |buf| {
        var ok := Report(Content(buf[..pos]), accept);
        if !ok { return true, false; }
        Erase(pos + |pattern|);
        state := 4;
      } else {
        var ok := Report(Content(buf[..|pattern|]), accept);
        if !ok { return true, false; }
        Erase(|pattern|);
      }
      return false, true;
    }
  }

  // ---- the builder ----

  datatype Item = Item(name: string, content: string, filename: string, contentType: string)

  /** The header lines of an entry. */
  function HeaderLines(item: Item): seq<string> {
    ["Content-Disposition: form-data; name=\"" + item.name + "\""
     + if item.filename == "" then "" else "; filename=\"" + item.filename + "\""]
    + if item.contentType == "" then [] else ["Content-Type: " + item.contentType]
  }

  function Lines(lines: seq<string>): string {
    if lines == [] then "" else lines[0] + CRLF + Lines(lines[1..])
  }

  function Entry(boundary: string, item: Item): string {
    "--" + boundary + CRLF + Lines(HeaderLines(item)) + CRLF + item.content + CRLF
  }

  function Entries(boundary: string, items: seq<Item>): string {
    if items == [] then "" else Entry(boundary, items[0]) + Entries(boundary, items[1..])
  }

  function Body(boundary: string, items: seq<Item>): string {
    Entries(boundary, items) + ("--" + boundary + "--\r\n")
  }

  predicate BoundaryCharacter(c: char) {
    '0' <= c <= '9' || 'A' <= c <= 'Z' || 'a' <= c <= 'z' || c == '-' || c == '_'
  }

  predicate LegalBoundary(boundary: string) {
    forall i :: 0 <= i < |boundary| ==> BoundaryCharacter(boundary[i])
  }

  /** ClientImpl::Post: the body of a multipart request, or none for an unsupported boundary. */
  method BuildBody(boundary: string, items: seq<Item>) returns (body: Option<string>)
    ensures body == if LegalBoundary(boundary) then Some(Body(boundary, items)) else None
  {
    for i := 0 to |boundary|
      invariant forall j :: 0 <= j < i ==> BoundaryCharacter(boundary[j])
    {
      if !BoundaryCharacter(boundary[i]) { return None; }
    }
    var text := BuildEntries(boundary, items);
    return Some(text + ("--" + boundary + "--\r\n"));
  }

  method BuildEntries(boundary: string, items: seq<Item>) returns (text: string)
    ensures text == Entries(boundary, items)
  {
    hide Entry;
    text := "";
    for i := 0 to |items|
      invariant Entries(boundary, items) == text + Entries(boundary, items[i..])
    {
      var entry := BuildEntry(boundary, items[i]);
      assert text + (entry + Entries(boundary, items[i + 1..])) == (text + entry) + Entries(boundary, items[i + 1..]);
      text := text + entry;
    }
  }

  method BuildEntry(boundary: string, item: Item) returns (text: string)
    ensures text == Entry(boundary, item)
  {
    text := "--" + boundary + CRLF;
    var header := "Content-Disposition: form-data; name=\"" + item.name + "\"";
    if item.filename != "" {
      header := header + ("; filename=\"" + item.filename + "\"");
    }
    assert header == HeaderLines(item)[0];
    header := header + CRLF;
    if item.contentType != "" {
      header := header + ("Content-Type: " + item.contentType + CRLF);
    }
    assert header == Lines(HeaderLines(item)) by { LinesOfOneOrTwo(HeaderLines(item)); }
    text := text + header + CRLF + item.content + CRLF;
  }

  lemma {:induction false} LinesOfOneOrTwo(lines: seq<string>)
    requires 1 <= |lines| <= 2
    ensures Lines(lines) == lines[0] + CRLF + if |lines| == 1 then "" else lines[1] + CRLF
  {
    if |lines| == 2 {
      assert lines[1..][0] == lines[1] && lines[1..][1..] == [];
      assert Lines(lines[1..]) == lines[1] + CRLF + "";
    }
  }
}
