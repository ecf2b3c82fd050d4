/** What the parser reads in the headers that the builder writes, and for which items that is what was meant. */
module MultipartItems {
  import opened Wrappers
  import opened TextSearch
  import opened MultipartHeaders
  import opened Multipart

  function Described(item: Item): FileInfo { FileInfo(item.name, item.filename, item.contentType) }

  /** What a boundary may be made of: letters and digits as printed here, hyphens and underscores. */
  lemma BoundaryCharacterIff(c: char)
    ensures BoundaryCharacter(c) <==> c in UPPER || c in LOWER || c in "0123456789" || c in "-_"
  {
    LettersAre(c);
    DigitsAre(c);
    assert "-_"[0] == '-' && "-_"[1] == '_';
  }

  lemma LettersAre(c: char)
    ensures c in UPPER <==> 'A' <= c <= 'Z'
    ensures c in LOWER <==> 'a' <= c <= 'z'
  {
    if 'A' <= c <= 'Z' { LetterPlaces(c as int - 'A' as int); }
    if 'a' <= c <= 'z' { LetterPlaces(c as int - 'a' as int); }
  }

  lemma DigitsAre(c: char)
    ensures c in "0123456789" <==> '0' <= c <= '9'
  {
    if '0' <= c <= '9' { assert "0123456789"[c as int - '0' as int] == c; }
  }

  /** The text of an entry, byte by byte. */
  lemma EntryText(boundary: string, item: Item)
    ensures
      var names := "Content-Disposition: form-data; name=\"" + item.name + "\""
        + if item.filename == "" then "" else "; filename=\"" + item.filename + "\"";
      var contentType := if item.contentType == "" then "" else "Content-Type: " + item.contentType + "\r\n";
      Entry(boundary, item) ==
        "--" + boundary + "\r\n" + names + "\r\n" + contentType + "\r\n" + item.content + "\r\n"
  {
    hide HeaderLines, NameLine;
    HeaderLinesAre(item);
    LinesOfOneOrTwo(HeaderLines(item));
    NameLineText(item);
    var line, names := "--" + boundary + CRLF, NameLine(item);
    var contentType := if item.contentType == "" then "" else "Content-Type: " + item.contentType + "\r\n";
    assert Lines(HeaderLines(item)) == names + CRLF + contentType;
    assert line + (names + CRLF + contentType) == line + names + CRLF + contentType;
  }

  lemma NameLineText(item: Item)
    ensures NameLine(item) == "Content-Disposition: form-data; name=\"" + item.name + "\""
      + if item.filename == "" then "" else "; filename=\"" + item.filename + "\""
  {
    var named := OPENING + item.name + "\"";
    assert item.filename == "" ==> NameLine(item) == named;
    assert item.filename != "" ==> NameLine(item) == named + ("; filename=\"" + item.filename + "\"");
    assert named + "" == named;
  }

  // ---- the exact condition, on the fields of an item ----

  /** What the builder puts after a name. */
  function AfterName(filename: string): string {
    "\"" + if filename == "" then "" else "; filename=\"" + filename + "\""
  }

  /** After some quote in the name, the rest of the line reads as a file name: a semicolon, filename=, and more. */
  ghost predicate LooksLikeFilename(rest: string) {
    exists k: nat ::
      0 < k <= |rest| && rest[0] == ';' && AllSpace(rest[1..k]) && WordAt(rest, k, FILENAME) && k + |FILENAME| < |rest|
  }

  ghost predicate NameEndsEarly(item: Item, q: nat) {
    q < |item.name| && item.name[q] == '"' && LooksLikeFilename(item.name[q + 1..] + AfterName(item.filename))
  }

  ghost predicate ReadableItem(item: Item) {
    && NoBreak(item.name) && NoBreak(item.filename)
    && (forall q :: !NameEndsEarly(item, q))
    && !BlankAtAnEnd(item.contentType) && !Occurs(item.contentType, CRLF)
  }

  /** Plain fields are readable: a name without quotes in particular. */
  lemma PlainItemsAreReadable(item: Item)
    requires NoBreak(item.name) && '"' !in item.name && NoBreak(item.filename)
    requires NoBreak(item.contentType) && !BlankAtAnEnd(item.contentType)
    ensures ReadableItem(item)
  {
    hide LooksLikeFilename, AfterName;
    NoBreakNoLineEnd(item.contentType);
  }

  lemma NoBreakNoLineEnd(s: string)
    requires '\r' !in s
    ensures !Occurs(s, CRLF)
  {
    forall i: nat | i < |s| ensures !OccursAt(s, CRLF, i) {
      assert i + 2 <= |s| ==> s[i..i + 2][0] == s[i];
    }
    FindIs(s, CRLF, |s|);
  }

  // ---- the line with the names ----

  const OPENING := "Content-Disposition: form-data; name=\""

  function NameLine(item: Item): string { OPENING + (item.name + AfterName(item.filename)) }

  lemma HeaderLinesAre(item: Item)
    ensures HeaderLines(item) ==
      [NameLine(item)] + if item.contentType == "" then [] else ["Content-Type: " + item.contentType]
  {
    var named := OPENING + item.name + "\"";
    assert item.filename == "" ==> NameLine(item) == named;
    assert item.filename != "" ==> NameLine(item) == named + ("; filename=\"" + item.filename + "\"");
    assert named + "" == named;
  }

  lemma OpeningWords(rest: string)
    ensures var s := OPENING + rest;
      && WordAt(s, 0, DISPOSITION) && |DISPOSITION| == 20 && WordAt(s, 21, FORM_DATA) && |FORM_DATA| == 10
      && WordAt(s, 32, NAME) && |NAME| == 6 && |OPENING| == 38 && s[20] == s[31] == ' '
      && !StartsWithCaseIgnore(s, CONTENT_TYPE)
  {
    var s := OPENING + rest;
    assert s[0..] == s;
    assert s[21..] == "form-data; name=\"" + rest;
    assert s[32..] == "name=\"" + rest;
    assert s[8] == 'D' && CONTENT_TYPE[8] == 't';
  }

  lemma {:induction false} OpeningIsRead(rest: string)
    ensures Disposition(OPENING + rest) == ShortestName(OPENING + rest, 38, 38)
  {
    hide WordAt, IsSpace, SkipSpace, ShortestName;
    var s := OPENING + rest;
    OpeningWords(rest);
    NoSpaceFirst();
    OneSpace(s, 20);
    OneSpace(s, 31);
    WordAfterSpace(s, 20, 21, FORM_DATA);
    WordAfterSpace(s, 31, 32, NAME);
  }

  lemma OneSpace(s: string, i: nat)
    requires i < |s| && s[i] == ' '
    ensures AllSpace(s[i..i + 1])
  {
    SpaceIs(' ');
  }

  lemma EmptyRest(s: string)
    ensures Ending(s, |s|) == Some("")
  {
  }

  /** A rest of the line that ends in a quote and breaks nowhere. */
  lemma QuotedRest(s: string, i: nat)
    requires i < |s| && s[|s| - 1] == '"' && NoBreak(s[i..])
    ensures Ending(s, i).Some? <==> LooksLikeFilename(s[i..])
  {
    hide SkipSpace, ShortestFilename, AllSpace, WordAt;
    var rest := s[i..];
    OnlySpace(s, i);
    QuoteIsNoSpace(s, i);
    assert rest[0] == s[i];
    if s[i] == ';' {
      var k := SkipSpace(s, i + 1);
      SkippedSpace(s, i + 1);
      NoSpaceFirst();
      WordFits(s, k, FILENAME);
      Shift(s, i, k);
      if WordAt(s, k, FILENAME) { LastQuote(s, k + |FILENAME|); }
      forall m: nat | 0 < m <= |rest| && AllSpace(rest[1..m]) && WordAt(rest, m, FILENAME) ensures i + m == k {
        Shift(s, i, i + m);
        WordAfterSpace(s, i + 1, i + m, FILENAME);
      }
    }
  }

  lemma QuoteIsNoSpace(s: string, i: nat)
    requires i < |s| && s[|s| - 1] == '"'
    ensures !AllSpace(s[i..])
  {
    SpaceIs('"');
    assert s[i..][|s| - 1 - i] == '"';
  }

  lemma {:induction false} SkippedSpace(s: string, i: nat)
    requires i <= |s|
    ensures AllSpace(s[i..SkipSpace(s, i)])
  {
    SkipSpaceStops(s, i);
    AllSpaceIs(s, i, SkipSpace(s, i));
  }

  lemma Shift(s: string, i: nat, k: nat)
    requires i < k <= |s|
    ensures s[i..][1..k - i] == s[i + 1..k] && (WordAt(s[i..], k - i, FILENAME) <==> WordAt(s, k, FILENAME))
  {
    assert s[i..][k - i..] == s[k..];
  }

  /** With a quote at the very end, the lazy group ends somewhere. */
  lemma {:induction false} LastQuote(s: string, start: nat)
    requires start <= |s| && |s| > 0 && s[|s| - 1] == '"' && (start < |s| ==> NoBreak(s[start..]))
    ensures ShortestFilename(s, start, start).Some? <==> start < |s|
  {
    hide ShortestFilename;
    assert s[start..start] == "";
    ShortestFilenameIs(s, start, start);
    if start < |s| {
      var e := |s| - 1;
      assert s[e + 1..] == "";
      assert NoBreak(s[start..e]) by { Shorter(s, start, e); }
    }
  }

  lemma Shorter(s: string, start: nat, e: nat)
    requires start <= e <= |s| && NoBreak(s[start..])
    ensures NoBreak(s[start..e])
  {
    forall m | 0 <= m < e - start ensures s[start..e][m] == s[start..][m] {
    }
  }

  /** What follows the quote at position q of a name. */
  lemma RestOfName(item: Item, q: nat)
    requires q < |item.name|
    ensures NameLine(item)[38 + q] == item.name[q]
    ensures NameLine(item)[38 + q + 1..] == item.name[q + 1..] + AfterName(item.filename)
  {
    hide AfterName;
    assert |OPENING| == 38;
    assert NameLine(item)[38..] == item.name + AfterName(item.filename);
    assert NameLine(item)[38 + q + 1..] == NameLine(item)[38..][q + 1..];
  }

  /** What follows the quote that the builder puts after the name. */
  lemma OwnEnding(item: Item)
    requires NoBreak(item.filename)
    ensures var s := NameLine(item); var e := 38 + |item.name|;
      && e < |s| && s[38..e] == item.name && s[e] == '"' && Ending(s, e + 1) == Some(item.filename)
  {
    var s := NameLine(item);
    var e := 38 + |item.name|;
    assert |OPENING| == 38;
    OwnRest(item, s, e);
    if item.filename == "" {
      EmptyRest(s);
    } else {
      OwnFilename(s, e + 1, item.filename);
    }
  }

  lemma OwnRest(item: Item, s: string, e: nat)
    requires s == NameLine(item) && e == 38 + |item.name| && |OPENING| == 38
    ensures e < |s| && s[38..e] == item.name && s[e] == '"' && s[e..] == AfterName(item.filename)
    ensures s[e + 1..] == if item.filename == "" then "" else "; filename=\"" + item.filename + "\""
  {
  }

  lemma OwnFilename(s: string, i: nat, filename: string)
    requires i <= |s| && s[i..] == "; filename=\"" + filename + "\"" && NoBreak(filename)
    ensures Ending(s, i) == Some(filename)
  {
    hide ShortestFilename, SkipSpace, WordAt, AllSpace, IsSpace;
    var start := i + 12;
    FilenamePlaces(s, i, filename);
    NoSpaceFirst();
    OneSpace(s, i + 1);
    WordAfterSpace(s, i + 1, i + 2, FILENAME);
    assert s[start..start] == "";
    ShortestFilenameIs(s, start, start);
    NothingIsSpace();
    var e := |s| - 1;
    assert s[e + 1..] == "" && s[start..e] == filename;
    var r := ShortestFilename(s, start, start);
    if r.Some? && start + |r.value| < |s| - 1 { QuoteIsNoSpace(s, start + |r.value| + 1); }
  }

  lemma NothingIsSpace()
    ensures AllSpace("") && NoBreak("")
  {
  }

  lemma FilenamePlaces(s: string, i: nat, filename: string)
    requires i <= |s| && s[i..] == "; filename=\"" + filename + "\""
    ensures |s| == i + 13 + |filename| && s[i] == ';' && s[i + 1] == ' ' && WordAt(s, i + 2, FILENAME)
    ensures |FILENAME| == 10 && s[i + 12..|s| - 1] == filename && s[|s| - 1] == '"'
  {
    var t := "; filename=\"" + filename + "\"";
    assert s[i + 2..] == s[i..][2..] == "filename=\"" + filename + "\"";
    assert s[i + 12..] == s[i..][12..] == filename + "\"";
    assert s[i] == s[i..][0] && s[i + 1] == s[i..][1];
  }

  // ---- read back ----

  /** A quote in a name ends it early exactly when what follows looks like a file name. */
  lemma EarlyQuote(item: Item, q: nat)
    requires q < |item.name| && item.name[q] == '"' && NoBreak(item.name) && NoBreak(item.filename)
    ensures var s := NameLine(item);
      && 38 + q + 1 <= |s| && s[38 + q] == '"' && s[38..38 + q] == item.name[..q] && NoBreak(item.name[..q])
      && (Ending(s, 38 + q + 1).Some? <==> NameEndsEarly(item, q))
  {
    hide LooksLikeFilename, Ending, AfterName;
    var s := NameLine(item);
    assert |OPENING| == 38;
    AfterNameIs(item.filename);
    RestOfName(item, q);
    assert NoBreak(item.name[q + 1..] + AfterName(item.filename));
    QuotedRest(s, 38 + q + 1);
  }

  lemma AfterNameIs(filename: string)
    ensures var a := AfterName(filename); a != "" && a[|a| - 1] == '"' && (NoBreak(filename) ==> NoBreak(a))
  {
  }

  lemma NameLineBounds(item: Item)
    requires NoBreak(item.name) && NoBreak(item.filename)
    ensures var s := NameLine(item); |s| >= 38 && var r := ShortestName(s, 38, 38);
      && r.Some? && |r.value.name| <= |item.name|
      && (|r.value.name| < |item.name| ==> NameEndsEarly(item, |r.value.name|))
      && (|r.value.name| == |item.name| ==> r.value == Names(item.name, item.filename))
      && forall q :: NameEndsEarly(item, q) ==> |r.value.name| <= q
  {
    hide Ending, ShortestName, LooksLikeFilename, NameLine, NoBreak;
    var s := NameLine(item);
    OwnEnding(item);
    ShortestNameIs(s, 38, 38) by { NothingBreaks(s, 38); }
    var r := ShortestName(s, 38, 38);
    if |r.value.name| < |item.name| {
      var q := |r.value.name|;
      SameCharacters(s, item.name, q);
      EarlyQuote(item, q);
    }
    forall q | NameEndsEarly(item, q) ensures |r.value.name| <= q { EarlyQuote(item, q); }
  }

  lemma SameCharacters(s: string, name: string, q: nat)
    requires q < |name| && 38 + |name| <= |s| && s[38..38 + |name|] == name
    ensures s[38 + q] == name[q]
  {
    assert s[38..38 + |name|][q] == s[38 + q];
  }

  /** Names that break are not found. */
  lemma {:induction false} BreakingNames(s: string, name: string, filename: string)
    requires |s| >= 38 && !(NoBreak(name) && NoBreak(filename))
    ensures ShortestName(s, 38, 38) != Some(Names(name, filename))
  {
    hide Ending, ShortestName, NoBreak, EndsAt;
    var r := ShortestName(s, 38, 38);
    if r.Some? {
      ShortestNameIs(s, 38, 38) by { NothingBreaks(s, 38); }
      EndingIs(s, 38 + |r.value.name| + 1);
      EndsWithoutBreak(s, 38 + |r.value.name| + 1, r.value.filename);
    }
  }

  /** What the regular expression finds in the line with the names. */
  lemma NameLineIsRead(item: Item)
    ensures Disposition(NameLine(item)) == Some(Names(item.name, item.filename)) <==>
      NoBreak(item.name) && NoBreak(item.filename) && forall q :: !NameEndsEarly(item, q)
  {
    hide ShortestName, Disposition, NameEndsEarly, NameLine, NoBreak, StartsWithCaseIgnore;
    OpeningOfLine(item);
    if NoBreak(item.name) && NoBreak(item.filename) {
      NameLineBounds(item);
      forall q: nat | NameEndsEarly(item, q) ensures q < |item.name| { EarlyIsInside(item, q); }
    } else {
      BreakingNames(NameLine(item), item.name, item.filename);
    }
  }

  lemma EarlyIsInside(item: Item, q: nat)
    requires NameEndsEarly(item, q)
    ensures q < |item.name|
  {
  }

  lemma EndsWithoutBreak(s: string, i: nat, filename: string)
    requires EndsAt(s, i, filename)
    ensures NoBreak(filename)
  {
  }

  lemma OpeningOfLine(item: Item)
    ensures |NameLine(item)| >= 38 && Disposition(NameLine(item)) == ShortestName(NameLine(item), 38, 38)
    ensures !StartsWithCaseIgnore(NameLine(item), CONTENT_TYPE)
  {
    hide Disposition, ShortestName;
    OpeningIsRead(item.name + AfterName(item.filename));
    OpeningWords(item.name + AfterName(item.filename));
  }

  /** Why a quote in a name matters: two items with the same header lines, of which only one is read as it was meant. */
  lemma SameHeaderLines(content: string)
    ensures var one, two := Item("a\"; filename=\"b", content, "", ""), Item("a", content, "b", "");
      one != two && HeaderLines(one) == HeaderLines(two) && ReadableItem(two) && !ReadableItem(one)
  {
    hide ReadableItem, InfoOf, NameEndsEarly, BlankAtAnEnd;
    var one, two := Item("a\"; filename=\"b", content, "", ""), Item("a", content, "b", "");
    hide HeaderLines;
    assert |one.name| != |two.name|;
    SameLine(content);
    PlainItemsAreReadable(two) by { PlainFields(content); }
    ReadableAsMeant(one);
    ReadableAsMeant(two);
  }

  lemma SameLine(content: string)
    ensures HeaderLines(Item("a\"; filename=\"b", content, "", "")) == HeaderLines(Item("a", content, "b", ""))
  {
    var one, two := Item("a\"; filename=\"b", content, "", ""), Item("a", content, "b", "");
    HeaderLinesAre(one);
    HeaderLinesAre(two);
    assert one.name + AfterName(one.filename) == two.name + AfterName(two.filename);
  }

  lemma PlainFields(content: string)
    ensures var item := Item("a", content, "b", "");
      NoBreak(item.name) && '"' !in item.name && NoBreak(item.filename) && NoBreak(item.contentType)
      && !BlankAtAnEnd(item.contentType)
  {
  }

  lemma ReadableAsMeant(item: Item)
    ensures ReadableItem(item) ==> InfoOf(HeaderLines(item)) == Described(item)
  {
    hide InfoOf, HeaderLines, NameEndsEarly;
    HeadersReadIff(item);
  }

  // ---- all the headers of an item ----

  /** A trimmed text is a part of the text, without blanks at its ends. */
  lemma {:induction false} TrimmedEnds(s: string) returns (i: nat, j: nat)
    ensures !BlankAtAnEnd(Trimmed(s)) && i <= j <= |s| && Trimmed(s) == s[i..j]
    decreases |s|
  {
    hide IsBlankChar;
    if s != "" && IsBlankChar(s[0]) {
      i, j := TrimmedEnds(s[1..]);
      assert s[1..][i..j] == s[i + 1..j + 1];
      i, j := i + 1, j + 1;
    } else if s != "" && IsBlankChar(s[|s| - 1]) {
      i, j := TrimmedEnds(s[..|s| - 1]);
      assert s[..|s| - 1][i..j] == s[i..j];
    } else {
      i, j := 0, |s|;
      assert s[0..|s|] == s;
    }
  }

  lemma TypeLineIsRead(contentType: string, file: FileInfo)
    ensures var read := WithHeader(file, "Content-Type: " + contentType);
      && read == file.(contentType := read.contentType)
      && (read.contentType == contentType <==> !BlankAtAnEnd(contentType))
  {
    hide Trimmed, Disposition;
    var line := "Content-Type: " + contentType;
    assert StartsWithCaseIgnore(line, CONTENT_TYPE) by { TypeLineStarts(contentType); }
    assert |CONTENT_TYPE| == 13 && line[13..] == " " + contentType + "";
    if !BlankAtAnEnd(contentType) { TrimmedIs(" ", contentType, ""); }
    var _, _ := TrimmedEnds(line[13..]);
  }

  lemma TypeLineStarts(contentType: string)
    ensures StartsWithCaseIgnore("Content-Type: " + contentType, CONTENT_TYPE)
  {
    var line := "Content-Type: " + contentType;
    assert |CONTENT_TYPE| == 13 && line[..13] == "Content-Type:";
    forall i | 0 <= i < 13 ensures line[i] == "Content-Type:"[i] { assert line[..13][i] == line[i]; }
  }

  /** The headers of an item are read as they were meant if and only if its fields allow it. */
  lemma HeadersReadIff(item: Item)
    ensures InfoOf(HeaderLines(item)) == Described(item) <==>
      && NoBreak(item.name) && NoBreak(item.filename) && (forall q :: !NameEndsEarly(item, q))
      && !BlankAtAnEnd(item.contentType)
  {
    hide Disposition, NameLine, HeaderLines, NameEndsEarly, NoBreak, BlankAtAnEnd;
    HeaderLinesAre(item);
    NameLineIsRead(item);
    OpeningOfLine(item);
    if item.name == "" {
      NothingIsSpace();
      forall q: nat ensures !NameEndsEarly(item, q) { NoEarlyEnd(item, q); }
    }
    var lines := HeaderLines(item);
    var named := InfoOf([NameLine(item)]);
    assert [NameLine(item)][..0] == [] && InfoOf([]) == NO_FILE;
    assert named == WithHeader(NO_FILE, NameLine(item));
    if item.contentType == "" {
      assert lines == [NameLine(item)];
      NothingIsNotBlank();
    } else {
      assert lines[..1] == [NameLine(item)];
      TypeLineIsRead(item.contentType, named);
    }
  }

  lemma NothingIsNotBlank()
    ensures !BlankAtAnEnd("")
  {
  }

  lemma NoEarlyEnd(item: Item, q: nat)
    requires item.name == ""
    ensures !NameEndsEarly(item, q)
  {
  }
}
