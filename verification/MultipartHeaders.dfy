/** What the multipart parser makes of a header line: the type, or the names that a regular expression finds. */
module MultipartHeaders {
  import opened Wrappers
  import opened TextSearch

  /** MultipartFormData without its content. */
  datatype FileInfo = FileInfo(name: string, filename: string, contentType: string)

  const NO_FILE := FileInfo("", "", "")

  // ---- letters of either case ----

  function ToLower(c: char): char { if 'A' <= c <= 'Z' then c - 'A' + 'a' else c }

  predicate SameLetter(c: char, d: char) { ToLower(c) == ToLower(d) }

  const UPPER := "ABCDEFGHIJKLMNOPQRSTUVWXYZ"
  const LOWER := "abcdefghijklmnopqrstuvwxyz"

  /** Both are letter i of the alphabet, in one case or the other. */
  predicate BothAre(c: char, d: char, i: nat) {
    i < 26 && |UPPER| == |LOWER| == 26 && (c == UPPER[i] || c == LOWER[i]) && (d == UPPER[i] || d == LOWER[i])
  }

  lemma LetterPlaces(i: nat)
    requires i < 26
    ensures |UPPER| == |LOWER| == 26 && UPPER[i] == 'A' + i as char && LOWER[i] == 'a' + i as char
  {
  }

  lemma BothAreTheSame(c: char, d: char, i: nat)
    requires BothAre(c, d, i)
    ensures SameLetter(c, d)
  {
    LetterPlaces(i);
  }

  /** Two characters are the same letter if they are equal, or stand at the same place of the two printed alphabets. */
  lemma SameLetterIff(c: char, d: char)
    ensures SameLetter(c, d) <==> c == d || exists i :: BothAre(c, d, i)
  {
    hide BothAre;
    if c != d && SameLetter(c, d) {
      var i: nat := if 'A' <= c <= 'Z' then c as int - 'A' as int else c as int - 'a' as int;
      PlaceOf(c, d, i);
    }
    if i :| BothAre(c, d, i) { BothAreTheSame(c, d, i); }
  }

  lemma PlaceOf(c: char, d: char, i: nat)
    requires i < 26 && (c == 'A' + i as char || c == 'a' + i as char) && (d == 'A' + i as char || d == 'a' + i as char)
    ensures BothAre(c, d, i)
  {
    LetterPlaces(i);
  }

  predicate StartsWithCaseIgnore(a: string, b: string) {
    |a| >= |b| && forall i :: 0 <= i < |b| ==> SameLetter(a[i], b[i])
  }

  /** start_with_case_ignore. */
  method StartWithCaseIgnore(a: string, b: string) returns (r: bool)
    ensures r == StartsWithCaseIgnore(a, b)
  {
    if |a| < |b| { return false; }
    for i := 0 to |b|
      invariant forall j :: 0 <= j < i ==> SameLetter(a[j], b[j])
    {
      if ToLower(a[i]) != ToLower(b[i]) { return false; }
    }
    return true;
  }

  // ---- blanks at the ends ----

  predicate IsBlankChar(c: char) { c == ' ' || c == '\t' }

  lemma BlanksAre(c: char)
    ensures IsBlankChar(c) <==> c in " \t"
  {
    assert " \t"[0] == ' ' && " \t"[1] == '\t';
  }

  predicate Blank(s: string) { forall i :: 0 <= i < |s| ==> IsBlankChar(s[i]) }

  predicate BlankAtAnEnd(s: string) { s != "" && (IsBlankChar(s[0]) || IsBlankChar(s[|s| - 1])) }

  function Trimmed(s: string): string {
    if s == "" then ""
    else if IsBlankChar(s[0]) then Trimmed(s[1..])
    else if IsBlankChar(s[|s| - 1]) then Trimmed(s[..|s| - 1])
    else s
  }

  /** Trimming removes the blanks at both ends, and is determined by that. */
  lemma {:induction false} TrimmedIs(before: string, text: string, after: string)
    requires Blank(before) && Blank(after) && !BlankAtAnEnd(text)
    ensures Trimmed(before + text + after) == text
    decreases |before| + |after|
  {
    var s := before + text + after;
    if before != "" {
      assert s[1..] == before[1..] + text + after;
      TrimmedIs(before[1..], text, after);
    } else if text == "" && after != "" {
      assert s[1..] == before + text + after[1..];
      TrimmedIs(before, text, after[1..]);
    } else if after != "" {
      assert s[..|s| - 1] == before + text + after[..|after| - 1];
      assert s[0] == text[0] && s[|s| - 1] == after[|after| - 1];
      TrimmedIs(before, text, after[..|after| - 1]);
    } else {
      assert s == text;
    }
  }

  /** trim_copy: of blanks alone the two ends cross, and the length of the substring wraps around. */
  method TrimCopy(s: string) returns (t: string)
    ensures t == Trimmed(s)
  {
    var left, right := 0, |s|;
    while left < |s| && IsBlankChar(s[left])
      invariant left <= |s| && Blank(s[..left])
    {
      left := left + 1;
    }
    while right > 0 && IsBlankChar(s[right - 1])
      invariant 0 <= right <= |s| && Blank(s[right..])
    {
      right := right - 1;
    }
    TrimmedBetween(s, left, right);
    return if left <= right then s[left..right] else s[left..];
  }

  lemma {:induction false} TrimmedBetween(s: string, left: nat, right: nat)
    requires left <= |s| && right <= |s| && Blank(s[..left]) && Blank(s[right..])
    requires (left < |s| ==> !IsBlankChar(s[left])) && (right > 0 ==> !IsBlankChar(s[right - 1]))
    ensures Trimmed(s) == if left <= right then s[left..right] else s[left..]
  {
    if left == |s| {
      TrimmedIs(s, "", "");
      assert s + "" + "" == s;
    } else {
      TrimmedIs(s[..left], s[left..right], s[right..]);
      assert s[..left] + s[left..right] + s[right..] == s;
    }
  }

  // ---- the regular expression for Content-Disposition ----

  // ^Content-Disposition:\s*form-data;\s*name="(.*?)"(?:;\s*filename="(.*?)")?\s*$ without regard to case

  const DISPOSITION := "Content-Disposition:"
  const FORM_DATA := "form-data;"
  const NAME := "name=\""
  const FILENAME := "filename=\""

  datatype Names = Names(name: string, filename: string)

  /** What "." does not match. */
  predicate IsBreak(c: char) { c == '\n' || c == '\r' }

  predicate WordAt(s: string, i: nat, word: string) { i <= |s| && StartsWithCaseIgnore(s[i..], word) }

  /** The two optional parts at the end, from position i on: the text in the group, empty if that takes no part. */
  function Ending(s: string, i: nat): Option<string>
    requires i <= |s|
  {
    var group :=
      if i < |s| && s[i] == ';' && WordAt(s, SkipSpace(s, i + 1), FILENAME)
      then ShortestFilename(s, SkipSpace(s, i + 1) + |FILENAME|, SkipSpace(s, i + 1) + |FILENAME|)
      else None;
    if group.Some? then group else if SkipSpace(s, i) == |s| then Some("") else None
  }

  /** The lazy group between the quotes of filename=, which has been extended up to position q. */
  function ShortestFilename(s: string, start: nat, q: nat): Option<string>
    requires start <= q <= |s|
    decreases |s| - q
  {
    if q == |s| then None
    else if s[q] == '"' && SkipSpace(s, q + 1) == |s| then Some(s[start..q])
    else if IsBreak(s[q]) then None
    else ShortestFilename(s, start, q + 1)
  }

  function ShortestName(s: string, start: nat, q: nat): Option<Names>
    requires start <= q <= |s|
    decreases |s| - q
  {
    if q == |s| then None
    else if s[q] == '"' && Ending(s, q + 1).Some? then Some(Names(s[start..q], Ending(s, q + 1).value))
    else if IsBreak(s[q]) then None
    else ShortestName(s, start, q + 1)
  }

  /** The two submatches of regex_match. */
  function Disposition(s: string): Option<Names> {
    if !WordAt(s, 0, DISPOSITION) then None
    else
      var i := SkipSpace(s, |DISPOSITION|);
      if !WordAt(s, i, FORM_DATA) then None
      else
        var j := SkipSpace(s, i + |FORM_DATA|);
        if !WordAt(s, j, NAME) then None else ShortestName(s, j + |NAME|, j + |NAME|)
  }

  // ---- what the expression means ----

  ghost predicate AllSpace(s: string) { forall i :: 0 <= i < |s| ==> s[i] in SPACES }

  predicate NoBreak(s: string) { '\n' !in s && '\r' !in s }

  /** From position i on: white space, or a semicolon, filename= with this text in quotes, and white space. */
  ghost predicate EndsAt(s: string, i: nat, filename: string) {
    || (i <= |s| && AllSpace(s[i..]) && filename == "")
    || exists k: nat, q: nat :: QuotedEnd(s, i, k, q, filename)
  }

  ghost predicate QuotedEnd(s: string, i: nat, k: nat, q: nat, filename: string) {
    && i < k <= |s| && s[i] == ';' && AllSpace(s[i + 1..k]) && WordAt(s, k, FILENAME)
    && k + |FILENAME| <= q < |s| && s[q] == '"' && AllSpace(s[q + 1..])
    && filename == s[k + |FILENAME|..q] && NoBreak(filename)
  }

  /** The line matches with the words at positions 0, i and j, the name ending at q, and these texts in the groups. */
  ghost predicate MatchesAt(s: string, i: nat, j: nat, q: nat, names: Names) {
    && WordAt(s, 0, DISPOSITION) && |DISPOSITION| <= i && WordAt(s, i, FORM_DATA) && AllSpace(s[|DISPOSITION|..i])
    && i + |FORM_DATA| <= j && WordAt(s, j, NAME) && AllSpace(s[i + |FORM_DATA|..j])
    && j + |NAME| <= q < |s| && s[q] == '"'
    && names.name == s[j + |NAME|..q] && NoBreak(names.name) && EndsAt(s, q + 1, names.filename)
  }

  ghost predicate Matches(s: string, names: Names) { exists i: nat, j: nat, q: nat :: MatchesAt(s, i, j, q, names) }

  /** Lazy groups: of all matches, the one with the shortest name, and with that the shortest filename. */
  predicate NoLonger(a: Names, b: Names) {
    |a.name| < |b.name| || (a.name == b.name && |a.filename| <= |b.filename|)
  }

  lemma AllSpaceIs(s: string, i: nat, j: nat)
    requires i <= j <= |s|
    ensures AllSpace(s[i..j]) <==> forall k :: i <= k < j ==> IsSpace(s[k])
  {
    hide IsSpace;
    forall k | i <= k < j ensures IsSpace(s[k]) <==> s[i..j][k - i] in SPACES { SpaceIs(s[k]); }
    if forall k :: i <= k < j ==> IsSpace(s[k]) {
      forall m | 0 <= m < j - i ensures s[i..j][m] in SPACES { assert IsSpace(s[i + m]); }
    }
  }

  lemma WordFits(s: string, i: nat, word: string)
    ensures WordAt(s, i, word) ==> i + |word| <= |s|
  {
  }

  /** The spaces before a word are those that are skipped. */
  lemma {:induction false} WordAfterSpace(s: string, i: nat, j: nat, word: string)
    requires i <= j && WordAt(s, j, word) && word != "" && !IsSpace(word[0])
    ensures AllSpace(s[i..j]) <==> SkipSpace(s, i) == j
  {
    AllSpaceIs(s, i, j);
    assert SameLetter(s[j..][0], word[0]);
    if AllSpace(s[i..j]) { SkipSpaceIs(s, i, j); }
    SkipSpaceStops(s, i);
  }

  lemma {:induction false} OnlySpace(s: string, i: nat)
    requires i <= |s|
    ensures SkipSpace(s, i) == |s| <==> AllSpace(s[i..])
  {
    assert s[i..] == s[i..|s|];
    AllSpaceIs(s, i, |s|);
    SkipSpaceStops(s, i);
    if AllSpace(s[i..]) { SkipSpaceIs(s, i, |s|); }
  }

  lemma {:induction false} ShortestFilenameIs(s: string, start: nat, q: nat)
    requires start <= q <= |s| && NoBreak(s[start..q])
    ensures var r := ShortestFilename(s, start, q);
      && (r.Some? ==> var e := start + |r.value|;
            q <= e < |s| && s[e] == '"' && AllSpace(s[e + 1..]) && r.value == s[start..e] && NoBreak(r.value))
      && (forall e :: q <= e < |s| && s[e] == '"' && AllSpace(s[e + 1..]) && NoBreak(s[start..e]) ==>
            r.Some? && |r.value| <= e - start)
    decreases |s| - q
  {
    hide AllSpace, SkipSpace;
    if q < |s| {
      OnlySpace(s, q + 1);
      if !(s[q] == '"' && SkipSpace(s, q + 1) == |s|) {
        if IsBreak(s[q]) {
          forall e | q < e < |s| ensures !NoBreak(s[start..e]) { assert s[start..e][q - start] == s[q]; }
        } else {
          assert s[start..q + 1] == s[start..q] + [s[q]];
          ShortestFilenameIs(s, start, q + 1);
        }
      }
    }
  }

  lemma EndingIs(s: string, i: nat)
    requires i <= |s|
    ensures Ending(s, i).Some? ==> EndsAt(s, i, Ending(s, i).value)
    ensures forall f :: EndsAt(s, i, f) ==> Ending(s, i).Some? && Ending(s, i).value <= f
  {
    hide AllSpace, SkipSpace, ShortestFilename, NoBreak, WordAt;
    OnlySpace(s, i);
    if i < |s| && s[i] == ';' {
      var k := SkipSpace(s, i + 1);
      if WordAt(s, k, FILENAME) { GroupIs(s, i, k); }
      forall k2: nat, q: nat, f | QuotedEnd(s, i, k2, q, f) ensures k2 == k {
        WordAfterSpace(s, i + 1, k2, FILENAME) by { NoSpaceFirst(); }
      }
      SemicolonIsNoSpace(s, i);
    }
  }

  lemma NoSpaceFirst()
    ensures !IsSpace(FILENAME[0]) && !IsSpace(FORM_DATA[0]) && !IsSpace(NAME[0])
  {
  }

  lemma {:induction false} SemicolonIsNoSpace(s: string, i: nat)
    requires i < |s| && s[i] == ';'
    ensures !AllSpace(s[i..]) && SkipSpace(s, i) == i
  {
    SpaceIs(';');
    assert s[i..][0] == ';';
  }

  lemma {:induction false} GroupIs(s: string, i: nat, k: nat)
    requires i < |s| && s[i] == ';' && k == SkipSpace(s, i + 1) && WordAt(s, k, FILENAME)
    ensures k + |FILENAME| <= |s|
    ensures var r := ShortestFilename(s, k + |FILENAME|, k + |FILENAME|);
      && (r.Some? ==> exists q :: QuotedEnd(s, i, k, q, r.value))
      && (forall q, f :: QuotedEnd(s, i, k, q, f) ==> r.Some? && r.value <= f)
  {
    hide AllSpace, SkipSpace, ShortestFilename;
    NoSpaceFirst();
    WordAfterSpace(s, i + 1, k, FILENAME);
    var start := k + |FILENAME|;
    assert s[start..start] == "";
    ShortestFilenameIs(s, start, start);
    var r := ShortestFilename(s, start, start);
    if r.Some? { assert QuotedEnd(s, i, k, start + |r.value|, r.value); }
  }

  lemma {:induction false} ShortestNameIs(s: string, start: nat, q: nat)
    requires start <= q <= |s| && NoBreak(s[start..q])
    ensures var r := ShortestName(s, start, q);
      && (r.Some? ==> var e := start + |r.value.name|;
            && q <= e < |s| && s[e] == '"' && r.value.name == s[start..e] && NoBreak(r.value.name)
            && Ending(s, e + 1) == Some(r.value.filename))
      && (forall e :: q <= e < |s| && s[e] == '"' && Ending(s, e + 1).Some? && NoBreak(s[start..e]) ==>
            r.Some? && |r.value.name| <= e - start)
    decreases |s| - q
  {
    hide Ending;
    if q < |s| && !(s[q] == '"' && Ending(s, q + 1).Some?) {
      if IsBreak(s[q]) {
        forall e | q < e < |s| ensures !NoBreak(s[start..e]) { assert s[start..e][q - start] == s[q]; }
      } else {
        assert s[start..q + 1] == s[start..q] + [s[q]];
        ShortestNameIs(s, start, q + 1);
      }
    }
  }

  lemma {:induction false} MatchPlaces(s: string, i: nat, j: nat, q: nat, names: Names)
    requires MatchesAt(s, i, j, q, names)
    ensures i == SkipSpace(s, |DISPOSITION|) && j == SkipSpace(s, i + |FORM_DATA|)
    ensures Disposition(s) == ShortestName(s, j + |NAME|, j + |NAME|)
  {
    hide AllSpace, SkipSpace, EndsAt, ShortestName, WordAt, IsSpace, NoBreak;
    NoSpaceFirst();
    WordFits(s, 0, DISPOSITION);
    WordFits(s, i, FORM_DATA);
    WordFits(s, j, NAME);
    WordAfterSpace(s, |DISPOSITION|, i, FORM_DATA);
    WordAfterSpace(s, i + |FORM_DATA|, j, NAME);
  }

  /** Where the words of a line with a disposition are. */
  lemma WordPlaces(s: string) returns (i: nat, j: nat)
    requires Disposition(s).Some?
    ensures WordAt(s, 0, DISPOSITION) && |DISPOSITION| <= i && WordAt(s, i, FORM_DATA) && AllSpace(s[|DISPOSITION|..i])
    ensures i + |FORM_DATA| <= j && WordAt(s, j, NAME) && AllSpace(s[i + |FORM_DATA|..j])
    ensures j + |NAME| <= |s| && Disposition(s) == ShortestName(s, j + |NAME|, j + |NAME|)
  {
    hide AllSpace, SkipSpace, ShortestName, WordAt, IsSpace;
    NoSpaceFirst();
    WordFits(s, 0, DISPOSITION);
    i := SkipSpace(s, |DISPOSITION|);
    WordFits(s, i, FORM_DATA);
    j := SkipSpace(s, i + |FORM_DATA|);
    WordFits(s, j, NAME);
    WordAfterSpace(s, |DISPOSITION|, i, FORM_DATA);
    WordAfterSpace(s, i + |FORM_DATA|, j, NAME);
  }

  lemma DispositionMatches(s: string)
    requires Disposition(s).Some?
    ensures Matches(s, Disposition(s).value)
  {
    hide AllSpace, SkipSpace, EndsAt, ShortestName, Ending, Disposition, WordAt, NoBreak;
    var i, j := WordPlaces(s);
    var start := j + |NAME|;
    assert NoBreak(s[start..start]) by { NothingBreaks(s, start); }
    ShortestNameIs(s, start, start);
    var names := Disposition(s).value;
    EndingIs(s, start + |names.name| + 1);
    assert MatchesAt(s, i, j, start + |names.name|, names);
  }

  lemma NothingBreaks(s: string, i: nat)
    requires i <= |s|
    ensures NoBreak(s[i..i])
  {
  }

  lemma DispositionIsShortest(s: string, i: nat, j: nat, q: nat, names: Names)
    requires MatchesAt(s, i, j, q, names)
    ensures Disposition(s).Some? && NoLonger(Disposition(s).value, names)
    ensures NoLonger(names, Disposition(s).value) ==> names == Disposition(s).value
  {
    hide AllSpace, SkipSpace, EndsAt, ShortestName, Ending, Disposition, WordAt, NoBreak;
    MatchPlaces(s, i, j, q, names);
    var start := j + |NAME|;
    assert NoBreak(s[start..start]) by { NothingBreaks(s, start); }
    ShortestNameIs(s, start, start);
    EndingIs(s, q + 1);
  }

  /** The submatches are those of the match with the shortest groups, and there are none if nothing matches. */
  lemma DispositionIff(s: string, names: Names)
    ensures Disposition(s) == Some(names) <==>
      Matches(s, names) && forall other :: Matches(s, other) ==> NoLonger(names, other)
    ensures Disposition(s) == None <==> forall other :: !Matches(s, other)
  {
    hide Disposition, MatchesAt;
    forall other | Matches(s, other)
      ensures Disposition(s).Some? && NoLonger(Disposition(s).value, other)
      ensures NoLonger(other, Disposition(s).value) ==> other == Disposition(s).value
    {
      var i: nat, j: nat, q: nat :| MatchesAt(s, i, j, q, other);
      DispositionIsShortest(s, i, j, q, other);
    }
    if Disposition(s).Some? { DispositionMatches(s); }
  }

  // ---- a header line, and all of them ----

  const CONTENT_TYPE := "content-type:"

  function WithHeader(file: FileInfo, line: string): FileInfo {
    if StartsWithCaseIgnore(line, CONTENT_TYPE) then file.(contentType := Trimmed(line[|CONTENT_TYPE|..]))
    else
      match Disposition(line)
      case None => file
      case Some(names) => file.(name := names.name, filename := names.filename)
  }

  function InfoOf(lines: seq<string>): FileInfo {
    if lines == [] then NO_FILE else WithHeader(InfoOf(lines[..|lines| - 1]), lines[|lines| - 1])
  }
}
