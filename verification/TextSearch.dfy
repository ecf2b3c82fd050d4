/** First occurrences, as std::string::find gives them, where |s| stands for npos; and white space. */
module TextSearch {

  predicate OccursAt(s: string, pat: string, i: nat) {
    i + |pat| <= |s| && s[i..i + |pat|] == pat
  }

  function FindFrom(s: string, pat: string, from: nat): (pos: nat)
    requires from <= |s|
    ensures from <= pos <= |s|
    ensures pos < |s| ==> OccursAt(s, pat, pos)
    ensures forall i :: from <= i < pos ==> !OccursAt(s, pat, i)
    decreases |s| - from
  {
    if from == |s| || OccursAt(s, pat, from) then from else FindFrom(s, pat, from + 1)
  }

  function Find(s: string, pat: string): (pos: nat)
    ensures pos <= |s|
    ensures pos < |s| ==> OccursAt(s, pat, pos)
    ensures forall i :: 0 <= i < pos ==> !OccursAt(s, pat, i)
  {
    FindFrom(s, pat, 0)
  }

  predicate Occurs(s: string, pat: string) { Find(s, pat) < |s| }

  lemma FindIs(s: string, pat: string, pos: nat)
    requires pos <= |s|
    requires pos < |s| ==> OccursAt(s, pat, pos)
    requires forall i :: 0 <= i < pos ==> !OccursAt(s, pat, i)
    requires pos == |s| ==> |pat| > 0
    ensures Find(s, pat) == pos
  {
  }

  lemma InPrefix(buf: string, rest: string, pat: string, i: nat)
    ensures OccursAt(buf, pat, i) <==> i + |pat| <= |buf| && OccursAt(buf + rest, pat, i)
  {
    if i + |pat| <= |buf| { assert (buf + rest)[i..i + |pat|] == buf[i..i + |pat|]; }
  }

  /** What a search sees of a prefix: the first occurrence if it lies inside, else nothing. */
  lemma FindInPrefix(buf: string, rest: string, pat: string)
    requires |pat| > 0
    ensures Find(buf, pat) == if Find(buf + rest, pat) + |pat| <= |buf| then Find(buf + rest, pat) else |buf|
  {
    var f := Find(buf + rest, pat);
    forall i: nat ensures OccursAt(buf, pat, i) <==> i + |pat| <= |buf| && OccursAt(buf + rest, pat, i) {
      InPrefix(buf, rest, pat, i);
    }
    FindIs(buf, pat, if f + |pat| <= |buf| then f else |buf|);
  }

  /** A pattern whose first character does not recur in it. */
  predicate Leads(pat: string) {
    |pat| > 0 && forall j :: 0 < j < |pat| ==> pat[j] != pat[0]
  }

  lemma NoStraddle(c: string, d: string, pat: string, i: nat)
    requires Leads(pat) && pat <= d && i < |c|
    ensures OccursAt(c + d, pat, i) <==> OccursAt(c, pat, i)
  {
    if i + |pat| <= |c| {
      assert (c + d)[i..i + |pat|] == c[i..i + |pat|];
    } else if i + |pat| <= |c + d| {
      var x := (c + d)[i..i + |pat|];
      assert x[|c| - i] == d[0] == pat[0];
    }
  }

  /** Text c before a pattern: the first occurrence is the first inside c, or the one right after it. */
  lemma FindBefore(c: string, d: string, pat: string)
    requires Leads(pat) && pat <= d
    ensures Find(c + d, pat) == Find(c, pat)
  {
    var f := Find(c, pat);
    forall i: nat | i < |c| ensures OccursAt(c + d, pat, i) <==> OccursAt(c, pat, i) { NoStraddle(c, d, pat, i); }
    assert (c + d)[|c|..|c| + |pat|] == d[..|pat|] == pat;
    FindIs(c + d, pat, f);
  }

  /** httplib's find_string: also stops where the pattern could still begin at the end of the text. */
  function FindPartialFrom(s: string, pat: string, from: nat): (pos: nat)
    requires from <= |s| && pat != ""
    ensures from <= pos <= |s|
    decreases |s| - from
  {
    if from == |s| || (s[from] == pat[0] && (|s| - from < |pat| || OccursAt(s, pat, from))) then from
    else FindPartialFrom(s, pat, from + 1)
  }

  lemma {:induction false} FindPartialIs(s: string, pat: string, from: nat)
    requires from <= |s| && pat != ""
    ensures var pos := FindPartialFrom(s, pat, from);
      && (pos < |s| ==> s[pos] == pat[0] && (|s| - pos < |pat| || OccursAt(s, pat, pos)))
      && forall i :: from <= i < pos ==> !(s[i] == pat[0] && (|s| - i < |pat| || OccursAt(s, pat, i)))
    decreases |s| - from
  {
    if !(from == |s| || (s[from] == pat[0] && (|s| - from < |pat| || OccursAt(s, pat, from)))) {
      FindPartialIs(s, pat, from + 1);
    }
  }

  method FindString(s: string, pat: string) returns (pos: nat)
    requires pat != ""
    ensures pos == FindPartialFrom(s, pat, 0)
  {
    var off := 0;
    while off < |s|
      invariant off <= |s| && FindPartialFrom(s, pat, 0) == FindPartialFrom(s, pat, off)
    {
      pos := FindFrom(s, [pat[0]], off);
      SkipOthers(s, pat, off, pos);
      if pos == |s| { return |s|; }
      if |pat| > |s| - pos { return pos; }
      if OccursAt(s, pat, pos) { return pos; }
      off := pos + 1;
    }
    return |s|;
  }

  lemma {:induction false} SkipOthers(s: string, pat: string, off: nat, pos: nat)
    requires off <= pos <= |s| && pat != ""
    requires pos == FindFrom(s, [pat[0]], off)
    ensures FindPartialFrom(s, pat, off) == FindPartialFrom(s, pat, pos)
    ensures pos < |s| ==> s[pos] == pat[0]
    decreases pos - off
  {
    if off < pos {
      assert s[off..off + 1] == [s[off]];
      SkipOthers(s, pat, off + 1, pos);
    }
  }

  /** On a prefix of a text, find_string never goes past the first occurrence, and stops at it once it is complete. */
  lemma {:induction false} FindPartialInPrefix(buf: string, rest: string, pat: string)
    requires pat != ""
    ensures var pos := FindPartialFrom(buf, pat, 0); var f := Find(buf + rest, pat);
      && pos <= f
      && (f + |pat| <= |buf| ==> pos == f)
      && (f + |pat| > |buf| ==> |buf| - pos < |pat|)
  {
    var s := buf + rest;
    var pos, f := FindPartialFrom(buf, pat, 0), Find(s, pat);
    FindPartialIs(buf, pat, 0);
    if f < |buf| && f < pos {
      assert s[f..f + |pat|][0] == pat[0];
      InPrefix(buf, rest, pat, f);
    }
    if pos < |buf| && |buf| - pos >= |pat| { InPrefix(buf, rest, pat, pos); }
  }

  // ---- white space ----

  /** isspace in the C locale. */
  predicate IsSpace(c: char) { c == ' ' || '\t' <= c <= '\r' }

  const SPACES := " \t\n\U{0B}\U{0C}\r"

  lemma SpaceIs(c: char)
    ensures IsSpace(c) <==> c in SPACES
  {
    assert SPACES[0] == ' ' && SPACES[1] == '\t' && SPACES[2] == '\n' && SPACES[5] == '\r';
    assert SPACES[3] == '\U{0B}' && SPACES[4] == '\U{0C}';
  }

  function SkipSpace(s: string, i: nat): (j: nat)
    requires i <= |s|
    ensures i <= j <= |s|
    decreases |s| - i
  {
    if i < |s| && IsSpace(s[i]) then SkipSpace(s, i + 1) else i
  }

  lemma {:induction false} SkipSpaceIs(s: string, i: nat, j: nat)
    requires i <= j <= |s| && (forall k :: i <= k < j ==> IsSpace(s[k])) && (j < |s| ==> !IsSpace(s[j]))
    ensures SkipSpace(s, i) == j
    decreases j - i
  {
    if i < j { SkipSpaceIs(s, i + 1, j); }
  }

  lemma {:induction false} SkipSpaceStops(s: string, i: nat)
    requires i <= |s|
    ensures var j := SkipSpace(s, i); (forall k :: i <= k < j ==> IsSpace(s[k])) && (j < |s| ==> !IsSpace(s[j]))
    decreases |s| - i
  {
    if i < |s| && IsSpace(s[i]) { SkipSpaceStops(s, i + 1); }
  }
}
