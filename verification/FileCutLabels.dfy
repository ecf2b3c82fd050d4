/** What the label of a segment says, in terms of the flags alone. */
module FileCutLabels {
  import opened FileCut
  import opened FileCutRuns

  // ---- forced calls lie on segment borders ----

  lemma {:induction false} ForcedCallCuts(l: Lengths, audio: seq<int>, calls: seq<Call>, n: nat)
    requires n < |calls| && l.Valid() && ForcedAt(l, audio, calls, n)
    ensures After(l, audio, calls, n + 1).cutBeginFrame == n
  {
    hide Read;
  }

  lemma {:induction false} CutBeginStep(l: Lengths, audio: seq<int>, calls: seq<Call>, n: nat)
    requires n < |calls| && l.Valid()
    ensures After(l, audio, calls, n).cutBeginFrame <= After(l, audio, calls, n + 1).cutBeginFrame
  {
    hide After, Silent, Read;
    CallCutsOffNextSegment(l, audio, calls, n);
  }

  lemma {:induction false} CutBeginGrows(l: Lengths, audio: seq<int>, calls: seq<Call>, m: nat, n: nat)
    requires m <= n <= |calls| && l.Valid()
    ensures After(l, audio, calls, m).cutBeginFrame <= After(l, audio, calls, n).cutBeginFrame
  {
    hide *;
    if m < n {
      CutBeginGrows(l, audio, calls, m, n - 1);
      CutBeginStep(l, audio, calls, n - 1);
    }
  }

  lemma {:induction false} ForcedIsBorder(l: Lengths, audio: seq<int>, calls: seq<Call>, i: nat, n: nat)
    requires i < n <= |calls| && l.Valid() && ForcedAt(l, audio, calls, i)
    ensures i <= After(l, audio, calls, n).cutBeginFrame
  {
    hide After;
    ForcedCallCuts(l, audio, calls, i);
    CutBeginGrows(l, audio, calls, i + 1, n);
  }

  /** Forced calls, and voice, around the end of a segment. */
  ghost predicate CleanEnd(l: Lengths, audio: seq<int>, calls: seq<Call>, s: Segment) {
    && s.begin <= s.end < |calls|
    && (forall i: nat :: s.begin < i < s.end ==> !ForcedAt(l, audio, calls, i))
    && (ForcedAt(l, audio, calls, s.end) <==> calls[s.end].last || s.end - s.begin == l.max)
    && (!ForcedAt(l, audio, calls, s.end) && calls[s.end].active ==> s.end == 0 || !calls[s.end - 1].active)
  }

  /** An unforced cut at an active frame comes right after a silent one. */
  lemma UnforcedVoiceIsRise(l: Lengths, audio: seq<int>, calls: seq<Call>, n: nat)
    requires n < |calls| && l.Valid() && !ForcedAt(l, audio, calls, n) && calls[n].active
    requires After(l, audio, calls, n + 1).cutBeginFrame == n != After(l, audio, calls, n).cutBeginFrame
    ensures n == 0 || !calls[n - 1].active
  {
    hide Read;
    InvHolds(l, audio, calls, n);
  }

  lemma NextSegmentEndsClean(l: Lengths, audio: seq<int>, calls: seq<Call>, n: nat, s: Segment)
    requires n < |calls| && l.Valid() && NextSegment(l, audio, calls, n, s)
    ensures CleanEnd(l, audio, calls, s)
  {
    hide After, ForcedAt, Read, AddVadActivity, RunLength, HasRise;
    forall i: nat | s.begin < i < s.end ensures !ForcedAt(l, audio, calls, i) {
      if ForcedAt(l, audio, calls, i) { ForcedIsBorder(l, audio, calls, i, n); }
    }
    InvHolds(l, audio, calls, n);
    if s.end == n {
      ForcedNow(l, audio, calls, n);
      if !ForcedAt(l, audio, calls, n) && calls[n].active && s.begin != n { UnforcedVoiceIsRise(l, audio, calls, n); }
    } else {
      if ForcedAt(l, audio, calls, s.end) { ForcedIsBorder(l, audio, calls, s.end, n); }
      if calls[s.end].last { LastIsForced(l, audio, calls, s.end); }
    }
  }

  lemma {:induction false} ForcedNow(l: Lengths, audio: seq<int>, calls: seq<Call>, n: nat)
    requires n < |calls|
    ensures ForcedAt(l, audio, calls, n) <==> calls[n].last || n - After(l, audio, calls, n).cutBeginFrame == l.max
  {
  }

  lemma LastIsForced(l: Lengths, audio: seq<int>, calls: seq<Call>, n: nat)
    requires n < |calls| && calls[n].last
    ensures ForcedAt(l, audio, calls, n)
  {
  }

  lemma {:induction false} SegmentsEndClean(l: Lengths, audio: seq<int>, calls: seq<Call>, n: nat)
    requires n <= |calls| && l.Valid()
    ensures forall i :: 0 <= i < |After(l, audio, calls, n).segments| ==>
        CleanEnd(l, audio, calls, After(l, audio, calls, n).segments[i])
  {
    hide *;
    if n == 0 {
      NoSegmentsYet(l, audio, calls);
    } else {
      SegmentsEndClean(l, audio, calls, n - 1);
      LastEndsClean(l, audio, calls, n - 1);
    }
  }

  lemma {:induction false} NoSegmentsYet(l: Lengths, audio: seq<int>, calls: seq<Call>)
    ensures After(l, audio, calls, 0).segments == []
  {
  }

  /** One call adds at most one segment, and that ends clean. */
  lemma {:induction false} LastEndsClean(l: Lengths, audio: seq<int>, calls: seq<Call>, n: nat)
    requires n < |calls| && l.Valid()
    ensures var c, d := After(l, audio, calls, n), After(l, audio, calls, n + 1);
      || d.segments == c.segments
      || (d.segments != [] && d.segments == c.segments + [d.segments[|d.segments| - 1]]
          && CleanEnd(l, audio, calls, d.segments[|d.segments| - 1]))
  {
    hide *;
    CallCutsOffNextSegment(l, audio, calls, n);
    var c, d := After(l, audio, calls, n), After(l, audio, calls, n + 1);
    if d.segments != c.segments { NextSegmentEndsClean(l, audio, calls, n, d.segments[|d.segments| - 1]); }
  }

  lemma {:induction false} TilesMeet(segments: seq<Segment>, end: nat, i: nat)
    requires Tile(segments, end) && i < |segments|
    ensures segments[i].begin == if i == 0 then 0 else segments[i - 1].end
  {
    var n := |segments| - 1;
    if i < n { TilesMeet(segments[..n], segments[n].begin, i); }
  }

  // ---- labels ----

  /** The cut at which segment i begins was forced: by a last call there, or by the length of the segment before. */
  predicate StartForced(l: Lengths, calls: seq<Call>, segments: seq<Segment>, i: nat)
    requires i < |segments| && segments[i].begin < |calls|
  {
    calls[segments[i].begin].last || (i > 0 && segments[i - 1].end - segments[i - 1].begin == l.max)
  }

  /** Frame k is active after a silent one. */
  predicate SetsIn(calls: seq<Call>, k: nat)
    requires 0 < k < |calls|
  {
    calls[k].active && !calls[k - 1].active
  }

  lemma {:induction false} StartIsForced(l: Lengths, audio: seq<int>, calls: seq<Call>, n: nat, i: nat)
    requires n <= |calls| && l.Valid() && i < |After(l, audio, calls, n).segments|
    ensures var segments := After(l, audio, calls, n).segments; var s := segments[i];
      && s.begin <= s.end < n && CleanEnd(l, audio, calls, s)
      && (ForcedAt(l, audio, calls, s.begin) <==> StartForced(l, calls, segments, i))
      && (!StartForced(l, calls, segments, i) && calls[s.begin].active ==> s.begin == 0 || !calls[s.begin - 1].active)
      && (s.containsActive <==> HasRise(l, audio, calls, s.begin, s.end))
  {
    hide After, HasRise, ForcedAt, CleanEnd, StartForced, Tile, GoodSegment;
    var c := After(l, audio, calls, n);
    RunsAreOk(l, audio, calls, n);
    SegmentsEndClean(l, audio, calls, n);
    TilesMeet(c.segments, c.cutBeginFrame, i);
    GoodMeans(l, audio, calls, n, c.segments[i]);
    if i == 0 {
      FirstForced(l, audio, calls);
      FirstStart(l, calls, c.segments);
    } else {
      assert CleanEnd(l, audio, calls, c.segments[i - 1]);
      LaterStart(l, audio, calls, c.segments, i);
    }
  }

  lemma GoodMeans(l: Lengths, audio: seq<int>, calls: seq<Call>, n: nat, s: Segment)
    requires n <= |calls| && GoodSegment(l, audio, calls, n, s)
    ensures s.begin <= s.end < n && (s.containsActive <==> HasRise(l, audio, calls, s.begin, s.end))
  {
    hide HasRise;
  }

  lemma FirstStart(l: Lengths, calls: seq<Call>, segments: seq<Segment>)
    requires segments != [] && segments[0].begin == 0 && calls != []
    ensures StartForced(l, calls, segments, 0) <==> calls[0].last
  {
  }

  lemma LaterStart(l: Lengths, audio: seq<int>, calls: seq<Call>, segments: seq<Segment>, i: nat)
    requires 0 < i < |segments| && segments[i].begin == segments[i - 1].end
    requires CleanEnd(l, audio, calls, segments[i - 1])
    ensures var b := segments[i].begin;
      && b < |calls| && (ForcedAt(l, audio, calls, b) <==> StartForced(l, calls, segments, i))
      && (!ForcedAt(l, audio, calls, b) && calls[b].active ==> b == 0 || !calls[b - 1].active)
  {
    hide ForcedAt;
  }

  lemma FirstForced(l: Lengths, audio: seq<int>, calls: seq<Call>)
    requires calls != [] && l.Valid()
    ensures ForcedAt(l, audio, calls, 0) <==> calls[0].last
  {
  }

  /** A segment is labelled "A" if and only if voice sets in within it, or runs at its start and that was not forced. */
  lemma {:induction false} LabelByFlags(l: Lengths, audio: seq<int>, calls: seq<Call>, n: nat, i: nat)
    requires n <= |calls| && l.Valid() && i < |After(l, audio, calls, n).segments|
    ensures var segments := After(l, audio, calls, n).segments; var s := segments[i];
      && s.begin <= s.end < n
      && (s.containsActive <==>
            || (s.begin < s.end && calls[s.begin].active && !StartForced(l, calls, segments, i))
            || exists k: nat :: s.begin < k < s.end && SetsIn(calls, k))
  {
    hide After, ForcedAt, StartForced;
    StartIsForced(l, audio, calls, n, i);
    var segments := After(l, audio, calls, n).segments;
    var s := segments[i];
    if s.containsActive {
      var k :| s.begin <= k < s.end && NoticedRise(l, audio, calls, k);
      if k > s.begin { assert SetsIn(calls, k); }
    } else {
      assert s.begin < s.end ==> !NoticedRise(l, audio, calls, s.begin);
      forall k: nat | s.begin < k < s.end ensures !SetsIn(calls, k) { assert !NoticedRise(l, audio, calls, k); }
    }
  }

  lemma {:induction false} VoiceSinceStart(calls: seq<Call>, b: nat, k: nat)
    requires b <= k < |calls| && calls[k].active && forall j: nat :: b < j <= k ==> !SetsIn(calls, j)
    ensures calls[b].active
  {
    if b < k {
      assert !SetsIn(calls, k);
      VoiceSinceStart(calls, b, k - 1);
    }
  }

  ghost predicate HoldsVoice(calls: seq<Call>, s: Segment)
    requires s.end <= |calls|
  {
    exists k: nat :: s.begin <= k < s.end && calls[k].active
  }

  /**
   * A segment holds voice and yet is labelled "I" if and only if voice runs on into it across a forced cut,
   * and does not set in again before its end.
   */
  lemma {:induction false} VoiceUnderSilentLabel(l: Lengths, audio: seq<int>, calls: seq<Call>, n: nat, i: nat)
    requires n <= |calls| && l.Valid() && i < |After(l, audio, calls, n).segments|
    ensures var segments := After(l, audio, calls, n).segments; var s := segments[i];
      && s.begin <= s.end < n
      && (HoldsVoice(calls, s) && !s.containsActive <==>
            && s.begin < s.end && calls[s.begin].active && StartForced(l, calls, segments, i)
            && forall k: nat :: s.begin < k < s.end ==> !SetsIn(calls, k))
  {
    hide After, StartForced, SetsIn;
    LabelByFlags(l, audio, calls, n, i);
    var s := After(l, audio, calls, n).segments[i];
    if HoldsVoice(calls, s) && !s.containsActive {
      var k: nat :| s.begin <= k < s.end && calls[k].active;
      VoiceSinceStart(calls, s.begin, k);
    }
  }

  lemma AfterUnfolds(l: Lengths, audio: seq<int>, calls: seq<Call>, n: nat)
    requires n < |calls|
    ensures After(l, audio, calls, 0) == Created()
    ensures var c := After(l, audio, calls, n);
      After(l, audio, calls, n + 1) == AddVadActivity(l, audio, c, calls[n].active, calls[n].last).cut
  {
  }

  /** Voice going on for one more frame, short of the maximum. */
  lemma VoiceGoesOn(l: Lengths, audio: seq<int>, c: Cut)
    requires InOrder(c) && c.currentFrame - c.cutBeginFrame < l.max
    requires c.isPreviousActive || c.previousAlongFrames == 0
    ensures var d := AddVadActivity(l, audio, c, true, false).cut;
      && d.cutBeginFrame == c.cutBeginFrame && d.segments == c.segments && d.currentFrame == c.currentFrame + 1
      && d.isPreviousActive && (d.isContainActive <==> c.isContainActive || !c.isPreviousActive)
  {
  }

  /** A forced cut. */
  lemma ForcedCut(l: Lengths, audio: seq<int>, c: Cut, last: bool)
    requires InOrder(c) && l.Valid() && Forced(l, c, last)
    ensures var d := AddVadActivity(l, audio, c, true, last).cut;
      && d.cutBeginFrame == c.currentFrame && d.currentFrame == c.currentFrame + 1 && !d.isContainActive
      && |d.segments| == |c.segments| + 1 && d.segments[..|c.segments|] == c.segments
      && var s := d.segments[|c.segments|];
      s.begin == c.cutBeginFrame && s.end == c.currentFrame && s.containsActive == c.isContainActive
  {
    hide Read;
  }

  /** Four active frames cut at a maximum of two: the last segment is all voice and is labelled "I". */
  lemma {:induction false} VoiceAcrossCut(audio: seq<int>)
    ensures var l := Lengths(1, 0, 1, 2);
      var calls := [Call(true, false), Call(true, false), Call(true, false), Call(true, true)];
      var segments := After(l, audio, calls, 4).segments;
      && l.Valid() && |segments| == 2 && segments[0].containsActive
      && segments[1].begin == 2 && segments[1].end == 3 && !segments[1].containsActive && HoldsVoice(calls, segments[1])
  {
    hide After, AddVadActivity;
    var l := Lengths(1, 0, 1, 2);
    var calls := [Call(true, false), Call(true, false), Call(true, false), Call(true, true)];
    AfterUnfolds(l, audio, calls, 0);
    AfterUnfolds(l, audio, calls, 1);
    AfterUnfolds(l, audio, calls, 2);
    AfterUnfolds(l, audio, calls, 3);
    VoiceGoesOn(l, audio, After(l, audio, calls, 0));
    VoiceGoesOn(l, audio, After(l, audio, calls, 1));
    ForcedCut(l, audio, After(l, audio, calls, 2), false);
    ForcedCut(l, audio, After(l, audio, calls, 3), true);
    assert calls[2].active;
    var segments, before := After(l, audio, calls, 4).segments, After(l, audio, calls, 3).segments;
    assert segments[..1][0] == segments[0] && before[0] == segments[0];
  }
}
