/** What file_cut.c guarantees over whole runs. */
module FileCutRuns {
  import opened Wrappers
  import opened FileCut

  datatype Call = Call(active: bool, last: bool)

  /** The state after the first n calls. */
  function After(l: Lengths, audio: seq<int>, calls: seq<Call>, n: nat): (c: Cut)
    requires n <= |calls|
    ensures c.currentFrame == n && InOrder(c)
  {
    if n == 0 then Created()
    else
      var c := After(l, audio, calls, n - 1);
      AddVadActivity(l, audio, c, calls[n - 1].active, calls[n - 1].last).cut
  }

  // ---- the stream, seen without the counter ----

  /** The exact length of the run of equal flags that ends before frame n. */
  function RunLength(calls: seq<Call>, n: nat): (r: nat)
    requires n <= |calls|
    ensures r <= n
    ensures forall i :: n - r <= i < n ==> calls[i].active == calls[n - 1].active
    ensures n > 0 ==> r > 0
    ensures 0 < r < n ==> calls[n - r - 1].active != calls[n - 1].active
  {
    if n == 0 then 0
    else if n == 1 || calls[n - 2].active != calls[n - 1].active then 1
    else RunLength(calls, n - 1) + 1
  }

  predicate Silent(calls: seq<Call>, from: int, to: int) {
    0 <= from && to <= |calls| && forall i :: from <= i < to ==> !calls[i].active
  }

  /** Call i had to cut whatever the flags. */
  predicate ForcedAt(l: Lengths, audio: seq<int>, calls: seq<Call>, i: nat)
    requires i < |calls|
  {
    Forced(l, After(l, audio, calls, i), calls[i].last)
  }

  /** Voice sets in at frame i, and the call is free to notice. */
  predicate NoticedRise(l: Lengths, audio: seq<int>, calls: seq<Call>, i: nat)
    requires i < |calls|
  {
    calls[i].active && (i == 0 || !calls[i - 1].active) && !ForcedAt(l, audio, calls, i)
  }

  ghost predicate HasRise(l: Lengths, audio: seq<int>, calls: seq<Call>, from: nat, to: nat)
    requires to <= |calls|
  {
    exists i :: from <= i < to && NoticedRise(l, audio, calls, i)
  }

  // ---- the invariant ----

  /**
   * The run counter is exact once a rise has been noticed in the segment, and whenever the last flag is silent it is
   * exact or the whole segment so far is silent; a maximum-length cut leaves it stale otherwise.
   */
  ghost predicate Inv(l: Lengths, audio: seq<int>, calls: seq<Call>, n: nat)
    requires n <= |calls|
  {
    var c := After(l, audio, calls, n);
    && (n > 0 ==> c.cutBeginFrame < n <= c.cutBeginFrame + l.max)
    && (c.isPreviousActive <==> n > 0 && calls[n - 1].active)
    && (c.isContainActive <==> HasRise(l, audio, calls, c.cutBeginFrame, n))
    && (c.isContainActive ==> c.previousAlongFrames == RunLength(calls, n))
    && (!c.isPreviousActive ==>
          || c.previousAlongFrames == RunLength(calls, n)
          || (Silent(calls, c.cutBeginFrame, n) && c.previousAlongFrames + 1 >= n - c.cutBeginFrame
              && (c.previousAlongFrames >= n - c.cutBeginFrame || calls[0].last)))
    && (n > 0 && !calls[0].last ==> c.previousAlongFrames > 0)
  }

  lemma RiseOnlyNow(l: Lengths, audio: seq<int>, calls: seq<Call>, from: nat, n: nat)
    requires n < |calls|
    ensures from <= n ==> (HasRise(l, audio, calls, from, n + 1) <==>
        HasRise(l, audio, calls, from, n) || NoticedRise(l, audio, calls, n))
    ensures !HasRise(l, audio, calls, n, n)
  {
  }

  lemma {:induction false} InvHolds(l: Lengths, audio: seq<int>, calls: seq<Call>, n: nat)
    requires n <= |calls| && l.Valid()
    ensures Inv(l, audio, calls, n)
  {
    if n > 0 {
      InvHolds(l, audio, calls, n - 1);
      InvStep(l, audio, calls, n - 1);
    }
  }

  lemma InvStep(l: Lengths, audio: seq<int>, calls: seq<Call>, n: nat)
    requires n < |calls| && l.Valid() && Inv(l, audio, calls, n)
    ensures Inv(l, audio, calls, n + 1)
  {
    hide Read;
    var c := After(l, audio, calls, n);
    var d := After(l, audio, calls, n + 1);
    RiseOnlyNow(l, audio, calls, c.cutBeginFrame, n);
    RiseOnlyNow(l, audio, calls, d.cutBeginFrame, n);
  }

  // ---- where the cuts fall ----

  /**
   * The cut call n should make for a segment begun at frame b, by exact run lengths: after enough silence behind a
   * noticed rise, or silenceBefore frames ahead of one, once the segment is long enough; or where it must. What counts
   * as noticed is the program's own notion: a rise at which it need not cut anyway.
   */
  ghost function IdealCut(l: Lengths, audio: seq<int>, calls: seq<Call>, n: nat, b: nat): Option<int>
    requires n < |calls|
  {
    if calls[n].last || n - b == l.max then Some(n)
    else if n == 0 || calls[n - 1].active then None
    else if !calls[n].active then
      if HasRise(l, audio, calls, b, n) && RunLength(calls, n) >= l.silenceAfter
          && n - b >= l.min then Some(n) else None
    else
      if RunLength(calls, n) > l.silenceBefore
          && n - l.silenceBefore - b >= l.min then Some(n - l.silenceBefore) else None
  }

  /** Call n cuts, or does not, as the ideal says, and reports where. */
  ghost predicate CutsAsIdeal(l: Lengths, audio: seq<int>, calls: seq<Call>, n: nat)
    requires n < |calls|
  {
    var c := After(l, audio, calls, n);
    var r := AddVadActivity(l, audio, c, calls[n].active, calls[n].last);
    match IdealCut(l, audio, calls, n, c.cutBeginFrame)
    case None => r.frame == 0 && r.cut.cutBeginFrame == c.cutBeginFrame && r.cut.segments == c.segments
    case Some(end) =>
      && r.frame == -end && r.cut.cutBeginFrame == end
      && |r.cut.segments| == |c.segments| + 1 && r.cut.segments[..|c.segments|] == c.segments
      && r.cut.segments[|c.segments|].begin == c.cutBeginFrame && r.cut.segments[|c.segments|].end == end
  }

  /** Voice sets in after exactly one silent frame too many, which the counter has missed. */
  ghost predicate OneShort(l: Lengths, audio: seq<int>, calls: seq<Call>, n: nat)
    requires n < |calls|
  {
    var c := After(l, audio, calls, n);
    && l.min == 1 && NoticedRise(l, audio, calls, n)
    && n - c.cutBeginFrame == l.silenceBefore + 1 && Silent(calls, c.cutBeginFrame, n)
    && c.previousAlongFrames == l.silenceBefore
  }

  /** Despite its stale counter, the program cuts exactly where the ideal does, but for one corner of the lengths. */
  lemma CutsAreIdealUnlessOneShort(l: Lengths, audio: seq<int>, calls: seq<Call>, n: nat)
    requires n < |calls| && l.Valid()
    ensures CutsAsIdeal(l, audio, calls, n) <==> !OneShort(l, audio, calls, n)
  {
    hide Read;
    InvHolds(l, audio, calls, n);
  }

  /** The corner needs a minimum of one frame and a first call that says last: not the lengths of common.h. */
  lemma CutsAreIdeal(l: Lengths, audio: seq<int>, calls: seq<Call>, n: nat)
    requires n < |calls| && l.Valid() && (l.min > 1 || !calls[0].last)
    ensures CutsAsIdeal(l, audio, calls, n)
  {
    hide CutsAsIdeal;
    InvHolds(l, audio, calls, n);
    CutsAreIdealUnlessOneShort(l, audio, calls, n);
  }

  /** In particular with the lengths of common.h. */
  lemma CutsAreIdealInCommonH(audio: seq<int>, calls: seq<Call>, n: nat)
    requires n < |calls|
    ensures CutsAsIdeal(Lengths(25, 30, 500, 1000), audio, calls, n)
  {
    hide CutsAsIdeal;
    CutsAreIdeal(COMMON_H, audio, calls, n);
  }

  /** In that corner the cut is missed. */
  lemma MissedCut(audio: seq<int>)
    ensures var l := Lengths(1, 0, 1, 2); var calls := [Call(false, true), Call(true, false)];
      l.Valid() && OneShort(l, audio, calls, 1) && !CutsAsIdeal(l, audio, calls, 1)
  {
  }

  /** A cut in the middle of silence follows enough silent frames; a cut before voice hands silent frames over. */
  lemma CutsFallInSilence(l: Lengths, audio: seq<int>, calls: seq<Call>, n: nat)
    requires n < |calls| && l.Valid() && !ForcedAt(l, audio, calls, n)
    ensures var c := After(l, audio, calls, n); var d := After(l, audio, calls, n + 1);
      d.cutBeginFrame != c.cutBeginFrame ==>
        if calls[n].active then
          d.cutBeginFrame == n - l.silenceBefore && Silent(calls, n - l.silenceBefore, n)
        else
          d.cutBeginFrame == n && Silent(calls, n - l.silenceAfter, n + 1)
  {
    hide Read;
    InvHolds(l, audio, calls, n);
  }

  // ---- the segments of a run ----

  /** Where the samples of a frame begin, at 160 samples a frame, or where the audio ends. */
  function Samples(audio: seq<int>, frame: nat): (p: nat)
    ensures p <= |audio|
  {
    if frame * 160 <= |audio| then frame * 160 else |audio|
  }

  /** Bounds, label and content of a segment cut within the first n calls. */
  ghost predicate GoodSegment(l: Lengths, audio: seq<int>, calls: seq<Call>, n: nat, s: Segment)
    requires n <= |calls|
  {
    && s.begin <= s.end < n
    && s.end - s.begin <= l.max
    && (s.end - s.begin >= l.min || calls[s.end].last)
    && (s.containsActive <==> HasRise(l, audio, calls, s.begin, s.end))
    && Samples(audio, s.begin) <= Samples(audio, s.end)
    && s.samples == audio[Samples(audio, s.begin)..Samples(audio, s.end)]
  }

  /** Segments follow each other without gap or overlap from frame 0 to `end`. */
  predicate Tile(segments: seq<Segment>, end: nat) {
    if segments == [] then end == 0
    else segments[|segments| - 1].end == end && Tile(segments[..|segments| - 1], segments[|segments| - 1].begin)
  }

  function Written(segments: seq<Segment>): seq<int> {
    if segments == [] then [] else Written(segments[..|segments| - 1]) + segments[|segments| - 1].samples
  }

  ghost predicate RunOk(l: Lengths, audio: seq<int>, calls: seq<Call>, n: nat)
    requires n <= |calls|
  {
    var c := After(l, audio, calls, n);
    && Tile(c.segments, c.cutBeginFrame)
    && (forall i :: 0 <= i < |c.segments| ==> GoodSegment(l, audio, calls, n, c.segments[i]))
    && c.lastCutBeginFrame == (if c.segments == [] then 0 else c.segments[|c.segments| - 1].begin)
    && c.position == Samples(audio, c.cutBeginFrame)
    && Written(c.segments) == audio[..Samples(audio, c.cutBeginFrame)]
  }

  /** The segment that call n cuts off. */
  ghost predicate NextSegment(l: Lengths, audio: seq<int>, calls: seq<Call>, n: nat, s: Segment)
    requires n < |calls|
  {
    var c := After(l, audio, calls, n);
    var d := After(l, audio, calls, n + 1);
    && s.begin == c.cutBeginFrame <= s.end == d.cutBeginFrame <= n
    && s.end - s.begin <= l.max
    && (s.end - s.begin >= l.min || (s.end == n && calls[n].last))
    && (s.end == n || Silent(calls, s.end, n))
    && s.containsActive == c.isContainActive
    && s.samples == Read(audio, c.position, (s.end - s.begin) * FRAME_SIZE)
    && d.position == c.position + |s.samples|
  }

  /** One call cuts off at most one segment, and what it writes is what it reads next. */
  lemma StepShape(l: Lengths, audio: seq<int>, c: Cut, active: bool, last: bool)
    requires InOrder(c) && l.Valid() && c.currentFrame - c.cutBeginFrame <= l.max
    ensures var d := AddVadActivity(l, audio, c, active, last).cut;
      var e := d.cutBeginFrame;
      || (d.segments == c.segments && e == c.cutBeginFrame && d.lastCutBeginFrame == c.lastCutBeginFrame
          && d.position == c.position)
      || (&& c.cutBeginFrame <= e && d.lastCutBeginFrame == c.cutBeginFrame
          && (e == c.currentFrame || (!Forced(l, c, last) && active && e == c.currentFrame - l.silenceBefore))
          && (e - c.cutBeginFrame >= l.min || (e == c.currentFrame && last))
          && var samples := Read(audio, c.position, (e - c.cutBeginFrame) * FRAME_SIZE);
          && d.segments == c.segments + [Segment(c.cutBeginFrame, e, c.isContainActive, samples)]
          && d.position == c.position + |samples|)
  {
    hide Read;
  }

  lemma CallCutsOffNextSegment(l: Lengths, audio: seq<int>, calls: seq<Call>, n: nat)
    requires n < |calls| && l.Valid()
    ensures var c := After(l, audio, calls, n); var d := After(l, audio, calls, n + 1);
      || (d.segments == c.segments && d.cutBeginFrame == c.cutBeginFrame && d.lastCutBeginFrame == c.lastCutBeginFrame
          && d.position == c.position)
      || (d.segments != [] && d.lastCutBeginFrame == c.cutBeginFrame
          && d.segments == c.segments + [d.segments[|d.segments| - 1]]
          && NextSegment(l, audio, calls, n, d.segments[|d.segments| - 1]))
  {
    hide Read, AddVadActivity;
    InvHolds(l, audio, calls, n);
    var c := After(l, audio, calls, n);
    var d := After(l, audio, calls, n + 1);
    StepShape(l, audio, c, calls[n].active, calls[n].last);
    if d.segments != c.segments {
      if d.cutBeginFrame != n { CutsFallInSilence(l, audio, calls, n); }
    }
  }

  lemma ReadIsSamples(audio: seq<int>, b: nat, e: nat)
    requires b <= e
    ensures Samples(audio, b) <= Samples(audio, e)
    ensures Read(audio, Samples(audio, b), (e - b) * 160) == audio[Samples(audio, b)..Samples(audio, e)]
  {
  }

  lemma NoRiseInSilence(l: Lengths, audio: seq<int>, calls: seq<Call>, b: nat, e: nat, n: nat)
    requires b <= e <= n <= |calls| && Silent(calls, e, n)
    ensures HasRise(l, audio, calls, b, n) <==> HasRise(l, audio, calls, b, e)
  {
    hide After;
    if HasRise(l, audio, calls, b, n) {
      var i :| b <= i < n && NoticedRise(l, audio, calls, i);
      assert i < e;
    }
  }

  /**
   * Over every run the segments tile the frames from 0, lie between the two lengths (only a segment cut by a last
   * call may be shorter), carry "A" exactly when they hold a noticed rise, and together hold the audio read so far.
   */
  lemma {:induction false} RunsAreOk(l: Lengths, audio: seq<int>, calls: seq<Call>, n: nat)
    requires n <= |calls| && l.Valid()
    ensures RunOk(l, audio, calls, n)
  {
    if n > 0 {
      RunsAreOk(l, audio, calls, n - 1);
      RunStep(l, audio, calls, n - 1);
    }
  }

  lemma RunStep(l: Lengths, audio: seq<int>, calls: seq<Call>, n: nat)
    requires n < |calls| && l.Valid() && RunOk(l, audio, calls, n)
    ensures RunOk(l, audio, calls, n + 1)
  {
    hide Read, After, HasRise, Silent;
    var c := After(l, audio, calls, n);
    var d := After(l, audio, calls, n + 1);
    CallCutsOffNextSegment(l, audio, calls, n);
    if d.segments != c.segments {
      var s := d.segments[|d.segments| - 1];
      ReadIsSamples(audio, s.begin, s.end);
      NextSegmentIsGood(l, audio, calls, n, s);
      assert d.segments[..|d.segments| - 1] == c.segments;
      assert audio[..Samples(audio, s.begin)] + s.samples == audio[..Samples(audio, s.end)];
    }
  }

  lemma {:induction false} NextSegmentIsGood(l: Lengths, audio: seq<int>, calls: seq<Call>, n: nat, s: Segment)
    requires n < |calls| && l.Valid() && NextSegment(l, audio, calls, n, s)
    requires After(l, audio, calls, n).position == Samples(audio, s.begin)
    ensures GoodSegment(l, audio, calls, n + 1, s)
  {
    hide Read, HasRise, NoticedRise, AddVadActivity;
    InvHolds(l, audio, calls, n);
    ReadIsSamples(audio, s.begin, s.end);
    if s.end < n { NoRiseInSilence(l, audio, calls, s.begin, s.end, n); }
  }

  /** A segment labelled "A" contains an active frame. */
  lemma {:induction false} LabelledSegmentsAreActive(l: Lengths, audio: seq<int>, calls: seq<Call>, n: nat, i: nat)
    requires n <= |calls| && l.Valid() && i < |After(l, audio, calls, n).segments|
    ensures var s := After(l, audio, calls, n).segments[i];
      s.begin <= s.end < n && (s.containsActive ==> exists k :: s.begin <= k < s.end && calls[k].active)
  {
    RunsAreOk(l, audio, calls, n);
    var s := After(l, audio, calls, n).segments[i];
    if s.containsActive {
      var k :| s.begin <= k < s.end && NoticedRise(l, audio, calls, k);
      assert calls[k].active;
    }
  }

  lemma LastCallCuts(l: Lengths, audio: seq<int>, c: Cut, active: bool)
    requires InOrder(c)
    ensures AddVadActivity(l, audio, c, active, true).cut.cutBeginFrame == c.currentFrame
  {
  }

  /** A run that ends with a last call once the audio is used up leaves the whole input written, once and in order. */
  lemma {:induction false} AudioIsConserved(l: Lengths, audio: seq<int>, calls: seq<Call>)
    requires l.Valid() && calls != [] && calls[|calls| - 1].last && (|calls| - 1) * 160 >= |audio|
    ensures Written(After(l, audio, calls, |calls|).segments) == audio
  {
    hide CutFrame, RunLength, Tile;
    var n := |calls| - 1;
    RunsAreOk(l, audio, calls, n + 1);
    LastCallCuts(l, audio, After(l, audio, calls, n), calls[n].active);
    assert audio[..|audio|] == audio;
  }

  /** The returned frame: 0 with no cut, or the negated start of the next segment. */
  lemma {:induction false} ResultTellsTheCut(l: Lengths, audio: seq<int>, calls: seq<Call>, n: nat)
    requires n < |calls| && l.Valid()
    ensures var c := After(l, audio, calls, n);
      var r := AddVadActivity(l, audio, c, calls[n].active, calls[n].last);
      || (r.frame == 0 && r.cut.cutBeginFrame == c.cutBeginFrame)
      || (r.frame < 0 && r.cut.cutBeginFrame == -r.frame)
  {
  }
}
