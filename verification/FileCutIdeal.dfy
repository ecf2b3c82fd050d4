/** An ideal cutter that knows only the calls, and when file_cut.c writes the segments it would write. */
module FileCutIdeal {
  import opened Wrappers
  import opened FileCut
  import opened FileCutRuns
  import opened FileCutLabels

  // ---- the ideal, a function of the calls ----

  /** The open segment, whether its start was forced, and the segments before it. */
  datatype Ideal = Ideal(begin: nat, startForced: bool, segments: seq<Segment>)

  /** Frame k of a segment begun at b counts as voice setting in, unless it is the first one after a forced cut. */
  predicate SetsInAt(calls: seq<Call>, b: nat, startForced: bool, k: nat) {
    b <= k < |calls| && calls[k].active && if k == b then !startForced else !calls[k - 1].active
  }

  ghost predicate VoiceSetsIn(calls: seq<Call>, b: nat, e: nat, startForced: bool) {
    exists k: nat :: b <= k < e && SetsInAt(calls, b, startForced, k)
  }

  predicate MustCut(l: Lengths, calls: seq<Call>, n: nat, b: nat)
    requires n < |calls|
  {
    calls[n].last || n - b == l.max
  }

  /** Where call n cuts, for a segment begun at b: run lengths are those of the flags. */
  ghost function CutOf(l: Lengths, calls: seq<Call>, n: nat, b: nat, startForced: bool): (r: Option<nat>)
    requires b <= n < |calls|
    ensures r.Some? ==> b <= r.value <= n
  {
    if MustCut(l, calls, n, b) then Some(n)
    else if n == 0 || calls[n - 1].active then None
    else if !calls[n].active then
      if VoiceSetsIn(calls, b, n, startForced) && RunLength(calls, n) >= l.silenceAfter && n - b >= l.min then Some(n)
      else None
    else if RunLength(calls, n) > l.silenceBefore && n - l.silenceBefore - b >= l.min then Some(n - l.silenceBefore)
    else None
  }

  ghost function Ideally(l: Lengths, audio: seq<int>, calls: seq<Call>, n: nat): (i: Ideal)
    requires n <= |calls|
    ensures i.begin <= n
  {
    if n == 0 then Ideal(0, false, [])
    else
      var i := Ideally(l, audio, calls, n - 1);
      match CutOf(l, calls, n - 1, i.begin, i.startForced)
      case None => i
      case Some(e) =>
        ReadIsSamples(audio, i.begin, e);
        var voice := VoiceSetsIn(calls, i.begin, e, i.startForced);
        var samples := audio[Samples(audio, i.begin)..Samples(audio, e)];
        Ideal(e, MustCut(l, calls, n - 1, i.begin), i.segments + [Segment(i.begin, e, voice, samples)])
  }

  // ---- the cut that the program misses, in terms of the calls ----

  /**
   * The run so far is last calls up to frame b, and then silent calls that are not, one more than are handed over to
   * the voice that follows.
   */
  predicate LastsThenSilence(l: Lengths, calls: seq<Call>, n: nat, b: nat)
    requires n < |calls|
  {
    && b + l.silenceBefore + 1 == n && l.silenceBefore + 1 < l.max
    && (forall i :: 0 <= i <= b ==> calls[i].last)
    && (forall i :: b < i < n ==> !calls[i].last)
    && Silent(calls, b, n)
  }

  ghost predicate MissesCut(l: Lengths, calls: seq<Call>, n: nat)
    requires n < |calls|
  {
    l.min == 1 && calls[n].active && !calls[n].last && exists b: nat :: LastsThenSilence(l, calls, n, b)
  }

  lemma {:induction false} StateAfterLasts(l: Lengths, audio: seq<int>, calls: seq<Call>, b: nat)
    requires b < |calls| && l.Valid() && forall i :: 0 <= i <= b ==> calls[i].last
    ensures var c := After(l, audio, calls, b + 1);
      c.cutBeginFrame == b && c.previousAlongFrames == 0 && c.isPreviousActive == calls[b].active && !c.isContainActive
  {
    hide Read;
    if b > 0 { StateAfterLasts(l, audio, calls, b - 1); }
    AfterUnfolds(l, audio, calls, b);
  }

  lemma {:induction false} StateInSilence(l: Lengths, audio: seq<int>, calls: seq<Call>, b: nat, j: nat)
    requires b < j <= |calls| && l.Valid() && j <= b + l.max && forall i :: 0 <= i <= b ==> calls[i].last
    requires Silent(calls, b, j) && forall i :: b < i < j ==> !calls[i].last
    ensures var c := After(l, audio, calls, j);
      c.cutBeginFrame == b && c.previousAlongFrames == j - b - 1 && !c.isPreviousActive && !c.isContainActive
  {
    if j == b + 1 {
      StateAfterLasts(l, audio, calls, b);
    } else {
      StateInSilence(l, audio, calls, b, j - 1);
      hide After;
      AfterUnfolds(l, audio, calls, j - 1);
    }
  }

  /** A counter still at zero has seen forced calls only. */
  lemma {:induction false} ZeroCounter(l: Lengths, audio: seq<int>, calls: seq<Call>, n: nat)
    requires n <= |calls| && l.Valid() && After(l, audio, calls, n).previousAlongFrames == 0
    ensures forall i: nat :: i < n ==> ForcedAt(l, audio, calls, i)
  {
    hide *;
    if n > 0 {
      ZeroCounterStep(l, audio, calls, n - 1);
      ZeroCounter(l, audio, calls, n - 1);
    }
  }

  lemma {:induction false} ZeroCounterStep(l: Lengths, audio: seq<int>, calls: seq<Call>, n: nat)
    requires n < |calls| && After(l, audio, calls, n + 1).previousAlongFrames == 0
    ensures After(l, audio, calls, n).previousAlongFrames == 0 && ForcedAt(l, audio, calls, n)
  {
    hide Read;
  }

  ghost predicate CounterInSilence(l: Lengths, audio: seq<int>, calls: seq<Call>, n: nat)
    requires n <= |calls|
  {
    var c := After(l, audio, calls, n);
    n > 0 && Silent(calls, c.cutBeginFrame, n) ==>
      || c.previousAlongFrames >= n - c.cutBeginFrame
      || (c.previousAlongFrames == n - c.cutBeginFrame - 1 && AllForced(l, audio, calls, c.cutBeginFrame + 1))
  }

  ghost predicate AllForced(l: Lengths, audio: seq<int>, calls: seq<Call>, n: nat) {
    n <= |calls| && forall i: nat :: i < n ==> ForcedAt(l, audio, calls, i)
  }

  /**
   * In a segment silent so far the counter is behind by at most one, and only if all calls up to its start were
   * forced.
   */
  lemma {:induction false} CounterHolds(l: Lengths, audio: seq<int>, calls: seq<Call>, n: nat)
    requires n <= |calls| && l.Valid()
    ensures CounterInSilence(l, audio, calls, n)
  {
    if n > 0 {
      CounterHolds(l, audio, calls, n - 1);
      CounterStep(l, audio, calls, n - 1);
    }
  }

  /** What a silent call does to the counter. */
  lemma {:induction false} SilentCall(l: Lengths, c: Cut, audio: seq<int>, last: bool)
    requires InOrder(c) && l.Valid()
    ensures var d := AddVadActivity(l, audio, c, false, last).cut;
      && (Forced(l, c, last) ==> d.cutBeginFrame == c.currentFrame && d.previousAlongFrames == c.previousAlongFrames)
      && (!Forced(l, c, last) && d.cutBeginFrame != c.cutBeginFrame ==>
            d.cutBeginFrame == c.currentFrame && d.previousAlongFrames == 1)
      && (!Forced(l, c, last) && d.cutBeginFrame == c.cutBeginFrame && !c.isPreviousActive ==>
            d.previousAlongFrames == c.previousAlongFrames + 1
            || (d.previousAlongFrames == 1 && c.cutBeginFrame == c.currentFrame))
  {
    hide Read;
  }

  lemma {:induction false} CounterStep(l: Lengths, audio: seq<int>, calls: seq<Call>, n: nat)
    requires n < |calls| && l.Valid() && CounterInSilence(l, audio, calls, n)
    ensures CounterInSilence(l, audio, calls, n + 1)
  {
    hide After, AddVadActivity, ForcedAt, Forced, HasRise, RunLength;
    var c, d := After(l, audio, calls, n), After(l, audio, calls, n + 1);
    if Silent(calls, d.cutBeginFrame, n + 1) {
      AfterUnfolds(l, audio, calls, n);
      InvHolds(l, audio, calls, n);
      InvHolds(l, audio, calls, n + 1);
      SilentCall(l, c, audio, calls[n].last);
      ForcedIs(l, audio, calls, n);
      if c.previousAlongFrames == 0 { ZeroCounter(l, audio, calls, n); }
    }
  }

  lemma {:induction false} ForcedIs(l: Lengths, audio: seq<int>, calls: seq<Call>, n: nat)
    requires n < |calls|
    ensures ForcedAt(l, audio, calls, n) <==> Forced(l, After(l, audio, calls, n), calls[n].last)
  {
  }

  lemma {:induction false} AllForcedAreLast(l: Lengths, audio: seq<int>, calls: seq<Call>, n: nat)
    requires l.Valid() && l.max > 1 && AllForced(l, audio, calls, n)
    ensures forall i :: 0 <= i < n ==> calls[i].last
  {
    hide After, ForcedAt;
    forall i: nat | i < n ensures calls[i].last {
      if i == 0 {
        FirstForced(l, audio, calls);
      } else {
        ForcedCallCuts(l, audio, calls, i - 1);
        ForcedNow(l, audio, calls, i);
      }
    }
  }

  /** The missed cut, seen from the calls and seen from the program's state. */
  lemma {:induction false} MissesCutIsOneShort(l: Lengths, audio: seq<int>, calls: seq<Call>, n: nat)
    requires n < |calls| && l.Valid()
    ensures MissesCut(l, calls, n) <==> OneShort(l, audio, calls, n)
  {
    hide After, ForcedAt, HasRise, RunLength;
    if MissesCut(l, calls, n) {
      var b: nat :| LastsThenSilence(l, calls, n, b);
      StateInSilence(l, audio, calls, b, n);
      ForcedNow(l, audio, calls, n);
      assert !calls[n - 1].active;
    }
    if OneShort(l, audio, calls, n) {
      var b := After(l, audio, calls, n).cutBeginFrame;
      InvHolds(l, audio, calls, n);
      ForcedNow(l, audio, calls, n);
      CounterHolds(l, audio, calls, n);
      AllForcedAreLast(l, audio, calls, b + 1);
      forall i: nat | b < i < n ensures !calls[i].last {
        if calls[i].last {
          LastIsForced(l, audio, calls, i);
          ForcedIsBorder(l, audio, calls, i, n);
        }
      }
      assert LastsThenSilence(l, calls, n, b);
    }
  }

  // ---- program and ideal side by side ----

  /** The program agrees with the ideal so far, and what the ideal takes for a forced start was one. */
  ghost predicate Linked(l: Lengths, audio: seq<int>, calls: seq<Call>, n: nat)
    requires n <= |calls|
  {
    var c, i := After(l, audio, calls, n), Ideally(l, audio, calls, n);
    && c.cutBeginFrame == i.begin && c.segments == i.segments
    && (n > 0 && i.begin < n && calls[i.begin].active ==>
          && (ForcedAt(l, audio, calls, i.begin) <==> i.startForced)
          && (i.startForced || i.begin == 0 || !calls[i.begin - 1].active))
  }

  lemma {:induction false} RiseIsSettingIn(l: Lengths, audio: seq<int>, calls: seq<Call>, n: nat, e: nat)
    requires e <= n <= |calls| && l.Valid() && Linked(l, audio, calls, n)
    ensures var i := Ideally(l, audio, calls, n);
      HasRise(l, audio, calls, i.begin, e) <==> VoiceSetsIn(calls, i.begin, e, i.startForced)
  {
    hide After, Ideally, ForcedAt;
    var i := Ideally(l, audio, calls, n);
    forall k: nat | i.begin <= k < e
      ensures NoticedRise(l, audio, calls, k) <==> SetsInAt(calls, i.begin, i.startForced, k)
    {
      if k > i.begin && ForcedAt(l, audio, calls, k) { ForcedIsBorder(l, audio, calls, k, n); }
    }
  }

  lemma {:induction false} CutsAreTheSame(l: Lengths, audio: seq<int>, calls: seq<Call>, n: nat)
    requires n < |calls| && l.Valid() && Linked(l, audio, calls, n)
    ensures var i := Ideally(l, audio, calls, n);
      var r, q := CutOf(l, calls, n, i.begin, i.startForced), IdealCut(l, audio, calls, n, i.begin);
      (r.Some? <==> q.Some?) && (r.Some? ==> r.value == q.value)
  {
    hide After, Ideally, HasRise, VoiceSetsIn, RunLength;
    RiseIsSettingIn(l, audio, calls, n, n);
  }

  lemma {:induction false} IdeallyUnfolds(l: Lengths, audio: seq<int>, calls: seq<Call>, n: nat)
    requires n < |calls|
    ensures var i, j := Ideally(l, audio, calls, n), Ideally(l, audio, calls, n + 1);
      var r := CutOf(l, calls, n, i.begin, i.startForced);
      && (r.None? ==> j == i)
      && (r.Some? ==>
            && Samples(audio, i.begin) <= Samples(audio, r.value)
            && j.begin == r.value && j.startForced == MustCut(l, calls, n, i.begin)
            && j.segments == i.segments +
              [Segment(i.begin, r.value, VoiceSetsIn(calls, i.begin, r.value, i.startForced),
                       audio[Samples(audio, i.begin)..Samples(audio, r.value)])])
  {
    hide CutOf, VoiceSetsIn;
    var i := Ideally(l, audio, calls, n);
    var r := CutOf(l, calls, n, i.begin, i.startForced);
    if r.Some? { ReadIsSamples(audio, i.begin, r.value); }
  }

  /** The segment that call n cuts off, when it cuts as the ideal does. */
  lemma {:induction false} SegmentsAreTheSame(l: Lengths, audio: seq<int>, calls: seq<Call>, n: nat)
    requires n < |calls| && l.Valid() && Linked(l, audio, calls, n) && CutsAsIdeal(l, audio, calls, n)
    ensures var d, j := After(l, audio, calls, n + 1), Ideally(l, audio, calls, n + 1);
      d.cutBeginFrame == j.begin && d.segments == j.segments
  {
    hide After, Ideally, CutOf, AddVadActivity, HasRise, VoiceSetsIn, IdealCut, Samples, Tile, Written;
    var c, i := After(l, audio, calls, n), Ideally(l, audio, calls, n);
    var d := After(l, audio, calls, n + 1);
    AfterUnfolds(l, audio, calls, n);
    CutsAreTheSame(l, audio, calls, n);
    IdeallyUnfolds(l, audio, calls, n);
    var r := CutOf(l, calls, n, i.begin, i.startForced);
    if r.Some? {
      RunsAreOk(l, audio, calls, n + 1);
      RiseIsSettingIn(l, audio, calls, n, r.value);
      var s := d.segments[|c.segments|];
      assert GoodSegment(l, audio, calls, n + 1, s);
      assert d.segments == d.segments[..|c.segments|] + [s];
    }
  }

  /** What a forced start, and voice at an unforced one, mean for the ideal after call n. */
  lemma {:induction false} StartIsLinked(l: Lengths, audio: seq<int>, calls: seq<Call>, n: nat)
    requires n < |calls| && l.Valid() && Linked(l, audio, calls, n)
    requires After(l, audio, calls, n + 1).cutBeginFrame == Ideally(l, audio, calls, n + 1).begin
    ensures var j := Ideally(l, audio, calls, n + 1);
      j.begin <= n && calls[j.begin].active ==>
        && (ForcedAt(l, audio, calls, j.begin) <==> j.startForced)
        && (j.startForced || j.begin == 0 || !calls[j.begin - 1].active)
  {
    hide After, Ideally, AddVadActivity, HasRise, VoiceSetsIn, RunLength;
    var c, d := After(l, audio, calls, n), After(l, audio, calls, n + 1);
    var i, j := Ideally(l, audio, calls, n), Ideally(l, audio, calls, n + 1);
    IdeallyUnfolds(l, audio, calls, n);
    ForcedNow(l, audio, calls, n);
    InvHolds(l, audio, calls, n);
    var r := CutOf(l, calls, n, i.begin, i.startForced);
    if r == None {
      if n == 0 { assert i.begin == 0 && !i.startForced by { IdealStart(l, audio, calls); } }
    } else if r.value == n {
      if !ForcedAt(l, audio, calls, n) && calls[n].active && n > 0 {
        assert c.cutBeginFrame != n;
        UnforcedVoiceIsRise(l, audio, calls, n);
      }
    } else {
      CutsFallInSilence(l, audio, calls, n);
    }
  }

  lemma {:induction false} IdealStart(l: Lengths, audio: seq<int>, calls: seq<Call>)
    ensures Ideally(l, audio, calls, 0) == Ideal(0, false, [])
  {
  }

  lemma {:induction false} LinkStep(l: Lengths, audio: seq<int>, calls: seq<Call>, n: nat)
    requires n < |calls| && l.Valid() && Linked(l, audio, calls, n) && !MissesCut(l, calls, n)
    ensures Linked(l, audio, calls, n + 1)
  {
    hide After, Ideally, MissesCut, OneShort, CutsAsIdeal, ForcedAt;
    MissesCutIsOneShort(l, audio, calls, n);
    CutsAreIdealUnlessOneShort(l, audio, calls, n);
    SegmentsAreTheSame(l, audio, calls, n);
    StartIsLinked(l, audio, calls, n);
  }

  lemma {:induction false} LinkedAtStart(l: Lengths, audio: seq<int>, calls: seq<Call>)
    ensures Linked(l, audio, calls, 0)
  {
  }

  lemma {:induction false} LinkHolds(l: Lengths, audio: seq<int>, calls: seq<Call>, n: nat)
    requires n <= |calls| && l.Valid() && forall m: nat :: m < n ==> !MissesCut(l, calls, m)
    ensures Linked(l, audio, calls, n)
  {
    hide MissesCut, Linked;
    if n == 0 {
      LinkedAtStart(l, audio, calls);
    } else {
      LinkHolds(l, audio, calls, n - 1);
      LinkStep(l, audio, calls, n - 1);
    }
  }

  /** At the cut it misses the program writes nothing, while the ideal writes a segment. */
  lemma {:induction false} MissedCutShows(l: Lengths, audio: seq<int>, calls: seq<Call>, n: nat)
    requires n < |calls| && l.Valid() && Linked(l, audio, calls, n) && MissesCut(l, calls, n)
    ensures After(l, audio, calls, n + 1).segments != Ideally(l, audio, calls, n + 1).segments
  {
    hide Ideally, After, MissesCut, HasRise, ForcedAt, Read;
    MissesCutIsOneShort(l, audio, calls, n);
    AfterUnfolds(l, audio, calls, n);
    InvHolds(l, audio, calls, n);
    ForcedIs(l, audio, calls, n);
    CutsAreTheSame(l, audio, calls, n);
    IdeallyUnfolds(l, audio, calls, n);
  }

  /** Call by call the program has written the segments that the ideal writes. */
  ghost predicate SameSegments(l: Lengths, audio: seq<int>, calls: seq<Call>) {
    forall n: nat :: n <= |calls| ==> After(l, audio, calls, n).segments == Ideally(l, audio, calls, n).segments
  }

  /**
   * Over every run the program writes exactly the segments of the ideal cutter, borders, labels and samples, if and
   * only if no call is the one cut it misses.
   */
  lemma {:induction false} ProgramIsIdealIff(l: Lengths, audio: seq<int>, calls: seq<Call>)
    requires l.Valid()
    ensures SameSegments(l, audio, calls) <==> forall n: nat :: n < |calls| ==> !MissesCut(l, calls, n)
  {
    hide After, Ideally, MissesCut;
    if forall n: nat :: n < |calls| ==> !MissesCut(l, calls, n) {
      forall n: nat | n <= |calls|
        ensures After(l, audio, calls, n).segments == Ideally(l, audio, calls, n).segments
      {
        LinkHolds(l, audio, calls, n);
      }
    } else {
      var n := FirstMiss(l, calls);
      LinkHolds(l, audio, calls, n);
      MissedCutShows(l, audio, calls, n);
    }
  }

  lemma {:induction false} FirstMiss(l: Lengths, calls: seq<Call>) returns (n: nat)
    requires exists m: nat :: m < |calls| && MissesCut(l, calls, m)
    ensures n < |calls| && MissesCut(l, calls, n) && forall m: nat :: m < n ==> !MissesCut(l, calls, m)
  {
    hide MissesCut;
    n := 0;
    while !MissesCut(l, calls, n)
      invariant n < |calls| && forall m: nat :: m < n ==> !MissesCut(l, calls, m)
      decreases |calls| - n
    {
      if n + 1 == |calls| {
        var m: nat :| m < |calls| && MissesCut(l, calls, m);
        assert false;
      }
      n := n + 1;
    }
  }

  /** With the lengths of common.h no call is, so program and ideal write the same segments. */
  lemma {:induction false} ProgramIsIdealInCommonH(audio: seq<int>, calls: seq<Call>)
    ensures SameSegments(Lengths(25, 30, 500, 1000), audio, calls)
  {
    hide SameSegments;
    ProgramIsIdealIff(COMMON_H, audio, calls);
  }
}
