/** segment.cc: an online segmenter that looks at voice flags in windows of 15 frames. */
module SpeechSegments {
  import opened Wrappers

  const WINDOW := 15
  const MIN_ACTIVE := 5
  const MIN_SPAN := 200
  const MIN_FINAL := 100

  datatype Segmenter = Segmenter(acts: seq<int>, starts: seq<nat>, ends: seq<nat>, windows: seq<nat>, lastSegIdx: nat) {
    predicate Open() { |starts| == |ends| + 1 }
  }

  // ---- the specification ----

  /** How many frames are flagged active. */
  function Ones(acts: seq<int>): (n: nat)
    ensures n <= |acts|
  {
    if acts == [] then 0 else Ones(acts[..|acts| - 1]) + if acts[|acts| - 1] == 1 then 1 else 0
  }

  function Sum(acts: seq<int>): int {
    if acts == [] then 0 else Sum(acts[..|acts| - 1]) + acts[|acts| - 1]
  }

  /** The loops count and add as they should: Ones is a number of occurrences, Sum is additive. */
  lemma {:induction false} OnesAreOccurrences(acts: seq<int>)
    ensures Ones(acts) == multiset(acts)[1]
  {
    if acts != [] {
      var n := |acts| - 1;
      OnesAreOccurrences(acts[..n]);
      assert acts == acts[..n] + [acts[n]];
    }
  }

  lemma {:induction false} SumIsAdditive(a: seq<int>, b: seq<int>)
    ensures Sum(a + b) == Sum(a) + Sum(b)
    ensures |b| == 1 ==> Sum(b) == b[0]
  {
    if b == [] {
      assert a + b == a;
    } else {
      var n := |b| - 1;
      assert (a + b)[..|a + b| - 1] == a + b[..n];
      SumIsAdditive(a, b[..n]);
    }
  }

  /** Voice flags are 0 or 1. */
  predicate AreFlags(acts: seq<int>) { forall i :: 0 <= i < |acts| ==> acts[i] == 0 || acts[i] == 1 }

  /** Of flags, the sum is the number of active frames. */
  lemma {:induction false} SumOfFlags(acts: seq<int>)
    requires AreFlags(acts)
    ensures Sum(acts) == multiset(acts)[1]
  {
    if acts != [] {
      var n := |acts| - 1;
      SumOfFlags(acts[..n]);
      assert acts == acts[..n] + [acts[n]];
    }
  }

  /** 1 for speech, 2 for silence, 0 for neither. */
  function WindowStatus(window: seq<int>): nat {
    if Ones(window) >= MIN_ACTIVE then 1 else if Ones(window) == 0 then 2 else 0
  }

  /** At least five active frames are speech, none silence. */
  lemma StatusIs(window: seq<int>)
    ensures var active := multiset(window)[1];
      WindowStatus(window) == if active >= 5 then 1 else if active == 0 then 2 else 0
  {
    hide Ones;
    OnesAreOccurrences(window);
  }

  function Created(): Segmenter { Segmenter([], [], [], [], 0) }

  function WithWindow(s: Segmenter, status: nat, last: bool): Segmenter
    requires s.acts != []
  {
    var now := |s.acts| - 1;
    var t := s.(windows := s.windows + [status]);
    var st := if s.starts == [] then 0 else s.starts[|s.starts| - 1];
    if status == 1 && |s.starts| == |s.ends| then t.(starts := s.starts + [now])
    else if status == 2 && ((s.Open() && now - st > MIN_SPAN) || last)
        then t.(ends := s.ends + [now], lastSegIdx := now)
    else t
  }

  function WithAct(s: Segmenter, act: int, last: bool): (t: Segmenter)
    ensures t.acts == s.acts + [act]
  {
    var t := s.(acts := s.acts + [act]);
    if |t.acts| % WINDOW == 0 then WithWindow(t, WindowStatus(t.acts[|t.acts| - WINDOW..]), last) else t
  }

  /** More than half of the frames from st up to, and without, end. */
  predicate MostlyActive(acts: seq<int>, st: nat, end: nat)
    requires st <= end <= |acts|
  {
    2 * Sum(acts[st..end]) > end - st
  }

  predicate InRange(s: Segmenter) {
    forall i :: 0 <= i < |s.starts| ==> s.starts[i] < |s.acts|
  }

  function Ended(s: Segmenter): Segmenter
    requires InRange(s)
  {
    if !s.Open() then s
    else
      var st, n := s.starts[|s.starts| - 1], |s.acts|;
      s.(ends := s.ends + (if n - st > MIN_FINAL && MostlyActive(s.acts, st, n - 1) then [n - 1] else []),
          lastSegIdx := n - 1)
  }

  // ---- the class ----

  lemma Division(n: real, size: real)
    requires size != 0.0
    ensures n / size * size == n
    ensures size > 0.0 ==> (n / size > 0.5 <==> n > 0.5 * size)
  {
    var q := n / size;
    assert (q - 0.5) * size == n - 0.5 * size;
    if size > 0.0 {
      if q > 0.5 { assert (q - 0.5) * size > 0.0; } else { assert (0.5 - q) * size >= 0.0; }
    }
  }

  lemma LastWindow(nframes: nat)
    requires nframes > 0 && nframes % WINDOW == 0
    ensures var i := (nframes - 1) / WINDOW; i * WINDOW == nframes - WINDOW && (i + 1) * WINDOW == nframes
  {
  }

  class Acts {
    var acts: seq<int>
    var segStarts: seq<nat>
    var segEnds: seq<nat>
    var windStats: seq<nat>
    var lastSegIdx: nat

    ghost function Value(): Segmenter
      reads this
    {
      Segmenter(acts, segStarts, segEnds, windStats, lastSegIdx)
    }

    constructor ()
      ensures Value() == Created()
    {
      acts, segStarts, segEnds, windStats, lastSegIdx := [], [], [], [], 0;
    }

    method Reset()
      modifies this
      ensures Value() == Created()
    {
      acts, segStarts, segEnds, windStats, lastSegIdx := [], [], [], [], 0;
    }

    method CheckWindow(windowIdx: nat) returns (status: nat)
      requires (windowIdx + 1) * WINDOW <= |acts|
      ensures status == WindowStatus(acts[windowIdx * WINDOW..(windowIdx + 1) * WINDOW])
    {
      var st := windowIdx * WINDOW;
      ghost var window := acts[st..(windowIdx + 1) * WINDOW];
      var nacts := 0;
      for i := 0 to WINDOW
        invariant nacts == Ones(window[..i])
      {
        assert window[..i + 1][..i] == window[..i];
        if acts[st + i] == 1 { nacts := nacts + 1; }
      }
      assert window[..WINDOW] == window;
      if nacts >= MIN_ACTIVE { return 1; } else if nacts == 0 { return 2; } else { return 0; }
    }

    method AddAct(act: int, last: bool)
      modifies this
      ensures Value() == WithAct(old(Value()), act, last)
    {
      hide WindowStatus;
      acts := acts + [act];
      var nframes := |acts|;
      if nframes % WINDOW == 0 {
        var windowIdx := (nframes - 1) / WINDOW;
        LastWindow(nframes);
        var status := CheckWindow(windowIdx);
        assert acts[windowIdx * WINDOW..(windowIdx + 1) * WINDOW] == acts[nframes - WINDOW..];
        windStats := windStats + [status];
        if status == 1 {
          if |segStarts| == |segEnds| { segStarts := segStarts + [nframes - 1]; }
        } else if status == 2 {
          var st := 0;
          if |segStarts| > 0 { st := segStarts[|segStarts| - 1]; }
          var dur := nframes - 1 - st;
          if (|segStarts| == |segEnds| + 1 && dur > 200) || last {
            segEnds := segEnds + [nframes - 1];
            lastSegIdx := nframes - 1;
          }
        }
      }
    }

    /** The share of active frames; None for the empty range, where the division has no value. */
    method ActPercent(st: nat, end: nat) returns (r: Option<real>)
      requires st <= |acts| && end <= |acts|
      ensures r == None <==> st == end
      ensures r != None && st < end ==> (r.value > 0.5 <==> MostlyActive(acts, st, end))
      ensures r != None ==> r.value * (end - st) as real == (if st <= end then Sum(acts[st..end]) else 0) as real
    {
      var size := end - st;
      var n := CountActs(st, end);
      if size == 0 { return None; }
      r := Some(n as real / size as real);
      Division(n as real, size as real);
    }

    /** The loop of act_percent. */
    method CountActs(st: nat, end: nat) returns (n: int)
      requires st <= |acts| && end <= |acts|
      ensures n == if st <= end then Sum(acts[st..end]) else 0
    {
      n := 0;
      var i := st;
      while i < end
        invariant st <= i && (i <= end || i == st)
        invariant n == if i <= end then Sum(acts[st..i]) else 0
      {
        assert acts[st..i + 1][..i - st] == acts[st..i];
        n := n + acts[i];
        i := i + 1;
      }
    }

    method End()
      requires InRange(Value())
      modifies this
      ensures Value() == Ended(old(Value()))
    {
      if |segStarts| == |segEnds| + 1 {
        var nframes := |acts|;
        var st := segStarts[|segStarts| - 1];
        var dur := nframes - st;
        if dur > 100 {
          var share := ActPercent(st, nframes - 1);
          if share.Some? && share.value > 0.5 { segEnds := segEnds + [nframes - 1]; }
        }
        lastSegIdx := nframes - 1;
      }
    }
  }

  // ---- what a segmentation is, without running anything ----

  /** Windows are 15 frames long; the first ends at frame 14. */
  predicate WindowEnd(f: nat) { (f + 1) % 15 == 0 }

  /** Frame f ends a window with at least five active frames. */
  predicate SpeechMark(acts: seq<int>, f: nat) {
    f < |acts| && WindowEnd(f) && multiset(acts[f - 14..f + 1])[1] >= 5
  }

  /** Frame f ends a window with no active frame. */
  predicate SilenceMark(acts: seq<int>, f: nat) {
    f < |acts| && WindowEnd(f) && multiset(acts[f - 14..f + 1])[1] == 0
  }

  ghost predicate NoSpeech(acts: seq<int>, from: nat, to: nat) {
    forall f: nat :: from <= f < to ==> !SpeechMark(acts, f)
  }

  ghost predicate NoSilence(acts: seq<int>, from: nat, to: nat) {
    forall f: nat :: from <= f < to ==> !SilenceMark(acts, f)
  }

  /** The first frame that the start of segment i could be. */
  function Free(ends: seq<nat>, i: nat): nat
    requires i <= |ends|
  {
    if i == 0 then 0 else ends[i - 1] + 1
  }

  /** f is the first mark of speech from frame `from` on. */
  ghost predicate FirstSpeech(acts: seq<int>, from: nat, f: nat) {
    from <= f && SpeechMark(acts, f) && NoSpeech(acts, from, f)
  }

  /** f is the first mark of silence more than 200 frames after st. */
  ghost predicate FirstSilence(acts: seq<int>, st: nat, f: nat) {
    st + 200 < f && SilenceMark(acts, f) && NoSilence(acts, st + 201, f)
  }

  /**
   * Every segment begins at the first speech after the one before it, ends at the first silence late enough, and none
   * is missing.
   */
  ghost predicate IsSegmentation(acts: seq<int>, starts: seq<nat>, ends: seq<nat>) {
    && |ends| <= |starts| <= |ends| + 1
    && (forall i :: 0 <= i < |starts| ==> FirstSpeech(acts, Free(ends, i), starts[i]))
    && (forall i :: 0 <= i < |ends| ==> FirstSilence(acts, starts[i], ends[i]))
    && if |starts| == |ends| then NoSpeech(acts, Free(ends, |ends|), |acts|)
       else NoSilence(acts, starts[|ends|] + 201, |acts|)
  }

  // ---- runs ----

  datatype Call = Call(act: int, last: bool)

  function Run(calls: seq<Call>): (s: Segmenter)
    ensures |s.acts| == |calls|
  {
    if calls == [] then Created() else
      var c := calls[|calls| - 1];
      WithAct(Run(calls[..|calls| - 1]), c.act, c.last)
  }

  /** The program fed these flags, with `last` left at its default. */
  function Segmented(acts: seq<int>): Segmenter {
    Run(seq(|acts|, i requires 0 <= i < |acts| => Call(acts[i], false)))
  }

  lemma SegmentedUnfolds(acts: seq<int>)
    requires acts != []
    ensures var n := |acts| - 1; Segmented(acts) == WithAct(Segmented(acts[..n]), acts[n], false)
  {
    hide WithAct;
    var n := |acts| - 1;
    var calls := seq(|acts|, i requires 0 <= i < |acts| => Call(acts[i], false));
    assert calls[..n] == seq(|acts[..n]|, i requires 0 <= i < |acts[..n]| => Call(acts[..n][i], false));
  }

  lemma MarksStay(acts: seq<int>, act: int, f: nat)
    requires f < |acts|
    ensures SpeechMark(acts + [act], f) == SpeechMark(acts, f)
    ensures SilenceMark(acts + [act], f) == SilenceMark(acts, f)
  {
    if WindowEnd(f) { assert (acts + [act])[f - 14..f + 1] == acts[f - 14..f + 1]; }
  }

  lemma StatusNow(before: seq<int>, act: int)
    ensures var acts := before + [act]; var f := |before|;
      if |acts| % WINDOW != 0 then !SpeechMark(acts, f) && !SilenceMark(acts, f)
      else
        var status := WindowStatus(acts[|acts| - WINDOW..]);
        && (SpeechMark(acts, f) <==> status == 1) && (SilenceMark(acts, f) <==> status == 2)
  {
    hide WindowStatus;
    var acts, f := before + [act], |before|;
    if WindowEnd(f) {
      assert acts[f - 14..f + 1] == acts[|acts| - WINDOW..];
      StatusIs(acts[|acts| - WINDOW..]);
    }
  }

  /** The two lists after a call, in terms of marks. */
  lemma MarksNow(s: Segmenter, act: int, last: bool)
    ensures var acts := s.acts + [act]; var f := |s.acts|; var t := WithAct(s, act, last);
      && !(SpeechMark(acts, f) && SilenceMark(acts, f))
      && t.starts == (if SpeechMark(acts, f) && |s.starts| == |s.ends| then s.starts + [f] else s.starts)
      && t.ends ==
        (if SilenceMark(acts, f) && ((s.Open() && f - s.starts[|s.ends|] > 200) || last)
         then s.ends + [f] else s.ends)
  {
    hide WindowStatus, SpeechMark, SilenceMark;
    StatusNow(s.acts, act);
  }

  lemma FirstsStay(acts: seq<int>, act: int, from: nat, f: nat)
    ensures FirstSpeech(acts, from, f) ==> FirstSpeech(acts + [act], from, f)
    ensures FirstSilence(acts, from, f) ==> FirstSilence(acts + [act], from, f)
  {
    hide SpeechMark, SilenceMark;
    MarksAreFrames(acts);
    forall g: nat | g < |acts|
      ensures SpeechMark(acts + [act], g) == SpeechMark(acts, g) && SilenceMark(acts + [act], g) == SilenceMark(acts, g)
    {
      MarksStay(acts, act, g);
    }
  }

  lemma GapsStay(acts: seq<int>, act: int, from: nat)
    ensures NoSpeech(acts, from, |acts|) ==> NoSpeech(acts + [act], from, |acts|)
    ensures NoSilence(acts, from, |acts|) ==> NoSilence(acts + [act], from, |acts|)
  {
    hide SpeechMark, SilenceMark;
    forall g: nat | g < |acts|
      ensures SpeechMark(acts + [act], g) == SpeechMark(acts, g) && SilenceMark(acts + [act], g) == SilenceMark(acts, g)
    {
      MarksStay(acts, act, g);
    }
  }

  lemma SegmentationStep(s: Segmenter, act: int)
    requires IsSegmentation(s.acts, s.starts, s.ends)
    ensures var t := WithAct(s, act, false); IsSegmentation(t.acts, t.starts, t.ends)
  {
    hide WithAct, SpeechMark, SilenceMark, FirstSpeech, FirstSilence, NoSpeech, NoSilence;
    MarksNow(s, act, false);
    BoundsOfLast(s.acts, s.starts, s.ends);
    var t, f := WithAct(s, act, false), |s.acts|;
    forall i: nat | i < |s.starts| ensures FirstSpeech(t.acts, Free(s.ends, i), s.starts[i]) {
      FirstsStay(s.acts, act, Free(s.ends, i), s.starts[i]);
    }
    forall i: nat | i < |s.ends| ensures FirstSilence(t.acts, s.starts[i], s.ends[i]) {
      FirstsStay(s.acts, act, s.starts[i], s.ends[i]);
    }
    if |s.starts| == |s.ends| {
      GapsStay(s.acts, act, Free(s.ends, |s.ends|));
      NowSpeech(t.acts, Free(s.ends, |s.ends|), f);
    } else {
      GapsStay(s.acts, act, s.starts[|s.ends|] + 201);
      NowSilence(t.acts, s.starts[|s.ends|], f);
    }
    forall i: nat | i < |t.starts| ensures FirstSpeech(t.acts, Free(t.ends, i), t.starts[i]) {
      assert Free(t.ends, i) == Free(s.ends, i);
    }
    assert forall i :: 0 <= i < |t.ends| ==> FirstSilence(t.acts, t.starts[i], t.ends[i]);
  }

  lemma NowSpeech(acts: seq<int>, from: nat, f: nat)
    requires f + 1 == |acts| && NoSpeech(acts, from, f) && from <= f
    ensures SpeechMark(acts, f) ==> FirstSpeech(acts, from, f) && NoSilence(acts, f + 201, |acts|)
    ensures !SpeechMark(acts, f) ==> NoSpeech(acts, from, |acts|)
  {
    hide SpeechMark, SilenceMark;
  }

  lemma NowSilence(acts: seq<int>, st: nat, f: nat)
    requires f + 1 == |acts| && NoSilence(acts, st + 201, f)
    ensures SilenceMark(acts, f) && f - st > 200 ==> FirstSilence(acts, st, f)
    ensures !(SilenceMark(acts, f) && f - st > 200) ==> NoSilence(acts, st + 201, |acts|)
    ensures NoSpeech(acts, f + 1, |acts|)
  {
    hide SpeechMark, SilenceMark;
  }

  lemma BoundsOfLast(acts: seq<int>, starts: seq<nat>, ends: seq<nat>)
    requires IsSegmentation(acts, starts, ends)
    ensures Free(ends, |ends|) <= |acts|
  {
    hide SpeechMark, SilenceMark, NoSpeech, NoSilence, FirstSpeech;
    MarksAreFrames(acts);
    if |ends| > 0 { assert FirstSilence(acts, starts[|ends| - 1], ends[|ends| - 1]); }
  }

  lemma MarksAreFrames(acts: seq<int>)
    ensures forall f: nat :: SpeechMark(acts, f) || SilenceMark(acts, f) ==> f < |acts|
  {
  }

  lemma NothingToSegment()
    ensures Segmented([]) == Created() && IsSegmentation([], [], [])
  {
  }

  lemma {:induction false} RunIsSegmentation(acts: seq<int>)
    ensures var s := Segmented(acts); s.acts == acts && IsSegmentation(acts, s.starts, s.ends)
  {
    hide Segmented, IsSegmentation, WithWindow;
    if acts == [] {
      NothingToSegment();
    } else {
      var n := |acts| - 1;
      RunIsSegmentation(acts[..n]);
      SegmentationStep(Segmented(acts[..n]), acts[n]);
      SegmentedUnfolds(acts);
      assert acts == acts[..n] + [acts[n]];
    }
  }

  lemma FirstIsUnique(acts: seq<int>, from: nat, f: nat, g: nat)
    ensures FirstSpeech(acts, from, f) && FirstSpeech(acts, from, g) ==> f == g
    ensures FirstSilence(acts, from, f) && FirstSilence(acts, from, g) ==> f == g
    ensures FirstSpeech(acts, from, f) ==> !NoSpeech(acts, from, |acts|)
    ensures FirstSilence(acts, from, f) ==> !NoSilence(acts, from + 201, |acts|)
  {
    hide SpeechMark, SilenceMark;
    MarksAreFrames(acts);
  }

  lemma {:induction false} SameStart(acts: seq<int>, s: seq<nat>, e: seq<nat>, s2: seq<nat>, e2: seq<nat>, i: nat)
    requires IsSegmentation(acts, s, e) && IsSegmentation(acts, s2, e2) && i < |s|
    ensures i < |s2| && s2[i] == s[i]
    decreases i, 0
  {
    hide FirstSpeech, FirstSilence, NoSpeech, NoSilence;
    if i > 0 { SameEnd(acts, s, e, s2, e2, i - 1); }
    FirstIsUnique(acts, Free(e, i), s[i], if i < |s2| then s2[i] else 0);
  }

  lemma {:induction false} SameEnd(acts: seq<int>, s: seq<nat>, e: seq<nat>, s2: seq<nat>, e2: seq<nat>, i: nat)
    requires IsSegmentation(acts, s, e) && IsSegmentation(acts, s2, e2) && i < |e|
    ensures i < |e2| && e2[i] == e[i]
    decreases i, 1
  {
    hide FirstSpeech, FirstSilence, NoSpeech, NoSilence;
    SameStart(acts, s, e, s2, e2, i);
    FirstIsUnique(acts, s[i], e[i], if i < |e2| then e2[i] else 0);
  }

  lemma SegmentationIsUnique(acts: seq<int>, s: seq<nat>, e: seq<nat>, s2: seq<nat>, e2: seq<nat>)
    requires IsSegmentation(acts, s, e) && IsSegmentation(acts, s2, e2)
    ensures s == s2 && e == e2
  {
    hide IsSegmentation;
    forall i: nat | i < |s| ensures i < |s2| && s2[i] == s[i] { SameStart(acts, s, e, s2, e2, i); }
    forall i: nat | i < |s2| ensures i < |s| && s[i] == s2[i] { SameStart(acts, s2, e2, s, e, i); }
    forall i: nat | i < |e| ensures i < |e2| && e2[i] == e[i] { SameEnd(acts, s, e, s2, e2, i); }
    forall i: nat | i < |e2| ensures i < |e| && e[i] == e2[i] { SameEnd(acts, s2, e2, s, e, i); }
    if |s| > |s2| { assert s[|s2|] == s[|s2|]; SameStart(acts, s, e, s2, e2, |s2|); }
    if |s2| > |s| { SameStart(acts, s2, e2, s, e, |s|); }
    if |e| > |e2| { SameEnd(acts, s, e, s2, e2, |e2|); }
    if |e2| > |e| { SameEnd(acts, s2, e2, s, e, |e|); }
  }

  /** The program finds the segmentation of its input, and there is no other. */
  lemma RunFindsTheSegmentation(acts: seq<int>, starts: seq<nat>, ends: seq<nat>)
    ensures var s := Segmented(acts); IsSegmentation(acts, starts, ends) <==> starts == s.starts && ends == s.ends
  {
    hide IsSegmentation, Segmented;
    RunIsSegmentation(acts);
    if IsSegmentation(acts, starts, ends) {
      SegmentationIsUnique(acts, starts, ends, Segmented(acts).starts, Segmented(acts).ends);
    }
  }

  /** sts[0] < ends[0] < sts[1] < ends[1] and so on, with at most one start left open. */
  predicate Interleaves(starts: seq<nat>, ends: seq<nat>) {
    && |ends| <= |starts| <= |ends| + 1
    && (forall i :: 0 <= i < |ends| ==> starts[i] < ends[i])
    && (forall i :: 0 < i < |starts| ==> ends[i - 1] < starts[i])
  }

  ghost predicate Status(window: seq<int>, status: nat) {
    var active := multiset(window)[1];
    status == if active >= 5 then 1 else if active == 0 then 2 else 0
  }

  /** Window i of the frames has this status. */
  ghost predicate WindowHas(acts: seq<int>, i: nat, status: nat) {
    15 * i + 15 <= |acts| && Status(acts[15 * i..15 * i + 15], status)
  }

  /** Every full window has its status, by its number of active frames; the last end is remembered. */
  ghost predicate Kept(s: Segmenter) {
    && |s.windows| == |s.acts| / 15
    && (forall i :: 0 <= i < |s.windows| ==> WindowHas(s.acts, i, s.windows[i]))
    && s.lastSegIdx == if s.ends == [] then 0 else s.ends[|s.ends| - 1]
  }

  lemma {:induction false} RunKeepsWindows(calls: seq<Call>)
    ensures Kept(Run(calls))
  {
    hide WindowStatus;
    if calls != [] {
      var n := |calls| - 1;
      RunKeepsWindows(calls[..n]);
      KeptStep(Run(calls[..n]), calls[n]);
    }
  }

  lemma KeptStep(s: Segmenter, c: Call)
    requires Kept(s)
    ensures Kept(WithAct(s, c.act, c.last))
  {
    hide WindowHas, WindowStatus;
    var t := WithAct(s, c.act, c.last);
    forall i: nat | i < |s.windows| ensures WindowHas(t.acts, i, s.windows[i]) {
      WindowStays(s.acts, c.act, i, s.windows[i]);
    }
    if |t.acts| % WINDOW == 0 { NewWindow(t.acts, |s.windows|); }
  }

  lemma WindowStays(acts: seq<int>, act: int, i: nat, status: nat)
    requires WindowHas(acts, i, status)
    ensures WindowHas(acts + [act], i, status)
  {
    assert (acts + [act])[15 * i..15 * i + 15] == acts[15 * i..15 * i + 15];
  }

  lemma NewWindow(acts: seq<int>, i: nat)
    requires |acts| == 15 * i + 15
    ensures WindowHas(acts, i, WindowStatus(acts[|acts| - WINDOW..]))
  {
    hide WindowStatus;
    StatusIs(acts[|acts| - WINDOW..]);
    assert acts[|acts| - WINDOW..] == acts[15 * i..15 * i + 15];
  }

  /** Order, span and windows of the segments of a run. */
  lemma SegmentsInterleave(acts: seq<int>)
    ensures var s := Segmented(acts);
      && s.acts == acts && Interleaves(s.starts, s.ends) && InRange(s)
      && (forall i :: 0 <= i < |s.ends| ==> s.ends[i] - s.starts[i] > 200 && SilenceMark(acts, s.ends[i]))
      && (forall i :: 0 <= i < |s.starts| ==> SpeechMark(acts, s.starts[i]))
  {
    hide SpeechMark, SilenceMark, Segmented;
    RunIsSegmentation(acts);
    MarksAreFrames(acts);
    var s := Segmented(acts);
    assert forall i :: 0 <= i < |s.starts| ==> FirstSpeech(acts, Free(s.ends, i), s.starts[i]);
  }

  /** end() closes the open segment if and only if it is long enough and mostly active; otherwise it stays open. */
  lemma EndClosesTheOpenSegment(acts: seq<int>)
    ensures var s := Segmented(acts); InRange(s) && var t := Ended(s);
      && Interleaves(t.starts, t.ends) && t.starts == s.starts && s.ends <= t.ends
      && (t.ends != s.ends <==>
          s.Open() && |acts| - s.starts[|s.ends|] > 100 && MostlyActive(acts, s.starts[|s.ends|], |acts| - 1))
      && (t.ends != s.ends ==> t.ends == s.ends + [|acts| - 1] && t.ends[|s.ends|] - s.starts[|s.ends|] >= 100)
      && t.lastSegIdx == (if s.Open() then |acts| - 1 else s.lastSegIdx) && t.windows == s.windows && t.acts == acts
  {
    hide *;
    SegmentsInterleave(acts);
    EndOf(Segmented(acts));
  }

  /** Of flags: the end is added exactly when more than half of the frames of a long segment are active. */
  lemma EndOfFlags(acts: seq<int>)
    requires AreFlags(acts)
    ensures var s := Segmented(acts);
      && InRange(s) && s.acts == acts
      && (Ended(s).ends != s.ends <==>
            && |s.starts| == |s.ends| + 1 && |acts| - s.starts[|s.ends|] > 100
            && 2 * multiset(acts[s.starts[|s.ends|]..|acts| - 1])[1] > |acts| - 1 - s.starts[|s.ends|])
  {
    hide *;
    SegmentsInterleave(acts);
    FlagsEnd(Segmented(acts));
  }

  lemma FlagsEnd(s: Segmenter)
    requires AreFlags(s.acts) && InRange(s)
    ensures Ended(s).ends != s.ends <==>
      && |s.starts| == |s.ends| + 1 && |s.acts| - s.starts[|s.ends|] > 100
      && 2 * multiset(s.acts[s.starts[|s.ends|]..|s.acts| - 1])[1] > |s.acts| - 1 - s.starts[|s.ends|]
  {
    hide MostlyActive, AreFlags;
    if |s.starts| == |s.ends| + 1 && |s.acts| - s.starts[|s.ends|] > 100 {
      MostlyActiveFlags(s.acts, s.starts[|s.ends|], |s.acts| - 1);
    }
  }

  lemma MostlyActiveFlags(acts: seq<int>, st: nat, end: nat)
    requires AreFlags(acts) && st <= end <= |acts|
    ensures MostlyActive(acts, st, end) <==> 2 * multiset(acts[st..end])[1] > end - st
  {
    hide Sum;
    SumOfFlags(acts[st..end]);
  }

  lemma EndOf(s: Segmenter)
    requires Interleaves(s.starts, s.ends) && InRange(s)
    ensures var t := Ended(s); var n := |s.acts|;
      && Interleaves(t.starts, t.ends) && t.starts == s.starts && s.ends <= t.ends
      && (t.ends != s.ends <==>
          s.Open() && n - s.starts[|s.ends|] > 100 && MostlyActive(s.acts, s.starts[|s.ends|], n - 1))
      && (t.ends != s.ends ==> t.ends == s.ends + [n - 1] && t.ends[|s.ends|] - s.starts[|s.ends|] >= 100)
      && t.lastSegIdx == (if s.Open() then n - 1 else s.lastSegIdx) && t.windows == s.windows && t.acts == s.acts
  {
    hide MostlyActive;
  }

  // ---- runs in which some calls say `last` ----

  /** A last call that completes a silent window while no segment is open. */
  predicate Stray(s: Segmenter, c: Call) {
    c.last && SilenceMark(s.acts + [c.act], |s.acts|) && !s.Open()
  }

  predicate StrayAt(calls: seq<Call>, n: nat)
    requires n < |calls|
  {
    Stray(Run(calls[..n]), calls[n])
  }

  lemma InterleavingStep(s: Segmenter, c: Call)
    requires (|s.ends| <= |s.starts| ==> Interleaves(s.starts, s.ends)) && InRange(s)
    requires forall i :: 0 <= i < |s.ends| ==> s.ends[i] < |s.acts|
    ensures var t := WithAct(s, c.act, c.last);
      && (|t.ends| <= |t.starts| ==> Interleaves(t.starts, t.ends)) && InRange(t)
      && (forall i :: 0 <= i < |t.ends| ==> t.ends[i] < |t.acts|)
      && (|s.ends| > |s.starts| ==> |t.ends| > |t.starts| && t.starts == s.starts)
      && (|s.ends| <= |s.starts| ==> (|t.ends| > |t.starts| <==> Stray(s, c)))
  {
    hide WithAct, SpeechMark, SilenceMark;
    MarksNow(s, c.act, c.last);
  }

  /** Every end has its start, in order, if and only if no call was stray. */
  lemma {:induction false} PairedIffNoStray(calls: seq<Call>)
    ensures var s := Run(calls);
      && (Interleaves(s.starts, s.ends) <==> forall n: nat :: n < |calls| ==> !StrayAt(calls, n))
      && (|s.ends| <= |s.starts| ==> Interleaves(s.starts, s.ends)) && InRange(s)
      && (forall i :: 0 <= i < |s.ends| ==> s.ends[i] < |s.acts|)
  {
    hide WithAct, Stray;
    if calls != [] {
      hide Interleaves;
      var n := |calls| - 1;
      var before := calls[..n];
      PairedIffNoStray(before);
      InterleavingStep(Run(before), calls[n]);
      InterleavingIsPairing(Run(calls));
      InterleavingIsPairing(Run(before));
      assert StrayAt(calls, n) == Stray(Run(before), calls[n]);
      forall k: nat | k < n ensures StrayAt(before, k) == StrayAt(calls, k) {
        assert before[..k] == calls[..k];
      }
    }
  }

  lemma InterleavingIsPairing(s: Segmenter)
    ensures Interleaves(s.starts, s.ends) ==> |s.ends| <= |s.starts|
  {
  }

  /** After a stray end the segmenter never opens a segment again, whatever follows, and end() does nothing. */
  lemma {:induction false} StrayEndIsFatal(calls: seq<Call>, n: nat)
    requires n <= |calls| && |Run(calls[..n]).ends| > |Run(calls[..n]).starts|
    ensures var s := Run(calls);
      s.starts == Run(calls[..n]).starts && |s.ends| > |s.starts| && InRange(s) && Ended(s) == s
    decreases |calls|
  {
    hide WithAct;
    PairedIffNoStray(calls);
    if n == |calls| {
      assert calls[..n] == calls;
    } else {
      var before := calls[..|calls| - 1];
      assert before[..n] == calls[..n];
      StrayEndIsFatal(before, n);
      PairedIffNoStray(before);
      InterleavingStep(Run(before), calls[|calls| - 1]);
    }
  }

  lemma {:induction false} SilenceHasNoOnes(acts: seq<int>)
    requires forall i :: 0 <= i < |acts| ==> acts[i] != 1
    ensures multiset(acts)[1] == 0
  {
    if acts != [] {
      var n := |acts| - 1;
      SilenceHasNoOnes(acts[..n]);
      assert acts == acts[..n] + [acts[n]];
    }
  }

  lemma SilenceHasNoSpeech(acts: seq<int>, f: nat)
    requires forall i :: 0 <= i < |acts| ==> acts[i] != 1
    ensures !SpeechMark(acts, f) && (f < |acts| && WindowEnd(f) ==> SilenceMark(acts, f))
  {
    if f < |acts| && WindowEnd(f) { SilenceHasNoOnes(acts[f - 14..f + 1]); }
  }

  /**
   * The failing family: flags with no voice at all, the last of them ending a window, leave one end without a start.
   */
  lemma SilenceEndsUnstarted(acts: seq<int>)
    requires acts != [] && |acts| % 15 == 0 && forall i :: 0 <= i < |acts| ==> acts[i] != 1
    ensures var n := |acts| - 1; var t := WithAct(Segmented(acts[..n]), acts[n], true); t.starts == [] && t.ends == [n]
  {
    var n := |acts| - 1;
    var before := acts[..n];
    var s := Segmented(before);
    SilenceHasNoSpeech(acts, n);
    assert WindowEnd(n) && SilenceMark(acts, n);
    hide *;
    SilenceStartsNothing(before);
    MarksNow(s, acts[n], true);
    assert s.acts + [acts[n]] == acts;
  }

  lemma SilenceStartsNothing(acts: seq<int>)
    requires forall i :: 0 <= i < |acts| ==> acts[i] != 1
    ensures var s := Segmented(acts); s.starts == [] && s.ends == [] && s.acts == acts
  {
    hide Segmented, SpeechMark, SilenceMark;
    SegmentsInterleave(acts);
    var s := Segmented(acts);
    if s.starts != [] { SilenceHasNoSpeech(acts, s.starts[0]); }
  }
}
