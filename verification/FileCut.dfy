/** file_cut.c: cutting a stream of voice flags, and the audio behind it, into segments. */
module FileCut {

  const FRAME_SIZE := 160

  /** The four lengths of common.h in frames: 25, 30, 500 and 1000 there. */
  datatype Lengths = Lengths(silenceAfter: nat, silenceBefore: nat, min: nat, max: nat) {
    predicate Valid() { 0 < silenceAfter <= min <= max && silenceBefore < max }
  }

  const COMMON_H := Lengths(25, 30, 500, 1000)

  /** A cut: frames begin to end - 1, the label of its file name, and the samples written to it. */
  datatype Segment = Segment(begin: nat, end: nat, containsActive: bool, samples: seq<int>)

  datatype Cut = Cut(
    isPreviousActive: bool, isContainActive: bool, previousAlongFrames: nat,
    currentFrame: nat, cutBeginFrame: nat, lastCutBeginFrame: nat, position: nat, segments: seq<Segment>)

  function Created(): Cut { Cut(false, false, 0, 0, 0, 0, 0, []) }

  predicate InOrder(c: Cut) { c.cutBeginFrame <= c.currentFrame }

  // ---- the specification, function by function ----

  /** What fread returns for n samples at the read position. */
  function Read(audio: seq<int>, position: nat, n: nat): (s: seq<int>) {
    if position + n <= |audio| then audio[position..position + n]
    else if position <= |audio| then audio[position..]
    else []
  }

  datatype Attempt = Attempt(cut: Cut, done: bool)

  /** cut_frame: cuts before frame `last` when forced or when the segment is long enough. */
  function CutFrame(l: Lengths, audio: seq<int>, c: Cut, last: int, force: bool): (a: Attempt)
    requires force ==> c.cutBeginFrame <= last
  {
    var frames := last - c.cutBeginFrame;
    if force || frames >= l.min then
      var samples := Read(audio, c.position, frames * FRAME_SIZE);
      Attempt(c.(isPreviousActive := false, isContainActive := false, lastCutBeginFrame := c.cutBeginFrame,
                 cutBeginFrame := last, position := c.position + |samples|,
                 segments := c.segments + [Segment(c.cutBeginFrame, last, c.isContainActive, samples)]), true)
    else Attempt(c, false)
  }

  datatype Added = Added(cut: Cut, frame: int)

  function AddContinued(l: Lengths, audio: seq<int>, c: Cut, active: bool): Added
    requires InOrder(c)
  {
    var a := if !active && c.isContainActive && c.previousAlongFrames >= l.silenceAfter
             then CutFrame(l, audio, c, c.currentFrame, false) else Attempt(c, false);
    if a.done then Added(a.cut.(previousAlongFrames := 1), -1 * c.currentFrame)
    else Added(c.(previousAlongFrames := c.previousAlongFrames + 1), 0)
  }

  function AddChanged(l: Lengths, audio: seq<int>, c: Cut, active: bool): Added
    requires InOrder(c)
  {
    var end := c.currentFrame - l.silenceBefore;
    var a := if active && c.previousAlongFrames > l.silenceBefore
             then CutFrame(l, audio, c, end, false) else Attempt(c, false);
    Added(a.cut.(previousAlongFrames := 1), if a.done then -1 * end else 0)
  }

  /** A call that must cut at the current frame. */
  predicate Forced(l: Lengths, c: Cut, last: bool) {
    last || c.currentFrame - c.cutBeginFrame == l.max
  }

  function AddVadActivity(l: Lengths, audio: seq<int>, c: Cut, active: bool, last: bool): (r: Added)
    requires InOrder(c)
  {
    var a :=
      if Forced(l, c, last) then Added(CutFrame(l, audio, c, c.currentFrame, last).cut, -1 * c.currentFrame)
      else if c.isPreviousActive == active then AddContinued(l, audio, c, active)
      else
        var b := AddChanged(l, audio, c, active);
        if active then b.(cut := b.cut.(isContainActive := true)) else b;
    a.(cut := a.cut.(isPreviousActive := active, currentFrame := c.currentFrame + 1))
  }

  // ---- the struct and its functions ----

  class CutInfo {
    const lengths: Lengths
    const audio: seq<int>
    var isPreviousActive: bool
    var isContainActive: bool
    var previousAlongFrames: nat
    var currentFrame: nat
    var cutBeginFrame: nat
    var lastCutBeginFrame: nat
    var position: nat
    var segments: seq<Segment>

    ghost function Value(): Cut
      reads this
    {
      Cut(isPreviousActive, isContainActive, previousAlongFrames, currentFrame, cutBeginFrame, lastCutBeginFrame,
          position, segments)
    }

    constructor (lengths: Lengths, audio: seq<int>)
      ensures this.lengths == lengths && this.audio == audio && Value() == Created()
    {
      this.lengths, this.audio := lengths, audio;
      isPreviousActive, isContainActive, previousAlongFrames := false, false, 0;
      currentFrame, cutBeginFrame, lastCutBeginFrame, position, segments := 0, 0, 0, 0, [];
    }

    /** Reads the next frames and writes them to a file; 1 when there is nothing left to read, and then no file. */
    method WriteFile(frames: nat) returns (code: int, samples: seq<int>)
      modifies this`position
      ensures samples == Read(audio, old(position), frames * FRAME_SIZE)
      ensures position == old(position) + |samples|
      ensures code == if frames == 0 || old(position) >= |audio| then 1 else 0
    {
      samples := Read(audio, position, frames * FRAME_SIZE);
      position := position + |samples|;
      if |samples| > 0 { return 0, samples; } else { return 1, samples; }
    }

    method TryCut(last: int, force: bool) returns (done: bool)
      requires force ==> cutBeginFrame <= last
      modifies this
      ensures Attempt(Value(), done) == CutFrame(lengths, audio, old(Value()), last, force)
    {
      var frames := last - cutBeginFrame;
      if force || frames >= lengths.min {
        var containsActive := isContainActive;
        var _, samples := WriteFile(frames);
        segments := segments + [Segment(cutBeginFrame, last, containsActive, samples)];
        isPreviousActive := false;
        isContainActive := false;
        lastCutBeginFrame := cutBeginFrame;
        cutBeginFrame := last;
        return true;
      }
      return false;
    }

    method AddContinuedFrame(active: bool) returns (frame: int)
      requires cutBeginFrame <= currentFrame
      modifies this
      ensures Added(Value(), frame) == AddContinued(lengths, audio, old(Value()), active)
    {
      if !active && isContainActive {
        var diff := previousAlongFrames - lengths.silenceAfter;
        if diff >= 0 {
          var done := TryCut(currentFrame, false);
          if done {
            previousAlongFrames := 1;
            return -1 * currentFrame;
          }
        }
      }
      previousAlongFrames := previousAlongFrames + 1;
      return 0;
    }

    method AddChangedFrame(active: bool) returns (frame: int)
      requires cutBeginFrame <= currentFrame
      modifies this
      ensures Added(Value(), frame) == AddChanged(lengths, audio, old(Value()), active)
    {
      frame := 0;
      if active {
        if previousAlongFrames > lengths.silenceBefore {
          var end := currentFrame - lengths.silenceBefore;
          var done := TryCut(end, false);
          if done { frame := -1 * end; }
        }
      }
      previousAlongFrames := 1;
    }

    method Add(active: bool, last: bool) returns (frame: int)
      requires cutBeginFrame <= currentFrame
      modifies this
      ensures Added(Value(), frame) == AddVadActivity(lengths, audio, old(Value()), active, last)
    {
      if last || currentFrame - cutBeginFrame == lengths.max {
        var _ := TryCut(currentFrame, last);
        frame := -1 * currentFrame;
      } else if isPreviousActive == active {
        frame := AddContinuedFrame(active);
      } else {
        frame := AddChangedFrame(active);
        if active { isContainActive := true; }
      }
      isPreviousActive := active;
      currentFrame := currentFrame + 1;
    }
  }
}
