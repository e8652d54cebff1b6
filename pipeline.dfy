/** The frame loop of `main` in sistema-contagem-pessoas/main.py: per-frame
    processing (extraction, suppression, counting) and the keyboard control
    that pauses, resumes or ends the run.

    Video frames are given as the detector's rows for each frame together
    with the positions the suppression call returned for it. The key read at
    each iteration is given as the raw value the keyboard poll returned. */
module Pipeline {
  import opened Detections
  import opened Suppression
  import opened Counter

  /** What the detector and the suppression call produced for one frame. */
  datatype Frame = Frame(rows: seq<Row>, nms: seq<nat>)

  /** Why the loop ended. `KeysExhausted` exists only because the model's
      key stream is finite. */
  datatype Stop = EndOfVideo | QuitPressed | KeysExhausted

  /** Where one pass of the loop body leaves the run. */
  datatype Outcome = Continue | Ended(reason: Stop)

  /** Key codes after masking to the low byte: 'q' and 'p'. */
  const QuitCode := 113
  const PauseCode := 112

  /** The low byte of a raw key value (`& 0xFF`); "no key" (-1) becomes 255. */
  function KeyCode(raw: int): (code: int)
    ensures 0 <= code < 256
    ensures (raw - code) % 256 == 0
    ensures 0 <= raw < 256 ==> code == raw
    ensures raw == -1 ==> code == 255
  {
    raw % 256
  }

  predicate FrameValid(f: Frame) {
    ValidIndices(ExtractedBoxes(f.rows), f.nms)
  }

  /** The people count of each frame. The suppression wrapper returns one
      box per returned position, so a frame's count is the number of
      positions the suppression call returned for it. */
  function PeopleCounts(frames: seq<Frame>): (counts: seq<nat>)
    ensures |counts| == |frames|
  {
    seq(|frames|, i requires 0 <= i < |frames| => |frames[i].nms|)
  }

  /** Reading one more frame appends its people count. */
  lemma PeopleCountsExtend(frames: seq<Frame>, n: nat)
    requires n < |frames|
    ensures PeopleCounts(frames[..n + 1]) == PeopleCounts(frames[..n]) + [|frames[n].nms|]
  {
    assert frames[..n + 1] == frames[..n] + [frames[n]];
  }

  /** A frame with no row above the threshold leaves no box after
      suppression, and the counter's total does not change (it re-arms). */
  lemma EmptyFrameKeepsCount(f: Frame, s: CounterState)
    requires FrameValid(f)
    requires forall i :: 0 <= i < |f.rows| ==> !Accepted(f.rows[i])
    ensures SuppressNonMaximum(ExtractedBoxes(f.rows), f.nms) == []
    ensures Step(s, |f.nms|) == CounterState(s.count, true)
  {
    NoAcceptedRowKeepsNothing(f.rows, |f.rows|);
    NoCandidatesNoSurvivors(ExtractedBoxes(f.rows), f.nms);
  }

  /** Process one frame: extract the candidate boxes, keep the ones the
      suppression returned, and feed their number to the counter. */
  method ProcessFrame(counter: PeopleCounter, f: Frame) returns (finalBoxes: seq<Box>)
    requires FrameValid(f) && counter.Valid()
    modifies counter
    ensures counter.Valid() && counter.frames == old(counter.frames) + [|f.nms|]
    ensures finalBoxes == SuppressNonMaximum(ExtractedBoxes(f.rows), f.nms)
  {
    var boxes, confidences := Extract(f.rows);
    finalBoxes := SuppressNonMaximum(boxes, f.nms);
    counter.Update(|finalBoxes|);
  }

  /** Whether the loop is paused when iteration `t` starts, had no 'q' come
      earlier: each 'p' flips the flag, starting from not paused. */
  function PausedBefore(keys: seq<int>, t: nat): bool
    requires t <= |keys|
  {
    if t == 0 then false
    else PausedBefore(keys, t - 1) != (KeyCode(keys[t - 1]) == PauseCode)
  }

  /** How many frames the first `t` iterations read: one per iteration that
      starts unpaused. */
  function FramesRead(keys: seq<int>, t: nat): (n: nat)
    requires t <= |keys|
    ensures n <= t
  {
    if t == 0 then 0
    else FramesRead(keys, t - 1) + (if PausedBefore(keys, t - 1) then 0 else 1)
  }

  /** Iterations that start paused read nothing: over a stretch of them the
      number of frames read, and so the counter, does not move. */
  lemma {:induction false} PausedStretchReadsNothing(keys: seq<int>, t1: nat, t2: nat)
    requires t1 <= t2 <= |keys|
    requires forall t :: t1 <= t < t2 ==> PausedBefore(keys, t)
    ensures FramesRead(keys, t2) == FramesRead(keys, t1)
  {
    if t1 < t2 {
      PausedStretchReadsNothing(keys, t1, t2 - 1);
    }
  }

  /** Pressing 'p' twice in a row leaves the pause flag as it was. */
  lemma PauseTwiceRestores(keys: seq<int>, t: nat)
    requires t + 2 <= |keys|
    requires KeyCode(keys[t]) == PauseCode && KeyCode(keys[t + 1]) == PauseCode
    ensures PausedBefore(keys, t + 2) == PausedBefore(keys, t)
  {
  }

  /** One pass of the loop body: unless paused, read and process the next
      frame (or end the run at the end of the video); then poll a key. */
  method Tick(counter: PeopleCounter, frames: seq<Frame>, keys: seq<int>, consumed: nat, t: nat, paused: bool)
    returns (consumed': nat, paused': bool, outcome: Outcome)
    requires forall i :: 0 <= i < |frames| ==> FrameValid(frames[i])
    requires t < |keys| && consumed <= |frames|
    requires consumed == FramesRead(keys, t) && paused == PausedBefore(keys, t)
    requires counter.Valid() && counter.frames == PeopleCounts(frames[..consumed])
    modifies counter
    ensures consumed' <= |frames|
    ensures counter.Valid() && counter.frames == PeopleCounts(frames[..consumed'])
    ensures outcome != Ended(KeysExhausted)
    ensures outcome == Ended(EndOfVideo) ==> consumed' == consumed == |frames| && !paused && !paused'
    ensures outcome != Ended(EndOfVideo) ==>
      consumed' == FramesRead(keys, t + 1) && paused' == PausedBefore(keys, t + 1) &&
      (outcome == Ended(QuitPressed) <==> KeyCode(keys[t]) == QuitCode)
  {
    consumed', paused' := consumed, paused;
    if !paused {
      if consumed == |frames| {
        return consumed', paused', Ended(EndOfVideo);
      }
      var _ := ProcessFrame(counter, frames[consumed]);
      PeopleCountsExtend(frames, consumed);
      consumed' := consumed + 1;
    }
    var key := KeyCode(keys[t]);
    if key == QuitCode {
      outcome := Ended(QuitPressed);
    } else {
      outcome := Continue;
      if key == PauseCode {
        paused' := !paused;
      }
    }
  }

  /** The main loop. Each iteration, unless paused, reads the next frame
      (ending the run when the video is over) and processes it; then it polls
      a key: 'q' ends the run and 'p' toggles the pause. The counter sees
      exactly the frames read, in order, so pausing never resets or changes
      it. */
  method MainLoop(frames: seq<Frame>, keys: seq<int>)
    returns (count: nat, armed: bool, consumed: nat, iterations: nat, paused: bool, stop: Stop)
    requires forall i :: 0 <= i < |frames| ==> FrameValid(frames[i])
    ensures iterations <= |keys| && consumed <= |frames|
    ensures consumed == FramesRead(keys, iterations)
    ensures paused == PausedBefore(keys, iterations)
    ensures CounterState(count, armed) == Run(PeopleCounts(frames[..consumed]))
    ensures forall t :: 0 <= t < iterations - 1 ==> KeyCode(keys[t]) != QuitCode
    ensures stop == QuitPressed <==> iterations > 0 && KeyCode(keys[iterations - 1]) == QuitCode
    ensures stop == EndOfVideo ==> consumed == |frames| && !paused
    ensures stop == KeysExhausted ==> iterations == |keys|
  {
    var counter := new PeopleCounter();
    paused := false;
    consumed, iterations := 0, 0;
    stop := KeysExhausted;
    while iterations < |keys|
      invariant iterations <= |keys| && consumed <= |frames|
      invariant consumed == FramesRead(keys, iterations)
      invariant paused == PausedBefore(keys, iterations)
      invariant counter.Valid() && counter.frames == PeopleCounts(frames[..consumed])
      invariant forall t :: 0 <= t < iterations ==> KeyCode(keys[t]) != QuitCode
      modifies counter
    {
      var outcome;
      consumed, paused, outcome := Tick(counter, frames, keys, consumed, iterations, paused);
      if outcome.Ended? {
        stop := outcome.reason;
        if stop == QuitPressed {
          iterations := iterations + 1;
        }
        break;
      }
      iterations := iterations + 1;
    }
    count, armed := counter.count, counter.armed;
  }
}
