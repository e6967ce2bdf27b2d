/**
 * The voice-activity segmenter: a two-state machine with a bounded ring buffer of recent frames.
 * The pure functions below are the reference behaviour; `VadMachine` is the object that carries the
 * state in place, and `VadCollect` drives it over a list of frames and proves it matches.
 */
module Vad {
  import opened Wrappers
  import opened Bytes

  type Frame = Bytes

  /** The external speech classifier, taken as a deterministic function of a frame (the job's sample rate is bound into it). */
  type Classifier = Frame -> bool

  /** Frames in the padding window: the padding duration in whole frames, truncated. */
  function PaddingFrames(frameMs: nat, paddingMs: nat): (n: nat)
    requires frameMs > 0
    ensures n * frameMs <= paddingMs < n * frameMs + frameMs
  {
    paddingMs / frameMs
  }

  /** How many of `frames` the classifier calls speech. */
  function CountSpeech(isSpeech: Classifier, frames: seq<Frame>): (c: nat)
    ensures c <= |frames|
  {
    if frames == [] then 0
    else CountSpeech(isSpeech, frames[..|frames| - 1]) + (if isSpeech(frames[|frames| - 1]) then 1 else 0)
  }

  /** More than nine tenths of the window is speech. */
  predicate Triggers(count: nat, len: nat)
  {
    10 * count > 9 * len
  }

  /** Less than one tenth of the window is speech. */
  predicate Releases(count: nat, len: nat)
  {
    10 * count < len
  }

  /** Append `frame` to the window, then drop the oldest frame if the window is over `limit`. */
  function PushBounded(ring: seq<Frame>, frame: Frame, limit: nat): (r: seq<Frame>)
    ensures |ring| <= limit ==> |r| <= limit
    ensures |ring| <= limit ==> |r| == (if |ring| < limit then |ring| + 1 else limit)
    ensures |r| <= |ring| + 1 && r == (ring + [frame])[|ring| + 1 - |r|..]
  {
    var grown := ring + [frame];
    if |grown| > limit then grown[1..] else grown
  }

  datatype VadState = VadState(triggered: bool, ringBuffer: seq<Frame>, voicedFrames: seq<Frame>)

  const Initial := VadState(false, [], [])

  /**
   * One frame through the machine: the next state, and the frames of the segment closed by this
   * frame, if any.
   */
  function Step(isSpeech: Classifier, limit: nat, s: VadState, frame: Frame): (r: (VadState, Option<seq<Frame>>))
    ensures r.1.Some? <==> s.triggered && !r.0.triggered
    ensures |s.ringBuffer| <= limit ==> |r.0.ringBuffer| <= limit
  {
    var ring := PushBounded(s.ringBuffer, frame, limit);
    if !s.triggered then
      if Triggers(CountSpeech(isSpeech, ring), |ring|) then
        (VadState(true, [], s.voicedFrames + ring), None)
      else
        (VadState(false, ring, s.voicedFrames), None)
    else
      var voiced := s.voicedFrames + [frame];
      if Releases(CountSpeech(isSpeech, ring), |ring|) then
        (VadState(false, [], []), Some(voiced))
      else
        (VadState(true, ring, voiced), None)
  }

  /** The state after all of `frames`, and the segments (as frame lists) closed on the way. */
  function Run(isSpeech: Classifier, limit: nat, frames: seq<Frame>): (VadState, seq<seq<Frame>>)
  {
    if frames == [] then (Initial, [])
    else
      var (s, out) := Run(isSpeech, limit, frames[..|frames| - 1]);
      var (s', e) := Step(isSpeech, limit, s, frames[|frames| - 1]);
      (s', if e.Some? then out + [e.value] else out)
  }

  /** Every segment, as frame lists: those closed mid-stream, then what is still voiced at end of input. */
  function Collect(isSpeech: Classifier, limit: nat, frames: seq<Frame>): seq<seq<Frame>>
  {
    var (s, out) := Run(isSpeech, limit, frames);
    if s.voicedFrames != [] then out + [s.voicedFrames] else out
  }

  /** Every segment as the joined bytes the collector yields. */
  function Segments(isSpeech: Classifier, limit: nat, frames: seq<Frame>): seq<Bytes>
  {
    JoinEach(Collect(isSpeech, limit, frames))
  }

  /** Each frame list joined into one buffer. */
  function JoinEach(parts: seq<seq<Frame>>): seq<Bytes>
  {
    seq(|parts|, i requires 0 <= i < |parts| => Join(parts[i]))
  }

  lemma JoinEachSnoc(parts: seq<seq<Frame>>, part: seq<Frame>)
    ensures JoinEach(parts + [part]) == JoinEach(parts) + [Join(part)]
  {
  }

  /** Running over one more frame is one more step. */
  lemma RunSnoc(isSpeech: Classifier, limit: nat, frames: seq<Frame>, i: nat)
    requires i < |frames|
    ensures var prev := Run(isSpeech, limit, frames[..i]);
            var step := Step(isSpeech, limit, prev.0, frames[i]);
            Run(isSpeech, limit, frames[..i + 1])
              == (step.0, if step.1.Some? then prev.1 + [step.1.value] else prev.1)
  {
    assert frames[..i + 1][..i] == frames[..i];
  }

  function JoinSegment(e: Option<seq<Frame>>): Option<Bytes>
  {
    if e.Some? then Some(Join(e.value)) else None
  }

  /** The collector's state, updated in place one frame at a time. */
  class VadMachine {
    const isSpeech: Classifier
    const numPaddingFrames: nat
    var triggered: bool
    var ringBuffer: seq<Frame>
    var voicedFrames: seq<Frame>

    function State(): VadState
      reads this
    {
      VadState(triggered, ringBuffer, voicedFrames)
    }

    constructor (frameMs: nat, paddingMs: nat, isSpeech: Classifier)
      requires frameMs > 0
      ensures this.isSpeech == isSpeech && numPaddingFrames == PaddingFrames(frameMs, paddingMs)
      ensures State() == Initial
    {
      this.isSpeech := isSpeech;
      numPaddingFrames := PaddingFrames(frameMs, paddingMs);
      triggered := false;
      ringBuffer := [];
      voicedFrames := [];
    }

    /** Feed one frame; returns the joined segment this frame closes, if any. */
    method Push(frame: Frame) returns (segment: Option<Bytes>)
      modifies this
      ensures State() == Step(isSpeech, numPaddingFrames, old(State()), frame).0
      ensures segment == JoinSegment(Step(isSpeech, numPaddingFrames, old(State()), frame).1)
    {
      ghost var s0 := State();
      ghost var ring := PushBounded(s0.ringBuffer, frame, numPaddingFrames);
      ghost var next := Step(isSpeech, numPaddingFrames, s0, frame);
      segment := None;
      if !triggered {
        ringBuffer := ringBuffer + [frame];
        if |ringBuffer| > numPaddingFrames {
          ringBuffer := ringBuffer[1..];
        }
        assert ringBuffer == ring;
        if 10 * CountSpeech(isSpeech, ringBuffer) > 9 * |ringBuffer| {
          assert next == (VadState(true, [], s0.voicedFrames + ring), None);
          triggered := true;
          voicedFrames := voicedFrames + ringBuffer;
          ringBuffer := [];
        } else {
          assert next == (VadState(false, ring, s0.voicedFrames), None);
        }
      } else {
        voicedFrames := voicedFrames + [frame];
        ringBuffer := ringBuffer + [frame];
        if |ringBuffer| > numPaddingFrames {
          ringBuffer := ringBuffer[1..];
        }
        assert ringBuffer == ring;
        if 10 * CountSpeech(isSpeech, ringBuffer) < |ringBuffer| {
          assert next == (VadState(false, [], []), Some(s0.voicedFrames + [frame]));
          triggered := false;
          segment := Some(Join(voicedFrames));
          ringBuffer := [];
          voicedFrames := [];
        } else {
          assert next == (VadState(true, ring, s0.voicedFrames + [frame]), None);
        }
      }
    }
  }

  /** Runs the collector over `frames` and returns every segment it yields, in order. */
  method VadCollect(frameMs: nat, paddingMs: nat, isSpeech: Classifier, frames: seq<Frame>) returns (segments: seq<Bytes>)
    requires frameMs > 0
    ensures segments == Segments(isSpeech, PaddingFrames(frameMs, paddingMs), frames)
  {
    var machine := new VadMachine(frameMs, paddingMs, isSpeech);
    ghost var limit := machine.numPaddingFrames;
    segments := [];
    for i := 0 to |frames|
      invariant machine.isSpeech == isSpeech && machine.numPaddingFrames == limit
      invariant machine.State() == Run(isSpeech, limit, frames[..i]).0
      invariant segments == JoinEach(Run(isSpeech, limit, frames[..i]).1)
    {
      ghost var prev := Run(isSpeech, limit, frames[..i]);
      ghost var step := Step(isSpeech, limit, prev.0, frames[i]);
      RunSnoc(isSpeech, limit, frames, i);
      var segment := machine.Push(frames[i]);
      if segment.Some? {
        JoinEachSnoc(prev.1, step.1.value);
        segments := segments + [segment.value];
      }
    }
    assert frames[..|frames|] == frames;
    ghost var (s, out) := Run(isSpeech, limit, frames);
    if machine.voicedFrames != [] {
      JoinEachSnoc(out, s.voicedFrames);
      segments := segments + [Join(machine.voicedFrames)];
    }
  }
}
