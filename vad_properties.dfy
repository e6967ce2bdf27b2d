/**
 * What the segmenter guarantees: every segment is a non-empty run of consecutive input frames, the
 * runs come in input order and never overlap, and the uniform inputs behave as expected.
 */
module VadProperties {
  import opened Wrappers
  import opened Bytes
  import opened Vad

  /** The input frames `lo` (inclusive) to `hi` (exclusive). */
  datatype Cut = Cut(lo: nat, hi: nat)

  /** Each cut is non-empty and every cut ends at or before the next one starts. */
  ghost predicate Ordered(cuts: seq<Cut>)
  {
    && (forall j :: 0 <= j < |cuts| ==> cuts[j].lo < cuts[j].hi)
    && (forall j, k :: 0 <= j < k < |cuts| ==> cuts[j].hi <= cuts[k].lo)
  }

  /** No cut reaches past `bound`. */
  ghost predicate EndsBy(cuts: seq<Cut>, bound: nat)
  {
    forall j :: 0 <= j < |cuts| ==> cuts[j].hi <= bound
  }

  /** `out[j]` is the run of `frames` that `cuts[j]` names. */
  ghost predicate SlicesOf(frames: seq<Frame>, out: seq<seq<Frame>>, cuts: seq<Cut>)
  {
    && |out| == |cuts|
    && EndsBy(cuts, |frames|)
    && forall j :: 0 <= j < |cuts| ==> cuts[j].lo <= cuts[j].hi <= |frames| && out[j] == frames[cuts[j].lo..cuts[j].hi]
  }

  /** `x` is the last `|x|` frames of `frames`. */
  ghost predicate IsSuffix(x: seq<Frame>, frames: seq<Frame>)
  {
    |x| <= |frames| && x == frames[|frames| - |x|..]
  }

  /** What holds of the machine after it has consumed `frames` from the initial state and closed `out`. */
  ghost predicate Reachable(limit: nat, frames: seq<Frame>, s: VadState, out: seq<seq<Frame>>, cuts: seq<Cut>)
  {
    && SlicesOf(frames, out, cuts)
    && Ordered(cuts)
    && IsSuffix(s.ringBuffer, frames)
    && IsSuffix(s.voicedFrames, frames)
    && EndsBy(cuts, |frames| - |s.ringBuffer|)
    && EndsBy(cuts, |frames| - |s.voicedFrames|)
    && |s.ringBuffer| <= limit
    && (s.triggered <==> s.voicedFrames != [])
  }

  lemma SuffixExtend(x: seq<Frame>, init: seq<Frame>, f: Frame)
    requires IsSuffix(x, init)
    ensures IsSuffix(x + [f], init + [f])
  {
    assert (init + [f])[|init| - |x|..] == init[|init| - |x|..] + [f];
  }

  lemma SuffixTrans(r: seq<Frame>, x: seq<Frame>, frames: seq<Frame>)
    requires IsSuffix(x, frames) && IsSuffix(r, x)
    ensures IsSuffix(r, frames)
  {
    assert x[|x| - |r|..] == frames[|frames| - |r|..];
  }

  lemma SlicesExtend(init: seq<Frame>, f: Frame, out: seq<seq<Frame>>, cuts: seq<Cut>)
    requires SlicesOf(init, out, cuts)
    ensures SlicesOf(init + [f], out, cuts)
  {
    var frames := init + [f];
    forall j | 0 <= j < |cuts|
      ensures out[j] == frames[cuts[j].lo..cuts[j].hi]
    {
      assert frames[..|init|] == init;
    }
  }

  /** The shape of every state the machine can reach, with the runs it has closed so far. */
  lemma {:induction false} RunShape(isSpeech: Classifier, limit: nat, frames: seq<Frame>) returns (cuts: seq<Cut>)
    ensures Reachable(limit, frames, Run(isSpeech, limit, frames).0, Run(isSpeech, limit, frames).1, cuts)
  {
    if frames == [] {
      cuts := [];
    } else {
      var init, f := frames[..|frames| - 1], frames[|frames| - 1];
      assert frames == init + [f];
      var cuts0 := RunShape(isSpeech, limit, init);
      var (s, out) := Run(isSpeech, limit, init);
      cuts := StepShape(isSpeech, limit, init, f, s, out, cuts0);
    }
  }

  /** One step keeps the shape: a closing step adds the run of the current voiced frames. */
  lemma StepShape(isSpeech: Classifier, limit: nat, init: seq<Frame>, f: Frame, s: VadState,
                  out: seq<seq<Frame>>, cuts0: seq<Cut>) returns (cuts: seq<Cut>)
    requires Reachable(limit, init, s, out, cuts0)
    ensures var (s', e) := Step(isSpeech, limit, s, f);
            Reachable(limit, init + [f], s', if e.Some? then out + [e.value] else out, cuts)
  {
    var ring := PushBounded(s.ringBuffer, f, limit);
    var count := CountSpeech(isSpeech, ring);
    if s.triggered {
      var voiced := s.voicedFrames + [f];
      if Releases(count, |ring|) {
        assert Step(isSpeech, limit, s, f) == (VadState(false, [], []), Some(voiced));
        cuts := ReleaseShape(limit, init, f, s, out, cuts0);
      } else {
        assert Step(isSpeech, limit, s, f) == (VadState(true, ring, voiced), None);
        cuts := cuts0;
        HoldShape(limit, init, f, s, out, cuts0);
      }
    } else {
      cuts := cuts0;
      assert s.voicedFrames == [] && s.voicedFrames + ring == ring;
      if Triggers(count, |ring|) {
        assert Step(isSpeech, limit, s, f) == (VadState(true, [], ring), None);
        TriggerShape(limit, init, f, s, out, cuts0);
      } else {
        assert Step(isSpeech, limit, s, f) == (VadState(false, ring, []), None);
        IdleShape(limit, init, f, s, out, cuts0);
      }
    }
  }

  /** What every step shares: the old runs stay runs of the longer input, and the new window is a suffix. */
  lemma CommonShape(limit: nat, init: seq<Frame>, f: Frame, s: VadState, out: seq<seq<Frame>>, cuts0: seq<Cut>)
    requires Reachable(limit, init, s, out, cuts0)
    ensures var ring := PushBounded(s.ringBuffer, f, limit);
            && SlicesOf(init + [f], out, cuts0)
            && IsSuffix(ring, init + [f]) && |ring| <= limit
            && EndsBy(cuts0, |init + [f]| - |ring|)
  {
    var frames := init + [f];
    var ring := PushBounded(s.ringBuffer, f, limit);
    SlicesExtend(init, f, out, cuts0);
    SuffixExtend(s.ringBuffer, init, f);
    SuffixTrans(ring, s.ringBuffer + [f], frames);
    EndsByWeaken(cuts0, |init| - |s.ringBuffer|, |frames| - |ring|);
  }

  lemma ReleaseShape(limit: nat, init: seq<Frame>, f: Frame, s: VadState, out: seq<seq<Frame>>, cuts0: seq<Cut>)
    returns (cuts: seq<Cut>)
    requires Reachable(limit, init, s, out, cuts0) && s.triggered
    ensures Reachable(limit, init + [f], VadState(false, [], []), out + [s.voicedFrames + [f]], cuts)
  {
    var frames := init + [f];
    CommonShape(limit, init, f, s, out, cuts0);
    SuffixExtend(s.voicedFrames, init, f);
    cuts := CloseShape(frames, out, cuts0, s.voicedFrames + [f]);
  }

  lemma HoldShape(limit: nat, init: seq<Frame>, f: Frame, s: VadState, out: seq<seq<Frame>>, cuts0: seq<Cut>)
    requires Reachable(limit, init, s, out, cuts0) && s.triggered
    ensures Reachable(limit, init + [f], VadState(true, PushBounded(s.ringBuffer, f, limit), s.voicedFrames + [f]), out, cuts0)
  {
    var frames := init + [f];
    CommonShape(limit, init, f, s, out, cuts0);
    SuffixExtend(s.voicedFrames, init, f);
    EndsByWeaken(cuts0, |init| - |s.voicedFrames|, |frames| - |s.voicedFrames + [f]|);
  }

  lemma TriggerShape(limit: nat, init: seq<Frame>, f: Frame, s: VadState, out: seq<seq<Frame>>, cuts0: seq<Cut>)
    requires Reachable(limit, init, s, out, cuts0) && !s.triggered
    requires PushBounded(s.ringBuffer, f, limit) != []
    ensures Reachable(limit, init + [f], VadState(true, [], PushBounded(s.ringBuffer, f, limit)), out, cuts0)
  {
    var frames := init + [f];
    CommonShape(limit, init, f, s, out, cuts0);
    EndsByWeaken(cuts0, |frames| - |PushBounded(s.ringBuffer, f, limit)|, |frames|);
  }

  lemma IdleShape(limit: nat, init: seq<Frame>, f: Frame, s: VadState, out: seq<seq<Frame>>, cuts0: seq<Cut>)
    requires Reachable(limit, init, s, out, cuts0) && !s.triggered
    ensures Reachable(limit, init + [f], VadState(false, PushBounded(s.ringBuffer, f, limit), []), out, cuts0)
  {
    var frames := init + [f];
    CommonShape(limit, init, f, s, out, cuts0);
    EndsByWeaken(cuts0, |frames| - |PushBounded(s.ringBuffer, f, limit)|, |frames|);
  }

  lemma EndsByWeaken(cuts: seq<Cut>, a: nat, b: nat)
    requires EndsBy(cuts, a) && a <= b
    ensures EndsBy(cuts, b)
  {
  }

  /** Closing on voiced frames that are a suffix of the input appends their run to the cuts. */
  lemma CloseShape(frames: seq<Frame>, out: seq<seq<Frame>>, cuts0: seq<Cut>, voiced: seq<Frame>) returns (cuts: seq<Cut>)
    requires SlicesOf(frames, out, cuts0) && Ordered(cuts0)
    requires IsSuffix(voiced, frames) && voiced != [] && EndsBy(cuts0, |frames| - |voiced|)
    ensures cuts == cuts0 + [Cut(|frames| - |voiced|, |frames|)]
    ensures SlicesOf(frames, out + [voiced], cuts) && Ordered(cuts) && EndsBy(cuts, |frames|)
  {
    cuts := cuts0 + [Cut(|frames| - |voiced|, |frames|)];
  }

  /**
   * Every segment the collector yields, the final flush included, is a non-empty run of consecutive
   * input frames; runs come in input order and never overlap.
   */
  lemma CollectShape(isSpeech: Classifier, limit: nat, frames: seq<Frame>) returns (cuts: seq<Cut>)
    ensures Ordered(cuts) && SlicesOf(frames, Collect(isSpeech, limit, frames), cuts)
  {
    var cuts0 := RunShape(isSpeech, limit, frames);
    var (s, out) := Run(isSpeech, limit, frames);
    if s.voicedFrames != [] {
      cuts := CloseShape(frames, out, cuts0, s.voicedFrames);
    } else {
      cuts := cuts0;
    }
  }

  /** The same in bytes: segment `j` is the joined frames of run `j`. */
  lemma SegmentsAreRuns(isSpeech: Classifier, limit: nat, frames: seq<Frame>) returns (cuts: seq<Cut>)
    ensures Ordered(cuts) && EndsBy(cuts, |frames|)
    ensures |Segments(isSpeech, limit, frames)| == |cuts|
    ensures forall j :: 0 <= j < |cuts| ==>
              cuts[j].hi <= |frames| && Segments(isSpeech, limit, frames)[j] == Join(frames[cuts[j].lo..cuts[j].hi])
  {
    cuts := CollectShape(isSpeech, limit, frames);
  }

  /** The frames `frames[idx[0]], frames[idx[1]], ...`. */
  function Pick(frames: seq<Frame>, idx: seq<nat>): seq<Frame>
    requires forall k :: 0 <= k < |idx| ==> idx[k] < |frames|
  {
    seq(|idx|, k requires 0 <= k < |idx| => frames[idx[k]])
  }

  ghost predicate StrictlyIncreasing(idx: seq<nat>)
  {
    forall k, l :: 0 <= k < l < |idx| ==> idx[k] < idx[l]
  }

  /**
   * The voiced frames of all segments, in order, are the input frames at strictly increasing
   * positions: a subsequence in which no input frame occurs twice. The cleaned audio (all segments
   * joined) is those frames joined.
   */
  lemma VoicedSubsequence(isSpeech: Classifier, limit: nat, frames: seq<Frame>) returns (idx: seq<nat>)
    ensures StrictlyIncreasing(idx) && forall k :: 0 <= k < |idx| ==> idx[k] < |frames|
    ensures Join(Collect(isSpeech, limit, frames)) == Pick(frames, idx)
    ensures Join(Segments(isSpeech, limit, frames)) == Join(Pick(frames, idx))
  {
    var cuts := CollectShape(isSpeech, limit, frames);
    var c := Collect(isSpeech, limit, frames);
    idx := RunIndices(frames, c, cuts);
    JoinOfJoins(c);
  }

  /** The positions `lo, lo + 1, ..., hi - 1`. */
  function Range(lo: nat, hi: nat): (r: seq<nat>)
    requires lo <= hi
  {
    seq(hi - lo, k requires 0 <= k < hi - lo => lo + k)
  }

  lemma {:induction false} RunIndices(frames: seq<Frame>, out: seq<seq<Frame>>, cuts: seq<Cut>) returns (idx: seq<nat>)
    requires SlicesOf(frames, out, cuts) && Ordered(cuts)
    ensures StrictlyIncreasing(idx) && forall k :: 0 <= k < |idx| ==> idx[k] < |frames|
    ensures cuts != [] ==> forall k :: 0 <= k < |idx| ==> idx[k] < cuts[|cuts| - 1].hi
    ensures Join(out) == Pick(frames, idx)
  {
    if cuts == [] {
      idx := [];
    } else {
      var n := |cuts| - 1;
      var c := cuts[n];
      assert SlicesOf(frames, out[..n], cuts[..n]);
      assert Ordered(cuts[..n]);
      var idx0 := RunIndices(frames, out[..n], cuts[..n]);
      assert forall k :: 0 <= k < |idx0| ==> idx0[k] < c.lo by {
        if n > 0 {
          assert cuts[n - 1].hi <= c.lo;
        }
      }
      idx := AppendRange(frames, idx0, c.lo, c.hi);
      assert out[..n] + [out[n]] == out;
    }
  }

  /** Appending the positions of one more run after all earlier ones. */
  lemma AppendRange(frames: seq<Frame>, idx0: seq<nat>, lo: nat, hi: nat) returns (idx: seq<nat>)
    requires lo < hi <= |frames|
    requires StrictlyIncreasing(idx0) && forall k :: 0 <= k < |idx0| ==> idx0[k] < lo
    ensures idx == idx0 + Range(lo, hi)
    ensures StrictlyIncreasing(idx) && forall k :: 0 <= k < |idx| ==> idx[k] < hi
    ensures Pick(frames, idx) == Pick(frames, idx0) + frames[lo..hi]
  {
    idx := idx0 + Range(lo, hi);
  }

  /** A final segment is flushed exactly when the machine is still triggered at end of input. */
  lemma FinalSegmentIffTriggered(isSpeech: Classifier, limit: nat, frames: seq<Frame>)
    ensures var (s, out) := Run(isSpeech, limit, frames);
            Collect(isSpeech, limit, frames) == if s.triggered then out + [s.voicedFrames] else out
  {
    var _ := RunShape(isSpeech, limit, frames);
  }

  /** After any input the window holds at most the padding frames, and they are the latest input frames. */
  lemma RingBufferBounded(isSpeech: Classifier, limit: nat, frames: seq<Frame>)
    ensures var s := Run(isSpeech, limit, frames).0;
            |s.ringBuffer| <= limit && |s.ringBuffer| <= |frames| && s.ringBuffer == frames[|frames| - |s.ringBuffer|..]
  {
    var _ := RunShape(isSpeech, limit, frames);
  }

  lemma {:induction false} CountAllSpeech(isSpeech: Classifier, frames: seq<Frame>)
    requires forall i :: 0 <= i < |frames| ==> isSpeech(frames[i])
    ensures CountSpeech(isSpeech, frames) == |frames|
  {
    if frames != [] {
      CountAllSpeech(isSpeech, frames[..|frames| - 1]);
    }
  }

  lemma {:induction false} CountNoSpeech(isSpeech: Classifier, frames: seq<Frame>)
    requires forall i :: 0 <= i < |frames| ==> !isSpeech(frames[i])
    ensures CountSpeech(isSpeech, frames) == 0
  {
    if frames != [] {
      CountNoSpeech(isSpeech, frames[..|frames| - 1]);
    }
  }

  /** The transition rules of one step, as the collector's loop body applies them. */
  lemma StepRules(isSpeech: Classifier, limit: nat, s: VadState, frame: Frame)
    ensures var (s', e) := Step(isSpeech, limit, s, frame);
            && (e.Some? ==> e.value == s.voicedFrames + [frame] && s'.ringBuffer == [] && s'.voicedFrames == [])
            && (!s.triggered && s'.triggered ==>
                  s'.ringBuffer == [] && s'.voicedFrames == s.voicedFrames + PushBounded(s.ringBuffer, frame, limit))
            && (s.triggered && s'.triggered ==> s'.voicedFrames == s.voicedFrames + [frame])
            && (!s.triggered && !s'.triggered ==> s'.voicedFrames == s.voicedFrames)
  {
  }

  /** Input the classifier calls silence throughout never opens a segment. */
  lemma AllSilenceNoSegments(isSpeech: Classifier, limit: nat, frames: seq<Frame>)
    requires forall i :: 0 <= i < |frames| ==> !isSpeech(frames[i])
    ensures Collect(isSpeech, limit, frames) == [] && Segments(isSpeech, limit, frames) == []
  {
    SilenceRun(isSpeech, limit, frames);
  }

  lemma {:induction false} SilenceRun(isSpeech: Classifier, limit: nat, frames: seq<Frame>)
    requires forall i :: 0 <= i < |frames| ==> !isSpeech(frames[i])
    ensures var (s, out) := Run(isSpeech, limit, frames);
            && !s.triggered && s.voicedFrames == [] && out == []
            && forall i :: 0 <= i < |s.ringBuffer| ==> !isSpeech(s.ringBuffer[i])
  {
    if frames != [] {
      var init, f := frames[..|frames| - 1], frames[|frames| - 1];
      SilenceRun(isSpeech, limit, init);
      var s := Run(isSpeech, limit, init).0;
      var ring := PushBounded(s.ringBuffer, f, limit);
      assert forall i :: 0 <= i < |ring| ==> !isSpeech(ring[i]) by {
        forall i | 0 <= i < |ring| ensures !isSpeech(ring[i]) {
          var j := |s.ringBuffer| + 1 - |ring| + i;
          assert ring[i] == (s.ringBuffer + [f])[j];
        }
      }
      CountNoSpeech(isSpeech, ring);
    }
  }

  /**
   * Non-empty input the classifier calls speech throughout, with a window of at least one frame,
   * gives exactly one segment: all the frames.
   */
  lemma AllSpeechOneSegment(isSpeech: Classifier, limit: nat, frames: seq<Frame>)
    requires limit >= 1 && frames != []
    requires forall i :: 0 <= i < |frames| ==> isSpeech(frames[i])
    ensures Collect(isSpeech, limit, frames) == [frames]
    ensures Segments(isSpeech, limit, frames) == [Join(frames)]
  {
    SpeechRun(isSpeech, limit, frames);
  }

  lemma {:induction false} SpeechRun(isSpeech: Classifier, limit: nat, frames: seq<Frame>)
    requires limit >= 1 && frames != []
    requires forall i :: 0 <= i < |frames| ==> isSpeech(frames[i])
    ensures var (s, out) := Run(isSpeech, limit, frames);
            && s.triggered && s.voicedFrames == frames && out == [] && |s.ringBuffer| <= limit
            && forall i :: 0 <= i < |s.ringBuffer| ==> isSpeech(s.ringBuffer[i])
  {
    var init, f := frames[..|frames| - 1], frames[|frames| - 1];
    assert frames == init + [f];
    if init == [] {
      assert Run(isSpeech, limit, init).0 == Initial;
      assert PushBounded([], f, limit) == [f];
    } else {
      SpeechRun(isSpeech, limit, init);
      var s := Run(isSpeech, limit, init).0;
      var ring := PushBounded(s.ringBuffer, f, limit);
      assert forall i :: 0 <= i < |ring| ==> isSpeech(ring[i]) by {
        forall i | 0 <= i < |ring| ensures isSpeech(ring[i]) {
          var j := |s.ringBuffer| + 1 - |ring| + i;
          assert ring[i] == (s.ringBuffer + [f])[j];
        }
      }
      CountAllSpeech(isSpeech, ring);
    }
  }

  /** With a padding window of zero frames the window is always empty and nothing is ever voiced. */
  lemma NoPaddingNoSegments(isSpeech: Classifier, frames: seq<Frame>)
    ensures Collect(isSpeech, 0, frames) == []
  {
    NoPaddingRun(isSpeech, frames);
  }

  lemma {:induction false} NoPaddingRun(isSpeech: Classifier, frames: seq<Frame>)
    ensures Run(isSpeech, 0, frames) == (Initial, [])
  {
    if frames != [] {
      NoPaddingRun(isSpeech, frames[..|frames| - 1]);
    }
  }

  /**
   * As written, the window is measured against how many frames it holds, not against its capacity:
   * from an empty window (the start, or just after a segment closed) one speech frame triggers.
   */
  lemma OneSpeechFrameTriggers(isSpeech: Classifier, limit: nat, s: VadState, frame: Frame)
    requires !s.triggered && s.ringBuffer == []
    ensures Step(isSpeech, limit, s, frame).0.triggered <==> isSpeech(frame) && limit >= 1
  {
    assert CountSpeech(isSpeech, [frame]) == if isSpeech(frame) then 1 else 0;
  }

  /** Likewise, the first frame after triggering closes the segment exactly when it is silence. */
  lemma FirstSilenceAfterTriggerCloses(isSpeech: Classifier, limit: nat, s: VadState, frame: Frame)
    requires s.triggered && s.ringBuffer == [] && limit >= 1
    ensures Step(isSpeech, limit, s, frame).1.Some? <==> !isSpeech(frame)
  {
    assert CountSpeech(isSpeech, [frame]) == if isSpeech(frame) then 1 else 0;
  }
}
