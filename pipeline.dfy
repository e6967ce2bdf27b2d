/**
 * The audio-cleaning stage of a transcription job: cut the decoded PCM into 30 ms frames, run the
 * segmenter with 300 ms of padding over them, and join every segment into one buffer.
 */
module Pipeline {
  import opened Bytes
  import opened Framer
  import opened Vad
  import opened VadProperties

  const FrameMs: nat := 30
  const PaddingMs: nat := 300

  /** At 30 ms and 300 ms the ring buffer holds ten frames. */
  lemma TenPaddingFrames()
    ensures PaddingFrames(FrameMs, PaddingMs) == 10
  {
  }

  /** The frames, the segments and the cleaned audio of one job. */
  method CleanAudio(audio: Bytes, sampleRate: nat, isSpeech: Classifier)
    returns (frames: seq<Bytes>, segments: seq<Bytes>, cleaned: Bytes)
    requires FrameSize(sampleRate, FrameMs) > 0 || |audio| == 0
    ensures |audio| == 0 ==> frames == []
    ensures |audio| > 0 ==> |frames| == (|audio| - 1) / FrameSize(sampleRate, FrameMs)
    ensures FramesOf(audio, FrameSize(sampleRate, FrameMs), frames)
    ensures segments == Segments(isSpeech, PaddingFrames(FrameMs, PaddingMs), frames)
    ensures cleaned == Join(segments)
  {
    frames := FrameGenerator(FrameMs, audio, sampleRate);
    segments := VadCollect(FrameMs, PaddingMs, isSpeech, frames);
    cleaned := Join(segments);
  }

  /** The `n`-byte frames of `audio` at positions `idx`. */
  function AudioFrames(audio: Bytes, n: nat, idx: seq<nat>): seq<Bytes>
    requires forall k :: 0 <= k < |idx| ==> idx[k] * n + n <= |audio|
  {
    seq(|idx|, k requires 0 <= k < |idx| => audio[idx[k] * n .. idx[k] * n + n])
  }

  /**
   * The cleaned audio is whole frames of the original audio, taken in order and each at most once:
   * nothing is reordered, duplicated or invented.
   */
  lemma CleanedIsAudioFrames(isSpeech: Classifier, limit: nat, audio: Bytes, n: nat, frames: seq<Bytes>)
    returns (idx: seq<nat>)
    requires FramesOf(audio, n, frames)
    ensures StrictlyIncreasing(idx) && forall k :: 0 <= k < |idx| ==> idx[k] < |frames|
    ensures forall k :: 0 <= k < |idx| ==> idx[k] * n + n <= |audio|
    ensures Join(Segments(isSpeech, limit, frames)) == Join(AudioFrames(audio, n, idx))
  {
    idx := VoicedSubsequence(isSpeech, limit, frames);
    assert Pick(frames, idx) == AudioFrames(audio, n, idx);
  }
}
