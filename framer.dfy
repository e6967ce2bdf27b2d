/**
 * The framer: cuts a buffer of 16-bit mono PCM into frames of a fixed number of bytes.
 */
module Framer {
  import opened Bytes

  /** Bytes in one frame of `frameMs` milliseconds at `sampleRate` (two bytes per sample), truncated. */
  function FrameSize(sampleRate: nat, frameMs: nat): (n: nat)
    ensures n * 1000 <= sampleRate * frameMs * 2 < n * 1000 + 1000
  {
    sampleRate * frameMs * 2 / 1000
  }

  /** The frame size of the transcription request: 30 ms at 16000 Hz. */
  lemma RequestFrameSize()
    ensures FrameSize(16000, 30) == 960
  {
  }

  lemma QuotientUnique(a: nat, n: nat, q: nat)
    requires 0 < n && q * n <= a < q * n + n
    ensures a / n == q
  {
    var d, r := a / n, a % n;
    assert a == d * n + r && r < n;
    if d < q {
      MulMonotonic(d + 1, q, n);
      assert false;
    } else if d > q {
      MulMonotonic(q + 1, d, n);
      assert false;
    }
  }

  lemma MulMonotonic(x: nat, y: nat, n: nat)
    requires x <= y
    ensures x * n <= y * n
  {
    var e: nat := y - x;
    assert y * n == x * n + e * n;
  }

  /** Frame `k` of `frames` is bytes `k * n` to `k * n + n` of `audio`. */
  predicate FramesOf(audio: Bytes, n: nat, frames: seq<Bytes>)
  {
    forall k :: 0 <= k < |frames| ==> k * n + n <= |audio| && frames[k] == audio[k * n .. k * n + n]
  }

  lemma FramesOfSnoc(audio: Bytes, n: nat, frames: seq<Bytes>)
    requires FramesOf(audio, n, frames) && |frames| * n + n <= |audio|
    ensures FramesOf(audio, n, frames + [audio[|frames| * n .. |frames| * n + n]])
  {
  }

  /**
   * The frames of `audio`, in order. The loop continues only while a frame fits with at least one byte
   * to spare, so the last one to `n` bytes are always dropped, a final full frame included.
   */
  method FrameGenerator(frameMs: nat, audio: Bytes, sampleRate: nat) returns (frames: seq<Bytes>)
    requires FrameSize(sampleRate, frameMs) > 0 || |audio| == 0
    ensures |audio| == 0 ==> frames == []
    ensures |audio| > 0 ==>
              var n := FrameSize(sampleRate, frameMs);
              |frames| == (|audio| - 1) / n && 0 < |audio| - |frames| * n <= n
    ensures FramesOf(audio, FrameSize(sampleRate, frameMs), frames)
    ensures Join(frames) == audio[..|frames| * FrameSize(sampleRate, frameMs)]
  {
    var n := FrameSize(sampleRate, frameMs);
    var offset := 0;
    frames := [];
    while offset + n < |audio|
      invariant offset == |frames| * n
      invariant offset <= |audio| && (|audio| > 0 ==> offset < |audio|)
      invariant |audio| == 0 ==> frames == []
      invariant FramesOf(audio, n, frames)
      invariant Join(frames) == audio[..offset]
      decreases |audio| - offset
    {
      assert (|frames| + 1) * n == offset + n;
      FramesOfSnoc(audio, n, frames);
      JoinSnoc(frames, audio[offset .. offset + n]);
      assert audio[..offset] + audio[offset .. offset + n] == audio[..offset + n];
      frames := frames + [audio[offset .. offset + n]];
      offset := offset + n;
    }
    if |audio| > 0 {
      QuotientUnique(|audio| - 1, n, |frames|);
    }
  }
}
