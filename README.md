# Verified model of the ugcc transcription core

ugcc is a small Flask service. It takes an uploaded video, extracts mono 16 kHz PCM audio, drops
the silent stretches with a voice-activity detector (VAD), transcribes the cleaned audio with
Whisper, and writes the confident parts of the transcript as a SubRip (SRT) subtitle file. This
project models, in Dafny, the four pieces of `ugcc.py` that are plain computation, and proves what
each one guarantees:

- **Framer** (`frame_generator`). It cuts a PCM byte buffer into frames of `n` bytes. The loop guard
  is strict, so the final one to `n` bytes are always dropped, even when the last frame is complete.
  The model is the method `Framer.FrameGenerator`, with the same `while` loop proved against the
  frame slices of the audio.
- **VAD segmenter** (`vad_collector`). It is a two-state machine: a `triggered` flag, a ring buffer
  bounded by `pop(0)` eviction, and the voiced frames collected so far. The pure reference is
  `Vad.Step`, `Vad.Run` and `Vad.Collect`. The class `Vad.VadMachine` updates the three fields in
  place, exactly as the Python loop body does. `Vad.VadCollect` drives the machine over a frame
  list and is proved equal to the reference. `VadProperties` proves what the segments are:
  - runs of consecutive input frames that never overlap;
  - in input order;
  - together an order-preserving subsequence of the input;
  - plus the expected outcomes for uniform input.
- **Cleaning stage** (lines 121-125). `Pipeline.CleanAudio` connects the framer and the segmenter
  with the job's 30 ms frames and 300 ms padding. `Pipeline.CleanedIsAudioFrames` shows the cleaned
  audio is whole frames of the original audio, in order, each used at most once.
- **Timestamp formatter** (`format_timestamp`). It produces `HH:MM:SS,mmm`. Hours have at least two
  digits and no upper bound. `Timestamp.ParseTimestamp` is its partner: it reads such a string back,
  and `Timestamp.ParseFormat` proves the round trip. `Timestamp.FormatSeconds` is the formatter on a
  real number of seconds, computed the way the source computes it. `Timestamp.ParseFormatSeconds`
  proves the result denotes the time truncated to the millisecond.
- **SRT assembler** (the loop at lines 131-147 of the request handler). Segments with no words, or
  whose mean word probability is below 0.7, are skipped. The others become entries
  `"{i}\n{start} --> {end}\n{strip(text)}\n\n"`, with `i` running 1, 2, 3, … with no gaps.
  - `Subtitles.Srt` is the reference: filter first, then number.
  - `Subtitles.AssembleSrt` is the source's loop, with its running `index` counter, proved equal to
    `Srt`.
  - Python's `str.strip` is modelled over Python's whitespace characters.

Modules: `Wrappers` (Option), `Bytes` (bytes and joining), `Framer`, `Vad`, `VadProperties`,
`Pipeline`, `Decimal` (`str(n)` and `{n:0w}`), `Timestamp` and `Subtitles`.

External pieces are parameters or left out:
- The speech classifier (`webrtcvad`) is a parameter `isSpeech: Frame -> bool`, a deterministic
  function of the frame, with the job's sample rate bound into it.
- The transcribed segments are an input list.
- Files, HTTP, ffmpeg and the Whisper engine are not modelled.

Modelling choices:
- **Hysteresis.** The thresholds at lines 74 and 83 compare the speech count with the number of
  frames the window currently holds, not with its capacity. Lines 77 and 86 empty the window on
  every transition. As a result:
  - a single speech frame opens a segment from an empty window, right at the start or right after
    a segment closed (`VadProperties.OneSpeechFrameTriggers`);
  - the first silent frame after opening closes the segment
    (`VadProperties.FirstSilenceAfterTriggerCloses`).
- **Thresholds.** The float thresholds `sum > 0.9 * len` and `sum < 0.1 * len` are the integer
  comparisons `10 * count > 9 * len` and `10 * count < len`. Speech counts and window lengths are
  whole numbers, so the two forms differ only through float rounding.
- **Frame size.** It is `(sampleRate * frameMs * 2) div 1000` in integers, rather than through a
  float product: 960 bytes for the request's 16000 Hz and 30 ms.
- **Unused classification.** Line 68 computes `is_speech` for each frame and never uses it. Only the
  classifications of the ring-buffer frames at lines 74 and 83 take part.

## Model

| member | source | states |
|---|---|---|
| Framer.FrameSize | ugcc.py:55 | the frame size is `sampleRate * frameMs * 2 / 1000` truncated: `n * 1000 <= sampleRate * frameMs * 2 < n * 1000 + 1000` |
| Framer.RequestFrameSize | ugcc.py:121 | 30 ms frames at 16000 Hz are 960 bytes |
| Framer.FrameGenerator | ugcc.py:54-59 | frame `k` is bytes `k*n .. k*n+n` of the audio; for non-empty audio there are exactly `(len-1) div n` frames and between 1 and `n` trailing bytes are dropped; empty audio gives no frames; the frames joined are the prefix of the audio they cover |
| Vad.PaddingFrames | ugcc.py:62 | the window holds `paddingMs div frameMs` frames: `n * frameMs <= paddingMs < n * frameMs + frameMs` |
| Vad.CountSpeech | ugcc.py:74 | the speech count of a window is at most its length |
| Vad.Triggers | ugcc.py:74 | a window triggers when more than 90 % of the frames it currently holds are speech, in integers: `10 * count > 9 * len` |
| Vad.Releases | ugcc.py:83 | a window releases when fewer than 10 % of the frames it currently holds are speech, in integers: `10 * count < len` |
| Vad.PushBounded | ugcc.py:71-73 | after append-and-evict a window within the bound stays within it, grows by one until full and then keeps its size, and holds the newest frames of the old window plus the new frame, so eviction removes the oldest |
| Vad.Step | ugcc.py:67-87 | a segment is produced exactly on a triggered-to-untriggered transition, and the step keeps the window within the bound |
| Vad.Run | ugcc.py:67-87 | the reference state and the closed segments after the machine has seen a list of frames, one `Step` per frame in order from the untriggered empty state; `RunSnoc` and `VadProperties.RunShape` state what it computes |
| Vad.Collect | ugcc.py:61-90 | the closed segments of `Run` followed by the pending voiced frames when there are any, as frame lists; `VadProperties.CollectShape` and `VadProperties.FinalSegmentIffTriggered` state their shape |
| Vad.Segments | ugcc.py:61-90 | each segment of `Collect` joined into bytes, which is what the generator yields; `VadProperties.SegmentsAreRuns` and `VadProperties.VoicedSubsequence` state what they are |
| Vad.VadMachine.constructor | ugcc.py:62-65 | a new machine keeps the classifier, holds `PaddingFrames(frameMs, paddingMs)` as its window bound, and starts untriggered with an empty window and no voiced frames |
| Vad.VadMachine.Push | ugcc.py:69-87 | updating `triggered`, `ringBuffer` and `voicedFrames` in place gives exactly the reference step's state, and the bytes yielded are the joined frames of the segment the step closes |
| Vad.VadCollect | ugcc.py:61-90 | the segments yielded while driving the machine over the frames, plus the final flush, are exactly `Segments` of the reference |
| Vad.RunSnoc | ugcc.py:67 | running over one more frame is one more step of the reference machine |
| VadProperties.RunShape | ugcc.py:67-87 | after any input the state is reachable: every closed segment and the voiced frames are non-overlapping runs of consecutive input frames in input order, the window is a suffix of the input within the bound, and `triggered` holds exactly when voiced frames are pending |
| VadProperties.StepShape | ugcc.py:69-87 | one step preserves the reachable-state invariant |
| VadProperties.TriggerShape | ugcc.py:74-77 | triggering moves the whole window into the voiced frames and empties the window, keeping the invariant |
| VadProperties.ReleaseShape | ugcc.py:83-87 | releasing yields the voiced frames plus the current frame as a new run after all earlier ones, and empties both lists |
| VadProperties.HoldShape | ugcc.py:79-82 | staying triggered appends the frame to the voiced frames, keeping them a run that ends at the newest frame |
| VadProperties.IdleShape | ugcc.py:70-73 | staying untriggered only moves the window, which stays a suffix of the input |
| VadProperties.CloseShape | ugcc.py:89-90 | the final flush adds the pending voiced frames as a last run ending at the end of input |
| VadProperties.CollectShape | ugcc.py:61-90 | all segments, as frame lists, are non-empty, non-overlapping runs of consecutive input frames in input order |
| VadProperties.SegmentsAreRuns | ugcc.py:61-90 | each yielded byte segment is the join of a non-empty run of consecutive input frames, and the runs are ordered and disjoint |
| VadProperties.VoicedSubsequence | ugcc.py:61-90 | the segments joined equal the input frames at strictly increasing positions, joined: an order-preserving subsequence in which no frame occurs twice |
| VadProperties.RunIndices | ugcc.py:75-90 | ordered disjoint runs of the input, joined, are the input frames at strictly increasing positions |
| VadProperties.FinalSegmentIffTriggered | ugcc.py:89-90 | a final segment is yielded exactly when the machine is still triggered at end of input |
| VadProperties.RingBufferBounded | ugcc.py:71-73 | after any input the window holds at most `num_padding_frames` frames, and they are the latest input frames |
| VadProperties.CountAllSpeech | ugcc.py:74 | a window of speech frames counts all of them |
| VadProperties.CountNoSpeech | ugcc.py:83 | a window of silent frames counts none |
| VadProperties.StepRules | ugcc.py:74-87 | triggering moves the window into the voiced frames and empties the window; a yielded segment is the voiced frames plus the current frame, after which both lists are empty; staying triggered appends the frame; staying untriggered leaves the voiced frames alone |
| VadProperties.AllSilenceNoSegments | ugcc.py:74 | input the classifier calls silence throughout yields no segment |
| VadProperties.SilenceRun | ugcc.py:70-77 | on all-silence input the machine never triggers and never collects a voiced frame |
| VadProperties.AllSpeechOneSegment | ugcc.py:74-90 | non-empty all-speech input with a window of at least one frame yields exactly one segment, all frames joined |
| VadProperties.SpeechRun | ugcc.py:74-82 | on all-speech input the machine triggers at the first frame and collects every frame without releasing |
| VadProperties.NoPaddingNoSegments | ugcc.py:62-74 | with a zero-frame window nothing is ever yielded |
| VadProperties.NoPaddingRun | ugcc.py:71-74 | with a zero-frame window the machine stays in its initial state |
| VadProperties.OneSpeechFrameTriggers | ugcc.py:74 | from an empty window one frame triggers exactly when it is speech (and the window holds at least one frame) |
| VadProperties.FirstSilenceAfterTriggerCloses | ugcc.py:83 | right after triggering, the next frame closes the segment exactly when it is silence |
| Pipeline.TenPaddingFrames | ugcc.py:122 | 300 ms of padding with 30 ms frames is a ten-frame window |
| Pipeline.CleanAudio | ugcc.py:121-125 | empty audio gives no frames and non-empty audio gives `(len-1) div n` frames of `n` bytes; the job's frames are the 30 ms slices of the audio, its segments are the reference segments over those frames with a 300 ms window, and the cleaned audio is the segments joined |
| Pipeline.CleanedIsAudioFrames | ugcc.py:121-125 | the cleaned audio is whole frames of the original audio at strictly increasing positions, joined |
| Bytes.JoinAppend | ugcc.py:125 | joining distributes over concatenation of part lists |
| Bytes.JoinOfJoins | ugcc.py:85-125 | joining the segments, each itself the join of its frames (lines 85 and 90), is joining all their frames at once (line 125) |
| Bytes.Join | ugcc.py:85-125 | `b"".join`: the parts concatenated in order; `JoinSnoc`, `JoinAppend` and `JoinOfJoins` state its laws |
| Decimal.DigitChar | ugcc.py:28 | a digit below ten is rendered as the digit character denoting it |
| Decimal.NatToString | ugcc.py:28 | the decimal form is non-empty, all digits, has no leading zero, and denotes the number |
| Decimal.DigitsFit | ugcc.py:28 | a number below `10^w` has at most `w` digits |
| Decimal.ValueBound | ugcc.py:28 | `w` digits denote a number below `10^w` |
| Decimal.ValueZerosPrefix | ugcc.py:28 | leading zeros do not change the value denoted |
| Decimal.ValueZeros | ugcc.py:28 | a string of zeros denotes 0 |
| Decimal.ZeroPad | ugcc.py:28 | `{n:0w}` is all digits and denotes `n`; it is at least `w` wide, and wider only when it is the unpadded decimal form |
| Decimal.ZeroPadExact | ugcc.py:28 | a number below `10^w` pads to exactly `w` characters |
| Timestamp.ClockLayout | ugcc.py:28 | the clock string of minutes and seconds below 60 has hours in the first `len - 10` characters (at least two, no extra leading zero), then ':', two digits of minutes, ':', two of seconds, ',', three of milliseconds, each field denoting its value |
| Timestamp.FormatLayout | ugcc.py:23-28 | the formatted string's fields denote `t div 3600`, `(t mod 3600) div 60`, `t mod 60` and the milliseconds, in the `HH:MM:SS,mmm` layout |
| Timestamp.ClockSplit | ugcc.py:24-26 | whole seconds split into hours, minutes below 60 and seconds below 60 that add back up |
| Timestamp.ClockSplitUnique | ugcc.py:24-26 | that split is unique, and it is `t div 3600`, `(t mod 3600) div 60`, `t mod 60` |
| Timestamp.FormatIsClock | ugcc.py:23-28 | the formatter's string is the clock string of any valid split of its seconds |
| Timestamp.ParseClock | ugcc.py:28 | a clock string reads back as the total seconds and milliseconds it was made from |
| Timestamp.ParseLaidOut | ugcc.py:28 | any string with the clock layout reads back as the time its fields denote |
| Timestamp.ParseFormat | ugcc.py:23-28 | the formatted string reads back as exactly the seconds and milliseconds formatted |
| Timestamp.FormatInjective | ugcc.py:23-28 | distinct times give distinct strings |
| Timestamp.FormatTimestamp | ugcc.py:23-28 | the formatter on whole seconds and milliseconds; `FormatLayout`, `ParseFormat` and `FormatInjective` state what its string holds |
| Timestamp.Clock | ugcc.py:28 | the f-string `{hrs:02}:{mins:02}:{secs:02},{millis:03}` of four numbers; `ClockLayout` states its layout and `ParseClock` reads it back |
| Timestamp.FormatMidnight | ugcc.py:23-28 | 0 s formats as `00:00:00,000` |
| Timestamp.FormatHourMinuteSecond | ugcc.py:23-28 | 3661 s and 234 ms format as `01:01:01,234` |
| Timestamp.FormatLastMillisecond | ugcc.py:23-28 | 1 s and 999 ms format as `00:00:01,999` |
| Timestamp.FloorDivWhole | ugcc.py:24-27 | on a non-negative time, float `//` and `%` by a whole number of seconds agree with integer division of the whole seconds |
| Timestamp.SplitTime | ugcc.py:24-27 | the whole seconds and truncated milliseconds of a time bracket it: `w + ms/1000 <= t < w + (ms+1)/1000` |
| Timestamp.FormatSecondsWhole | ugcc.py:23-28 | formatting the real time as the source computes it equals formatting its whole seconds and truncated milliseconds |
| Timestamp.FormatSeconds | ugcc.py:23-28 | the formatter on a non-negative real time, with float `//` and `%` as floor division and floor modulo and the milliseconds truncated, as lines 24-27 compute them; `FormatSecondsWhole` and `ParseFormatSeconds` state what its string denotes |
| Timestamp.ParseFormatSeconds | ugcc.py:23-28 | the string for a time reads back as that time truncated to the millisecond |
| Subtitles.Kept | ugcc.py:134-140 | filtering keeps at most as many segments as it is given |
| Subtitles.KeptMembers | ugcc.py:135-140 | a segment is kept exactly when it is in the input and has words whose mean probability is at least 0.7 |
| Subtitles.KeptAppend | ugcc.py:134-140 | filtering distributes over concatenation, so order is preserved |
| Subtitles.LeadingSpaces | ugcc.py:144 | the leading whitespace run is all whitespace and is followed by a non-space or the end |
| Subtitles.TrailingSpaces | ugcc.py:144 | the trailing whitespace run is all whitespace and is preceded by a non-space or the start |
| Subtitles.Strip | ugcc.py:144 | `strip()` returns the middle of the text, cuts off only whitespace, and neither starts nor ends with whitespace |
| Subtitles.StripEmptyIff | ugcc.py:144 | the stripped text is empty exactly when the text is all whitespace |
| Subtitles.StripIdempotent | ugcc.py:144 | stripping twice is stripping once |
| Subtitles.Numbered | ugcc.py:146 | there is one entry per kept segment |
| Subtitles.SrtSnoc | ugcc.py:134-147 | one more segment adds its entry, numbered one past the number of earlier kept segments, when it passes, and nothing otherwise |
| Subtitles.AssembleSrt | ugcc.py:131-147 | the loop with its running `index` produces exactly the reference document: the kept segments' entries numbered 1, 2, … in order |
| Subtitles.SkippedLeavesNoGap | ugcc.py:134-147 | a skipped segment changes nothing, neither the entries nor the numbering of later entries |
| Subtitles.SrtEmptyIff | ugcc.py:131-147 | the document is empty exactly when no segment passes |
| Subtitles.ThresholdExamples | ugcc.py:131-140 | a mean of 0.8 or exactly 0.7 passes, 0.65 is skipped, and a segment with no words is skipped |
| Subtitles.Sum | ugcc.py:138 | the sum of a segment's word probabilities |
| Subtitles.Mean | ugcc.py:138 | the mean word probability, defined only for a segment with words, as line 136 guarantees |
| Subtitles.Passes | ugcc.py:136-140 | a segment is kept exactly when it has words and their mean probability is not below 0.7; `ThresholdExamples` shows the boundary |
| Subtitles.IsSpace | ugcc.py:144 | the characters Python's `str.strip()` removes: ASCII 9 to 13, 28 to 32, and the Unicode spaces |
| Subtitles.Entry | ugcc.py:142-146 | one entry: the number, the start and end timestamps joined by ` --> `, the stripped text and a blank line |
| Subtitles.Srt | ugcc.py:131-147 | the document: the entries of the kept segments numbered 1, 2, … in order, joined; `AssembleSrt`, `SrtSnoc`, `SkippedLeavesNoGap` and `SrtEmptyIff` state what it holds |

## Left out

- Flask routes, CORS, uploads, the `/get-srt` and `/download` handlers, and all file I/O: these are plumbing with no logic to model.
- `extract_audio_from_mp4` (ffmpeg), `read_wave` and `write_wave` (the `wave` library): foreign I/O. The audio is an input byte sequence, and the sample rate is an input number.
- Whisper model loading and `model.transcribe`: a foreign engine. Its segments are an input list of `(start, end, text, word probabilities)`.
- The internals of `webrtcvad`: the classifier is a parameter, assumed deterministic, and aggressiveness level 2 takes no part.
- Generators: `frame_generator` and `vad_collector` yield lazily, but the source turns both into lists at once (lines 121-122). The model returns the lists.
- Float behaviour. The frame size, the padding-frame count, the VAD thresholds, the timestamp arithmetic and the mean confidence are all computed exactly, in integers or Dafny's exact reals. Float rounding, for example a millisecond lost in `(s - int(s)) * 1000`, is not modelled.
- Timestamp.FormatSeconds: only defined for non-negative times. The recogniser never produces negative times, and Python's behaviour there is not modelled.
- Vad.PaddingFrames: requires a positive frame duration. The source raises `ZeroDivisionError` at line 62 for a zero frame duration, and its only call passes 30 (line 122). The same holds for the `Vad.VadMachine` constructor and `Vad.VadCollect`.
- Framer.FrameGenerator: requires a positive frame size unless the audio is empty. With size 0 and non-empty audio, the source's loop never ends.
- The log `print` calls, and the count of segments that is only printed (line 123).
