/**
 * Turning the recogniser's transcribed segments into a SubRip (SRT) document: segments without
 * words, or whose words' mean confidence is below the threshold, are skipped; every other
 * segment becomes one numbered entry, numbered 1, 2, 3, ... in order with no gaps.
 */
module Subtitles {
  import opened Bytes
  import opened Decimal
  import opened Timestamp

  /** Times from the recogniser are non-negative seconds. */
  type Time = t: real | t >= 0.0

  /**
   * One recognised segment: its start and end, its text, and the recognition probability of
   * each of its words.
   */
  datatype TranscribedSegment = TranscribedSegment(start: Time, end: Time, text: string, probabilities: seq<real>)

  const ConfidenceThreshold: real := 0.7

  function Sum(xs: seq<real>): real
  {
    if xs == [] then 0.0 else Sum(xs[..|xs| - 1]) + xs[|xs| - 1]
  }

  /** The mean of a non-empty list of probabilities. */
  function Mean(xs: seq<real>): real
    requires xs != []
  {
    Sum(xs) / |xs| as real
  }

  /** A segment makes it into the document when it has words and their mean confidence reaches the threshold. */
  predicate Passes(seg: TranscribedSegment)
  {
    seg.probabilities != [] && Mean(seg.probabilities) >= ConfidenceThreshold
  }

  /** The segments that pass, in their original order. */
  function Kept(segs: seq<TranscribedSegment>): (k: seq<TranscribedSegment>)
    ensures |k| <= |segs|
  {
    if segs == [] then []
    else
      var last := segs[|segs| - 1];
      Kept(segs[..|segs| - 1]) + (if Passes(last) then [last] else [])
  }

  /** Exactly the passing segments are kept. */
  lemma {:induction false} KeptMembers(segs: seq<TranscribedSegment>)
    ensures forall x :: x in Kept(segs) <==> x in segs && Passes(x)
  {
    if segs != [] {
      var init := segs[..|segs| - 1];
      assert segs == init + [segs[|segs| - 1]];
      KeptMembers(init);
    }
  }

  /** Filtering distributes over concatenation. */
  lemma {:induction false} KeptAppend(a: seq<TranscribedSegment>, b: seq<TranscribedSegment>)
    ensures Kept(a + b) == Kept(a) + Kept(b)
  {
    if b == [] {
      assert a + b == a;
    } else {
      var b' := b[..|b| - 1];
      assert (a + b)[..|a + b| - 1] == a + b';
      KeptAppend(a, b');
    }
  }

  /** Python's `str.isspace` for one character: the ASCII controls 9 to 13 and 28 to 31, the space, and the Unicode spaces. */
  predicate IsSpace(c: char)
  {
    (9 <= c as int <= 13) || (28 <= c as int <= 32)
    || c as int == 0x85 || c as int == 0xA0 || c as int == 0x1680
    || (0x2000 <= c as int <= 0x200A) || c as int == 0x2028 || c as int == 0x2029
    || c as int == 0x202F || c as int == 0x205F || c as int == 0x3000
  }

  predicate AllSpaces(s: string)
  {
    forall i :: 0 <= i < |s| ==> IsSpace(s[i])
  }

  /** The number of whitespace characters at the front of `s`. */
  function LeadingSpaces(s: string): (n: nat)
    ensures n <= |s| && AllSpaces(s[..n])
    ensures n < |s| ==> !IsSpace(s[n])
  {
    if s != [] && IsSpace(s[0]) then
      var m := LeadingSpaces(s[1..]);
      assert s[1..][..m] == s[1..m + 1];
      1 + m
    else 0
  }

  /** The number of whitespace characters at the back of `s`. */
  function TrailingSpaces(s: string): (n: nat)
    ensures n <= |s| && AllSpaces(s[|s| - n..])
    ensures n < |s| ==> !IsSpace(s[|s| - n - 1])
  {
    if s != [] && IsSpace(s[|s| - 1]) then
      var m := TrailingSpaces(s[..|s| - 1]);
      assert s[..|s| - 1][|s| - 1 - m..] == s[|s| - 1 - m..|s| - 1];
      1 + m
    else 0
  }

  /**
   * Python's `str.strip()`: `s` without its leading and trailing whitespace. The result is the
   * middle of `s`, what was cut off is whitespace, and the result neither starts nor ends with
   * whitespace.
   */
  function Strip(s: string): (r: string)
    ensures var lo := LeadingSpaces(s);
            && lo + |r| <= |s| && r == s[lo..lo + |r|]
            && AllSpaces(s[..lo]) && AllSpaces(s[lo + |r|..])
    ensures r != [] ==> !IsSpace(r[0]) && !IsSpace(r[|r| - 1])
  {
    var lo := LeadingSpaces(s);
    var rest := s[lo..];
    var hi := |rest| - TrailingSpaces(rest);
    assert rest[hi..] == s[lo + hi..];
    assert rest[..hi] == s[lo..lo + hi];
    assert hi > 0 ==> rest[..hi][0] == s[lo] && rest[..hi][hi - 1] == rest[hi - 1];
    rest[..hi]
  }

  /** Stripping is empty exactly when the text is all whitespace. */
  lemma StripEmptyIff(s: string)
    ensures Strip(s) == [] <==> AllSpaces(s)
  {
    var lo, r := LeadingSpaces(s), Strip(s);
    assert lo < |s| ==> s[lo..][0] == s[lo];
    assert s[..|s|] == s;
    if r != [] {
      assert r[0] == s[lo];
    }
  }

  /** Stripping twice is stripping once. */
  lemma StripIdempotent(s: string)
    ensures Strip(Strip(s)) == Strip(s)
  {
    var r := Strip(s);
    if r != [] {
      assert LeadingSpaces(r) == 0;
      assert TrailingSpaces(r[0..]) == 0 by {
        assert r[0..] == r;
      }
    }
  }

  /** One SRT entry: its number, the start and end clock strings, the stripped text and a blank line. */
  function Entry(index: nat, seg: TranscribedSegment): string
  {
    NatToString(index) + "\n" + FormatSeconds(seg.start) + " --> " + FormatSeconds(seg.end) + "\n"
    + Strip(seg.text) + "\n\n"
  }

  /** The entries of the given segments, numbered from 1 in order. */
  function Numbered(k: seq<TranscribedSegment>): (es: seq<string>)
    ensures |es| == |k|
  {
    seq(|k|, i requires 0 <= i < |k| => Entry(i + 1, k[i]))
  }

  /** The SRT document of a list of segments: the entries of those that pass, one after another. */
  function Srt(segs: seq<TranscribedSegment>): string
  {
    Join(Numbered(Kept(segs)))
  }

  /** One more segment adds its entry, numbered one past the entries so far, when it passes, and nothing otherwise. */
  lemma SrtSnoc(segs: seq<TranscribedSegment>, seg: TranscribedSegment)
    ensures Srt(segs + [seg]) == Srt(segs) + (if Passes(seg) then Entry(|Kept(segs)| + 1, seg) else "")
  {
    var all := segs + [seg];
    assert all[..|all| - 1] == segs;
    var k, k' := Kept(segs), Kept(all);
    assert k' == k + (if Passes(seg) then [seg] else []);
    var es, es' := Numbered(k), Numbered(k');
    if Passes(seg) {
      assert |es'| == |k| + 1;
      forall i | 0 <= i < |k|
        ensures es'[i] == es[i]
      {
        assert k'[i] == k[i];
      }
      assert es'[..|es'| - 1] == es;
      assert es'[|es'| - 1] == Entry(|k| + 1, seg);
      assert Join(es') == Join(es) + Entry(|k| + 1, seg);
    } else {
      assert k' == k;
      assert es' == es;
    }
  }

  /**
   * The loop that writes the document: it skips segments without words and segments below the
   * threshold, and numbers the others with a counter that starts at 1.
   */
  method AssembleSrt(segments: seq<TranscribedSegment>) returns (srt: string)
    ensures srt == Srt(segments)
  {
    srt := "";
    var index := 1;
    for i := 0 to |segments|
      invariant srt == Srt(segments[..i])
      invariant index == |Kept(segments[..i])| + 1
    {
      var segment := segments[i];
      SrtSnoc(segments[..i], segment);
      TakeOneMore(segments, i);
      var words := segment.probabilities;
      if words == [] {
        continue;
      }
      var avgConfidence := Sum(words) / |words| as real;
      if avgConfidence < ConfidenceThreshold {
        assert !Passes(segment);
        continue;
      }
      assert Passes(segment);
      var start := FormatSeconds(segment.start);
      var end := FormatSeconds(segment.end);
      var text := Strip(segment.text);
      var entry := NatToString(index) + "\n" + start + " --> " + end + "\n" + text + "\n\n";
      assert entry == Entry(index, segment);
      srt := srt + entry;
      index := index + 1;
    }
    assert segments[..|segments|] == segments;
  }

  lemma TakeOneMore<T>(s: seq<T>, i: nat)
    requires i < |s|
    ensures s[..i + 1] == s[..i] + [s[i]]
  {
  }

  /** A skipped segment leaves no trace: neither an entry nor a gap in the numbering. */
  lemma SkippedLeavesNoGap(a: seq<TranscribedSegment>, seg: TranscribedSegment, b: seq<TranscribedSegment>)
    requires !Passes(seg)
    ensures Srt(a + [seg] + b) == Srt(a + b)
  {
    KeptAppend(a + [seg], b);
    KeptAppend(a, [seg]);
    KeptAppend(a, b);
    assert Kept([seg]) == [] by {
      assert [seg][..0] == [];
    }
    assert Kept(a + [seg] + b) == Kept(a + b);
  }

  /** The document is empty exactly when no segment passes. */
  lemma SrtEmptyIff(segs: seq<TranscribedSegment>)
    ensures Srt(segs) == [] <==> Kept(segs) == []
  {
    var es := Numbered(Kept(segs));
    if es != [] {
      var last := es[|es| - 1];
      assert |last| > 0 by {
        var k := Kept(segs);
        assert last == Entry(|k|, k[|k| - 1]);
      }
    }
  }

  /** Mean confidences 0.8 and 0.7 are kept, 0.65 is skipped, and a segment with no words is skipped. */
  lemma ThresholdExamples(start: Time, end: Time, text: string)
    ensures Passes(TranscribedSegment(start, end, text, [0.9, 0.7]))
    ensures Passes(TranscribedSegment(start, end, text, [0.7]))
    ensures !Passes(TranscribedSegment(start, end, text, [0.6, 0.7]))
    ensures !Passes(TranscribedSegment(start, end, text, []))
  {
    assert Sum([0.9, 0.7]) == 1.6 by {
      assert [0.9, 0.7][..1] == [0.9];
      assert [0.9] [..0] == [];
    }
    assert Sum([0.7]) == 0.7 by {
      assert [0.7][..0] == [];
    }
    assert Sum([0.6, 0.7]) == 1.3 by {
      assert [0.6, 0.7][..1] == [0.6];
      assert [0.6][..0] == [];
    }
  }
}
