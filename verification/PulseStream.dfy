/**
  What the PCM scan reports on transmitted rows: any sequence of legacy and extended frames with any
  silences in between, and the transmitter's own repeated burst.
 */
module PulseStream {
  import opened Packet
  import opened Ecc
  import opened Waveform
  import opened Pulse
  import opened PulseScan

  /** One transmitted frame and the silence after it. */
  datatype Segment = Segment(words: seq<bv8>, gap: nat)

  ghost predicate FrameSized(segments: seq<Segment>) {
    forall s :: s in segments ==> |s.words| == STANDARD_WORDS || |s.words| == EXTENDED_WORDS
  }

  /** The transmitted row. */
  function Row(segments: seq<Segment>): seq<bool> {
    if segments == [] then []
    else FrameBits(segments[0].words) + Zeros(segments[0].gap) + Row(segments[1..])
  }

  /** The receiver loses the final low bit of the last frame when nothing follows it. */
  ghost predicate Received(segments: seq<Segment>, cut: bool, bits: seq<bool>) {
    if cut then segments != [] && segments[|segments| - 1].gap == 0 && bits + [false] == Row(segments)
    else bits == Row(segments)
  }

  // ----- Position by position -----

  /** From `offset` on the row consists of these segments; with `cut`, the last one lacks its final bit. */
  ghost predicate StreamAt(bits: seq<bool>, offset: nat, segments: seq<Segment>, cut: bool)
    decreases |segments|
  {
    if segments == [] then !cut && offset == |bits|
    else
      var words, gap := segments[0].words, segments[0].gap;
      var end := offset + WORD_BITS * |words|;
      if cut && |segments| == 1 then end == |bits| + 1 && Decodes(bits, offset, words)
      else
        && Carries(bits, offset, words)
        && end + gap <= |bits|
        && (forall i :: end <= i < end + gap ==> !bits[i])
        && StreamAt(bits, end + gap, segments[1..], cut)
  }

  lemma {:induction false} RowIsStream(bits: seq<bool>, offset: nat, segments: seq<Segment>)
    requires offset <= |bits| && bits[offset..] == Row(segments)
    ensures StreamAt(bits, offset, segments, false)
    decreases |segments|
  {
    hide FrameBits;
    if segments != [] {
      var words, gap := segments[0].words, segments[0].gap;
      var end := offset + WORD_BITS * |words|;
      var frame, silence, rest := FrameBits(words), Zeros(gap), Row(segments[1..]);
      assert bits[offset..] == frame + (silence + rest);
      RowParts(bits, offset, frame, silence + rest);
      RowParts(bits, end, silence, rest);
      RowIsStream(bits, end + gap, segments[1..]);
      forall i | end <= i < end + gap ensures !bits[i] { assert bits[end..end + gap][i - end] == bits[i]; }
    }
  }

  lemma RowParts<X>(s: seq<X>, at: nat, a: seq<X>, b: seq<X>)
    requires at <= |s| && s[at..] == a + b
    ensures at + |a| <= |s| && s[at..at + |a|] == a && s[at + |a|..] == b
  {
    assert s[at..][..|a|] == a && s[at..][|a|..] == b;
    assert s[at..at + |a|] == s[at..][..|a|];
    assert s[at + |a|..] == s[at..][|a|..];
  }

  lemma {:induction false} CutStream(bits: seq<bool>, offset: nat, segments: seq<Segment>)
    requires segments != [] && segments[|segments| - 1].gap == 0
    requires segments[|segments| - 1].words != []
    requires StreamAt(bits + [false], offset, segments, false)
    ensures StreamAt(bits, offset, segments, true)
    decreases |segments|
  {
    hide Carries, FrameBits;
    var row := bits + [false];
    var words, gap := segments[0].words, segments[0].gap;
    var end := offset + WORD_BITS * |words|;
    if |segments| == 1 {
      assert StreamAt(row, end + gap, [], false);
      CompletedAgrees(bits, offset, |words|);
    } else {
      CutStream(bits, end + gap, segments[1..]);
      StreamStartsInside(row, end + gap, segments[1..]);
      assert end + gap < |row|;
      CarriesSameSlice(row, bits, offset, words);
      forall i | end <= i < end + gap ensures !bits[i] { assert bits[i] == row[i]; }
    }
  }

  lemma {:induction false} StreamStartsInside(bits: seq<bool>, offset: nat, segments: seq<Segment>)
    requires segments != [] && segments[|segments| - 1].words != []
    requires StreamAt(bits, offset, segments, false)
    ensures offset < |bits|
    decreases |segments|
  {
    hide Carries;
    if |segments| > 1 {
      StreamStartsInside(bits, offset + WORD_BITS * |segments[0].words| + segments[0].gap, segments[1..]);
    } else {
      assert StreamAt(bits, offset + WORD_BITS * |segments[0].words| + segments[0].gap, [], false);
    }
  }

  lemma CarriesSameSlice(row: seq<bool>, bits: seq<bool>, offset: nat, words: seq<bv8>)
    requires Carries(row, offset, words) && bits <= row && offset + WORD_BITS * |words| <= |bits|
    ensures Carries(bits, offset, words)
  {
    hide FrameBits;
    var end := offset + WORD_BITS * |words|;
    assert row[offset..end] == bits[offset..end];
  }

  lemma ReceivedIsStream(segments: seq<Segment>, cut: bool, bits: seq<bool>)
    requires FrameSized(segments) && Received(segments, cut, bits)
    ensures StreamAt(bits, 0, segments, cut)
  {
    hide Row;
    var row := Row(segments);
    assert row[0..] == row;
    RowIsStream(row, 0, segments);
    if cut {
      CutStream(bits, 0, segments);
    }
  }

  // ----- The expected reports -----

  /** What is reported for the segment at `offset`. */
  function ExpectedHere(offset: nat, s: Segment, cut: bool): seq<Candidate>
    requires |s.words| == STANDARD_WORDS || |s.words| == EXTENDED_WORDS
  {
    if |s.words| == STANDARD_WORDS then
      if cut then [CandidateOf(s.words, StandardTruncated, offset, 0)]
      else if s.gap >= 18 then [CandidateOf(s.words, Standard, offset, s.gap)]
      else []
    else if !IntegrityMatches(s.words) then []
    else if cut then [CandidateOf(s.words, ExtendedTruncated, offset, 0)]
    else if s.gap >= 10 then [CandidateOf(s.words, Extended, offset, s.gap)]
    else []
  }

  function Expected(offset: nat, segments: seq<Segment>, cut: bool): (cs: seq<Candidate>)
    requires forall s :: s in segments ==> |s.words| == STANDARD_WORDS || |s.words| == EXTENDED_WORDS
    decreases |segments|
  {
    if segments == [] then []
    else
      var s := segments[0];
      ExpectedHere(offset, s, cut && |segments| == 1)
      + Expected(offset + WORD_BITS * |s.words| + s.gap, segments[1..], cut)
  }

  lemma ExpectedHereAt(offset: nat, s: Segment, cut: bool)
    requires |s.words| == STANDARD_WORDS || |s.words| == EXTENDED_WORDS
    ensures |ExpectedHere(offset, s, cut)| <= 1
    ensures forall c :: c in ExpectedHere(offset, s, cut) ==> c.bitOffset == offset
  {
    hide FrameFromWords, IntegrityMatches;
  }

  lemma {:induction false} ExpectedIncreasing(offset: nat, segments: seq<Segment>, cut: bool)
    requires FrameSized(segments)
    ensures Increasing(Expected(offset, segments, cut))
    ensures forall c :: c in Expected(offset, segments, cut) ==> c.bitOffset >= offset
    decreases |segments|
  {
    hide ExpectedHere;
    if segments != [] {
      var s := segments[0];
      var next := offset + WORD_BITS * |s.words| + s.gap;
      var last := cut && |segments| == 1;
      ExpectedHereAt(offset, s, last);
      ExpectedIncreasing(next, segments[1..], cut);
      JoinIncreasing(ExpectedHere(offset, s, last), Expected(next, segments[1..], cut), offset, next);
    }
  }

  lemma JoinIncreasing(here: seq<Candidate>, rest: seq<Candidate>, offset: nat, next: nat)
    requires |here| <= 1 && Increasing(rest) && offset < next
    requires forall c :: c in here ==> c.bitOffset == offset
    requires forall c :: c in rest ==> c.bitOffset >= next
    ensures Increasing(here + rest)
    ensures forall c :: c in here + rest ==> c.bitOffset >= offset
  {
    forall i | 0 <= i < |rest| ensures rest[i].bitOffset >= next { assert rest[i] in rest; }
    forall i | 0 <= i < |here| ensures here[i].bitOffset == offset { assert here[i] in here; }
  }

  /** What follows a segment in a received row. */
  ghost predicate Follows(bits: seq<bool>, offset: nat, s: Segment) {
    var end := offset + WORD_BITS * |s.words|;
    && Carries(bits, offset, s.words)
    && end <= |bits|
    && ZeroRun(bits, end) == s.gap
    && (s.gap == 0 && end < |bits| ==> end + 20 < |bits| && bits[end + 20])
  }

  lemma StreamFollows(bits: seq<bool>, offset: nat, segments: seq<Segment>, cut: bool)
    requires FrameSized(segments) && StreamAt(bits, offset, segments, cut)
    requires segments != [] && !(cut && |segments| == 1)
    ensures Follows(bits, offset, segments[0])
  {
    hide Carries, ZeroRun;
    var s := segments[0];
    var end := offset + WORD_BITS * |s.words|;
    if |segments| > 1 {
      StreamFrameStart(bits, end + s.gap, segments[1..], cut);
    } else {
      assert StreamAt(bits, end + s.gap, [], cut);
    }
    ZeroRunIs(bits, end, s.gap);
  }

  /** A stream starts with three high bits and with a first word. */
  lemma StreamFrameStart(bits: seq<bool>, offset: nat, segments: seq<Segment>, cut: bool)
    requires FrameSized(segments) && segments != [] && StreamAt(bits, offset, segments, cut)
    ensures offset + 20 < |bits| && bits[offset] && bits[offset + 20]
  {
    hide Carries, Completed;
    var words := segments[0].words;
    CompletedAgrees(bits, offset, |words|);
    StartOfRun(Completed(bits, offset, |words|), offset, words);
  }

  /** Exactly the expected candidate is reported at a complete segment. */
  lemma ReportsAtSegment(bits: seq<bool>, offset: nat, s: Segment, c: Candidate)
    requires |s.words| == STANDARD_WORDS || |s.words| == EXTENDED_WORDS
    requires Follows(bits, offset, s) && c.bitOffset == offset
    ensures Reports(bits, c) <==> c in ExpectedHere(offset, s, false)
  {
    hide Carries, Completed, ZeroRun, FrameFromWords, Frame.WireWords, IntegrityMatches, HasWord;
    CompletedAgrees(bits, offset, |s.words|);
    var expected := ExpectedHere(offset, s, false);
    if expected != [] {
      CandidateOfReports(bits, s.words, expected[0].format, offset, s.gap);
      if Reports(bits, c) {
        ReportedUnique(bits, c, expected[0]);
      }
    } else if Reports(bits, c) {
      ReportedWordsExtend(bits, c, s);
      assert false;
    }
  }

  lemma ReportedWordsExtend(bits: seq<bool>, c: Candidate, s: Segment)
    requires |s.words| == STANDARD_WORDS || |s.words| == EXTENDED_WORDS
    requires Follows(bits, c.bitOffset, s) && Reports(bits, c)
    ensures ExpectedHere(c.bitOffset, s, false) != []
  {
    hide Carries, Completed, ZeroRun, FrameFromWords, Frame.WireWords, IntegrityMatches, HasWord;
    var offset, words := c.bitOffset, c.frame.WireWords();
    var row := Completed(bits, offset, |words|);
    CompletedAgrees(bits, offset, |words|);
    CompletedAgrees(bits, offset, |s.words|);
    if |words| == |s.words| {
      CarriesUnique(row, offset, words, s.words);
      assert s.words[..|words|] == s.words;
    } else if |words| > |s.words| {
      CarriesIff(row, offset, words);
      var end := offset + WORD_BITS * STANDARD_WORDS;
      assert HasWord(row, offset + WORD_BITS * 7, words[7], false);
      WordShapeAt(row, end, words[7], false);
      ZeroRunLow(bits, end);
    } else {
      CarriesIff(bits, offset, s.words);
      assert HasWord(bits, offset + WORD_BITS * 7, s.words[7], false);
      WordShapeAt(bits, offset + WORD_BITS * 7, s.words[7], false);
      ZeroRunLow(bits, FrameEnd(c));
    }
  }

  /** The same for a last segment whose final bit is missing. */
  lemma ReportsAtCutSegment(bits: seq<bool>, s: Segment, c: Candidate)
    requires |s.words| == STANDARD_WORDS || |s.words| == EXTENDED_WORDS
    requires c.bitOffset + WORD_BITS * |s.words| == |bits| + 1 && Decodes(bits, c.bitOffset, s.words)
    ensures Reports(bits, c) <==> c in ExpectedHere(c.bitOffset, s, true)
  {
    hide Carries, Completed, ZeroRun, FrameFromWords, Frame.WireWords, IntegrityMatches, HasWord;
    var offset := c.bitOffset;
    var expected := ExpectedHere(offset, s, true);
    if expected != [] {
      CandidateOfReports(bits, s.words, expected[0].format, offset, 0);
      if Reports(bits, c) {
        ReportedUnique(bits, c, expected[0]);
      }
    } else {
      UncheckedCutFrame(bits, s.words, c);
    }
  }

  /** A ten-word frame that fails its integrity check is not reported, not even as its first seven words. */
  lemma UncheckedCutFrame(bits: seq<bool>, words: seq<bv8>, c: Candidate)
    requires |words| == EXTENDED_WORDS && !IntegrityMatches(words)
    requires c.bitOffset + WORD_BITS * |words| == |bits| + 1 && Decodes(bits, c.bitOffset, words)
    ensures !Reports(bits, c)
  {
    hide Carries, Completed, ZeroRun, FrameFromWords, Frame.WireWords, IntegrityMatches, HasWord;
    var offset := c.bitOffset;
    var row := Completed(bits, offset, |words|);
    CompletedAgrees(bits, offset, |words|);
    CarriesIff(row, offset, words);
    assert HasWord(row, offset + WORD_BITS * 7, words[7], false);
    WordShapeAt(row, offset + WORD_BITS * 7, words[7], false);
    ZeroRunLow(bits, offset + WORD_BITS * STANDARD_WORDS);
    if Reports(bits, c) && WordCount(c.format) == EXTENDED_WORDS {
      DecodesUnique(bits, offset, words, c.frame.WireWords());
    }
  }

  /** Nothing is reported in the interior of a segment or in its silence. */
  lemma OnlyAtSegmentStart(bits: seq<bool>, offset: nat, s: Segment, c: Candidate)
    requires Decodes(bits, offset, s.words) && Reports(bits, c)
    requires var end := offset + WORD_BITS * |s.words|;
             && offset <= c.bitOffset < end + s.gap
             && (end + s.gap <= |bits| || s.gap == 0)
             && forall i :: end <= i < end + s.gap ==> !bits[i]
    ensures c.bitOffset == offset
  {
    hide Carries, Completed, Reports;
    ReportedStart(bits, c);
    CompletedAgrees(bits, offset, |s.words|);
    if c.bitOffset < offset + WORD_BITS * |s.words| {
      FrameOnlyAtRunStart(Completed(bits, offset, |s.words|), offset, s.words, c.bitOffset);
    }
  }

  /**
    For every sequence of frames and silences, what is reported from a segment boundary on is exactly the
    expected list: nothing spurious at any other offset, nothing missed, no variant taken for the other.
   */
  lemma {:induction false} StreamReports(bits: seq<bool>, offset: nat, segments: seq<Segment>, cut: bool, c: Candidate)
    requires FrameSized(segments) && StreamAt(bits, offset, segments, cut) && c.bitOffset >= offset
    ensures Reports(bits, c) <==> c in Expected(offset, segments, cut)
    decreases |segments|
  {
    hide Carries, Reports, ExpectedHere;
    if segments == [] {
      if Reports(bits, c) {
        ReportedStart(bits, c);
      }
    } else {
      var s := segments[0];
      var end := offset + WORD_BITS * |s.words|;
      var next := end + s.gap;
      var last := cut && |segments| == 1;
      ExpectedHereAt(offset, s, last);
      CompletedAgrees(bits, offset, |s.words|);
      if last {
        StreamReportsCut(bits, offset, segments, c);
      } else if c.bitOffset == offset {
        StreamFollows(bits, offset, segments, cut);
        ReportsAtSegment(bits, offset, s, c);
        ExpectedIncreasing(next, segments[1..], cut);
      } else if c.bitOffset < next {
        ExpectedIncreasing(next, segments[1..], cut);
        if Reports(bits, c) {
          OnlyAtSegmentStart(bits, offset, s, c);
        }
      } else {
        StreamReports(bits, next, segments[1..], cut, c);
      }
    }
  }

  lemma StreamReportsCut(bits: seq<bool>, offset: nat, segments: seq<Segment>, c: Candidate)
    requires FrameSized(segments) && |segments| == 1 && StreamAt(bits, offset, segments, true) && c.bitOffset >= offset
    ensures Reports(bits, c) <==> c in Expected(offset, segments, true)
  {
    hide Carries, Reports, ExpectedHere, Completed;
    var s := segments[0];
    ExpectedHereAt(offset, s, true);
    assert Expected(offset, segments, true) == ExpectedHere(offset, s, true) + [];
    if c.bitOffset == offset {
      ReportsAtCutSegment(bits, s, c);
    } else if Reports(bits, c) {
      ReportedStart(bits, c);
      OnlyAtSegmentStart(bits, offset, Segment(s.words, 0), c);
    }
  }

  /** The theorem for whole received rows. */
  lemma ReceivedReports(segments: seq<Segment>, cut: bool, bits: seq<bool>)
    requires FrameSized(segments) && Received(segments, cut, bits)
    ensures forall c: Candidate :: Reports(bits, c) <==> c in Expected(0, segments, cut)
  {
    hide Reports, Expected, Received;
    ReceivedIsStream(segments, cut, bits);
    forall c: Candidate ensures Reports(bits, c) <==> c in Expected(0, segments, cut) {
      StreamReports(bits, 0, segments, cut, c);
    }
  }

  /** A row of legacy frames never yields an extended candidate, whatever the silences between them. */
  lemma {:induction false} LegacyNeverExtended(offset: nat, segments: seq<Segment>, cut: bool)
    requires forall s :: s in segments ==> |s.words| == STANDARD_WORDS
    ensures forall c :: c in Expected(offset, segments, cut) ==> !c.frame.IsExtended() && WordCount(c.format) == STANDARD_WORDS
    decreases |segments|
  {
    if segments != [] {
      LegacyNeverExtended(offset + WORD_BITS * |segments[0].words| + segments[0].gap, segments[1..], cut);
    }
  }

  /**
    How much silence a frame needs before the next one: eighteen low bits for seven words, ten for ten words.
   */
  lemma GapDecides(words: seq<bv8>, gap: nat, next: seq<bv8>)
    requires FrameSized([Segment(words, gap), Segment(next, 0)])
    ensures var bits := FrameBits(words) + Zeros(gap) + FrameBits(next);
            (exists c :: Reports(bits, c) && c.bitOffset == 0)
            <==> if |words| == 7 then gap >= 18 else gap >= 10 && IntegrityMatches(words)
  {
    hide Reports, FrameBits, Zeros, Row, FrameFromWords, IntegrityMatches;
    var s, t := Segment(words, gap), Segment(next, 0);
    var bits := FrameBits(words) + Zeros(gap) + FrameBits(next);
    RowOfTwo(s, t);
    ReceivedReports([s, t], false, bits);
    assert [s, t][1..] == [t];
    ExpectedHereAt(26 * |words| + gap, t, false);
    assert Expected(26 * |words| + gap, [t], false) == ExpectedHere(26 * |words| + gap, t, false) + [];
    assert Expected(0, [s, t], false) == ExpectedHere(0, s, false) + ExpectedHere(26 * |words| + gap, t, false);
    if ExpectedHere(0, s, false) != [] {
      assert ExpectedHere(0, s, false)[0] in Expected(0, [s, t], false);
    }
  }

  lemma RowOfTwo(s: Segment, t: Segment)
    requires t.gap == 0
    ensures Row([s, t]) == FrameBits(s.words) + Zeros(s.gap) + FrameBits(t.words)
  {
    hide FrameBits;
    assert [s, t][1..] == [t];
    assert Row([t]) == FrameBits(t.words) + Zeros(0) + Row([]);
    assert Row([t]) == FrameBits(t.words);
  }
}
