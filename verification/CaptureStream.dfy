/**
  What the FIFO scan finds in transmitted payloads: any sequence of frames and silences, the repeated
  payload of the transmitter, and which hit of a frame is listed first.
 */
module CaptureStream {
  import opened Wrappers
  import opened Packet
  import opened Waveform
  import opened Pulse
  import opened PulseScan
  import opened PulseStream
  import opened PulseBurst
  import opened StateCodec
  import opened Capture
  import opened CaptureScan

  /** The accepted windows of a sequence of segments that starts at `offset` in a row of `limit` bits. */
  ghost predicate Window(offset: nat, segments: seq<Segment>, limit: nat, p: nat, words: seq<bv8>)
    decreases |segments|
  {
    segments != [] &&
    var s := segments[0];
    || (p == offset && |s.words| == STANDARD_WORDS && words == s.words && s.gap >= 8 && offset + WINDOW_BITS <= limit)
    || Window(offset + WORD_BITS * |s.words| + s.gap, segments[1..], limit, p, words)
  }

  lemma {:induction false} WindowsStartLater(offset: nat, segments: seq<Segment>, limit: nat, p: nat, words: seq<bv8>)
    requires Window(offset, segments, limit, p, words)
    ensures p >= offset
    decreases |segments|
  {
    if p != offset {
      WindowsStartLater(offset + WORD_BITS * |segments[0].words| + segments[0].gap, segments[1..], limit, p, words);
    }
  }

  lemma AcceptedAtSegment(bits: seq<bool>, offset: nat, s: Segment, words: seq<bv8>)
    requires |s.words| == STANDARD_WORDS || |s.words| == EXTENDED_WORDS
    requires Follows(bits, offset, s)
    ensures Accepts(bits, offset, words)
       <==> |s.words| == STANDARD_WORDS && words == s.words && s.gap >= 8 && offset + WINDOW_BITS <= |bits|
  {
    hide Carries, ZeroRun, HasWord;
    if Accepts(bits, offset, words) {
      CarriesUnique(bits, offset, words, s.words);
      if |s.words| == EXTENDED_WORDS {
        CarriesIff(bits, offset, s.words);
        assert HasWord(bits, offset + WORD_BITS * 7, s.words[7], false);
        WordShapeAt(bits, offset + WORD_BITS * 7, s.words[7], false);
        ZeroRunLow(bits, offset + 182);
      } else {
        assert s.words[..|words|] == s.words;
      }
    }
  }

  /** Nothing is accepted in the interior of a segment or in its silence. */
  lemma AcceptedOnlyAtStart(bits: seq<bool>, offset: nat, s: Segment, p: nat, words: seq<bv8>)
    requires Carries(bits, offset, s.words) && Accepts(bits, p, words)
    requires var end := offset + WORD_BITS * |s.words|;
             && offset <= p < end + s.gap && end + s.gap <= |bits|
             && forall i :: end <= i < end + s.gap ==> !bits[i]
    ensures p == offset
  {
    hide Carries, ZeroRun;
    StartOfRun(bits, p, words);
    if p < offset + WORD_BITS * |s.words| {
      FrameOnlyAtRunStart(bits, offset, s.words, p);
    }
  }

  /** For every sequence of frames and silences the accepted windows are exactly the expected ones. */
  lemma {:induction false} StreamAccepts(bits: seq<bool>, offset: nat, segments: seq<Segment>, p: nat, words: seq<bv8>)
    requires FrameSized(segments) && StreamAt(bits, offset, segments, false) && p >= offset
    ensures Accepts(bits, p, words) <==> Window(offset, segments, |bits|, p, words)
    decreases |segments|
  {
    hide Accepts, Carries, ZeroRun;
    if segments == [] {
      NoWindowAtEnd(bits, p, words);
    } else {
      var s := segments[0];
      var next := offset + WORD_BITS * |s.words| + s.gap;
      if p >= next {
        StreamAccepts(bits, next, segments[1..], p, words);
      } else {
        if Window(next, segments[1..], |bits|, p, words) {
          WindowsStartLater(next, segments[1..], |bits|, p, words);
        }
        if p == offset {
          StreamFollows(bits, offset, segments, false);
          AcceptedAtSegment(bits, offset, s, words);
        } else if Accepts(bits, p, words) {
          AcceptedOnlyAtStart(bits, offset, s, p, words);
        }
      }
    }
  }

  lemma NoWindowAtEnd(bits: seq<bool>, p: nat, words: seq<bv8>)
    requires p >= |bits|
    ensures !Accepts(bits, p, words)
  {
    hide Carries, ZeroRun;
  }

  /** A payload made of extended frames holds no FIFO frame at any alignment. */
  lemma {:induction false} ExtendedHasNoWindow(offset: nat, segments: seq<Segment>, limit: nat, p: nat, words: seq<bv8>)
    requires forall s :: s in segments ==> |s.words| == EXTENDED_WORDS
    ensures !Window(offset, segments, limit, p, words)
    decreases |segments|
  {
    if segments != [] {
      ExtendedHasNoWindow(offset + WORD_BITS * |segments[0].words| + segments[0].gap, segments[1..], limit, p, words);
    }
  }

  lemma ExtendedIsNeverPresent(bits: seq<bool>, segments: seq<Segment>, words: seq<bv8>)
    requires forall s :: s in segments ==> |s.words| == EXTENDED_WORDS
    requires bits == Row(segments)
    ensures !Present(bits, words)
  {
    hide Row, StreamAt, Window, Accepts;
    ReceivedIsStream(segments, false, bits);
    forall p: nat ensures !Accepts(bits, p, words) {
      StreamAccepts(bits, 0, segments, p, words);
      ExtendedHasNoWindow(0, segments, |bits|, p, words);
    }
  }

  // ----- The repeated payload -----

  /** The burst's segments with the padding of the last byte after the last copy. */
  function PaddedBurst(words: seq<bv8>, n: nat, padding: nat): (segments: seq<Segment>)
    requires n > 0
    ensures forall s :: s in segments ==> s.words == words
  {
    if n == 1 then [Segment(words, padding)]
    else [Segment(words, NATIVE_REPEAT_SEPARATOR_BITS)] + PaddedBurst(words, n - 1, padding)
  }

  lemma {:induction false} PaddedBurstRow(words: seq<bv8>, n: nat, padding: nat)
    requires n > 0
    ensures Row(PaddedBurst(words, n, padding)) == Row(BurstSegments(words, n)) + Zeros(padding)
  {
    hide FrameBits, Zeros, Row;
    if n == 1 {
      JoinedOnce(FrameBits(words), 0);
      RowCons(Segment(words, 0), []);
      RowCons(Segment(words, padding), []);
      RowNothing();
      assert [Segment(words, 0)] + [] == [Segment(words, 0)];
      assert [Segment(words, padding)] + [] == [Segment(words, padding)];
    } else {
      PaddedBurstRow(words, n - 1, padding);
      RowCons(Segment(words, NATIVE_REPEAT_SEPARATOR_BITS), PaddedBurst(words, n - 1, padding));
      RowCons(Segment(words, NATIVE_REPEAT_SEPARATOR_BITS), BurstSegments(words, n - 1));
      var head := FrameBits(words) + Zeros(NATIVE_REPEAT_SEPARATOR_BITS);
      Associative(head, Row(BurstSegments(words, n - 1)), Zeros(padding));
    }
  }

  lemma RowNothing()
    ensures Row([]) == []
  {}

  /** Every copy but the last is a window; the last lacks the silence. */
  lemma {:induction false} PaddedBurstWindows(offset: nat, words: seq<bv8>, n: nat, padding: nat, p: nat, w: seq<bv8>)
    requires |words| == STANDARD_WORDS && n > 0 && padding < 8
    ensures Window(offset, PaddedBurst(words, n, padding), offset + 194 * n - 12 + padding, p, w)
       <==> w == words && p >= offset && (p - offset) % 194 == 0 && (p - offset) / 194 < n - 1
    decreases n
  {
    var segments := PaddedBurst(words, n, padding);
    if n == 1 {
      assert segments[1..] == [];
    } else {
      assert segments[1..] == PaddedBurst(words, n - 1, padding);
      PaddedBurstWindows(offset + 194, words, n - 1, padding, p, w);
    }
  }

  /** How many of the first m copies of a burst start below bit `limit`. */
  function Started(limit: nat, m: nat): nat {
    if (limit + 193) / 194 < m then (limit + 193) / 194 else m
  }

  lemma {:induction false} BurstWeight(bits: seq<bool>, words: seq<bv8>, m: nat, limit: nat)
    requires forall p: nat :: Accepts(bits, p, words) <==> p % 194 == 0 && p / 194 < m
    ensures WeightedCount(bits, words, limit) == if Started(limit, m) == 0 then 0 else 4 * Started(limit, m) - 3
  {
    hide Accepts, Started, Multiplicity;
    if limit > 0 {
      BurstWeight(bits, words, m, limit - 1);
      var p := limit - 1;
      StartedMore(p, m);
      assert Accepts(bits, p, words) <==> p % 194 == 0 && p / 194 < m;
    } else {
      StartedNone(m);
    }
  }

  lemma StartedNone(m: nat)
    ensures Started(0, m) == 0
  {}

  /** One more bit starts one more copy when it is a multiple of the period; only the first copy counts once. */
  lemma StartedMore(p: nat, m: nat)
    ensures Started(p + 1, m) == Started(p, m) + if p % 194 == 0 && p / 194 < m then 1 else 0
    ensures p % 194 == 0 && p / 194 < m ==> Multiplicity(p) == if Started(p, m) == 0 then 1 else 4
  {
    var q, r := p / 194, p % 194;
    assert p == 194 * q + r;
  }

  /** The length of a burst. */
  lemma {:induction false} JoinedLength(frame: seq<bool>, n: nat)
    requires |frame| == 182 && n > 0
    ensures |Joined(frame, n, NATIVE_REPEAT_SEPARATOR_BITS)| == 194 * n - 12
  {
    hide Zeros;
    if n > 1 {
      JoinedLength(frame, n - 1);
    }
  }

  /** The windows of a padded burst of a legacy frame. */
  lemma PaddedBurstAccepts(bits: seq<bool>, words: seq<bv8>, n: nat)
    requires |words| == STANDARD_WORDS && n > 0
    requires bits == Padded(Joined(FrameBits(words), n, NATIVE_REPEAT_SEPARATOR_BITS))
    ensures forall p: nat, w :: Accepts(bits, p, w) <==> w == words && p % 194 == 0 && p / 194 < n - 1
    ensures |bits| >= 194 * n - 12
  {
    hide Accepts, FrameBits, Joined, Row, Window, StreamAt, Zeros;
    var burst := Joined(FrameBits(words), n, NATIVE_REPEAT_SEPARATOR_BITS);
    var padding := (8 - |burst| % 8) % 8;
    var segments := PaddedBurst(words, n, padding);
    JoinedLength(FrameBits(words), n);
    JoinedIsRow(words, n);
    PaddedBurstRow(words, n, padding);
    ReceivedIsStream(segments, false, bits);
    forall p: nat, w ensures Accepts(bits, p, w) <==> w == words && p % 194 == 0 && p / 194 < n - 1 {
      StreamAccepts(bits, 0, segments, p, w);
      PaddedBurstWindows(0, words, n, padding, p, w);
    }
  }

  /**
    The transmitter's repeated payload of a legacy frame, for every repeat count: the frame is present
    exactly when there are at least two copies, nothing else is, and its repeat count is 1 + 4(n - 2),
    so it is not the number of physical repeats.
   */
  lemma RepeatedPayloadHits(frame: Frame, n: nat)
    requires frame.WellFormed() && !frame.IsExtended() && n > 0
    ensures var r := BuildRepeatedAirPayload(BuildTransmissionPlan(frame), Some(n), NATIVE_REPEAT_SEPARATOR_BITS);
            && r.Ok?
            && var bits := BytesToBits(r.value.0);
               && (forall w :: Present(bits, w) <==> n >= 2 && w == frame.WireWords())
               && (n >= 2 ==> |AllHits(bits, frame.WireWords())| == 1 + 4 * (n - 2))
  {
    hide Accepts, FrameBits, Joined, BuildTransmissionPlan, BuildRepeatedAirPayload, BytesToBits, WeightedCount, HitsBelow;
    hide Frame.WireWords, Padded;
    RepeatedPayloadBits(frame, Some(n), NATIVE_REPEAT_SEPARATOR_BITS);
    var r := BuildRepeatedAirPayload(BuildTransmissionPlan(frame), Some(n), NATIVE_REPEAT_SEPARATOR_BITS);
    var bits, words := BytesToBits(r.value.0), frame.WireWords();
    PaddedBurstAccepts(bits, words, n);
    if n >= 2 {
      assert Accepts(bits, 0, words);
      BurstWeight(bits, words, n - 1, |bits| + 8);
      RepeatCountLaw(bits, words);
    }
  }

  /** When only one frame is present, the scan returns exactly one candidate, with that frame's hit count. */
  lemma OnePresentOneCandidate(payload: seq<bv8>, words: seq<bv8>, cs: seq<DecodeCandidate>)
    requires Complete(payload, cs) && Ranked(cs)
    requires forall w :: Present(BytesToBits(payload), w) <==> w == words
    ensures |cs| == 1 && cs[0].frame.WireWords() == words
    ensures cs[0].repeatCount == |AllHits(BytesToBits(payload), words)|
  {
    hide Accepts, HitsBelow, Frame.WireWords, FrameFromWords, StateFromFrame, ZeroRun, PayloadSlice;
    assert Present(BytesToBits(payload), words);
    var c :| c in cs && c.frame.WireWords() == words;
    forall i | 0 <= i < |cs| ensures cs[i] == c {
      assert cs[i] in cs;
      PresentIff(BytesToBits(payload), cs[i].frame.WireWords());
      SameCandidate(payload, cs[i], c);
    }
    assert |cs| > 1 ==> Above(cs[0], cs[1]);
  }

  lemma SameCandidate(payload: seq<bv8>, c: DecodeCandidate, d: DecodeCandidate)
    requires IsCandidate(payload, c) && IsCandidate(payload, d) && c.frame.WireWords() == d.frame.WireWords()
    ensures c == d
  {
    hide HitsBelow, Frame.WireWords, FrameFromWords, StateFromFrame, ZeroRun, PayloadSlice;
  }

  // ----- Which hit comes first -----

  lemma {:induction false} FirstOfAlignment(bits: seq<bool>, words: seq<bv8>, b: nat, s: nat)
    requires AlignmentHits(bits, words, b, s) != []
    ensures var h := AlignmentHits(bits, words, b, s)[0];
            && h in AlignmentHits(bits, words, b, s)
            && forall k :: 0 <= k < s && Accepts(bits, b + 2 * k, words) ==> h.symbolOffset <= k
  {
    hide Accepts;
    if AlignmentHits(bits, words, b, s - 1) != [] {
      FirstOfAlignment(bits, words, b, s - 1);
      AlignmentHitsAre(bits, words, b, s - 1, AlignmentHits(bits, words, b, s - 1)[0]);
    } else {
      forall k | 0 <= k < s - 1 ensures !Accepts(bits, b + 2 * k, words) {
        AlignmentHitsAre(bits, words, b, s - 1, Hit(b, k));
        assert Absolute(Hit(b, k)) == b + 2 * k;
      }
    }
  }

  lemma {:induction false} FirstIsInTwo(bits: seq<bool>, words: seq<bv8>, b: nat)
    requires b >= 2 && HitsBelow(bits, words, 2) != []
    ensures HitsBelow(bits, words, b) != [] && HitsBelow(bits, words, b)[0] == HitsBelow(bits, words, 2)[0]
  {
    hide AlignmentHits;
    if b > 2 {
      FirstIsInTwo(bits, words, b - 1);
    }
  }

  lemma TwoAlignments(bits: seq<bool>, words: seq<bv8>)
    ensures HitsBelow(bits, words, 2)
         == AlignmentHits(bits, words, 0, WindowCount(bits, 0)) + AlignmentHits(bits, words, 1, WindowCount(bits, 1))
  {
    hide AlignmentHits;
    assert HitsBelow(bits, words, 1) == [] + AlignmentHits(bits, words, 0, WindowCount(bits, 0));
  }

  lemma AcceptedInCount(bits: seq<bool>, words: seq<bv8>, q: nat)
    requires Accepts(bits, q, words)
    ensures q / 2 < WindowCount(bits, q % 2)
    ensures Hit(q % 2, q / 2) in AlignmentHits(bits, words, q % 2, WindowCount(bits, q % 2))
  {
    hide Carries, ZeroRun;
    assert Absolute(Hit(q % 2, q / 2)) == q;
    AlignmentHitsAre(bits, words, q % 2, WindowCount(bits, q % 2), Hit(q % 2, q / 2));
  }

  /**
    The offset reported for a frame: the first copy at an even bit offset when there is one, otherwise
    the first copy, found at alignment 0 or 1.
   */
  lemma FirstHit(bits: seq<bool>, words: seq<bv8>)
    requires AllHits(bits, words) != []
    ensures var p := Absolute(AllHits(bits, words)[0]);
            && Accepts(bits, p, words) && AllHits(bits, words)[0].bitOffset == p % 2
            && forall q: nat :: Accepts(bits, q, words) ==> p % 2 < q % 2 || (p % 2 == q % 2 && p <= q)
  {
    hide Accepts, AlignmentHits, HitsBelow, WindowCount;
    var h := AllHits(bits, words)[0];
    HitsBelowAre(bits, words, 8, h);
    TwoAlignmentsSuffice(bits, words, Absolute(h));
    FirstIsInTwo(bits, words, 8);
    TwoAlignments(bits, words);
    var even, odd := AlignmentHits(bits, words, 0, WindowCount(bits, 0)), AlignmentHits(bits, words, 1, WindowCount(bits, 1));
    var b := if even != [] then 0 else 1;
    FirstOfAlignment(bits, words, b, WindowCount(bits, b));
    AlignmentHitsAre(bits, words, b, WindowCount(bits, b), h);
    forall q: nat | Accepts(bits, q, words) ensures Absolute(h) % 2 < q % 2 || (Absolute(h) % 2 == q % 2 && Absolute(h) <= q) {
      AcceptedInCount(bits, words, q);
      assert q == q % 2 + 2 * (q / 2);
    }
  }

  /** In a burst the silence after the first copy is too short for a complete guard. */
  lemma BurstGuardIsCut(bits: seq<bool>, words: seq<bv8>, n: nat)
    requires |words| == STANDARD_WORDS && n >= 2
    requires bits == Padded(Joined(FrameBits(words), n, NATIVE_REPEAT_SEPARATOR_BITS))
    ensures !GuardIsSilent(bits, 0)
  {
    hide Accepts, FrameBits, Joined, Row, Zeros, Carries;
    var burst := Joined(FrameBits(words), n, NATIVE_REPEAT_SEPARATOR_BITS);
    var padding := (8 - |burst| % 8) % 8;
    var segments := PaddedBurst(words, n, padding);
    JoinedIsRow(words, n);
    PaddedBurstRow(words, n, padding);
    ReceivedIsStream(segments, false, bits);
    assert StreamAt(bits, 194, segments[1..], false);
    StreamFrameStart(bits, 194, segments[1..], false);
    assert 182 <= 194 < 200 && bits[194];
  }

  /** What the scan makes of the transmitter's repeated payload: one candidate, at the first copy, with exactly this confidence. */
  lemma BurstConfidence(frame: Frame, n: nat, cs: seq<DecodeCandidate>)
    requires frame.WellFormed() && !frame.IsExtended() && n >= 2
    requires var r := BuildRepeatedAirPayload(BuildTransmissionPlan(frame), Some(n), NATIVE_REPEAT_SEPARATOR_BITS);
             r.Ok? && Complete(r.value.0, cs) && Ranked(cs)
    ensures |cs| == 1 && cs[0].frame.WireWords() == frame.WireWords()
    ensures cs[0].absoluteBitOffset == 0 && cs[0].repeatCount == 4 * n - 7
    ensures cs[0].confidence == if n == 2 then 100 else 80 * n - 50
  {
    hide Accepts, FrameBits, Joined, BuildTransmissionPlan, BuildRepeatedAirPayload, BytesToBits, HitsBelow, GuardIsSilent, IsCandidate;
    hide Frame.WireWords, Padded, Above, StateFromFrame, Present;
    var payload := BuildRepeatedAirPayload(BuildTransmissionPlan(frame), Some(n), NATIVE_REPEAT_SEPARATOR_BITS).value.0;
    var bits, words := BytesToBits(payload), frame.WireWords();
    RepeatedPayloadHits(frame, n);
    OnePresentOneCandidate(payload, words, cs);
    RepeatedPayloadBits(frame, Some(n), NATIVE_REPEAT_SEPARATOR_BITS);
    PaddedBurstAccepts(bits, words, n);
    BurstGuardIsCut(bits, words, n);
    assert cs[0] in cs;
    CandidateMeaning(payload, cs[0]);
    FirstHit(bits, words);
    assert Accepts(bits, 0, words);
  }
}
