/**
  find_proflame_candidates of custom_components/proflame2/rf/capture.py: all alignments of a payload,
  the hits grouped by frame, one ranked candidate per frame.
 */
module CaptureScan {
  import opened Wrappers
  import opened Packet
  import opened Waveform
  import opened Pulse
  import opened PulseScan
  import opened StateCodec
  import opened Capture

  datatype DecodeCandidate = DecodeCandidate(
    frame: Frame,
    state: State,
    absoluteBitOffset: nat,
    rawSlice: seq<bv8>,
    repeatCount: nat,
    confidence: int,
    guardValid: bool,
    occurrences: seq<Hit>)

  /** The symbols of one alignment: every pair is in the table, a last odd bit is dropped. */
  method TolerantSymbols(bits: seq<bool>, bitOffset: nat) returns (symbols: seq<Symbol>)
    requires bitOffset <= |bits|
    ensures symbols == SymbolsAt(bits, bitOffset, (|bits| - bitOffset) / 2)
  {
    hide PairSymbol;
    symbols := [];
    var index := bitOffset;
    while index < |bits| - 1
      invariant index == bitOffset + 2 * |symbols| <= |bits|
      invariant symbols == SymbolsAt(bits, bitOffset, |symbols|)
    {
      symbols := symbols + [PairSymbol(bits[index], bits[index + 1])];
      index := index + 2;
    }
  }

  /** _payload_slice_for_bit_range: the bytes that enclose a bit range, as Python slices them. */
  function PayloadSlice(payload: seq<bv8>, startBit: nat, lengthBits: nat): seq<bv8> {
    var start, end := startBit / 8, (startBit + lengthBits + 7) / 8;
    var stop := if end <= |payload| then end else |payload|;
    if start <= stop then payload[start..stop] else []
  }

  /** The hits of one frame and whether the guard of the first of them is complete. */
  datatype Occurrence = Occurrence(hits: seq<Hit>, guardValid: bool)

  function Confidence(repeatCount: nat, guardValid: bool): int {
    100 + 20 * repeatCount - (if guardValid then 0 else if repeatCount > 1 then 10 else 20)
  }

  function CandidateFrom(payload: seq<bv8>, frame: Frame, state: State, o: Occurrence): DecodeCandidate
    requires o.hits != []
  {
    var at := Absolute(o.hits[0]);
    DecodeCandidate(frame, state, at, PayloadSlice(payload, at, WINDOW_BITS), |o.hits|,
                    Confidence(|o.hits|, o.guardValid), o.guardValid, o.hits)
  }

  // ----- The table of occurrences -----

  function HitsIn(table: map<seq<bv8>, Occurrence>, words: seq<bv8>): seq<Hit> {
    if words in table then table[words].hits else []
  }

  /** The guard recorded for a frame is that of its first hit. */
  ghost predicate GuardsRecorded(bits: seq<bool>, table: map<seq<bv8>, Occurrence>) {
    forall words :: words in table ==>
      && |words| == STANDARD_WORDS && table[words].hits != []
      && (table[words].guardValid <==> ZeroRun(bits, Absolute(table[words].hits[0]) + 182) >= 2 * TRAILING_ZERO_SYMBOLS)
  }

  ghost predicate KeysListed(table: map<seq<bv8>, Occurrence>, keys: seq<seq<bv8>>) {
    && (forall words :: words in table <==> words in keys)
    && (forall i, j :: 0 <= i < j < |keys| ==> keys[i] != keys[j])
  }

  /** After `b` whole alignments and `s` windows of the next one. */
  ghost predicate TableAt(bits: seq<bool>, table: map<seq<bv8>, Occurrence>, b: nat, s: nat) {
    forall words :: HitsIn(table, words) == HitsBelow(bits, words, b) + AlignmentHits(bits, words, b, s)
  }

  lemma WindowOfAlignment(bits: seq<bool>, b: nat, s: nat)
    requires b + 2 * s + WINDOW_BITS <= |bits|
    ensures SymbolsAt(bits, b, (|bits| - b) / 2)[s..s + WINDOW_SYMBOLS] == SymbolsAt(bits, b + 2 * s, WINDOW_SYMBOLS)
  {
    hide PairSymbol;
  }

  lemma FullGuard(bits: seq<bool>, q: nat)
    requires q + 18 <= |bits|
    ensures SymbolsAt(bits, q, 9) == Silence(9) <==> ZeroRun(bits, q) >= 18
  {
    hide ZeroRun;
    ZeroRunLow(bits, q);
    var symbols := SymbolsAt(bits, q, 9);
    if symbols == Silence(9) {
      forall i | q <= i < q + 18 ensures !bits[i] { assert symbols[(i - q) / 2] == Z; }
      ZeroRunIs(bits, q, 18);
    }
  }

  ghost predicate NoneAccepted(bits: seq<bool>, p: nat) {
    forall words :: !Accepts(bits, p, words)
  }

  lemma TestedWindow(bits: seq<bool>, p: nat, window: seq<Symbol>, sample: Result<Acceptance, Failure>)
    requires p + WINDOW_BITS <= |bits| && window == SymbolsAt(bits, p, WINDOW_SYMBOLS)
    requires sample.Ok? <==> exists words :: WindowCarries(window, words)
    requires sample.Ok? ==> WindowCarries(window, sample.value.frame.WireWords())
    requires sample.Ok? ==> (sample.value.guardValid <==> window[BODY_SYMBOLS..] == Silence(TRAILING_ZERO_SYMBOLS))
    ensures sample.Err? ==> NoneAccepted(bits, p)
    ensures sample.Ok? ==> Accepts(bits, p, sample.value.frame.WireWords()) && |sample.value.frame.WireWords()| == STANDARD_WORDS
    ensures sample.Ok? ==> (sample.value.guardValid <==> ZeroRun(bits, p + 182) >= 2 * TRAILING_ZERO_SYMBOLS)
  {
    hide Frame.WireWords, PairSymbol, ZeroRun, WordsSymbols, LeadingSilence, Carries, Silence;
    forall words ensures WindowCarries(window, words) <==> Accepts(bits, p, words) {
      WindowIff(bits, p, words);
    }
    assert window[BODY_SYMBOLS..] == SymbolsAt(bits, p + 182, 9);
    FullGuard(bits, p + 182);
  }

  /** Tests the window at one position: the words it carries and whether its guard is complete. */
  method TestWindow(bits: seq<bool>, symbols: seq<Symbol>, b: nat, s: nat) returns (r: Option<(seq<bv8>, bool)>)
    requires b + 2 * s + WINDOW_BITS <= |bits| && symbols == SymbolsAt(bits, b, (|bits| - b) / 2)
    ensures r.None? ==> NoneAccepted(bits, b + 2 * s)
    ensures r.Some? ==> Accepts(bits, b + 2 * s, r.value.0) && |r.value.0| == STANDARD_WORDS
    ensures r.Some? ==> (r.value.1 <==> ZeroRun(bits, b + 2 * s + 182) >= 2 * TRAILING_ZERO_SYMBOLS)
  {
    hide Accepts, WindowCarries, FrameFromWords, Frame.WireWords, PairSymbol, ZeroRun, NoneAccepted, Silence;
    var window := symbols[s..s + WINDOW_SYMBOLS];
    WindowOfAlignment(bits, b, s);
    var sample := SampleFromSymbolWindow(window);
    TestedWindow(bits, b + 2 * s, window, sample);
    if sample.Err? {
      return None;
    }
    return Some((sample.value.frame.WireWords(), sample.value.guardValid));
  }

  /** Appending the hit of an accepted window advances the table by one window. */
  lemma TableStep(bits: seq<bool>, table: map<seq<bv8>, Occurrence>, b: nat, s: nat, found: Option<(seq<bv8>, bool)>)
    requires TableAt(bits, table, b, s)
    requires found.None? ==> NoneAccepted(bits, b + 2 * s)
    requires found.Some? ==> Accepts(bits, b + 2 * s, found.value.0)
    ensures found.None? ==> TableAt(bits, table, b, s + 1)
    ensures found.Some? ==>
              forall o: Occurrence ::
                o.hits == HitsIn(table, found.value.0) + [Hit(b, s)] ==> TableAt(bits, table[found.value.0 := o], b, s + 1)
  {
    hide Accepts, HitsBelow;
    forall words
      ensures AlignmentHits(bits, words, b, s + 1)
           == AlignmentHits(bits, words, b, s) + if found.Some? && words == found.value.0 then [Hit(b, s)] else []
    {
      if found.Some? && Accepts(bits, b + 2 * s, words) {
        AcceptedUnique(bits, b + 2 * s, words, found.value.0);
      }
    }
    if found.Some? {
      forall o: Occurrence | o.hits == HitsIn(table, found.value.0) + [Hit(b, s)]
        ensures TableAt(bits, table[found.value.0 := o], b, s + 1)
      {
        var next := table[found.value.0 := o];
        forall words ensures HitsIn(next, words) == HitsBelow(bits, words, b) + AlignmentHits(bits, words, b, s + 1) {
          assert HitsIn(table, words) == HitsBelow(bits, words, b) + AlignmentHits(bits, words, b, s);
        }
      }
    }
  }

  /** The next alignment starts where the last one ended. */
  lemma TableNextAlignment(bits: seq<bool>, table: map<seq<bv8>, Occurrence>, b: nat)
    requires TableAt(bits, table, b, WindowCount(bits, b))
    ensures TableAt(bits, table, b + 1, 0)
  {
    hide AlignmentHits;
    forall words ensures HitsIn(table, words) == HitsBelow(bits, words, b + 1) + AlignmentHits(bits, words, b + 1, 0) {
      assert HitsIn(table, words) == HitsBelow(bits, words, b) + AlignmentHits(bits, words, b, WindowCount(bits, b));
      NoWindows(bits, words, b + 1);
    }
  }

  lemma NoWindows(bits: seq<bool>, words: seq<bv8>, b: nat)
    ensures AlignmentHits(bits, words, b, 0) == []
  {}

  lemma EmptyTable(bits: seq<bool>)
    ensures TableAt(bits, map[], 0, 0)
  {
    forall words: seq<bv8> ensures HitsIn(map[], words) == HitsBelow(bits, words, 0) + AlignmentHits(bits, words, 0, 0) {}
  }

  /** The scan itself: the dictionary `occurrences` and its insertion order. */
  method CollectOccurrences(bits: seq<bool>) returns (table: map<seq<bv8>, Occurrence>, keys: seq<seq<bv8>>)
    requires |bits| >= WINDOW_BITS
    ensures forall words :: HitsIn(table, words) == AllHits(bits, words)
    ensures GuardsRecorded(bits, table) && KeysListed(table, keys)
  {
    hide Accepts, AlignmentHits, HitsBelow, ZeroRun, PairSymbol, TableAt, NoneAccepted;
    table, keys := map[], [];
    EmptyTable(bits);
    for b := 0 to 8
      invariant TableAt(bits, table, b, 0)
      invariant GuardsRecorded(bits, table) && KeysListed(table, keys)
    {
      var symbols := TolerantSymbols(bits, b);
      if |symbols| >= WINDOW_SYMBOLS {
        for s := 0 to |symbols| - WINDOW_SYMBOLS + 1
          invariant TableAt(bits, table, b, s)
          invariant GuardsRecorded(bits, table) && KeysListed(table, keys)
        {
          var found := TestWindow(bits, symbols, b, s);
          TableStep(bits, table, b, s, found);
          if found.Some? {
            table, keys := Record(bits, table, keys, b, s, found.value.0, found.value.1);
          }
        }
        assert |symbols| - WINDOW_SYMBOLS + 1 == WindowCount(bits, b);
      }
      TableNextAlignment(bits, table, b);
    }
    TableComplete(bits, table);
  }

  lemma TableComplete(bits: seq<bool>, table: map<seq<bv8>, Occurrence>)
    requires TableAt(bits, table, 8, 0)
    ensures forall words :: HitsIn(table, words) == AllHits(bits, words)
  {
    hide HitsBelow;
    forall words ensures HitsIn(table, words) == AllHits(bits, words) {
      assert HitsIn(table, words) == HitsBelow(bits, words, 8) + AlignmentHits(bits, words, 8, 0);
      NoWindows(bits, words, 8);
    }
  }

  /** `occurrences.setdefault(key, []).append(...)` */
  method Record(bits: seq<bool>, table: map<seq<bv8>, Occurrence>, keys: seq<seq<bv8>>, b: nat, s: nat, words: seq<bv8>, guardValid: bool)
    returns (updated: map<seq<bv8>, Occurrence>, listed: seq<seq<bv8>>)
    requires GuardsRecorded(bits, table) && KeysListed(table, keys)
    requires |words| == STANDARD_WORDS
    requires guardValid <==> ZeroRun(bits, b + 2 * s + 182) >= 2 * TRAILING_ZERO_SYMBOLS
    ensures GuardsRecorded(bits, updated) && KeysListed(updated, listed)
    ensures exists o: Occurrence :: updated == table[words := o] && o.hits == HitsIn(table, words) + [Hit(b, s)]
  {
    hide ZeroRun;
    var hit := Hit(b, s);
    if words in table {
      updated := table[words := table[words].(hits := table[words].hits + [hit])];
      listed := keys;
    } else {
      updated := table[words := Occurrence([hit], guardValid)];
      listed := keys + [words];
    }
  }

  // ----- Ranked candidates -----

  /** Earlier in the descending order by repeat count, confidence and earliness. */
  predicate Above(c: DecodeCandidate, d: DecodeCandidate) {
    || c.repeatCount > d.repeatCount
    || (c.repeatCount == d.repeatCount && c.confidence > d.confidence)
    || (c.repeatCount == d.repeatCount && c.confidence == d.confidence && c.absoluteBitOffset < d.absoluteBitOffset)
  }

  function InsertByRank(c: DecodeCandidate, cs: seq<DecodeCandidate>): (r: seq<DecodeCandidate>)
    ensures forall x :: x in r <==> x == c || x in cs
  {
    if cs == [] || !Above(c, cs[|cs| - 1]) then cs + [c]
    else InsertByRank(c, cs[..|cs| - 1]) + [cs[|cs| - 1]]
  }

  ghost predicate Ranked(cs: seq<DecodeCandidate>) {
    forall i, j :: 0 <= i < j < |cs| ==> Above(cs[i], cs[j])
  }

  lemma {:induction false} InsertRanked(c: DecodeCandidate, cs: seq<DecodeCandidate>)
    requires Ranked(cs) && forall x :: x in cs ==> x.absoluteBitOffset != c.absoluteBitOffset
    ensures Ranked(InsertByRank(c, cs))
  {
    if cs != [] {
      var n := |cs| - 1;
      if Above(c, cs[n]) {
        InsertRanked(c, cs[..n]);
        var r := InsertByRank(c, cs[..n]);
        forall i | 0 <= i < |r| ensures Above(r[i], cs[n]) {
          assert r[i] in r;
          if r[i] != c {
            var k :| 0 <= k < n && cs[k] == r[i];
          }
        }
      } else {
        assert cs[n] in cs;
        forall i | 0 <= i < n ensures Above(cs[i], c) { assert Above(cs[i], cs[n]); }
      }
    }
  }

  /** A candidate as the payload's bits determine it. */
  ghost predicate IsCandidate(payload: seq<bv8>, c: DecodeCandidate) {
    var bits, words := BytesToBits(payload), c.frame.WireWords();
    && |words| == STANDARD_WORDS && c.frame == FrameFromWords(words)
    && StateFromFrame(c.frame) == Ok(c.state)
    && AllHits(bits, words) != []
    && c == CandidateFrom(payload, c.frame, c.state, Occurrence(AllHits(bits, words), GuardComplete(bits, words)))
  }

  /** Whether all nine guard symbols of a frame's first hit are silent. */
  ghost predicate GuardComplete(bits: seq<bool>, words: seq<bv8>)
    requires AllHits(bits, words) != []
  {
    ZeroRun(bits, Absolute(AllHits(bits, words)[0]) + 182) >= 2 * TRAILING_ZERO_SYMBOLS
  }

  /** A frame is somewhere in the payload. */
  ghost predicate Present(bits: seq<bool>, words: seq<bv8>) {
    exists p :: Accepts(bits, p, words)
  }

  lemma PresentIff(bits: seq<bool>, words: seq<bv8>)
    ensures Present(bits, words) <==> AllHits(bits, words) != []
    ensures Present(bits, words) ==> |words| == STANDARD_WORDS
  {
    hide HitsBelow, Carries, ZeroRun;
    if Present(bits, words) {
      var p :| Accepts(bits, p, words);
      TwoAlignmentsSuffice(bits, words, p);
    }
    if AllHits(bits, words) != [] {
      var h := AllHits(bits, words)[0];
      HitsBelowAre(bits, words, 8, h);
    }
  }

  lemma CandidateIsAccepted(payload: seq<bv8>, c: DecodeCandidate)
    requires IsCandidate(payload, c)
    ensures Accepts(BytesToBits(payload), c.absoluteBitOffset, c.frame.WireWords())
  {
    hide HitsBelow, Accepts, FrameFromWords, Frame.WireWords, StateFromFrame, ZeroRun, PayloadSlice;
    HitsBelowAre(BytesToBits(payload), c.frame.WireWords(), 8, c.occurrences[0]);
  }

  /** The eighteen bits after a window are low. */
  ghost predicate GuardIsSilent(bits: seq<bool>, offset: nat) {
    forall i :: offset + 182 <= i < offset + 200 ==> i < |bits| && !bits[i]
  }

  lemma GuardMeaning(payload: seq<bv8>, c: DecodeCandidate)
    requires IsCandidate(payload, c)
    ensures c.guardValid <==> GuardIsSilent(BytesToBits(payload), c.absoluteBitOffset)
  {
    hide HitsBelow, Carries, FrameFromWords, Frame.WireWords, StateFromFrame, ZeroRun, PayloadSlice, BytesToBits, Confidence;
    CandidateIsAccepted(payload, c);
    var bits, q := BytesToBits(payload), c.absoluteBitOffset + 182;
    ZeroRunLow(bits, q);
    if GuardIsSilent(bits, c.absoluteBitOffset) {
      ZeroRunIs(bits, q, 18);
    }
  }

  /**
    What a candidate says of its payload: where its frame stands, how often the scan met it, how sure that makes it, and the bytes
    that hold the window.
   */
  ghost predicate Describes(payload: seq<bv8>, c: DecodeCandidate) {
    var bits, p := BytesToBits(payload), c.absoluteBitOffset;
    && Accepts(bits, p, c.frame.WireWords()) && StateFromFrame(c.frame) == Ok(c.state)
    && c.occurrences == AllHits(bits, c.frame.WireWords()) && c.occurrences != []
    && p == c.occurrences[0].bitOffset + 2 * c.occurrences[0].symbolOffset
    && c.repeatCount == |c.occurrences|
    && c.confidence == (if GuardIsSilent(bits, p) then 100 + 20 * c.repeatCount
                        else if c.repeatCount == 1 then 100
                        else 90 + 20 * c.repeatCount)
    && |c.rawSlice| == (p % 8 + 207) / 8
    && 8 * |c.rawSlice| >= p % 8 + 200
    && BytesToBits(c.rawSlice)[p % 8..p % 8 + 200] == bits[p..p + 200]
  }

  lemma CandidateMeaning(payload: seq<bv8>, c: DecodeCandidate)
    requires IsCandidate(payload, c)
    ensures Describes(payload, c)
  {
    hide HitsBelow, FrameFromWords, Frame.WireWords, StateFromFrame, ZeroRun, BytesToBits, GuardIsSilent, Carries;
    CandidateIsAccepted(payload, c);
    GuardMeaning(payload, c);
    var p := c.absoluteBitOffset;
    SliceBounds(p, |payload|);
    BytesSlice(payload, p / 8, (p + 207) / 8);
    SliceOfSlice(BytesToBits(payload), 8 * (p / 8), 8 * ((p + 207) / 8), p % 8);
  }

  lemma SliceBounds(p: nat, size: nat)
    requires p + 200 <= 8 * size
    ensures (p + 207) / 8 <= size && (p + 207) / 8 - p / 8 == (p % 8 + 207) / 8
    ensures 8 * ((p + 207) / 8) >= p + 200 && p == 8 * (p / 8) + p % 8
  {}

  lemma SliceOfSlice(bits: seq<bool>, start: nat, end: nat, offset: nat)
    requires start + offset + 200 <= end <= |bits|
    ensures bits[start..end][offset..offset + 200] == bits[start + offset..start + offset + 200]
  {
    var a, b := bits[start..end][offset..offset + 200], bits[start + offset..start + offset + 200];
    assert |a| == 200 == |b|;
    forall i | 0 <= i < 200 ensures a[i] == b[i] {
      assert a[i] == bits[start..end][offset + i] == bits[start + (offset + i)];
    }
  }

  lemma DistinctOffsets(payload: seq<bv8>, c: DecodeCandidate, d: DecodeCandidate)
    requires IsCandidate(payload, c) && IsCandidate(payload, d) && c.frame.WireWords() != d.frame.WireWords()
    ensures c.absoluteBitOffset != d.absoluteBitOffset
  {
    hide IsCandidate, Accepts, Frame.WireWords;
    CandidateIsAccepted(payload, c);
    CandidateIsAccepted(payload, d);
    if c.absoluteBitOffset == d.absoluteBitOffset {
      AcceptedUnique(BytesToBits(payload), c.absoluteBitOffset, c.frame.WireWords(), d.frame.WireWords());
    }
  }

  lemma CandidateFromTable(payload: seq<bv8>, words: seq<bv8>, table: map<seq<bv8>, Occurrence>, state: State)
    requires forall ws :: HitsIn(table, ws) == AllHits(BytesToBits(payload), ws)
    requires GuardsRecorded(BytesToBits(payload), table) && words in table
    requires StateFromFrame(FrameFromWords(words)) == Ok(state)
    ensures |words| == STANDARD_WORDS && table[words].hits != []
    ensures var c := CandidateFrom(payload, FrameFromWords(words), state, table[words]);
            IsCandidate(payload, c) && c.frame.WireWords() == words
  {
    hide HitsBelow, ZeroRun, FrameFromWords, Frame.WireWords, StateFromFrame, PayloadSlice;
    WordsSurviveFrame(words);
    assert HitsIn(table, words) == AllHits(BytesToBits(payload), words);
  }

  /** `candidates.sort(..., reverse=True)`: stable, descending. */
  function SortByRank(cs: seq<DecodeCandidate>): (r: seq<DecodeCandidate>)
    ensures forall x :: x in r <==> x in cs
  {
    if cs == [] then []
    else
      assert cs == cs[..|cs| - 1] + [cs[|cs| - 1]];
      InsertByRank(cs[|cs| - 1], SortByRank(cs[..|cs| - 1]))
  }

  lemma {:induction false} SortRanked(cs: seq<DecodeCandidate>)
    requires forall i, j :: 0 <= i < j < |cs| ==> cs[i].absoluteBitOffset != cs[j].absoluteBitOffset
    ensures Ranked(SortByRank(cs))
  {
    if cs != [] {
      var n := |cs| - 1;
      SortRanked(cs[..n]);
      InsertRanked(cs[n], SortByRank(cs[..n]));
    }
  }

  /** Exactly one candidate per frame that is present. */
  ghost predicate Complete(payload: seq<bv8>, cs: seq<DecodeCandidate>) {
    && (forall c :: c in cs ==> IsCandidate(payload, c))
    && (forall words :: Present(BytesToBits(payload), words) ==> exists c :: c in cs && c.frame.WireWords() == words)
  }

  /** Met more often; or as often and with a silent guard where the other's is not; or alike in both and earlier in the payload. */
  ghost predicate ComesFirst(bits: seq<bool>, c: DecodeCandidate, d: DecodeCandidate) {
    var silent, other := GuardIsSilent(bits, c.absoluteBitOffset), GuardIsSilent(bits, d.absoluteBitOffset);
    || |c.occurrences| > |d.occurrences|
    || (|c.occurrences| == |d.occurrences| && silent && !other)
    || (|c.occurrences| == |d.occurrences| && silent == other && c.absoluteBitOffset < d.absoluteBitOffset)
  }

  ghost predicate InOrder(bits: seq<bool>, cs: seq<DecodeCandidate>) {
    forall i, j :: 0 <= i < j < |cs| ==> ComesFirst(bits, cs[i], cs[j])
  }

  lemma PairMeaning(payload: seq<bv8>, c: DecodeCandidate, d: DecodeCandidate)
    requires IsCandidate(payload, c) && IsCandidate(payload, d) && Above(c, d)
    ensures ComesFirst(BytesToBits(payload), c, d)
  {
    hide IsCandidate, GuardIsSilent, HitsBelow, Accepts, StateFromFrame, Frame.WireWords, BytesToBits;
    CandidateMeaning(payload, c);
    CandidateMeaning(payload, d);
  }

  /** What the returned candidates say, and their order. */
  lemma RankingMeaning(payload: seq<bv8>, cs: seq<DecodeCandidate>)
    requires Complete(payload, cs) && Ranked(cs)
    ensures forall c :: c in cs ==> Describes(payload, c)
    ensures InOrder(BytesToBits(payload), cs)
  {
    hide IsCandidate, Above, ComesFirst, BytesToBits, Describes, Present;
    forall c | c in cs ensures Describes(payload, c) { CandidateMeaning(payload, c); }
    forall i, j | 0 <= i < j < |cs| ensures ComesFirst(BytesToBits(payload), cs[i], cs[j]) {
      assert cs[i] in cs && cs[j] in cs;
      PairMeaning(payload, cs[i], cs[j]);
    }
  }

  ghost predicate Unreadable(words: seq<bv8>) {
    |words| == STANDARD_WORDS && StateFromFrame(FrameFromWords(words)).Err?
  }

  ghost predicate BuiltFrom(payload: seq<bv8>, keys: seq<seq<bv8>>, cs: seq<DecodeCandidate>) {
    && |cs| == |keys|
    && forall k :: 0 <= k < |keys| ==> IsCandidate(payload, cs[k]) && cs[k].frame.WireWords() == keys[k] && !Unreadable(keys[k])
  }

  lemma RecordedKey(bits: seq<bool>, table: map<seq<bv8>, Occurrence>, words: seq<bv8>)
    requires GuardsRecorded(bits, table) && words in table
    ensures |words| == STANDARD_WORDS
  {}

  lemma NothingBuilt(payload: seq<bv8>)
    ensures BuiltFrom(payload, [], [])
  {}

  lemma BuiltMore(payload: seq<bv8>, keys: seq<seq<bv8>>, i: nat, cs: seq<DecodeCandidate>, c: DecodeCandidate)
    requires i < |keys| && BuiltFrom(payload, keys[..i], cs)
    requires IsCandidate(payload, c) && c.frame.WireWords() == keys[i] && !Unreadable(keys[i])
    ensures BuiltFrom(payload, keys[..i + 1], cs + [c])
  {
    hide IsCandidate, Unreadable, Frame.WireWords;
  }

  /** One candidate per table entry, in insertion order; reading the state of an entry may raise. */
  method BuildCandidates(payload: seq<bv8>, table: map<seq<bv8>, Occurrence>, keys: seq<seq<bv8>>)
    returns (r: Result<seq<DecodeCandidate>, CodecError>)
    requires forall ws :: HitsIn(table, ws) == AllHits(BytesToBits(payload), ws)
    requires GuardsRecorded(BytesToBits(payload), table) && KeysListed(table, keys)
    ensures r.Err? ==> exists words :: words in keys && Unreadable(words)
    ensures r.Ok? ==> BuiltFrom(payload, keys, r.value)
    ensures r.Ok? ==> forall c :: c in r.value ==> Describes(payload, c)
  {
    hide HitsBelow, ZeroRun, FrameFromWords, Frame.WireWords, StateFromFrame, PayloadSlice, BytesToBits, IsCandidate;
    hide BuiltFrom, GuardsRecorded, Describes;
    var cs: seq<DecodeCandidate> := [];
    NothingBuilt(payload);
    for i := 0 to |keys|
      invariant BuiltFrom(payload, keys[..i], cs)
      invariant forall c :: c in cs ==> Describes(payload, c)
    {
      var words := keys[i];
      RecordedKey(BytesToBits(payload), table, words);
      var state := StateFromFrame(FrameFromWords(words));
      if state.Err? {
        return Err(state.error);
      }
      CandidateFromTable(payload, words, table, state.value);
      var candidate := CandidateFrom(payload, FrameFromWords(words), state.value, table[words]);
      CandidateMeaning(payload, candidate);
      BuiltMore(payload, keys, i, cs, candidate);
      cs := cs + [candidate];
    }
    assert keys[..|keys|] == keys;
    return Ok(cs);
  }

  lemma BuiltIsComplete(payload: seq<bv8>, keys: seq<seq<bv8>>, cs: seq<DecodeCandidate>)
    requires BuiltFrom(payload, keys, cs)
    requires forall i, j :: 0 <= i < j < |keys| ==> keys[i] != keys[j]
    requires forall words :: Present(BytesToBits(payload), words) <==> words in keys
    ensures Complete(payload, SortByRank(cs)) && Ranked(SortByRank(cs))
    ensures forall words :: Present(BytesToBits(payload), words) ==> !Unreadable(words)
  {
    hide Frame.WireWords, BytesToBits, IsCandidate, Present, Unreadable, Above;
    forall words | Present(BytesToBits(payload), words)
      ensures exists c :: c in SortByRank(cs) && c.frame.WireWords() == words
    {
      var k :| 0 <= k < |keys| && keys[k] == words;
      assert cs[k] in cs;
    }
    forall i, j | 0 <= i < j < |cs| ensures cs[i].absoluteBitOffset != cs[j].absoluteBitOffset {
      DistinctOffsets(payload, cs[i], cs[j]);
    }
    SortRanked(cs);
  }

  lemma TableHoldsPresent(bits: seq<bool>, table: map<seq<bv8>, Occurrence>, keys: seq<seq<bv8>>)
    requires forall ws :: HitsIn(table, ws) == AllHits(bits, ws)
    requires GuardsRecorded(bits, table) && KeysListed(table, keys)
    ensures forall words :: Present(bits, words) <==> words in keys
  {
    hide HitsBelow, ZeroRun, Present;
    forall words ensures Present(bits, words) <==> words in keys {
      PresentIff(bits, words);
      assert HitsIn(table, words) == AllHits(bits, words);
    }
  }

  /**
    find_proflame_candidates, for every payload: it raises exactly when some frame that is present has
    an unobservable state; otherwise it returns one candidate per present frame, strongest first.
   */
  method FindProflameCandidates(payload: seq<bv8>) returns (r: Result<seq<DecodeCandidate>, CodecError>)
    ensures r.Err? <==> exists words :: Present(BytesToBits(payload), words) && Unreadable(words)
    ensures r.Ok? ==> Complete(payload, r.value) && Ranked(r.value)
    ensures r.Ok? ==> (forall c :: c in r.value ==> Describes(payload, c)) && InOrder(BytesToBits(payload), r.value)
  {
    hide HitsBelow, IsCandidate, Present, Unreadable, BuiltFrom, Above, Describes, InOrder, ComesFirst;
    var bits := BytesToBits(payload);
    if |bits| < WINDOW_BITS {
      NothingPresent(bits);
      RankingMeaning(payload, []);
      return Ok([]);
    }
    var table, keys := CollectOccurrences(bits);
    TableHoldsPresent(bits, table, keys);
    var built := BuildCandidates(payload, table, keys);
    if built.Err? {
      return built;
    }
    BuiltIsComplete(payload, keys, built.value);
    RankingMeaning(payload, SortByRank(built.value));
    return Ok(SortByRank(built.value));
  }

  lemma NothingPresent(bits: seq<bool>)
    requires |bits| < WINDOW_BITS
    ensures forall words :: !Present(bits, words)
  {
    hide Carries, ZeroRun;
  }
}
