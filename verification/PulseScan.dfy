/**
  find_proflame_pcm_candidates of custom_components/proflame2/rf/pulse.py: which frames the
  scan reports in an arbitrary bit row, and why two of them can never overlap.
 */
module PulseScan {
  import opened Wrappers
  import opened Bytes
  import opened Packet
  import opened Ecc
  import opened Waveform
  import opened Pulse

  datatype Format = Standard | StandardTruncated | Extended | ExtendedTruncated

  datatype Candidate = Candidate(frame: Frame, format: Format, extension: seq<bv8>, bitOffset: nat, repeatGapBits: nat)

  /** Length of the run of low bits that starts at `start`. */
  function ZeroRun(bits: seq<bool>, start: nat): (n: nat)
    decreases |bits| - start
  {
    if start < |bits| && !bits[start] then 1 + ZeroRun(bits, start + 1) else 0
  }

  lemma {:induction false} ZeroRunIs(bits: seq<bool>, start: nat, n: nat)
    requires start + n <= |bits| && forall i :: start <= i < start + n ==> !bits[i]
    ensures ZeroRun(bits, start) >= n
    ensures start + n == |bits| || bits[start + n] ==> ZeroRun(bits, start) == n
    decreases n
  {
    if n > 0 {
      ZeroRunIs(bits, start + 1, n - 1);
    }
  }

  lemma {:induction false} ZeroRunLow(bits: seq<bool>, start: nat)
    ensures ZeroRun(bits, start) == 0 || start + ZeroRun(bits, start) <= |bits|
    ensures forall i :: start <= i < start + ZeroRun(bits, start) ==> !bits[i]
    decreases |bits| - start
  {
    if start < |bits| && !bits[start] {
      ZeroRunLow(bits, start + 1);
    }
  }

  /** _leading_zero_count */
  method LeadingZeroCount(bits: seq<bool>, start: nat) returns (count: nat)
    ensures count == ZeroRun(bits, start)
  {
    count := 0;
    while start + count < |bits|
      invariant ZeroRun(bits, start) == count + ZeroRun(bits, start + count)
      decreases |bits| - count
    {
      if bits[start + count] {
        break;
      }
      count := count + 1;
    }
  }

  function WordCount(format: Format): nat {
    if format == Standard || format == StandardTruncated then STANDARD_WORDS else EXTENDED_WORDS
  }

  function FrameEnd(c: Candidate): nat { c.bitOffset + WORD_BITS * WordCount(c.format) }

  /** The end condition that goes with each format. */
  ghost predicate EndsAs(bits: seq<bool>, c: Candidate) {
    var gap := ZeroRun(bits, FrameEnd(c));
    match c.format
    case Standard => FrameEnd(c) <= |bits| && gap >= 18 && c.repeatGapBits == gap
    case Extended => FrameEnd(c) <= |bits| && gap >= 10 && c.repeatGapBits == gap
    case StandardTruncated => FrameEnd(c) == |bits| + 1 && c.repeatGapBits == 0
    case ExtendedTruncated => FrameEnd(c) == |bits| + 1 && c.repeatGapBits == 0
  }

  /**
    The declarative meaning of a reported candidate: the row holds exactly the transmitter's bits for
    the candidate's frame, ended properly, and a ten-word frame passes both integrity lanes.
   */
  ghost predicate Reports(bits: seq<bool>, c: Candidate) {
    var words := c.frame.WireWords();
    && |words| == WordCount(c.format)
    && c.frame == FrameFromWords(words)
    && c.extension == c.frame.extension
    && Decodes(bits, c.bitOffset, words)
    && EndsAs(bits, c)
    && (c.frame.IsExtended() ==> IntegrityMatches(words))
  }

  // ----- The shape of encoded words -----

  lemma WordShape(w: bv8, trailing: bool)
    ensures var bits := WordBits(w, trailing);
            && bits[0] && bits[1] && bits[2] && !bits[3]
            && bits[20] == trailing && bits[24] && !bits[25]
            && forall j :: 1 <= j < 13 ==> bits[2 * j] != bits[2 * j + 1]
  {
    hide ByteBits, Ones, ToBits;
    var symbols := WordSymbols(w, trailing);
    forall j | 0 <= j < 13
      ensures WordBits(w, trailing)[2 * j] == First(symbols[j]) && WordBits(w, trailing)[2 * j + 1] == Second(symbols[j])
    {
      ToBitsAt(symbols, j);
    }
    assert symbols[0] == S && symbols[1] == B1 && symbols[10] == DataSymbol(trailing) && symbols[12] == B1;
  }

  /** The same facts, about a word inside a row. */
  lemma WordShapeAt(bits: seq<bool>, start: nat, w: bv8, trailing: bool)
    requires HasWord(bits, start, w, trailing)
    ensures bits[start] && bits[start + 1] && bits[start + 2] && !bits[start + 3]
    ensures bits[start + 20] == trailing && bits[start + 24] && !bits[start + 25]
    ensures forall j :: 1 <= j < 13 ==> bits[start + 2 * j] != bits[start + 2 * j + 1]
  {
    hide WordBits;
    var word := bits[start..start + WORD_BITS];
    assert forall i :: 0 <= i < WORD_BITS ==> word[i] == bits[start + i];
    WordShape(w, trailing);
    forall j | 1 <= j < 13 ensures bits[start + 2 * j] != bits[start + 2 * j + 1] {
      assert word[2 * j] == bits[start + 2 * j] && word[2 * j + 1] == bits[start + 2 * j + 1];
    }
  }

  /** Three high bits in a row occur inside a word only at its start. */
  lemma SyncOnlyAtWordStart(bits: seq<bool>, start: nat, w: bv8, trailing: bool)
    requires HasWord(bits, start, w, trailing)
    ensures forall at :: start < at < start + WORD_BITS && at + 2 < |bits| ==> !(bits[at] && bits[at + 1] && bits[at + 2])
  {
    hide HasWord;
    WordShapeAt(bits, start, w, trailing);
    forall at | start < at < start + WORD_BITS && at + 2 < |bits|
      ensures !(bits[at] && bits[at + 1] && bits[at + 2])
    {
      var pair := (at - start + 1) / 2;
      assert pair < 13 ==> bits[start + 2 * pair] != bits[start + 2 * pair + 1];
    }
  }

  /** Every word of a run starts with three high bits; only the first has trailing bit 1. */
  lemma StartOfRun(bits: seq<bool>, offset: nat, words: seq<bv8>)
    requires words != [] && Carries(bits, offset, words)
    ensures offset + WORD_BITS * |words| <= |bits|
    ensures bits[offset] && bits[offset + 1] && bits[offset + 2] && bits[offset + 20]
  {
    hide Carries, HasWord;
    CarriesIff(bits, offset, words);
    WordShapeAt(bits, offset, words[0], true);
  }

  /** Inside a run of words, nothing that looks like the first word of a frame starts anywhere but at the front. */
  lemma FrameOnlyAtRunStart(bits: seq<bool>, offset: nat, words: seq<bv8>, at: nat)
    requires Carries(bits, offset, words)
    requires offset <= at < offset + WORD_BITS * |words| && at + 20 < |bits|
    requires bits[at] && bits[at + 1] && bits[at + 2] && bits[at + 20]
    ensures at == offset
  {
    hide Carries, HasWord;
    CarriesIff(bits, offset, words);
    var k := (at - offset) / WORD_BITS;
    var start := offset + WORD_BITS * k;
    assert HasWord(bits, start, words[k], k == 0);
    SyncOnlyAtWordStart(bits, start, words[k], k == 0);
    WordShapeAt(bits, start, words[k], k == 0);
  }

  lemma CompletedAgrees(bits: seq<bool>, offset: nat, count: nat)
    ensures var row := Completed(bits, offset, count);
            && |bits| <= |row| <= |bits| + 1
            && (forall i :: 0 <= i < |bits| ==> row[i] == bits[i])
            && (offset + WORD_BITS * count <= |bits| ==> row == bits)
            && (offset + WORD_BITS * count == |bits| + 1 ==> row == bits + [false])
  {}

  /** Reading the words of a run is deterministic. */
  lemma {:induction false} CarriesUnique(bits: seq<bool>, offset: nat, a: seq<bv8>, b: seq<bv8>)
    requires Carries(bits, offset, a) && Carries(bits, offset, b) && |a| <= |b|
    ensures a == b[..|a|]
  {
    hide Carries, HasWord;
    CarriesIff(bits, offset, a);
    CarriesIff(bits, offset, b);
    forall k | 0 <= k < |a| ensures a[k] == b[k] {
      HasWordIff(bits, offset + WORD_BITS * k, a[k], k == 0);
      HasWordIff(bits, offset + WORD_BITS * k, b[k], k == 0);
    }
  }

  /** Facts about the start of a reported frame, read off the row itself. */
  lemma ReportedStart(bits: seq<bool>, c: Candidate)
    requires Reports(bits, c)
    ensures FrameEnd(c) <= |bits| + 1
    ensures c.bitOffset + WORD_BITS <= |bits|
    ensures bits[c.bitOffset] && bits[c.bitOffset + 1] && bits[c.bitOffset + 2] && bits[c.bitOffset + 20]
  {
    hide Carries, Completed, ZeroRun, FrameFromWords, Frame.WireWords, IntegrityMatches;
    var words := c.frame.WireWords();
    CompletedAgrees(bits, c.bitOffset, |words|);
    StartOfRun(Completed(bits, c.bitOffset, |words|), c.bitOffset, words);
  }

  /**
    No overlap, in any row, noise included: a later frame starts only after the earlier one has ended
    and after all the silence counted as its gap.  A truncated frame is therefore the last one.
   */
  lemma ReportedFramesAreDisjoint(bits: seq<bool>, c: Candidate, d: Candidate)
    requires Reports(bits, c) && Reports(bits, d) && c.bitOffset < d.bitOffset
    ensures d.bitOffset >= FrameEnd(c) + c.repeatGapBits
    ensures !(c.format == StandardTruncated || c.format == ExtendedTruncated)
    ensures d.bitOffset - c.bitOffset >= if c.format == Standard then 200 else 270
  {
    hide Carries, Completed, ZeroRun, FrameFromWords, Frame.WireWords, IntegrityMatches;
    ReportedStart(bits, c);
    ReportedStart(bits, d);
    var words := c.frame.WireWords();
    var row := Completed(bits, c.bitOffset, |words|);
    CompletedAgrees(bits, c.bitOffset, |words|);
    if d.bitOffset < FrameEnd(c) {
      FrameOnlyAtRunStart(row, c.bitOffset, words, d.bitOffset);
    }
    ZeroRunLow(bits, FrameEnd(c));
  }

  /** At most one candidate is reported at any offset. */
  lemma ReportedUnique(bits: seq<bool>, c: Candidate, d: Candidate)
    requires Reports(bits, c) && Reports(bits, d) && c.bitOffset == d.bitOffset
    ensures c == d
  {
    hide Carries, Completed, ZeroRun, FrameFromWords, Frame.WireWords, IntegrityMatches;
    if WordCount(c.format) > WordCount(d.format) {
      ReportedNotBoth(bits, c, d);
    } else if WordCount(c.format) < WordCount(d.format) {
      ReportedNotBoth(bits, d, c);
    } else {
      var words := c.frame.WireWords();
      CarriesUnique(Completed(bits, c.bitOffset, |words|), c.bitOffset, words, d.frame.WireWords());
      assert words == d.frame.WireWords();
    }
  }

  /** A long frame is never also reported as a short one: its eighth word starts where silence would have to be. */
  lemma ReportedNotBoth(bits: seq<bool>, long: Candidate, short: Candidate)
    requires Reports(bits, long) && long.bitOffset == short.bitOffset
    requires WordCount(long.format) > WordCount(short.format)
    ensures !Reports(bits, short)
  {
    hide Carries, Completed, ZeroRun, FrameFromWords, Frame.WireWords, IntegrityMatches, HasWord;
    var words := long.frame.WireWords();
    var row := Completed(bits, long.bitOffset, |words|);
    CompletedAgrees(bits, long.bitOffset, |words|);
    CarriesIff(row, long.bitOffset, words);
    assert HasWord(row, long.bitOffset + WORD_BITS * 7, words[7], false);
    WordShapeAt(row, long.bitOffset + WORD_BITS * 7, words[7], false);
    ZeroRunLow(bits, FrameEnd(short));
  }

  // ----- The scan -----

  function CandidateOf(words: seq<bv8>, format: Format, offset: nat, gap: nat): Candidate
    requires |words| == WordCount(format)
  {
    var frame := FrameFromWords(words);
    Candidate(frame, format, frame.extension, offset, gap)
  }

  lemma CandidateOfReports(bits: seq<bool>, words: seq<bv8>, format: Format, offset: nat, gap: nat)
    requires |words| == WordCount(format) && Decodes(bits, offset, words)
    requires EndsAs(bits, CandidateOf(words, format, offset, gap))
    requires |words| == EXTENDED_WORDS ==> IntegrityMatches(words)
    ensures Reports(bits, CandidateOf(words, format, offset, gap))
  {
    hide Carries, Completed, ZeroRun, FrameFromWords, Frame.WireWords, IntegrityMatches;
    WordsSurviveFrame(words);
  }

  /** The first seven of ten words lie inside the row even when the tenth is cut by one bit. */
  lemma CarriesPrefixOfRow(bits: seq<bool>, row: seq<bool>, offset: nat, words: seq<bv8>)
    requires |words| == EXTENDED_WORDS && Carries(row, offset, words) && bits <= row && |row| <= |bits| + 1
    ensures Carries(bits, offset, words[..STANDARD_WORDS])
    ensures offset + WORD_BITS * STANDARD_WORDS <= |bits|
  {
    hide Carries, FrameBits;
    CarriesIff(row, offset, words);
    CarriesIff(bits, offset, words[..STANDARD_WORDS]);
    forall k | 0 <= k < STANDARD_WORDS ensures HasWord(bits, offset + WORD_BITS * k, words[k], k == 0) {
      assert HasWord(row, offset + WORD_BITS * k, words[k], k == 0);
      var start := offset + WORD_BITS * k;
      assert bits[start..start + WORD_BITS] == row[start..start + WORD_BITS];
    }
  }

  /** Whatever is reported starts with seven decodable words. */
  lemma ReportsSevenWords(bits: seq<bool>, c: Candidate)
    requires Reports(bits, c)
    ensures Decodes(bits, c.bitOffset, c.frame.WireWords()[..STANDARD_WORDS])
  {
    hide Carries, Completed, ZeroRun, FrameFromWords, Frame.WireWords, IntegrityMatches;
    var words := c.frame.WireWords();
    CompletedAgrees(bits, c.bitOffset, |words|);
    CompletedAgrees(bits, c.bitOffset, STANDARD_WORDS);
    if |words| == EXTENDED_WORDS {
      CarriesPrefixOfRow(bits, Completed(bits, c.bitOffset, |words|), c.bitOffset, words);
    } else {
      assert words[..STANDARD_WORDS] == words;
    }
  }

  lemma DecodesUnique(bits: seq<bool>, offset: nat, a: seq<bv8>, b: seq<bv8>)
    requires Decodes(bits, offset, a) && Decodes(bits, offset, b) && |a| == |b|
    ensures a == b
  {
    hide Carries, Completed;
    CarriesUnique(Completed(bits, offset, |a|), offset, a, b);
    assert b[..|b|] == b;
  }

  ghost predicate NothingAt(bits: seq<bool>, offset: nat) {
    forall c: Candidate :: c.bitOffset == offset ==> !Reports(bits, c)
  }

  lemma NothingWithoutSevenWords(bits: seq<bool>, offset: nat)
    requires forall words :: |words| == STANDARD_WORDS ==> !Decodes(bits, offset, words)
    ensures NothingAt(bits, offset)
  {
    hide Decodes;
    forall c: Candidate | c.bitOffset == offset ensures !Reports(bits, c) {
      if Reports(bits, c) {
        ReportsSevenWords(bits, c);
      }
    }
  }

  /** With no seven-word ending, only a ten-word frame that passes its checks can be reported. */
  lemma NothingWithoutTenWords(bits: seq<bool>, offset: nat, words: Option<seq<bv8>>)
    requires var end := offset + WORD_BITS * STANDARD_WORDS;
             end != |bits| + 1 && ZeroRun(bits, end) < STANDARD_GUARD_BITS
    requires words.None? ==> forall ws :: |ws| == EXTENDED_WORDS ==> !Decodes(bits, offset, ws)
    requires words.Some? ==>
               && |words.value| == EXTENDED_WORDS && Decodes(bits, offset, words.value)
               && var end := offset + WORD_BITS * EXTENDED_WORDS;
                  || !IntegrityMatches(words.value)
                  || (end != |bits| + 1 && ZeroRun(bits, end) < MIN_REPEAT_GAP_BITS)
    ensures NothingAt(bits, offset)
  {
    hide Decodes, ZeroRun, FrameFromWords, Frame.WireWords, IntegrityMatches;
    forall c: Candidate | c.bitOffset == offset ensures !Reports(bits, c) {
      if Reports(bits, c) {
        assert WordCount(c.format) == EXTENDED_WORDS;
        if words.Some? {
          DecodesUnique(bits, offset, words.value, c.frame.WireWords());
        }
      }
    }
  }

  /** `bit_stream[start : start + 18] == "0" * 18` */
  lemma GuardIsZeroRun(bits: seq<bool>, start: nat, n: nat)
    requires start <= |bits|
    ensures (start + n <= |bits| && bits[start..start + n] == Zeros(n)) <==> ZeroRun(bits, start) >= n
  {
    ZeroRunLow(bits, start);
    if start + n <= |bits| && bits[start..start + n] == Zeros(n) {
      forall i | start <= i < start + n ensures !bits[i] { assert bits[i] == Zeros(n)[i - start]; }
      ZeroRunIs(bits, start, n);
    }
  }

  /** The body of the offset loop: the candidate reported at one offset, if there is one. */
  method ScanAt(bits: seq<bool>, offset: nat) returns (r: Option<Candidate>)
    requires offset + WORD_BITS * STANDARD_WORDS <= |bits| + 1
    ensures r.Some? ==> r.value.bitOffset == offset && Reports(bits, r.value)
    ensures r.None? ==> NothingAt(bits, offset)
  {
    hide Decodes, ZeroRun, FrameFromWords, Frame.WireWords, IntegrityMatches, Reports, Zeros;
    var words := DecodeWords(bits, offset, STANDARD_WORDS);
    if words.None? {
      NothingWithoutSevenWords(bits, offset);
      return None;
    }
    var standardEnd := offset + WORD_BITS * STANDARD_WORDS;
    if standardEnd == |bits| + 1 {
      r := Some(CandidateOf(words.value, StandardTruncated, offset, 0));
      CandidateOfReports(bits, words.value, StandardTruncated, offset, 0);
      return;
    }
    GuardIsZeroRun(bits, standardEnd, STANDARD_GUARD_BITS);
    if standardEnd + STANDARD_GUARD_BITS <= |bits|
       && bits[standardEnd..standardEnd + STANDARD_GUARD_BITS] == Zeros(STANDARD_GUARD_BITS) {
      var gap := LeadingZeroCount(bits, standardEnd);
      r := Some(CandidateOf(words.value, Standard, offset, gap));
      CandidateOfReports(bits, words.value, Standard, offset, gap);
      return;
    }
    words := DecodeWords(bits, offset, EXTENDED_WORDS);
    if words.None? || !IntegrityMatches(words.value) {
      NothingWithoutTenWords(bits, offset, words);
      return None;
    }
    var extendedEnd := offset + WORD_BITS * EXTENDED_WORDS;
    if extendedEnd == |bits| + 1 {
      r := Some(CandidateOf(words.value, ExtendedTruncated, offset, 0));
      CandidateOfReports(bits, words.value, ExtendedTruncated, offset, 0);
      return;
    }
    var gap := LeadingZeroCount(bits, extendedEnd);
    if gap < MIN_REPEAT_GAP_BITS {
      NothingWithoutTenWords(bits, offset, words);
      return None;
    }
    DecodedLength(bits, offset, words.value);
    r := Some(CandidateOf(words.value, Extended, offset, gap));
    CandidateOfReports(bits, words.value, Extended, offset, gap);
  }

  lemma DecodedLength(bits: seq<bool>, offset: nat, words: seq<bv8>)
    requires Decodes(bits, offset, words)
    ensures offset + WORD_BITS * |words| <= |bits| + 1
  {
    hide FrameBits;
  }

  ghost predicate Increasing(cs: seq<Candidate>) {
    forall i, j :: 0 <= i < j < |cs| ==> cs[i].bitOffset < cs[j].bitOffset
  }

  /** The scan before de-duplication: every reported frame of the row, once, in order. */
  method ScanRow(bits: seq<bool>) returns (cs: seq<Candidate>)
    ensures Increasing(cs)
    ensures forall c: Candidate :: c in cs <==> Reports(bits, c)
  {
    hide Reports;
    cs := [];
    var offset := 0;
    while offset + WORD_BITS * STANDARD_WORDS <= |bits| + 1
      invariant Increasing(cs)
      invariant forall c: Candidate :: c in cs <==> c.bitOffset < offset && Reports(bits, c)
      decreases |bits| - offset
    {
      var found := ScanAt(bits, offset);
      if found.Some? {
        forall c: Candidate | c.bitOffset == offset && Reports(bits, c) ensures c == found.value {
          ReportedUnique(bits, c, found.value);
        }
        cs := cs + [found.value];
      }
      offset := offset + 1;
    }
    forall c: Candidate | Reports(bits, c) ensures c.bitOffset < offset { ReportedFits(bits, c); }
  }

  lemma ReportedFits(bits: seq<bool>, c: Candidate)
    requires Reports(bits, c)
    ensures c.bitOffset + WORD_BITS * STANDARD_WORDS <= FrameEnd(c) <= |bits| + 1
  {
    hide Carries, Completed, ZeroRun, FrameFromWords, Frame.WireWords, IntegrityMatches;
  }

  // ----- De-duplication -----

  datatype Key = Key(frame: Frame, format: Format, extension: seq<bv8>)

  function KeyOf(c: Candidate): Key { Key(c.frame, c.format, c.extension) }

  /** Stable insertion by bit offset. */
  function InsertByOffset(c: Candidate, cs: seq<Candidate>): (r: seq<Candidate>)
    ensures forall x :: x in r <==> x == c || x in cs
    ensures |r| == |cs| + 1
  {
    if cs == [] || cs[|cs| - 1].bitOffset <= c.bitOffset then cs + [c]
    else InsertByOffset(c, cs[..|cs| - 1]) + [cs[|cs| - 1]]
  }

  /** `sorted(..., key=bit_offset)` */
  function SortByOffset(cs: seq<Candidate>): (r: seq<Candidate>)
    ensures forall x :: x in r <==> x in cs
    ensures |r| == |cs|
  {
    if cs == [] then []
    else
      assert cs == cs[..|cs| - 1] + [cs[|cs| - 1]];
      InsertByOffset(cs[|cs| - 1], SortByOffset(cs[..|cs| - 1]))
  }

  ghost predicate Ordered(cs: seq<Candidate>) {
    forall i, j :: 0 <= i < j < |cs| ==> cs[i].bitOffset <= cs[j].bitOffset
  }

  ghost predicate DistinctKeys(cs: seq<Candidate>) {
    forall i, j :: 0 <= i < j < |cs| ==> KeyOf(cs[i]) != KeyOf(cs[j])
  }

  lemma {:induction false} InsertKeeps(c: Candidate, cs: seq<Candidate>)
    requires Ordered(cs) && DistinctKeys(cs)
    requires forall x :: x in cs ==> KeyOf(x) != KeyOf(c)
    ensures Ordered(InsertByOffset(c, cs)) && DistinctKeys(InsertByOffset(c, cs))
  {
    hide KeyOf;
    if !(cs == [] || cs[|cs| - 1].bitOffset <= c.bitOffset) {
      var n := |cs| - 1;
      var init := cs[..n];
      InsertKeeps(c, init);
      var r := InsertByOffset(c, init);
      forall x | x in r ensures x.bitOffset <= cs[n].bitOffset && KeyOf(x) != KeyOf(cs[n]) {
        if x != c {
          var k :| 0 <= k < n && init[k] == x;
          assert cs[k] == x;
        } else {
          assert cs[n] in cs;
        }
      }
      AppendKeeps(r, cs[n]);
    } else {
      forall x | x in cs ensures x.bitOffset <= c.bitOffset {
        var k :| 0 <= k < |cs| && cs[k] == x;
      }
      AppendKeeps(cs, c);
    }
  }

  lemma AppendKeeps(cs: seq<Candidate>, last: Candidate)
    requires Ordered(cs) && DistinctKeys(cs)
    requires forall x :: x in cs ==> x.bitOffset <= last.bitOffset && KeyOf(x) != KeyOf(last)
    ensures Ordered(cs + [last]) && DistinctKeys(cs + [last])
  {
    hide KeyOf;
    forall i | 0 <= i < |cs| ensures cs[i].bitOffset <= last.bitOffset && KeyOf(cs[i]) != KeyOf(last) { assert cs[i] in cs; }
  }

  lemma {:induction false} SortKeeps(cs: seq<Candidate>)
    requires DistinctKeys(cs)
    ensures Ordered(SortByOffset(cs)) && DistinctKeys(SortByOffset(cs))
  {
    if cs != [] {
      var n := |cs| - 1;
      SortKeeps(cs[..n]);
      InsertKeeps(cs[n], SortByOffset(cs[..n]));
    }
  }

  /** Position `i` holds the candidate kept for its key: the smallest offset, the earliest position among equals. */
  ghost predicate Kept(cs: seq<Candidate>, i: nat)
    requires i < |cs|
  {
    forall j :: 0 <= j < |cs| && KeyOf(cs[j]) == KeyOf(cs[i]) ==>
      cs[i].bitOffset < cs[j].bitOffset || (cs[i].bitOffset == cs[j].bitOffset && i <= j)
  }

  ghost predicate IsKept(cs: seq<Candidate>, c: Candidate) {
    exists i :: 0 <= i < |cs| && cs[i] == c && Kept(cs, i)
  }

  ghost predicate KeepsFirst(cs: seq<Candidate>, r: seq<Candidate>) {
    && DistinctKeys(r)
    && (forall c :: c in r ==> IsKept(cs, c))
    && (forall c :: c in cs ==> exists d :: d in r && KeyOf(d) == KeyOf(c))
  }

  lemma KeptOrNot(cs: seq<Candidate>, c: Candidate, i: nat)
    requires i < |cs| && Kept(cs, i)
    requires KeyOf(c) != KeyOf(cs[i]) || cs[i].bitOffset <= c.bitOffset
    ensures Kept(cs + [c], i)
  {
    forall j | 0 <= j < |cs + [c]| && KeyOf((cs + [c])[j]) == KeyOf(cs[i])
      ensures cs[i].bitOffset < (cs + [c])[j].bitOffset || (cs[i].bitOffset == (cs + [c])[j].bitOffset && i <= j)
    {
      if j < |cs| {
        assert (cs + [c])[j] == cs[j];
      }
    }
  }

  /** What the dictionary holds after the candidates `cs`; `keys` is its insertion order. */
  ghost predicate Stored(cs: seq<Candidate>, keys: seq<Key>, table: map<Key, Candidate>) {
    && (forall k :: k in table <==> k in keys)
    && (forall i, j :: 0 <= i < j < |keys| ==> keys[i] != keys[j])
    && (forall c :: c in cs ==> KeyOf(c) in table)
    && (forall k :: k in table ==> KeyOf(table[k]) == k && IsKept(cs, table[k]))
  }

  lemma StillKept(cs: seq<Candidate>, c: Candidate, kept: Candidate)
    requires IsKept(cs, kept)
    requires KeyOf(c) != KeyOf(kept) || kept.bitOffset <= c.bitOffset
    ensures IsKept(cs + [c], kept)
  {
    hide Kept;
    var i :| 0 <= i < |cs| && cs[i] == kept && Kept(cs, i);
    KeptOrNot(cs, c, i);
    assert (cs + [c])[i] == kept;
  }

  lemma NewlyKept(cs: seq<Candidate>, c: Candidate)
    requires forall d :: d in cs && KeyOf(d) == KeyOf(c) ==> c.bitOffset < d.bitOffset
    ensures IsKept(cs + [c], c)
  {
    forall j | 0 <= j < |cs| && KeyOf((cs + [c])[j]) == KeyOf(c) ensures c.bitOffset < (cs + [c])[j].bitOffset {
      assert cs[j] in cs;
    }
    assert (cs + [c])[|cs|] == c && Kept(cs + [c], |cs|);
  }

  lemma KeptIsLeast(cs: seq<Candidate>, kept: Candidate, d: Candidate)
    requires IsKept(cs, kept) && d in cs && KeyOf(d) == KeyOf(kept)
    ensures kept.bitOffset <= d.bitOffset
  {
    var i :| 0 <= i < |cs| && cs[i] == kept && Kept(cs, i);
    var j :| 0 <= j < |cs| && cs[j] == d;
  }

  lemma StoredSkip(cs: seq<Candidate>, c: Candidate, keys: seq<Key>, table: map<Key, Candidate>)
    requires Stored(cs, keys, table) && KeyOf(c) in table && c.bitOffset >= table[KeyOf(c)].bitOffset
    ensures Stored(cs + [c], keys, table)
  {
    hide IsKept;
    forall k | k in table ensures IsKept(cs + [c], table[k]) { StillKept(cs, c, table[k]); }
  }

  lemma StoredPut(cs: seq<Candidate>, c: Candidate, keys: seq<Key>, table: map<Key, Candidate>)
    requires Stored(cs, keys, table)
    requires KeyOf(c) in table ==> c.bitOffset < table[KeyOf(c)].bitOffset
    ensures Stored(cs + [c], if KeyOf(c) in table then keys else keys + [KeyOf(c)], table[KeyOf(c) := c])
  {
    hide IsKept;
    var key := KeyOf(c);
    forall d | d in cs && KeyOf(d) == key ensures c.bitOffset < d.bitOffset {
      KeptIsLeast(cs, table[key], d);
    }
    NewlyKept(cs, c);
    forall k | k in table && k != key ensures IsKept(cs + [c], table[k]) { StillKept(cs, c, table[k]); }
  }

  function ValuesOf(keys: seq<Key>, table: map<Key, Candidate>): (values: seq<Candidate>)
    requires forall k :: k in keys ==> k in table
    ensures |values| == |keys| && forall i :: 0 <= i < |keys| ==> values[i] == table[keys[i]]
  {
    seq(|keys|, i requires 0 <= i < |keys| => assert keys[i] in keys; table[keys[i]])
  }

  /** _deduplicate_candidates */
  method DeduplicateCandidates(cs: seq<Candidate>) returns (r: seq<Candidate>)
    ensures Ordered(r) && KeepsFirst(cs, r)
  {
    hide IsKept, Stored;
    EmptyTable();
    var table: map<Key, Candidate> := map[];
    var keys: seq<Key> := [];
    for i := 0 to |cs|
      invariant Stored(cs[..i], keys, table)
    {
      var c := cs[i];
      assert cs[..i + 1] == cs[..i] + [c];
      if KeyOf(c) !in table || c.bitOffset < table[KeyOf(c)].bitOffset {
        StoredPut(cs[..i], c, keys, table);
        keys := if KeyOf(c) in table then keys else keys + [KeyOf(c)];
        table := table[KeyOf(c) := c];
      } else {
        StoredSkip(cs[..i], c, keys, table);
      }
    }
    assert cs[..|cs|] == cs;
    StoredValues(cs, keys, table);
    var values := ValuesOf(keys, table);
    SortKeeps(values);
    r := SortByOffset(values);
  }

  lemma EmptyTable()
    ensures Stored([], [], map[])
  {}

  lemma StoredValues(cs: seq<Candidate>, keys: seq<Key>, table: map<Key, Candidate>)
    requires Stored(cs, keys, table)
    ensures forall k :: k in keys ==> k in table
    ensures KeepsFirst(cs, ValuesOf(keys, table))
  {
    hide IsKept;
    var values := ValuesOf(keys, table);
    forall c | c in values ensures IsKept(cs, c) {
      var n :| 0 <= n < |values| && values[n] == c;
      assert keys[n] in table;
    }
    forall c | c in cs ensures exists d :: d in values && KeyOf(d) == KeyOf(c) {
      var n :| 0 <= n < |keys| && keys[n] == KeyOf(c);
      assert values[n] in values;
    }
  }

  /** The candidates that survive: reported, and not reported anywhere earlier with the same frame and format. */
  ghost predicate ReportsFirst(bits: seq<bool>, c: Candidate) {
    && Reports(bits, c)
    && forall d :: Reports(bits, d) && d.frame == c.frame && d.format == c.format && d.extension == c.extension ==>
                     c.bitOffset <= d.bitOffset
  }

  /** find_proflame_pcm_candidates, for every row. */
  method FindProflamePcmCandidates(bits: seq<bool>) returns (r: seq<Candidate>)
    ensures Increasing(r)
    ensures forall c: Candidate :: c in r <==> ReportsFirst(bits, c)
  {
    hide Reports;
    var cs := ScanRow(bits);
    r := DeduplicateCandidates(cs);
    forall c: Candidate ensures c in r <==> ReportsFirst(bits, c) { FirstIsKept(bits, cs, r, c); }
    forall i, j | 0 <= i < j < |r| ensures r[i].bitOffset < r[j].bitOffset {
      assert r[i] in r && r[j] in r;
      OffsetsDiffer(bits, r[i], r[j]);
    }
  }

  lemma OffsetsDiffer(bits: seq<bool>, c: Candidate, d: Candidate)
    requires Reports(bits, c) && Reports(bits, d) && c != d
    ensures c.bitOffset != d.bitOffset
  {
    hide Reports;
    if c.bitOffset == d.bitOffset {
      ReportedUnique(bits, c, d);
    }
  }

  lemma FirstIsKept(bits: seq<bool>, cs: seq<Candidate>, r: seq<Candidate>, c: Candidate)
    requires Increasing(cs) && KeepsFirst(cs, r)
    requires forall d: Candidate :: d in cs <==> Reports(bits, d)
    ensures c in r <==> ReportsFirst(bits, c)
  {
    hide Reports, Kept;
    forall d ensures KeyOf(d) == KeyOf(c) <==> d.frame == c.frame && d.format == c.format && d.extension == c.extension {}
    hide KeyOf;
    if c in r {
      forall d | Reports(bits, d) && KeyOf(d) == KeyOf(c) ensures c.bitOffset <= d.bitOffset {
        KeptIsLeast(cs, c, d);
      }
      assert c in cs;
    }
    if ReportsFirst(bits, c) {
      var d :| d in r && KeyOf(d) == KeyOf(c);
      KeptIsLeast(cs, d, c);
      assert d in cs;
      var i :| 0 <= i < |cs| && cs[i] == d;
      var j :| 0 <= j < |cs| && cs[j] == c;
    }
  }
}
