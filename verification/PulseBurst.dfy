/**
  From the transmitter's repeated burst to the receiver's candidates: quantising measured pulse
  durations, the longest pulses a burst can hold, and what the scan finds in a whole burst.
 */
module PulseBurst {
  import opened Wrappers
  import opened Packet
  import opened Ecc
  import opened Waveform
  import opened Pulse
  import opened PulseScan
  import opened PulseStream

  const PCM_UNIT_US := 417
  const MAX_RUN_UNITS := 3
  const MAX_REPEAT_GAP_UNITS := 16

  // ----- Quantising durations -----

  datatype PulseError = BadUnit | ZeroDuration | BelowOneUnit(duration: int) | UnsupportedLength(duration: int)

  function Abs(d: int): nat { if d < 0 then -d else d }

  function Units(duration: int, unit: int): nat
    requires unit > 0
  {
    (Abs(duration) + unit / 2) / unit
  }

  function RunError(duration: int, unit: int): Option<PulseError>
    requires unit > 0
  {
    if duration == 0 then Some(ZeroDuration)
    else if Units(duration, unit) == 0 then Some(BelowOneUnit(duration))
    else if Units(duration, unit) > MAX_RUN_UNITS && (duration > 0 || Units(duration, unit) > MAX_REPEAT_GAP_UNITS) then
      Some(UnsupportedLength(duration))
    else None
  }

  function Repeated(bit: bool, n: nat): (bits: seq<bool>)
    ensures |bits| == n && forall i :: 0 <= i < n ==> bits[i] == bit
  {
    seq(n, _ => bit)
  }

  /** Each run repeated for its rounded number of units: positive durations are high, negative ones low. */
  function Quantized(durations: seq<int>, unit: int): seq<bool>
    requires unit > 0
  {
    if durations == [] then []
    else
      var last := durations[|durations| - 1];
      Quantized(durations[..|durations| - 1], unit) + Repeated(last > 0, Units(last, unit))
  }

  /** Half a unit more than the length of a run, the number that rounding compares with multiples of the unit. */
  function Raised(duration: int, unit: int): int { (if duration < 0 then -duration else duration) + unit / 2 }

  /** A run whose length rounds to one to three units when high, one to sixteen when low. */
  predicate Measurable(duration: int, unit: int) {
    duration != 0 && unit <= Raised(duration, unit) < (if duration > 0 then 4 * unit else 17 * unit)
  }

  predicate Acceptable(durations: seq<int>, unit: int) { forall i :: 0 <= i < |durations| ==> Measurable(durations[i], unit) }

  lemma RunErrorIff(duration: int, unit: int)
    requires unit > 0
    ensures RunError(duration, unit).None? <==> Measurable(duration, unit)
    ensures RunError(duration, unit) == Some(ZeroDuration) <==> duration == 0
    ensures RunError(duration, unit) == Some(BelowOneUnit(duration)) <==> duration != 0 && Raised(duration, unit) < unit
    ensures RunError(duration, unit) == Some(UnsupportedLength(duration))
       <==> duration != 0 && Raised(duration, unit) >= if duration > 0 then 4 * unit else 17 * unit
  {
    hide Units;
    UnitsAtLeast(duration, unit, 1);
    UnitsAtLeast(duration, unit, 4);
    UnitsAtLeast(duration, unit, 17);
  }

  lemma UnitsAtLeast(duration: int, unit: int, n: nat)
    requires unit > 0
    ensures Units(duration, unit) >= n <==> Raised(duration, unit) >= n * unit
  {
    hide Units;
    var q := Units(duration, unit);
    UnitsWindow(duration, unit, q);
    if q < n {
      MultipleOrder(q, n, unit);
    } else if n < q {
      MultipleOrder(n, q, unit);
    }
  }

  /** The first run that cannot be measured, and what is wrong with it. */
  ghost predicate FirstBad(durations: seq<int>, unit: int, error: PulseError) {
    exists i :: 0 <= i < |durations|
      && Acceptable(durations[..i], unit)
      && !Measurable(durations[i], unit)
      && error == if durations[i] == 0 then ZeroDuration
                  else if Raised(durations[i], unit) < unit then BelowOneUnit(durations[i])
                  else UnsupportedLength(durations[i])
  }

  /** pulse_durations_to_bits: the first run that cannot be measured decides the error. */
  method PulseDurationsToBits(durations: seq<int>, unit: int) returns (r: Result<seq<bool>, PulseError>)
    ensures unit <= 0 <==> r == Err(BadUnit)
    ensures unit > 0 ==> (r.Ok? <==> Acceptable(durations, unit))
    ensures unit > 0 && r.Ok? ==> r.value == Quantized(durations, unit)
    ensures unit > 0 && r.Err? ==> FirstBad(durations, unit, r.error)
  {
    hide Measurable, Raised;
    if unit <= 0 {
      return Err(BadUnit);
    }
    var bits: seq<bool> := [];
    for i := 0 to |durations|
      invariant Acceptable(durations[..i], unit)
      invariant bits == Quantized(durations[..i], unit)
    {
      var duration := durations[i];
      var error := RunError(duration, unit);
      RunErrorIff(duration, unit);
      if error.Some? {
        return Err(error.value);
      }
      assert durations[..i + 1][..i] == durations[..i];
      bits := bits + Repeated(duration > 0, Units(duration, unit));
    }
    assert durations[..|durations|] == durations;
    return Ok(bits);
  }

  /** find_proflame_pulse_candidates */
  method FindProflamePulseCandidates(durations: seq<int>, unit: int) returns (r: Result<seq<Candidate>, PulseError>)
    ensures r.Ok? <==> unit > 0 && Acceptable(durations, unit)
    ensures unit > 0 && r.Err? ==> FirstBad(durations, unit, r.error)
    ensures r.Ok? ==> Increasing(r.value)
    ensures r.Ok? ==> forall c: Candidate :: c in r.value <==> ReportsFirst(Quantized(durations, unit), c)
  {
    hide ReportsFirst, Measurable, FirstBad;
    var bits := PulseDurationsToBits(durations, unit);
    if bits.Err? {
      return Err(bits.error);
    }
    var candidates := FindProflamePcmCandidates(bits.value);
    return Ok(candidates);
  }

  /** Rounding: a duration counts as n units exactly when it lies in the window around n units. */
  lemma UnitsWindow(duration: int, unit: int, n: nat)
    requires unit > 0
    ensures Units(duration, unit) == n <==> n * unit <= Raised(duration, unit) < n * unit + unit
  {
    QuotientWindow(Abs(duration) + unit / 2, unit, n);
  }

  lemma MultipleOrder(a: nat, b: nat, unit: nat)
    requires a < b
    ensures a * unit + unit <= b * unit
  {
    var d := b - a - 1;
    assert b * unit == a * unit + unit + d * unit by { assert b == a + 1 + d; }
    assert d * unit >= 0;
  }

  lemma QuotientWindow(x: nat, unit: nat, n: nat)
    requires unit > 0
    ensures x / unit == n <==> n * unit <= x < n * unit + unit
  {
    var q := x / unit;
    assert q * unit <= x < q * unit + unit;
    if q < n {
      MultipleOrder(q, n, unit);
    } else if n < q {
      MultipleOrder(n, q, unit);
    }
  }

  // ----- Runs of a row -----

  datatype Run = Run(high: bool, length: nat)

  function AddBit(runs: seq<Run>, bit: bool): seq<Run> {
    var last := |runs| - 1;
    if runs != [] && runs[last].high == bit then runs[..last] + [Run(bit, runs[last].length + 1)]
    else runs + [Run(bit, 1)]
  }

  /** The maximal runs of a row. */
  function Runs(bits: seq<bool>): seq<Run> {
    if bits == [] then [] else AddBit(Runs(bits[..|bits| - 1]), bits[|bits| - 1])
  }

  function Flatten(runs: seq<Run>): seq<bool> {
    if runs == [] then []
    else Flatten(runs[..|runs| - 1]) + Repeated(runs[|runs| - 1].high, runs[|runs| - 1].length)
  }

  lemma FlattenAppend(runs: seq<Run>, run: Run)
    ensures Flatten(runs + [run]) == Flatten(runs) + Repeated(run.high, run.length)
  {
    assert (runs + [run])[..|runs|] == runs;
  }

  lemma RepeatedMore(bit: bool, n: nat)
    ensures Repeated(bit, n + 1) == Repeated(bit, n) + [bit]
    ensures Repeated(bit, 1) == [bit]
  {}

  lemma FlattenAddBit(runs: seq<Run>, bit: bool)
    ensures Flatten(AddBit(runs, bit)) == Flatten(runs) + [bit]
  {
    hide Repeated, Flatten;
    var last := |runs| - 1;
    if runs != [] && runs[last].high == bit {
      var init, length := runs[..last], runs[last].length;
      FlattenAppend(init, runs[last]);
      FlattenAppend(init, Run(bit, length + 1));
      RepeatedMore(bit, length);
      Associative(Flatten(init), Repeated(bit, length), [bit]);
      assert runs == init + [runs[last]];
    } else {
      FlattenAppend(runs, Run(bit, 1));
      RepeatedMore(bit, 0);
    }
  }

  lemma {:induction false} FlattenRuns(bits: seq<bool>)
    ensures Flatten(Runs(bits)) == bits
    ensures forall r :: r in Runs(bits) ==> r.length > 0
  {
    hide Flatten;
    if bits != [] {
      var n := |bits| - 1;
      FlattenRuns(bits[..n]);
      FlattenAddBit(Runs(bits[..n]), bits[n]);
      assert bits == bits[..n] + [bits[n]];
    } else {
      FlattenNothing();
    }
  }

  lemma FlattenNothing()
    ensures Flatten([]) == []
  {}

  ghost predicate FourHigh(bits: seq<bool>, x: nat) {
    x + 4 <= |bits| && bits[x] && bits[x + 1] && bits[x + 2] && bits[x + 3]
  }

  ghost predicate SeventeenLow(bits: seq<bool>, x: nat) {
    x + 17 <= |bits| && forall i :: x <= i < x + 17 ==> !bits[i]
  }

  /** No four high bits in a row and no seventeen low ones: what the quantiser supports. */
  ghost predicate ShortRuns(bits: seq<bool>) {
    forall x: nat :: !FourHigh(bits, x) && !SeventeenLow(bits, x)
  }

  lemma RunBound(bits: seq<bool>, before: seq<bool>, run: Run, after: seq<bool>)
    requires ShortRuns(bits) && bits == before + Repeated(run.high, run.length) + after
    ensures run.length <= if run.high then MAX_RUN_UNITS else MAX_REPEAT_GAP_UNITS
  {
    var x := |before|;
    assert forall i :: x <= i < x + run.length ==> bits[i] == run.high;
    assert !FourHigh(bits, x) && !SeventeenLow(bits, x);
  }

  /** A measured duration: within half a unit of the run it measures, signed by its level. */
  ghost predicate Measures(duration: int, run: Run) {
    var nominal := run.length * 417;
    if run.high then duration > 0 && nominal - 208 <= duration <= nominal + 208
    else duration < 0 && nominal - 208 <= -duration <= nominal + 208
  }

  ghost predicate Measured(durations: seq<int>, runs: seq<Run>) {
    |durations| == |runs| && forall i :: 0 <= i < |runs| ==> Measures(durations[i], runs[i])
  }

  /** For any unit: a duration that rounds to the length of the run, signed by its level. */
  ghost predicate RoundsTo(duration: int, run: Run, unit: int) {
    (if run.high then duration > 0 else duration < 0) && run.length * unit <= Raised(duration, unit) < run.length * unit + unit
  }

  ghost predicate RoundTo(durations: seq<int>, runs: seq<Run>, unit: int) {
    |durations| == |runs| && forall i :: 0 <= i < |runs| ==> RoundsTo(durations[i], runs[i], unit)
  }

  lemma RunIsMeasurable(duration: int, run: Run, unit: int)
    requires unit > 0 && RoundsTo(duration, run, unit) && 0 < run.length <= if run.high then 3 else 16
    ensures Measurable(duration, unit) && Units(duration, unit) == run.length
  {
    hide Units, Raised;
    UnitsWindow(duration, unit, run.length);
    MultipleOrder(0, run.length, unit);
    MultipleOrder(run.length, if run.high then 4 else 17, unit);
  }

  lemma {:induction false} RoundedPrefix(bits: seq<bool>, durations: seq<int>, runs: seq<Run>, after: seq<bool>, unit: int)
    requires unit > 0 && ShortRuns(bits) && bits == Flatten(runs) + after
    requires RoundTo(durations, runs, unit) && forall r :: r in runs ==> r.length > 0
    ensures Acceptable(durations, unit)
    ensures Quantized(durations, unit) == Flatten(runs)
    decreases |runs|
  {
    hide ShortRuns, Units, Repeated, Measurable, Raised;
    if runs != [] {
      var n := |runs| - 1;
      var run := runs[n];
      var here := Repeated(run.high, run.length);
      assert bits == Flatten(runs[..n]) + here + after;
      assert bits == Flatten(runs[..n]) + (here + after);
      RoundedPrefix(bits, durations[..n], runs[..n], here + after, unit);
      RunBound(bits, Flatten(runs[..n]), run, after);
      assert run in runs;
      RunIsMeasurable(durations[n], run, unit);
    }
  }

  /** For any unit: durations that round to the runs of a supported row quantise, without error, to exactly that row. */
  lemma RoundedRowQuantises(bits: seq<bool>, durations: seq<int>, unit: int)
    requires unit > 0 && ShortRuns(bits) && RoundTo(durations, Runs(bits), unit)
    ensures Acceptable(durations, unit)
    ensures Quantized(durations, unit) == bits
  {
    hide ShortRuns, RoundTo, Runs, Quantized, Flatten, Acceptable;
    FlattenRuns(bits);
    assert bits == Flatten(Runs(bits)) + [];
    RoundedPrefix(bits, durations, Runs(bits), [], unit);
  }

  /** So do jittered durations in the default unit. */
  lemma MeasuredRowQuantises(bits: seq<bool>, durations: seq<int>)
    requires ShortRuns(bits) && Measured(durations, Runs(bits))
    ensures Acceptable(durations, PCM_UNIT_US)
    ensures Quantized(durations, PCM_UNIT_US) == bits
  {
    hide ShortRuns, Runs, Quantized, Flatten, Acceptable;
    RoundedRowQuantises(bits, durations, PCM_UNIT_US);
  }

  // ----- Bursts have short runs -----

  lemma FrameRuns(row: seq<bool>, offset: nat, words: seq<bv8>, x: nat)
    requires words != [] && Carries(row, offset, words)
    requires var end := offset + WORD_BITS * |words|; offset <= x < end
    ensures !FourHigh(row, x)
    ensures var end := offset + WORD_BITS * |words|;
            && end <= |row| && row[end - 2]
            && (x + 3 <= end ==> row[x] || row[x + 1] || row[x + 2])
  {
    hide Carries, HasWord;
    CarriesIff(row, offset, words);
    var k, last := (x - offset) / WORD_BITS, |words| - 1;
    var start, end := offset + WORD_BITS * k, offset + WORD_BITS * |words|;
    assert HasWord(row, start, words[k], k == 0) && HasWord(row, offset + WORD_BITS * last, words[last], last == 0);
    WordShapeAt(row, start, words[k], k == 0);
    SyncOnlyAtWordStart(row, start, words[k], k == 0);
    WordShapeAt(row, offset + WORD_BITS * last, words[last], last == 0);
    if x + 3 <= end {
      SomeHigh(row, start, words[k], k == 0, x);
      if k < last {
        assert HasWord(row, start + WORD_BITS, words[k + 1], false);
        WordShapeAt(row, start + WORD_BITS, words[k + 1], false);
      }
    }
  }

  /** Three consecutive bits of a word hold an aligned pair, and every pair has a high bit. */
  lemma SomeHigh(row: seq<bool>, start: nat, w: bv8, trailing: bool, x: nat)
    requires HasWord(row, start, w, trailing) && start <= x < start + WORD_BITS
    ensures x + 3 <= start + WORD_BITS ==> row[x] || row[x + 1] || row[x + 2]
    ensures x == start + 24 ==> row[x]
  {
    hide WordBits;
    WordShapeAt(row, start, w, trailing);
    var pair := (x - start + 1) / 2;
    assert 1 <= pair < 13 ==> row[start + 2 * pair] != row[start + 2 * pair + 1];
  }

  /** With silences of at most fifteen bits, no high run exceeds three bits and no low run exceeds sixteen. */
  lemma {:induction false} StreamShortRuns(bits: seq<bool>, offset: nat, segments: seq<Segment>, cut: bool, x: nat)
    requires FrameSized(segments) && StreamAt(bits, offset, segments, cut) && x >= offset
    requires forall s :: s in segments ==> s.gap <= 15
    ensures !FourHigh(bits, x) && !SeventeenLow(bits, x)
    decreases |segments|
  {
    hide Carries, Completed;
    if segments != [] {
      var s := segments[0];
      var end := offset + WORD_BITS * |s.words|;
      var row := Completed(bits, offset, |s.words|);
      CompletedAgrees(bits, offset, |s.words|);
      if x >= end + s.gap {
        if !(cut && |segments| == 1) {
          StreamShortRuns(bits, end + s.gap, segments[1..], cut, x);
        }
      } else {
        if x < end {
          FrameRuns(row, offset, s.words, x);
        }
        if |segments| > 1 {
          StreamFrameStart(bits, end + s.gap, segments[1..], cut);
        } else if !cut {
          assert StreamAt(bits, end + s.gap, [], cut);
        }
      }
    }
  }

  // ----- The transmitter's burst -----

  function BurstSegments(words: seq<bv8>, n: nat): (segments: seq<Segment>)
    ensures |segments| == n
    ensures forall s :: s in segments ==> s.words == words && s.gap <= NATIVE_REPEAT_SEPARATOR_BITS
    ensures n > 0 ==> segments[n - 1].gap == 0
  {
    if n == 0 then []
    else if n == 1 then [Segment(words, 0)]
    else [Segment(words, NATIVE_REPEAT_SEPARATOR_BITS)] + BurstSegments(words, n - 1)
  }

  lemma {:induction false} JoinedFromFront(frame: seq<bool>, n: nat, separator: nat)
    requires n > 0
    ensures Joined(frame, n + 1, separator) == frame + Zeros(separator) + Joined(frame, n, separator)
  {
    hide Zeros;
    var z := Zeros(separator);
    if n > 1 {
      JoinedFromFront(frame, n - 1, separator);
      var j := Joined(frame, n - 1, separator);
      assert Joined(frame, n, separator) == j + z + frame;
      assert frame + z + j + z + frame == frame + z + (j + z + frame);
    }
  }

  lemma RowCons(s: Segment, rest: seq<Segment>)
    ensures Row([s] + rest) == FrameBits(s.words) + Zeros(s.gap) + Row(rest)
  {
    hide FrameBits, Zeros;
    assert ([s] + rest)[1..] == rest;
  }

  lemma JoinedOnce(frame: seq<bool>, separator: nat)
    ensures Joined(frame, 1, separator) == frame
    ensures frame + Zeros(0) + Row([]) == frame
  {}

  /** The joined copies of the transmitter are the row of the burst's segments. */
  lemma {:induction false} JoinedIsRow(words: seq<bv8>, n: nat)
    requires n > 0
    ensures Row(BurstSegments(words, n)) == Joined(FrameBits(words), n, NATIVE_REPEAT_SEPARATOR_BITS)
    decreases n
  {
    hide FrameBits, Zeros, Joined, Row;
    if n == 1 {
      JoinedOnce(FrameBits(words), NATIVE_REPEAT_SEPARATOR_BITS);
      RowCons(Segment(words, 0), []);
      assert [Segment(words, 0)] + [] == [Segment(words, 0)];
    } else {
      JoinedIsRow(words, n - 1);
      JoinedFromFront(FrameBits(words), n - 1, NATIVE_REPEAT_SEPARATOR_BITS);
      RowCons(Segment(words, NATIVE_REPEAT_SEPARATOR_BITS), BurstSegments(words, n - 1));
    }
  }

  lemma ExpectedBurstStep(offset: nat, words: seq<bv8>, n: nat)
    requires |words| == STANDARD_WORDS || |words| == EXTENDED_WORDS
    requires n > 0
    ensures n == 1 ==> Expected(offset, BurstSegments(words, n), true) == ExpectedHere(offset, Segment(words, 0), true)
    ensures n > 1 ==>
              Expected(offset, BurstSegments(words, n), true)
              == ExpectedHere(offset, Segment(words, 12), false)
                 + Expected(offset + WORD_BITS * |words| + 12, BurstSegments(words, n - 1), true)
  {
    hide ExpectedHere;
    var segments := BurstSegments(words, n);
    if n == 1 {
      assert segments[1..] == [];
    } else {
      assert segments[1..] == BurstSegments(words, n - 1);
    }
  }

  /** A legacy burst: only its last copy is reported, as a truncated frame. */
  lemma {:induction false} LegacyBurstExpected(offset: nat, words: seq<bv8>, n: nat)
    requires |words| == STANDARD_WORDS && n > 0
    ensures Expected(offset, BurstSegments(words, n), true)
         == [CandidateOf(words, StandardTruncated, offset + 194 * (n - 1), 0)]
    decreases n
  {
    hide FrameFromWords, Expected, BurstSegments;
    ExpectedBurstStep(offset, words, n);
    if n > 1 {
      LegacyBurstExpected(offset + 194, words, n - 1);
    }
  }

  /** One of the complete copies in a burst of n extended frames that starts at `offset`. */
  ghost predicate IsCopy(c: Candidate, words: seq<bv8>, offset: nat, n: nat)
    requires |words| == EXTENDED_WORDS
  {
    && c.bitOffset >= offset && (c.bitOffset - offset) % 272 == 0 && (c.bitOffset - offset) / 272 < n - 1
    && c == CandidateOf(words, Extended, c.bitOffset, 12)
  }

  /** An extended burst: every copy but the last is reported complete with gap 12, the last one truncated. */
  lemma {:induction false} ExtendedBurstExpected(offset: nat, words: seq<bv8>, n: nat, c: Candidate)
    requires |words| == EXTENDED_WORDS && IntegrityMatches(words) && n > 0
    ensures c in Expected(offset, BurstSegments(words, n), true)
       <==> c == CandidateOf(words, ExtendedTruncated, offset + 272 * (n - 1), 0) || IsCopy(c, words, offset, n)
    decreases n
  {
    hide FrameFromWords, Expected, BurstSegments, IntegrityMatches, CandidateOf;
    ExpectedBurstStep(offset, words, n);
    OffsetOfCandidate(words, offset);
    if n > 1 {
      ExtendedBurstExpected(offset + 272, words, n - 1, c);
      assert IsCopy(c, words, offset, n) <==> c == CandidateOf(words, Extended, offset, 12) || IsCopy(c, words, offset + 272, n - 1);
    }
  }

  lemma OffsetOfCandidate(words: seq<bv8>, offset: nat)
    requires |words| == EXTENDED_WORDS
    ensures CandidateOf(words, Extended, offset, 12).bitOffset == offset
  {}

  /** The received burst: n copies joined by the separator, without the final low bit. */
  ghost predicate IsBurst(bits: seq<bool>, words: seq<bv8>, n: nat) {
    n > 0 && bits + [false] == Joined(FrameBits(words), n, NATIVE_REPEAT_SEPARATOR_BITS)
  }

  lemma BurstReports(bits: seq<bool>, words: seq<bv8>, n: nat)
    requires |words| == STANDARD_WORDS || |words| == EXTENDED_WORDS
    requires IsBurst(bits, words, n)
    ensures n > 0 && ShortRuns(bits)
    ensures forall c: Candidate :: Reports(bits, c) <==> c in Expected(0, BurstSegments(words, n), true)
  {
    hide FrameBits, Joined, Row, Expected, Reports, StreamAt;
    var segments := BurstSegments(words, n);
    JoinedIsRow(words, n);
    ReceivedReports(segments, true, bits);
    ReceivedIsStream(segments, true, bits);
    forall x: nat ensures !FourHigh(bits, x) && !SeventeenLow(bits, x) {
      StreamShortRuns(bits, 0, segments, true, x);
    }
  }

  /**
    A legacy burst through jittered pulses: quantising never fails and returns the burst exactly, and the
    scan keeps exactly one candidate, the frame of the last copy with its truncated guard.
   */
  lemma LegacyBurstThroughJitter(bits: seq<bool>, words: seq<bv8>, n: nat, durations: seq<int>)
    requires |words| == STANDARD_WORDS && IsBurst(bits, words, n) && Measured(durations, Runs(bits))
    ensures Acceptable(durations, PCM_UNIT_US) && Quantized(durations, PCM_UNIT_US) == bits
    ensures forall c: Candidate :: ReportsFirst(Quantized(durations, PCM_UNIT_US), c)
                            <==> c == CandidateOf(words, StandardTruncated, 194 * (n - 1), 0)
  {
    hide IsBurst, Measured, Runs, Quantized, Reports, Expected, BurstSegments, ShortRuns, CandidateOf;
    BurstReports(bits, words, n);
    MeasuredRowQuantises(bits, durations);
    LegacyBurstExpected(0, words, n);
  }

  /**
    An extended burst of at least two copies through jittered pulses: exactly two candidates remain, the
    first complete copy and the truncated last one, both carrying all ten words.
   */
  lemma ExtendedBurstThroughJitter(bits: seq<bool>, words: seq<bv8>, n: nat, durations: seq<int>)
    requires |words| == EXTENDED_WORDS && IntegrityMatches(words) && n >= 2
    requires IsBurst(bits, words, n) && Measured(durations, Runs(bits))
    ensures Acceptable(durations, PCM_UNIT_US) && Quantized(durations, PCM_UNIT_US) == bits
    ensures forall c: Candidate :: ReportsFirst(Quantized(durations, PCM_UNIT_US), c)
                            <==> || c == CandidateOf(words, Extended, 0, 12)
                                 || c == CandidateOf(words, ExtendedTruncated, 272 * (n - 1), 0)
  {
    hide IsBurst, Measured, Runs, Quantized, Reports, Expected, BurstSegments, ShortRuns, IntegrityMatches, FrameFromWords;
    BurstReports(bits, words, n);
    MeasuredRowQuantises(bits, durations);
    forall c ensures Reports(bits, c) <==> c == CandidateOf(words, ExtendedTruncated, 272 * (n - 1), 0) || IsCopy(c, words, 0, n) {
      ExtendedBurstExpected(0, words, n, c);
    }
    var first := CandidateOf(words, Extended, 0, 12);
    assert IsCopy(first, words, 0, n);
    forall c: Candidate
      ensures ReportsFirst(bits, c) <==> c == first || c == CandidateOf(words, ExtendedTruncated, 272 * (n - 1), 0)
    {
      assert IsCopy(c, words, 0, n) ==> KeyOf(c) == KeyOf(first);
    }
  }
}
