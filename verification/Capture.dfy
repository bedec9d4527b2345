/**
  The FIFO receive path of custom_components/proflame2/rf/capture.py: testing one window of a
  hundred symbols, scanning every alignment of a payload, and grouping the hits by frame.
 */
module Capture {
  import opened Wrappers
  import opened Packet
  import opened Waveform
  import opened Pulse
  import opened PulseScan

  const WINDOW_SYMBOLS := 100
  const WINDOW_BITS := 200
  const BODY_SYMBOLS := 91
  const MIN_GUARD_SYMBOLS := 4

  // ----- One window -----

  datatype Reason =
    | InvalidFrameLength
    | BadStartEndGuard
    | InvalidManchesterSymbols
    | BadParity
    | BadTrailingZeroGuard
    | InvalidCommandLayout

  datatype Failure = Failure(reason: Reason, stageScore: nat, extractedWords: nat)

  datatype Acceptance = Acceptance(frame: Frame, guardValid: bool)

  /** Length of the leading run of silence. */
  function LeadingSilence(symbols: seq<Symbol>): (n: nat)
    ensures n <= |symbols|
  {
    if symbols == [] || symbols[0] != Z then 0 else 1 + LeadingSilence(symbols[1..])
  }

  /** The window starts with the transmitter's symbols for seven words, and at least four silent symbols follow. */
  ghost predicate WindowCarries(symbols: seq<Symbol>, words: seq<bv8>) {
    && |symbols| == WINDOW_SYMBOLS && |words| == STANDARD_WORDS
    && symbols[..BODY_SYMBOLS] == WordsSymbols(words)
    && LeadingSilence(symbols[BODY_SYMBOLS..]) >= MIN_GUARD_SYMBOLS
  }

  /** One of the nine-bit words with its trailing bit. */
  datatype LooseWord = LooseWord(byte: bv8, trailing: bool)

  ghost predicate WordAt(symbols: seq<Symbol>, k: nat, w: LooseWord) {
    && SYMBOLS_PER_WORD * (k + 1) <= |symbols|
    && symbols[SYMBOLS_PER_WORD * k..SYMBOLS_PER_WORD * (k + 1)] == WordSymbols(w.byte, w.trailing)
  }

  /** The symbols start with these words, whatever their trailing bits. */
  ghost predicate LooseWords(symbols: seq<Symbol>, words: seq<LooseWord>) {
    forall k :: 0 <= k < |words| ==> WordAt(symbols, k, words[k])
  }

  lemma WordsSymbolsLast(words: seq<bv8>)
    requires words != []
    ensures WordsSymbols(words) == WordsSymbols(words[..|words| - 1]) + WordSymbols(words[|words| - 1], |words| == 1)
  {
    hide WordSymbols;
  }

  lemma LastWordIff(symbols: seq<Symbol>, words: seq<bv8>)
    requires words != [] && SYMBOLS_PER_WORD * |words| <= |symbols|
    ensures var n := |words| - 1;
            symbols[..SYMBOLS_PER_WORD * (n + 1)] == WordsSymbols(words)
            <==> && symbols[..SYMBOLS_PER_WORD * n] == WordsSymbols(words[..n])
                 && WordAt(symbols, n, LooseWord(words[n], n == 0))
  {
    hide WordSymbols, WordsSymbols;
    var n := |words| - 1;
    var middle, end := SYMBOLS_PER_WORD * n, SYMBOLS_PER_WORD * (n + 1);
    assert symbols[..end] == symbols[..middle] + symbols[middle..end];
    WordsSymbolsLast(words);
    SplitSame(symbols[..middle], symbols[middle..end], WordsSymbols(words[..n]), WordSymbols(words[n], n == 0));
  }

  lemma {:induction false} WordsSymbolsIff(symbols: seq<Symbol>, words: seq<bv8>)
    requires SYMBOLS_PER_WORD * |words| <= |symbols|
    ensures symbols[..SYMBOLS_PER_WORD * |words|] == WordsSymbols(words)
       <==> forall k :: 0 <= k < |words| ==> WordAt(symbols, k, LooseWord(words[k], k == 0))
  {
    hide WordAt;
    if words != [] {
      var n := |words| - 1;
      WordsSymbolsIff(symbols, words[..n]);
      LastWordIff(symbols, words);
      hide WordsSymbols;
      assert forall k :: 0 <= k < n ==> words[..n][k] == words[k];
    }
  }

  lemma WordAtIff(symbols: seq<Symbol>, k: nat, w: LooseWord)
    requires SYMBOLS_PER_WORD * (k + 1) <= |symbols|
    ensures var chunk := symbols[SYMBOLS_PER_WORD * k..SYMBOLS_PER_WORD * (k + 1)];
            WordAt(symbols, k, w) <==> IsWord(chunk, w.trailing) && DataByte(chunk[2..10]) == w.byte
  {
    hide WordSymbols, IsWord, DataByte;
    WordParse(symbols[SYMBOLS_PER_WORD * k..SYMBOLS_PER_WORD * (k + 1)], w.trailing);
  }

  ghost predicate Refused(r: Result<Acceptance, Failure>, symbols: seq<Symbol>) {
    && r.Err?
    && (r.error.stageScore >= 3 <==>
          |symbols| == WINDOW_SYMBOLS && exists ws :: |ws| == STANDARD_WORDS && LooseWords(symbols, ws))
    && (r.error.stageScore >= 3 ==>
          (r.error.stageScore == 4 <==> LeadingSilence(symbols[BODY_SYMBOLS..]) >= MIN_GUARD_SYMBOLS))
  }

  /** The checks on one chunk of a window: its word, or the reason it is refused. */
  method WordOfChunk(chunk: seq<Symbol>) returns (r: Result<LooseWord, Failure>)
    requires |chunk| == SYMBOLS_PER_WORD
    ensures r.Ok? ==> IsWord(chunk, r.value.trailing) && r.value.byte == DataByte(chunk[2..10])
    ensures r.Err? ==> !IsWord(chunk, true) && !IsWord(chunk, false)
    ensures r.Err? ==> r.error.stageScore < 3
    ensures r.Err? && r.error.reason == BadStartEndGuard <==> chunk[0] != S || chunk[1] != B1 || chunk[12] != B1
    ensures r.Err? && r.error.reason == InvalidManchesterSymbols <==>
              && chunk[0] == S && chunk[1] == B1 && chunk[12] == B1
              && exists i :: 2 <= i < 11 && chunk[i] != B0 && chunk[i] != B1
    ensures r.Err? ==> r.error.reason in {BadStartEndGuard, InvalidManchesterSymbols, BadParity}
    ensures r.Err? ==> r.error.stageScore == if r.error.reason == BadStartEndGuard then 1 else 2
  {
    hide DataByte, Ones;
    if chunk[0] != S || chunk[1] != B1 || chunk[12] != B1 {
      return Err(Failure(BadStartEndGuard, 1, 0));
    }
    var wordBits, parity := chunk[2..11], chunk[11];
    assert forall i :: 2 <= i < 11 ==> chunk[i] == wordBits[i - 2];
    assert forall i :: 0 <= i < 9 ==> wordBits[i] == chunk[i + 2];
    if exists i :: 0 <= i < 9 && wordBits[i] != B0 && wordBits[i] != B1 {
      return Err(Failure(InvalidManchesterSymbols, 2, 0));
    }
    if parity != B0 && parity != B1 {
      return Err(Failure(BadParity, 2, 0));
    }
    if parity != ParitySymbol(wordBits) {
      return Err(Failure(BadParity, 2, 1));
    }
    assert wordBits[..8] == chunk[2..10];
    return Ok(LooseWord(DataByte(wordBits[..8]), wordBits[8] == B1));
  }

  /** _sample_from_symbol_window: accepted exactly when the window carries a frame, and then it is that frame. */
  method SampleFromSymbolWindow(symbols: seq<Symbol>) returns (r: Result<Acceptance, Failure>)
    ensures r.Ok? <==> exists words :: WindowCarries(symbols, words)
    ensures r.Ok? ==> WindowCarries(symbols, r.value.frame.WireWords()) && r.value.frame == FrameFromWords(r.value.frame.WireWords())
    ensures r.Ok? ==> (r.value.guardValid <==> symbols[BODY_SYMBOLS..] == Silence(TRAILING_ZERO_SYMBOLS))
    ensures r.Err? ==> Refused(r, symbols)
  {
    hide FrameFromWords, Frame.WireWords, WordAt, IsWord, DataByte, WordsSymbols, LeadingSilence;
    if |symbols| != WINDOW_SYMBOLS {
      return Err(Failure(InvalidFrameLength, 0, 0));
    }
    var words: seq<LooseWord> := [];
    for index := 0 to STANDARD_WORDS
      invariant |words| == index && LooseWords(symbols, words)
    {
      var chunk := symbols[SYMBOLS_PER_WORD * index..SYMBOLS_PER_WORD * (index + 1)];
      var word := WordOfChunk(chunk);
      if word.Err? {
        NoWordNoWindow(symbols, index);
        return Err(word.error.(extractedWords := index + word.error.extractedWords));
      }
      WordAtIff(symbols, index, word.value);
      words := words + [word.value];
    }
    var trailer := symbols[BODY_SYMBOLS..];
    if trailer != Silence(TRAILING_ZERO_SYMBOLS) && LeadingSilence(trailer) < MIN_GUARD_SYMBOLS {
      return Err(Failure(BadTrailingZeroGuard, 3, STANDARD_WORDS));
    }
    SilentTrailer(TRAILING_ZERO_SYMBOLS);
    var bytes := seq(STANDARD_WORDS, i requires 0 <= i < STANDARD_WORDS => words[i].byte);
    if exists i :: 0 <= i < STANDARD_WORDS && words[i].trailing != (i == 0) {
      var i :| 0 <= i < STANDARD_WORDS && words[i].trailing != (i == 0);
      WrongLayout(symbols, words, i);
      return Err(Failure(InvalidCommandLayout, 4, STANDARD_WORDS));
    }
    forall k | 0 <= k < STANDARD_WORDS ensures WordAt(symbols, k, LooseWord(bytes[k], k == 0)) {
      assert words[k] == LooseWord(bytes[k], k == 0);
    }
    WordsSymbolsIff(symbols, bytes);
    assert WindowCarries(symbols, bytes);
    WordsSurviveFrame(bytes);
    return Ok(Acceptance(FrameFromWords(bytes), trailer == Silence(TRAILING_ZERO_SYMBOLS)));
  }

  lemma {:induction false} SilentTrailer(n: nat)
    ensures LeadingSilence(Silence(n)) == n
  {
    if n > 0 {
      assert Silence(n)[1..] == Silence(n - 1);
      SilentTrailer(n - 1);
    }
  }

  lemma NoWordNoWindow(symbols: seq<Symbol>, k: nat)
    requires |symbols| == WINDOW_SYMBOLS && k < STANDARD_WORDS
    requires var chunk := symbols[SYMBOLS_PER_WORD * k..SYMBOLS_PER_WORD * (k + 1)];
             !IsWord(chunk, true) && !IsWord(chunk, false)
    ensures forall ws :: |ws| == STANDARD_WORDS ==> !LooseWords(symbols, ws)
    ensures forall words :: !WindowCarries(symbols, words)
  {
    hide IsWord, DataByte, WordsSymbols, LeadingSilence, WordAt;
    forall ws | |ws| == STANDARD_WORDS && LooseWords(symbols, ws) ensures false {
      WordAtIff(symbols, k, ws[k]);
    }
    forall words | WindowCarries(symbols, words) ensures false {
      WordsSymbolsIff(symbols, words);
      WordAtIff(symbols, k, LooseWord(words[k], k == 0));
    }
  }

  lemma WrongLayout(symbols: seq<Symbol>, ws: seq<LooseWord>, k: nat)
    requires |symbols| == WINDOW_SYMBOLS && k < STANDARD_WORDS == |ws|
    requires LooseWords(symbols, ws) && ws[k].trailing != (k == 0)
    ensures forall words :: !WindowCarries(symbols, words)
  {
    hide DataByte, WordsSymbols, LeadingSilence, WordAt, Ones;
    forall words | WindowCarries(symbols, words) ensures false {
      WordsSymbolsIff(symbols, words);
      WordAtIff(symbols, k, ws[k]);
      WordAtIff(symbols, k, LooseWord(words[k], k == 0));
    }
  }

  // ----- Windows of a payload -----

  /** The window at absolute bit `p` is accepted, and it carries these seven words. */
  ghost predicate Accepts(bits: seq<bool>, p: nat, words: seq<bv8>) {
    && |words| == STANDARD_WORDS
    && p + WINDOW_BITS <= |bits|
    && Carries(bits, p, words)
    && ZeroRun(bits, p + 182) >= 2 * MIN_GUARD_SYMBOLS
  }

  lemma {:induction false} SilenceIsZeros(bits: seq<bool>, q: nat, n: nat, k: nat)
    requires q + 2 * n <= |bits| && k <= n
    ensures LeadingSilence(SymbolsAt(bits, q, n)) >= k <==> forall i :: q <= i < q + 2 * k ==> !bits[i]
    decreases k
  {
    var symbols := SymbolsAt(bits, q, n);
    if k > 0 {
      assert symbols[1..] == SymbolsAt(bits, q + 2, n - 1);
      SilenceIsZeros(bits, q + 2, n - 1, k - 1);
      assert symbols[0] == Z <==> !bits[q] && !bits[q + 1];
    }
  }

  lemma WindowGuard(bits: seq<bool>, q: nat)
    requires q + 18 <= |bits|
    ensures LeadingSilence(SymbolsAt(bits, q, 9)) >= MIN_GUARD_SYMBOLS <==> ZeroRun(bits, q) >= 2 * MIN_GUARD_SYMBOLS
  {
    hide PairSymbol, LeadingSilence;
    SilenceIsZeros(bits, q, 9, MIN_GUARD_SYMBOLS);
    ZeroRunLow(bits, q);
    if forall i :: q <= i < q + 8 ==> !bits[i] {
      ZeroRunIs(bits, q, 8);
    }
  }

  /** Testing a window of symbols is testing the bits under it. */
  lemma WindowIff(bits: seq<bool>, p: nat, words: seq<bv8>)
    requires p + WINDOW_BITS <= |bits|
    ensures WindowCarries(SymbolsAt(bits, p, WINDOW_SYMBOLS), words) <==> Accepts(bits, p, words)
  {
    hide PairSymbol, LeadingSilence, WordsSymbols, ToBits, ZeroRun;
    var symbols := SymbolsAt(bits, p, WINDOW_SYMBOLS);
    assert symbols[..BODY_SYMBOLS] == SymbolsAt(bits, p, BODY_SYMBOLS);
    assert symbols[BODY_SYMBOLS..] == SymbolsAt(bits, p + 182, 9);
    WindowGuard(bits, p + 182);
    if |words| == STANDARD_WORDS {
      BitsSymbolsAt(bits, p, WordsSymbols(words));
    }
  }

  /** Two accepted windows never overlap: their offsets are at least 190 bits apart, in any payload. */
  lemma AcceptedWindowsAreDisjoint(bits: seq<bool>, p: nat, v: seq<bv8>, q: nat, w: seq<bv8>)
    requires Accepts(bits, p, v) && Accepts(bits, q, w) && p < q
    ensures q >= p + 190
  {
    hide Carries, ZeroRun;
    StartOfRun(bits, q, w);
    if q < p + 182 {
      FrameOnlyAtRunStart(bits, p, v, q);
    }
    ZeroRunLow(bits, p + 182);
  }

  lemma AcceptedUnique(bits: seq<bool>, p: nat, v: seq<bv8>, w: seq<bv8>)
    requires Accepts(bits, p, v) && Accepts(bits, p, w)
    ensures v == w
  {
    hide Carries, ZeroRun;
    CarriesUnique(bits, p, v, w);
    assert w[..|w|] == w;
  }

  // ----- Hits in scan order -----

  datatype Hit = Hit(bitOffset: nat, symbolOffset: nat)

  function Absolute(h: Hit): nat { h.bitOffset + 2 * h.symbolOffset }

  /** How many windows alignment `b` has. */
  function WindowCount(bits: seq<bool>, b: nat): nat {
    if b + WINDOW_BITS <= |bits| then (|bits| - b - WINDOW_BITS) / 2 + 1 else 0
  }

  /** The hits of a frame among the first `s` windows of alignment `b`, in order. */
  ghost function AlignmentHits(bits: seq<bool>, words: seq<bv8>, b: nat, s: nat): seq<Hit> {
    if s == 0 then []
    else AlignmentHits(bits, words, b, s - 1) + if Accepts(bits, b + 2 * (s - 1), words) then [Hit(b, s - 1)] else []
  }

  /** The hits of a frame in the first `b` alignments, in scan order. */
  ghost function HitsBelow(bits: seq<bool>, words: seq<bv8>, b: nat): seq<Hit> {
    if b == 0 then []
    else HitsBelow(bits, words, b - 1) + AlignmentHits(bits, words, b - 1, WindowCount(bits, b - 1))
  }

  /** All the hits of a frame: eight alignments. */
  ghost function AllHits(bits: seq<bool>, words: seq<bv8>): seq<Hit> { HitsBelow(bits, words, 8) }

  lemma {:induction false} AlignmentHitsAre(bits: seq<bool>, words: seq<bv8>, b: nat, s: nat, h: Hit)
    ensures h in AlignmentHits(bits, words, b, s)
       <==> h.bitOffset == b && h.symbolOffset < s && Accepts(bits, Absolute(h), words)
  {
    hide Accepts;
    if s > 0 {
      AlignmentHitsAre(bits, words, b, s - 1, h);
    }
  }

  lemma {:induction false} HitsBelowAre(bits: seq<bool>, words: seq<bv8>, b: nat, h: Hit)
    ensures h in HitsBelow(bits, words, b) <==> h.bitOffset < b && Accepts(bits, Absolute(h), words)
  {
    hide AlignmentHits;
    if b > 0 {
      HitsBelowAre(bits, words, b - 1, h);
      AlignmentHitsAre(bits, words, b - 1, WindowCount(bits, b - 1), h);
      hide Carries, ZeroRun;
    }
  }

  /** Every accepted window is found at alignment 0 or 1 already: alignments 2 to 7 add no frame. */
  lemma TwoAlignmentsSuffice(bits: seq<bool>, words: seq<bv8>, p: nat)
    requires Accepts(bits, p, words)
    ensures Hit(p % 2, p / 2) in HitsBelow(bits, words, 2)
    ensures AllHits(bits, words) != []
  {
    hide Accepts, HitsBelow;
    var h := Hit(p % 2, p / 2);
    assert Absolute(h) == p;
    HitsBelowAre(bits, words, 2, h);
    HitsBelowAre(bits, words, 8, h);
  }

  // ----- How often one physical frame is hit -----

  /** The number of alignments under which the window at bit `p` is tested. */
  function Multiplicity(p: nat): nat { (if p / 2 < 3 then p / 2 else 3) + 1 }

  /** Accepted windows below bit `limit` that alignment `b` meets. */
  ghost function MetBy(bits: seq<bool>, words: seq<bv8>, b: nat, limit: nat): nat {
    if limit == 0 then 0
    else MetBy(bits, words, b, limit - 1)
         + if b <= limit - 1 && (limit - 1) % 2 == b % 2 && Accepts(bits, limit - 1, words) then 1 else 0
  }

  /** Accepted windows below bit `limit`, each counted with its multiplicity. */
  ghost function WeightedCount(bits: seq<bool>, words: seq<bv8>, limit: nat): nat {
    if limit == 0 then 0
    else WeightedCount(bits, words, limit - 1) + if Accepts(bits, limit - 1, words) then Multiplicity(limit - 1) else 0
  }

  lemma {:induction false} AlignmentHitsCount(bits: seq<bool>, words: seq<bv8>, b: nat, s: nat)
    ensures |AlignmentHits(bits, words, b, s)| == MetBy(bits, words, b, b + 2 * s)
    decreases s
  {
    hide Accepts;
    if s > 0 {
      AlignmentHitsCount(bits, words, b, s - 1);
      assert b + 2 * s - 1 - 1 == b + 2 * (s - 1);
    } else {
      MetByNothing(bits, words, b, b);
    }
  }

  lemma {:induction false} MetByNothing(bits: seq<bool>, words: seq<bv8>, b: nat, limit: nat)
    requires limit <= b
    ensures MetBy(bits, words, b, limit) == 0
  {
    hide Accepts;
    if limit > 0 {
      MetByNothing(bits, words, b, limit - 1);
    }
  }

  /** Beyond the last window nothing more is met. */
  lemma {:induction false} MetByTail(bits: seq<bool>, words: seq<bv8>, b: nat, from: nat, limit: nat)
    requires from <= limit && |bits| < from + WINDOW_BITS
    ensures MetBy(bits, words, b, limit) == MetBy(bits, words, b, from)
    decreases limit
  {
    hide Carries, ZeroRun;
    if limit > from {
      MetByTail(bits, words, b, from, limit - 1);
    }
  }

  lemma AlignmentTotal(bits: seq<bool>, words: seq<bv8>, b: nat)
    requires b < 8
    ensures |AlignmentHits(bits, words, b, WindowCount(bits, b))| == MetBy(bits, words, b, |bits| + 8)
  {
    hide AlignmentHits, MetBy, Accepts;
    var s := WindowCount(bits, b);
    AlignmentHitsCount(bits, words, b, s);
    if b + WINDOW_BITS <= |bits| {
      var last := b + 2 * s;
      assert last + WINDOW_BITS > |bits|;
      MetByTail(bits, words, b, last, |bits| + 8);
    } else {
      MetByTail(bits, words, b, b, |bits| + 8);
    }
  }

  lemma {:induction false} MetByAll(bits: seq<bool>, words: seq<bv8>, limit: nat)
    ensures MetBy(bits, words, 0, limit) + MetBy(bits, words, 1, limit) + MetBy(bits, words, 2, limit) + MetBy(bits, words, 3, limit)
          + MetBy(bits, words, 4, limit) + MetBy(bits, words, 5, limit) + MetBy(bits, words, 6, limit) + MetBy(bits, words, 7, limit)
         == WeightedCount(bits, words, limit)
  {
    hide Accepts;
    if limit > 0 {
      MetByAll(bits, words, limit - 1);
    }
  }

  lemma HitsBelowLength(bits: seq<bool>, words: seq<bv8>, b: nat)
    requires 0 < b <= 8
    ensures |HitsBelow(bits, words, b)| == |HitsBelow(bits, words, b - 1)| + MetBy(bits, words, b - 1, |bits| + 8)
  {
    AlignmentTotal(bits, words, b - 1);
  }

  /** The length of a frame's hit list: each physical window at bit p counts min(p/2, 3) + 1 times. */
  lemma RepeatCountLaw(bits: seq<bool>, words: seq<bv8>)
    ensures |AllHits(bits, words)| == WeightedCount(bits, words, |bits| + 8)
  {
    hide MetBy, WeightedCount, AlignmentHits;
    HitsBelowLength(bits, words, 1);
    HitsBelowLength(bits, words, 2);
    HitsBelowLength(bits, words, 3);
    HitsBelowLength(bits, words, 4);
    HitsBelowLength(bits, words, 5);
    HitsBelowLength(bits, words, 6);
    HitsBelowLength(bits, words, 7);
    HitsBelowLength(bits, words, 8);
    MetByAll(bits, words, |bits| + 8);
    hide HitsBelow;
    NoAlignments(bits, words);
  }

  lemma NoAlignments(bits: seq<bool>, words: seq<bv8>)
    ensures HitsBelow(bits, words, 0) == []
  {}
}
