/**
  The firmware's own FIFO decoder, esphome/components/proflame2_tembed/proflame2_decoder.cpp: it tests the same windows as the
  integration's scan, keeps the frames that its profile owns in eight slots, and reports the one that was met most often.
 */
module FirmwareDecoder {
  import opened Wrappers
  import opened Bytes
  import opened Packet
  import opened Ecc
  import opened Waveform
  import opened Pulse
  import opened PulseScan
  import opened StateCodec
  import opened Capture
  import opened CaptureScan
  import opened EndToEnd

  const MAX_OWNER_CANDIDATES := 8
  const UINT8_MAX := 255

  // ----- One window -----

  /** bit_at */
  function BitAt(bits: seq<bool>, i: nat): bool { i < |bits| && bits[i] }

  function SymbolAt(bits: seq<bool>, i: nat): Symbol { PairSymbol(BitAt(bits, i), BitAt(bits, i + 1)) }

  function Highs(data: seq<Symbol>): (bits: seq<bool>)
    ensures |bits| == |data| && forall i :: 0 <= i < |bits| ==> bits[i] == (data[i] == B1)
  {
    seq(|data|, i requires 0 <= i < |data| => data[i] == B1)
  }

  lemma HighsMore(data: seq<Symbol>, n: nat)
    requires n < |data|
    ensures Number(Highs(data[..n + 1])) == 2 * Number(Highs(data[..n])) + if data[n] == B1 then 1 else 0
    ensures Ones(data[..n + 1]) == Ones(data[..n]) + if data[n] == B1 then 1 else 0
  {
    assert data[..n + 1][..n] == data[..n];
    assert Highs(data[..n + 1])[..n] == Highs(data[..n]);
  }

  /** The upper eight bits of a nine-bit word are its byte, the lowest its trailing bit. */
  lemma NineBits(data: seq<Symbol>)
    requires |data| == 9
    ensures Number(Highs(data)) / 2 < 0x100 && ByteOf(Number(Highs(data)) / 2) == DataByte(data[..8])
    ensures Number(Highs(data)) % 2 == 1 <==> data[8] == B1
  {
    hide BitsByte, Digits;
    assert data[..9] == data;
    HighsMore(data, 8);
    var byte := Highs(data[..8]);
    DigitsOfNumber(byte);
    EightBits();
    assert byte == seq(8, i requires 0 <= i < 8 => data[..8][i] == B1);
  }

  predicate IsData(data: seq<Symbol>) { forall k :: 0 <= k < |data| ==> data[k] == B0 || data[k] == B1 }

  lemma DataMore(data: seq<Symbol>, n: nat)
    requires n < |data|
    ensures IsData(data) ==> data[n] == B0 || data[n] == B1
    ensures IsData(data[..n]) && (data[n] == B0 || data[n] == B1) ==> IsData(data[..n + 1])
  {}

  lemma SymbolIs(bits: seq<bool>, start: nat, count: nat, k: nat)
    requires start + 2 * count <= |bits| && k < count
    ensures SymbolAt(bits, start + 2 * k) == SymbolsAt(bits, start, count)[k]
  {
    hide PairSymbol;
  }

  lemma DataOfWord(bits: seq<bool>, start: nat)
    requires start + WORD_BITS <= |bits|
    ensures SymbolsAt(bits, start + 4, 9) == SymbolsAt(bits, start, SYMBOLS_PER_WORD)[2..11]
  {
    hide PairSymbol;
  }

  /** The nine data symbols of a word, shifted into an integer while the ones are counted. */
  method ShiftData(bits: seq<bool>, start: nat) returns (r: Option<(nat, nat)>)
    requires start + 18 <= |bits|
    ensures r.Some? <==> IsData(SymbolsAt(bits, start, 9))
    ensures r.Some? ==> r.value.0 == Number(Highs(SymbolsAt(bits, start, 9))) && r.value.1 == Ones(SymbolsAt(bits, start, 9))
  {
    hide SymbolAt, SymbolsAt, Number, Ones, Highs, IsData;
    ghost var data := SymbolsAt(bits, start, 9);
    var wordValue, oneCount: nat := 0, 0;
    NothingShifted();
    for bit := 0 to 9
      invariant wordValue == Number(Highs(data[..bit])) && oneCount == Ones(data[..bit])
      invariant IsData(data[..bit])
    {
      var symbol := SymbolAt(bits, start + 2 * bit);
      SymbolIs(bits, start, 9, bit);
      DataMore(data, bit);
      if symbol != B0 && symbol != B1 {
        return None;
      }
      HighsMore(data, bit);
      wordValue := 2 * wordValue + if symbol == B1 then 1 else 0;
      oneCount := oneCount + if symbol == B1 then 1 else 0;
    }
    assert data[..9] == data;
    return Some((wordValue, oneCount));
  }

  lemma WordChecks(chunk: seq<Symbol>)
    requires |chunk| == SYMBOLS_PER_WORD
    ensures IsWord(chunk, true) || IsWord(chunk, false) <==>
            && chunk[0] == S && chunk[1] == B1 && chunk[12] == B1 && IsData(chunk[2..11])
            && (chunk[11] == B0 || chunk[11] == B1) && (chunk[11] == B1 <==> Ones(chunk[2..11]) % 2 == 1)
    ensures IsWord(chunk, true) ==> chunk[10] == B1
    ensures IsWord(chunk, false) ==> chunk[10] != B1
  {
    hide Ones;
    var data := chunk[2..11];
    assert forall i :: 2 <= i < 11 ==> chunk[i] == data[i - 2];
    assert chunk[10] == data[8];
  }

  /** One word of a window: guards, data and parity. */
  method ParseWord(bits: seq<bool>, start: nat) returns (r: Option<LooseWord>)
    requires start + WORD_BITS <= |bits|
    ensures var chunk := SymbolsAt(bits, start, SYMBOLS_PER_WORD);
            && (r.Some? ==> IsWord(chunk, r.value.trailing) && r.value.byte == DataByte(chunk[2..10]))
            && (r.None? ==> !IsWord(chunk, true) && !IsWord(chunk, false))
  {
    hide SymbolAt, SymbolsAt, DataByte, Number, Ones, ByteOf, Highs, IsWord, IsData;
    ghost var chunk := SymbolsAt(bits, start, SYMBOLS_PER_WORD);
    WordChecks(chunk);
    SymbolIs(bits, start, SYMBOLS_PER_WORD, 0);
    SymbolIs(bits, start, SYMBOLS_PER_WORD, 1);
    SymbolIs(bits, start, SYMBOLS_PER_WORD, 11);
    SymbolIs(bits, start, SYMBOLS_PER_WORD, 12);
    if SymbolAt(bits, start) != S || SymbolAt(bits, start + 2) != B1 || SymbolAt(bits, start + 24) != B1 {
      return None;
    }
    DataOfWord(bits, start);
    var shifted := ShiftData(bits, start + 4);
    if shifted.None? {
      return None;
    }
    var parity := SymbolAt(bits, start + 22);
    if parity != B0 && parity != B1 {
      return None;
    }
    if (if parity == B1 then 1 else 0) != shifted.value.1 % 2 {
      return None;
    }
    NineBits(chunk[2..11]);
    assert chunk[2..11][..8] == chunk[2..10];
    return Some(LooseWord(ByteOf(shifted.value.0 / 2), shifted.value.0 % 2 == 1));
  }

  lemma NothingShifted()
    ensures forall data: seq<Symbol> :: Number(Highs(data[..0])) == 0 && Ones(data[..0]) == 0 && IsData(data[..0])
  {}

  lemma {:induction false} LeadingSilenceIs(symbols: seq<Symbol>, n: nat)
    requires n <= |symbols| && (forall i :: 0 <= i < n ==> symbols[i] == Z) && (n == |symbols| || symbols[n] != Z)
    ensures LeadingSilence(symbols) == n
  {
    if n > 0 {
      LeadingSilenceIs(symbols[1..], n - 1);
    }
  }

  /** The silent symbols after the last word, up to nine. */
  method CountGuard(bits: seq<bool>, start: nat) returns (count: nat)
    requires start + 18 <= |bits|
    ensures count == LeadingSilence(SymbolsAt(bits, start, 9))
  {
    hide PairSymbol, LeadingSilence;
    count := 0;
    while count < 9
      invariant count <= 9 && forall i :: 0 <= i < count ==> SymbolsAt(bits, start, 9)[i] == Z
    {
      assert SymbolAt(bits, start + 2 * count) == SymbolsAt(bits, start, 9)[count];
      if SymbolAt(bits, start + 2 * count) != Z {
        break;
      }
      count := count + 1;
    }
    LeadingSilenceIs(SymbolsAt(bits, start, 9), count);
  }

  lemma WordOfWindow(bits: seq<bool>, p: nat, index: nat)
    requires p + WINDOW_BITS <= |bits| && index < STANDARD_WORDS
    ensures SymbolsAt(bits, p, WINDOW_SYMBOLS)[SYMBOLS_PER_WORD * index..SYMBOLS_PER_WORD * (index + 1)]
         == SymbolsAt(bits, p + WORD_BITS * index, SYMBOLS_PER_WORD)
  {
    hide PairSymbol;
    var slice := SymbolsAt(bits, p, WINDOW_SYMBOLS)[SYMBOLS_PER_WORD * index..SYMBOLS_PER_WORD * (index + 1)];
    forall i | 0 <= i < SYMBOLS_PER_WORD ensures slice[i] == SymbolsAt(bits, p + WORD_BITS * index, SYMBOLS_PER_WORD)[i] {
      assert slice[i] == SymbolsAt(bits, p, WINDOW_SYMBOLS)[SYMBOLS_PER_WORD * index + i];
    }
  }

  /** parse_symbol_window: it accepts exactly the windows that the integration's scan accepts, with the same words. */
  method ParseSymbolWindow(bits: seq<bool>, p: nat) returns (r: Option<seq<bv8>>)
    requires p + WINDOW_BITS <= |bits|
    ensures r.Some? ==> Accepts(bits, p, r.value)
    ensures r.None? ==> NoneAccepted(bits, p)
  {
    hide PairSymbol, WordAt, IsWord, DataByte, WordsSymbols, LeadingSilence, Accepts, NoneAccepted;
    ghost var symbols := SymbolsAt(bits, p, WINDOW_SYMBOLS);
    var words: seq<LooseWord> := [];
    for index := 0 to STANDARD_WORDS
      invariant |words| == index && LooseWords(symbols, words)
    {
      var word := ParseWord(bits, p + WORD_BITS * index);
      WordOfWindow(bits, p, index);
      if word.None? {
        NoWordNoWindow(symbols, index);
        Refuse(bits, p);
        return None;
      }
      WordAtIff(symbols, index, word.value);
      words := words + [word.value];
    }
    var guard := CountGuard(bits, p + 182);
    assert symbols[BODY_SYMBOLS..] == SymbolsAt(bits, p + 182, 9);
    if guard < 4 {
      Refuse(bits, p);
      return None;
    }
    if exists i :: 0 <= i < STANDARD_WORDS && words[i].trailing != (i == 0) {
      var i :| 0 <= i < STANDARD_WORDS && words[i].trailing != (i == 0);
      WrongLayout(symbols, words, i);
      Refuse(bits, p);
      return None;
    }
    var bytes := seq(STANDARD_WORDS, i requires 0 <= i < STANDARD_WORDS => words[i].byte);
    forall k | 0 <= k < STANDARD_WORDS ensures WordAt(symbols, k, LooseWord(bytes[k], k == 0)) {
      assert words[k] == LooseWord(bytes[k], k == 0);
    }
    WordsSymbolsIff(symbols, bytes);
    WindowIff(bits, p, bytes);
    return Some(bytes);
  }

  lemma Refuse(bits: seq<bool>, p: nat)
    requires p + WINDOW_BITS <= |bits|
    requires forall words :: !WindowCarries(SymbolsAt(bits, p, WINDOW_SYMBOLS), words)
    ensures NoneAccepted(bits, p)
  {
    hide Accepts, WindowCarries;
    forall words ensures !Accepts(bits, p, words) { WindowIff(bits, p, words); }
  }

  // ----- The frames a profile owns -----

  datatype DecodeProfile = DecodeProfile(enabled: bool, serialId: nat, ecc: EccProfile)

  predicate IsConfigured(profile: DecodeProfile) { profile.enabled && profile.serialId != 0 }

  predicate SerialMatches(words: seq<bv8>, profile: DecodeProfile) {
    |words| == STANDARD_WORDS && Serial(words[0], words[1], words[2]) == profile.serialId
  }

  predicate EccMatches(words: seq<bv8>, profile: DecodeProfile) {
    && |words| == STANDARD_WORDS
    && words[5] == BuildErrByte(words[3], profile.ecc.c1, profile.ecc.d1)
    && words[6] == BuildErrByte(words[4], profile.ecc.c2, profile.ecc.d2)
  }

  /** observed_state_valid */
  predicate ObservedStateValid(cmd1: bv8, cmd2: bv8) {
    var power, thermostat := cmd1 & 0x01 != 0, cmd1 & 0x02 != 0;
    var light, flame, fan := (cmd1 >> 4) & 0x07, cmd2 & 0x07, (cmd2 >> 4) & 0x07;
    if light > 7 || fan > 6 then false
    else if !power then flame <= 6
    else if thermostat then flame <= 6
    else flame >= 1 && flame <= 6
  }

  predicate StateValid(words: seq<bv8>) { |words| == STANDARD_WORDS && ObservedStateValid(words[3], words[4]) }

  predicate Owned(words: seq<bv8>, profile: DecodeProfile) {
    SerialMatches(words, profile) && EccMatches(words, profile) && StateValid(words)
  }

  lemma ThreeBitValue(b: bv8)
    ensures ValueOf(b & 0x07) <= 7
    ensures b & 0x07 <= 6 <==> ValueOf(b & 0x07) <= 6
    ensures b & 0x07 >= 1 <==> ValueOf(b & 0x07) >= 1
  {
    hide ValueOf;
    KnownFrames.ValueIsSum(b & 0x07);
    LowThree(b);
  }

  lemma LowThree(b: bv8)
    ensures var x := b & 0x07;
            && x & 0x80 == 0 && x & 0x40 == 0 && x & 0x20 == 0 && x & 0x10 == 0 && x & 0x08 == 0
            && (x <= 6 <==> !(x & 0x04 != 0 && x & 0x02 != 0 && x & 0x01 != 0))
            && (x >= 1 <==> x & 0x04 != 0 || x & 0x02 != 0 || x & 0x01 != 0)
  {}

  /** The firmware's state rule is the integration's observation rule. */
  lemma StateRuleAgrees(cmd1: bv8, cmd2: bv8)
    ensures ObservedStateValid(cmd1, cmd2) <==> ObservedError(StateOfCommands(cmd1, cmd2, false), true).None?
  {
    hide ValueOf;
    ThreeBitValue(cmd1 >> 4);
    ThreeBitValue(cmd2);
    ThreeBitValue(cmd2 >> 4);
    SmallLight(cmd1);
  }

  lemma SmallLight(b: bv8)
    ensures (b >> 4) & 0x07 <= 7
  {}

  /** So a profile owns exactly the frames that the integration decodes with it. */
  lemma OwnedIffDecodes(words: seq<bv8>, profile: DecodeProfile)
    requires |words| == STANDARD_WORDS
    ensures Owned(words, profile) <==> DecodeState(FrameFromWords(words), Legacy(profile.serialId, profile.ecc)).Ok?
  {
    hide ValueOf, StateOfCommands, BuildErrByte, ObservedStateValid, LowByte, ObservedError;
    var frame := FrameFromWords(words);
    StateRuleAgrees(words[3], words[4]);
    LowByteOfByte(words[3]);
    LowByteOfByte(words[4]);
    LowByteOfByte(words[5]);
    LowByteOfByte(words[6]);
    ByteField(frame.err1, BuildErrByte(words[3], profile.ecc.c1, profile.ecc.d1));
    ByteField(frame.err2, BuildErrByte(words[4], profile.ecc.c2, profile.ecc.d2));
  }

  // ----- What the scan has met -----

  /** The hits of a frame in `b` whole alignments and `s` windows of the next one. */
  ghost function Hits(bits: seq<bool>, words: seq<bv8>, b: nat, s: nat): seq<Hit> {
    HitsBelow(bits, words, b) + AlignmentHits(bits, words, b, s)
  }

  lemma HitsStep(bits: seq<bool>, b: nat, s: nat, found: Option<seq<bv8>>)
    requires found.None? ==> NoneAccepted(bits, b + 2 * s)
    requires found.Some? ==> Accepts(bits, b + 2 * s, found.value)
    ensures forall v ::
              Hits(bits, v, b, s + 1) == Hits(bits, v, b, s) + if found == Some(v) then [Hit(b, s)] else []
  {
    hide Accepts, HitsBelow;
    forall v ensures Hits(bits, v, b, s + 1) == Hits(bits, v, b, s) + if found == Some(v) then [Hit(b, s)] else [] {
      if found.Some? && Accepts(bits, b + 2 * s, v) {
        AcceptedUnique(bits, b + 2 * s, v, found.value);
      }
    }
  }

  lemma HitsNextAlignment(bits: seq<bool>, b: nat)
    ensures forall v :: Hits(bits, v, b + 1, 0) == Hits(bits, v, b, WindowCount(bits, b))
  {
    hide AlignmentHits;
    forall v ensures Hits(bits, v, b + 1, 0) == Hits(bits, v, b, WindowCount(bits, b)) {
      NoWindows(bits, v, b + 1);
    }
  }

  lemma HitsAtStart(bits: seq<bool>)
    ensures forall v :: Hits(bits, v, 0, 0) == []
  {}

  lemma HitsAtEnd(bits: seq<bool>)
    ensures forall v :: Hits(bits, v, 8, 0) == AllHits(bits, v) && (Present(bits, v) <==> AllHits(bits, v) != [])
  {
    hide HitsBelow, AlignmentHits, Present;
    forall v ensures Hits(bits, v, 8, 0) == AllHits(bits, v) && (Present(bits, v) <==> AllHits(bits, v) != []) {
      NoWindows(bits, v, 8);
      PresentIff(bits, v);
    }
  }

  // ----- The slots -----

  datatype Slot = Slot(words: seq<bv8>, at: Hit, repeatCount: nat)

  function Saturated(n: nat): nat { if n < UINT8_MAX then n else UINT8_MAX }

  predicate Before(h: Hit, k: Hit) { h.bitOffset < k.bitOffset || (h.bitOffset == k.bitOffset && h.symbolOffset < k.symbolOffset) }

  ghost predicate InSlot(slots: seq<Slot>, words: seq<bv8>) { exists k :: 0 <= k < |slots| && slots[k].words == words }

  /** A slot holds an owned frame that was met, the place of its first hit and the saturated number of its hits. */
  ghost predicate SlotHolds(bits: seq<bool>, profile: DecodeProfile, slot: Slot, b: nat, s: nat) {
    var hits := Hits(bits, slot.words, b, s);
    Owned(slot.words, profile) && hits != [] && slot.at == hits[0] && slot.repeatCount == Saturated(|hits|)
  }

  /** The slots are filled in the order of first hits. */
  predicate InOrder(slots: seq<Slot>) {
    && |slots| <= MAX_OWNER_CANDIDATES
    && forall i, j :: 0 <= i < j < |slots| ==> slots[i].words != slots[j].words && Before(slots[i].at, slots[j].at)
  }

  /** No owned frame is missing. */
  ghost predicate NoneMissing(bits: seq<bool>, profile: DecodeProfile, slots: seq<Slot>, b: nat, s: nat) {
    forall v :: Hits(bits, v, b, s) != [] && Owned(v, profile) ==> InSlot(slots, v)
  }

  ghost predicate SlotsHold(bits: seq<bool>, profile: DecodeProfile, slots: seq<Slot>, b: nat, s: nat) {
    && InOrder(slots)
    && (forall k :: 0 <= k < |slots| ==> SlotHolds(bits, profile, slots[k], b, s) && Before(slots[k].at, Hit(b, s)))
    && (|slots| < MAX_OWNER_CANDIDATES ==> NoneMissing(bits, profile, slots, b, s))
  }

  lemma SlotsSkip(bits: seq<bool>, profile: DecodeProfile, slots: seq<Slot>, b: nat, s: nat, c: nat, t: nat)
    requires SlotsHold(bits, profile, slots, b, s) && Before(Hit(b, s), Hit(c, t))
    requires forall v :: Owned(v, profile) ==> Hits(bits, v, c, t) == Hits(bits, v, b, s)
    ensures SlotsHold(bits, profile, slots, c, t)
  {
    hide Hits, Owned, InOrder, InSlot;
  }

  /** The window at (b, s) is a hit of these words and of no others. */
  ghost predicate HitHere(bits: seq<bool>, words: seq<bv8>, b: nat, s: nat) {
    forall v :: Hits(bits, v, b, s + 1) == Hits(bits, v, b, s) + if words == v then [Hit(b, s)] else []
  }

  lemma HitOf(bits: seq<bool>, words: seq<bv8>, b: nat, s: nat, v: seq<bv8>)
    requires HitHere(bits, words, b, s)
    ensures Hits(bits, v, b, s + 1) == Hits(bits, v, b, s) + if words == v then [Hit(b, s)] else []
  {
    hide Hits;
    assert Hits(bits, v, b, s) == Hits(bits, v, b, s);
  }

  lemma SlotKept(bits: seq<bool>, profile: DecodeProfile, slot: Slot, b: nat, s: nat, words: seq<bv8>)
    requires SlotHolds(bits, profile, slot, b, s) && HitHere(bits, words, b, s) && slot.words != words
    ensures SlotHolds(bits, profile, slot, b, s + 1)
  {
    hide Hits, Owned, HitHere;
    HitOf(bits, words, b, s, slot.words);
  }

  lemma SlotCounted(bits: seq<bool>, profile: DecodeProfile, slot: Slot, b: nat, s: nat)
    requires SlotHolds(bits, profile, slot, b, s) && HitHere(bits, slot.words, b, s)
    ensures SlotHolds(bits, profile, slot.(repeatCount := Saturated(slot.repeatCount + 1)), b, s + 1)
  {
    hide Hits, Owned, HitHere;
    HitOf(bits, slot.words, b, s, slot.words);
  }

  lemma NoneMissed(bits: seq<bool>, profile: DecodeProfile, slots: seq<Slot>, filled: seq<Slot>, b: nat, s: nat, words: seq<bv8>)
    requires NoneMissing(bits, profile, slots, b, s) && HitHere(bits, words, b, s) && InSlot(filled, words)
    requires |slots| <= |filled| && forall k :: 0 <= k < |slots| ==> filled[k].words == slots[k].words
    ensures NoneMissing(bits, profile, filled, b, s + 1)
  {
    hide Hits, Owned, HitHere;
    forall v | Hits(bits, v, b, s + 1) != [] && Owned(v, profile) ensures InSlot(filled, v) {
      HitOf(bits, words, b, s, v);
      if v != words {
        var j :| 0 <= j < |slots| && slots[j].words == v;
        assert filled[j].words == v;
      }
    }
  }

  lemma CountedHold(bits: seq<bool>, profile: DecodeProfile, slots: seq<Slot>, k: nat, b: nat, s: nat)
    requires SlotsHold(bits, profile, slots, b, s) && k < |slots| && HitHere(bits, slots[k].words, b, s)
    ensures SlotsHold(bits, profile, slots[k := slots[k].(repeatCount := Saturated(slots[k].repeatCount + 1))], b, s + 1)
  {
    hide SlotHolds, Saturated, NoneMissing, HitHere;
    var filled := slots[k := slots[k].(repeatCount := Saturated(slots[k].repeatCount + 1))];
    assert filled[k].words == slots[k].words;
    forall j | 0 <= j < |slots| ensures SlotHolds(bits, profile, filled[j], b, s + 1) {
      if j == k {
        SlotCounted(bits, profile, slots[k], b, s);
      } else {
        SlotKept(bits, profile, slots[j], b, s, slots[k].words);
      }
    }
    if |slots| < MAX_OWNER_CANDIDATES {
      NoneMissed(bits, profile, slots, filled, b, s, slots[k].words);
    }
  }

  lemma OthersHold(bits: seq<bool>, profile: DecodeProfile, slots: seq<Slot>, b: nat, s: nat, words: seq<bv8>)
    requires SlotsHold(bits, profile, slots, b, s) && HitHere(bits, words, b, s) && !InSlot(slots, words)
    ensures forall k :: 0 <= k < |slots| ==> SlotHolds(bits, profile, slots[k], b, s + 1) && Before(slots[k].at, Hit(b, s))
  {
    hide SlotHolds, NoneMissing, HitHere;
    forall k | 0 <= k < |slots| ensures SlotHolds(bits, profile, slots[k], b, s + 1) {
      SlotKept(bits, profile, slots[k], b, s, words);
    }
  }

  lemma AddedHold(bits: seq<bool>, profile: DecodeProfile, slots: seq<Slot>, b: nat, s: nat, words: seq<bv8>)
    requires SlotsHold(bits, profile, slots, b, s) && |slots| < MAX_OWNER_CANDIDATES
    requires HitHere(bits, words, b, s) && Owned(words, profile) && !InSlot(slots, words)
    ensures SlotsHold(bits, profile, slots + [Slot(words, Hit(b, s), 1)], b, s + 1)
  {
    hide Hits, Owned, HitHere;
    var filled := slots + [Slot(words, Hit(b, s), 1)];
    OthersHold(bits, profile, slots, b, s, words);
    HitOf(bits, words, b, s, words);
    assert filled[|slots|].words == words;
    hide SlotHolds, NoneMissing;
    NoneMissed(bits, profile, slots, filled, b, s, words);
  }

  /** Counts an owned frame in its slot, or puts it into the first free one. */
  method RecordOwned(bits: seq<bool>, profile: DecodeProfile, slots: seq<Slot>, b: nat, s: nat, words: seq<bv8>)
    returns (filled: seq<Slot>)
    requires SlotsHold(bits, profile, slots, b, s) && Owned(words, profile) && HitHere(bits, words, b, s)
    ensures SlotsHold(bits, profile, filled, b, s + 1)
  {
    hide SlotHolds, Owned, NoneMissing, HitHere, Saturated;
    for k := 0 to |slots|
      invariant forall j :: 0 <= j < k ==> slots[j].words != words
    {
      if slots[k].words == words {
        CountedHold(bits, profile, slots, k, b, s);
        return slots[k := slots[k].(repeatCount := Saturated(slots[k].repeatCount + 1))];
      }
    }
    if |slots| == MAX_OWNER_CANDIDATES {
      OthersHold(bits, profile, slots, b, s, words);
      return slots;
    }
    AddedHold(bits, profile, slots, b, s, words);
    return slots + [Slot(words, Hit(b, s), 1)];
  }

  // ----- The frames it does not own -----

  /** The flags of the scan, and the frame it shows when nothing is accepted. */
  datatype Context = Context(wrongSerial: bool, eccFailure: bool, invalidState: bool, diagnostic: Option<seq<bv8>>)

  ghost predicate SomeForeign(bits: seq<bool>, profile: DecodeProfile, b: nat, s: nat) {
    exists v :: Hits(bits, v, b, s) != [] && !SerialMatches(v, profile)
  }

  ghost predicate SomeMismatch(bits: seq<bool>, profile: DecodeProfile, b: nat, s: nat) {
    exists v :: Hits(bits, v, b, s) != [] && SerialMatches(v, profile) && !EccMatches(v, profile)
  }

  ghost predicate SomeInvalid(bits: seq<bool>, profile: DecodeProfile, b: nat, s: nat) {
    exists v :: Hits(bits, v, b, s) != [] && SerialMatches(v, profile) && EccMatches(v, profile) && !StateValid(v)
  }

  /** Nothing is shown only when nothing was met, and a foreign frame only when no other was. */
  ghost predicate ShownHolds(bits: seq<bool>, profile: DecodeProfile, shown: Option<seq<bv8>>, b: nat, s: nat) {
    match shown
    case None => forall v :: Hits(bits, v, b, s) == []
    case Some(w) =>
      && Hits(bits, w, b, s) != []
      && (SerialMatches(w, profile) || forall v :: Hits(bits, v, b, s) != [] ==> !SerialMatches(v, profile))
  }

  ghost predicate ContextHolds(bits: seq<bool>, profile: DecodeProfile, c: Context, b: nat, s: nat) {
    && (c.wrongSerial <==> SomeForeign(bits, profile, b, s))
    && (c.eccFailure <==> SomeMismatch(bits, profile, b, s))
    && (c.invalidState <==> SomeInvalid(bits, profile, b, s))
    && ShownHolds(bits, profile, c.diagnostic, b, s)
  }

  function Noted(c: Context, profile: DecodeProfile, words: seq<bv8>): Context {
    var shown := if c.diagnostic.None? || SerialMatches(words, profile) then Some(words) else c.diagnostic;
    if !SerialMatches(words, profile) then c.(wrongSerial := true, diagnostic := shown)
    else if !EccMatches(words, profile) then c.(eccFailure := true, diagnostic := shown)
    else if !StateValid(words) then c.(invalidState := true, diagnostic := shown)
    else c.(diagnostic := shown)
  }

  lemma MetMore(bits: seq<bool>, words: seq<bv8>, b: nat, s: nat, t: nat)
    requires HitHere(bits, words, b, s) && t == s + 1
    ensures forall v :: (Hits(bits, v, b, t) != []) == (Hits(bits, v, b, s) != [] || v == words)
  {
    hide Hits, HitHere;
    forall v ensures (Hits(bits, v, b, t) != []) == (Hits(bits, v, b, s) != [] || v == words) {
      HitOf(bits, words, b, s, v);
    }
  }

  lemma SomeMore(bits: seq<bool>, profile: DecodeProfile, b: nat, s: nat, words: seq<bv8>)
    requires HitHere(bits, words, b, s)
    ensures SomeForeign(bits, profile, b, s + 1) <==> SomeForeign(bits, profile, b, s) || !SerialMatches(words, profile)
    ensures SomeMismatch(bits, profile, b, s + 1)
       <==> SomeMismatch(bits, profile, b, s) || (SerialMatches(words, profile) && !EccMatches(words, profile))
  {
    hide Hits, HitHere, SerialMatches, EccMatches;
    MetMore(bits, words, b, s, s + 1);
    if v :| Hits(bits, v, b, s) != [] && !SerialMatches(v, profile) {
      assert Hits(bits, v, b, s + 1) != [];
    }
    if v :| Hits(bits, v, b, s) != [] && SerialMatches(v, profile) && !EccMatches(v, profile) {
      assert Hits(bits, v, b, s + 1) != [];
    }
    assert Hits(bits, words, b, s + 1) != [];
  }

  lemma InvalidMore(bits: seq<bool>, profile: DecodeProfile, b: nat, s: nat, words: seq<bv8>)
    requires HitHere(bits, words, b, s)
    ensures SomeInvalid(bits, profile, b, s + 1)
       <==> SomeInvalid(bits, profile, b, s) || (SerialMatches(words, profile) && EccMatches(words, profile) && !StateValid(words))
  {
    hide Hits, HitHere, SerialMatches, EccMatches, StateValid;
    MetMore(bits, words, b, s, s + 1);
    if v :| Hits(bits, v, b, s) != [] && SerialMatches(v, profile) && EccMatches(v, profile) && !StateValid(v) {
      assert Hits(bits, v, b, s + 1) != [];
    }
    assert Hits(bits, words, b, s + 1) != [];
  }

  lemma ShownMore(bits: seq<bool>, profile: DecodeProfile, shown: Option<seq<bv8>>, b: nat, s: nat, words: seq<bv8>)
    requires HitHere(bits, words, b, s) && ShownHolds(bits, profile, shown, b, s)
    ensures ShownHolds(bits, profile, if shown.None? || SerialMatches(words, profile) then Some(words) else shown, b, s + 1)
  {
    hide Hits, HitHere, SerialMatches;
    MetMore(bits, words, b, s, s + 1);
    assert Hits(bits, words, b, s + 1) != [];
    if shown.Some? {
      assert Hits(bits, shown.value, b, s + 1) != [];
    }
  }

  lemma NotedHolds(bits: seq<bool>, profile: DecodeProfile, c: Context, b: nat, s: nat, words: seq<bv8>)
    requires ContextHolds(bits, profile, c, b, s) && HitHere(bits, words, b, s)
    ensures ContextHolds(bits, profile, Noted(c, profile, words), b, s + 1)
  {
    hide Hits, HitHere, SerialMatches, EccMatches, StateValid, SomeForeign, SomeMismatch, SomeInvalid, ShownHolds;
    SomeMore(bits, profile, b, s, words);
    InvalidMore(bits, profile, b, s, words);
    ShownMore(bits, profile, c.diagnostic, b, s, words);
  }

  lemma ContextSkip(bits: seq<bool>, profile: DecodeProfile, c: Context, b: nat, s: nat, d: nat, t: nat)
    requires ContextHolds(bits, profile, c, b, s)
    requires forall v :: Hits(bits, v, d, t) == Hits(bits, v, b, s)
    ensures ContextHolds(bits, profile, c, d, t)
  {
    hide Hits, SerialMatches, EccMatches, StateValid;
  }

  // ----- The report -----

  datatype Reason =
    | PayloadEmpty
    | ProfileNotConfigured
    | PayloadTooShort
    | WrongSerialId
    | EccMismatch
    | InvalidObservedState
    | NoMatchingProfileCandidate
    | LastWindow

  datatype Report =
    | Accepted(words: seq<bv8>, at: Hit, repeatCount: nat, confidence: nat)
    | Rejected(reason: Reason, diagnostic: Option<seq<bv8>>, serialMatched: bool, eccMatched: bool)

  /** The first slot with the largest count. */
  method BestSlot(slots: seq<Slot>) returns (best: nat)
    requires slots != []
    ensures best < |slots|
    ensures forall k :: 0 <= k < |slots| ==> slots[k].repeatCount <= slots[best].repeatCount
    ensures forall k :: 0 <= k < best ==> slots[k].repeatCount < slots[best].repeatCount
  {
    best := 0;
    for k := 1 to |slots|
      invariant best < |slots|
      invariant forall j :: 0 <= j < k ==> slots[j].repeatCount <= slots[best].repeatCount
      invariant forall j :: 0 <= j < best ==> slots[j].repeatCount < slots[best].repeatCount
    {
      if slots[k].repeatCount > slots[best].repeatCount {
        best := k;
      }
    }
  }

  /** Ranked above a frame: hit more often, or as often and met first; the counts saturate. */
  ghost predicate Outranks(bits: seq<bool>, w: seq<bv8>, v: seq<bv8>) {
    var h, k := AllHits(bits, w), AllHits(bits, v);
    && h != [] && k != []
    && (Saturated(|h|) > Saturated(|k|) || (Saturated(|h|) == Saturated(|k|) && Before(h[0], k[0])))
  }

  /** Eight owned frames of the payload other than this one. */
  ghost predicate SlotsTaken(bits: seq<bool>, profile: DecodeProfile, words: seq<bv8>, others: seq<seq<bv8>>) {
    && |others| == 8
    && (forall i, j :: 0 <= i < j < |others| ==> others[i] != others[j])
    && forall k :: 0 <= k < |others| ==> others[k] != words && Present(bits, others[k]) && Owned(others[k], profile)
  }

  /** The one reported is the first in rank, unless eight others had taken the slots. */
  ghost predicate Reported(bits: seq<bool>, profile: DecodeProfile, words: seq<bv8>) {
    && Present(bits, words) && Owned(words, profile)
    && forall v :: v != words && Present(bits, v) && Owned(v, profile) ==>
                     Outranks(bits, words, v) || exists others :: SlotsTaken(bits, profile, v, others)
  }

  lemma BestIsReported(bits: seq<bool>, profile: DecodeProfile, slots: seq<Slot>, best: nat)
    requires SlotsHold(bits, profile, slots, 8, 0) && best < |slots|
    requires forall k :: 0 <= k < |slots| ==> slots[k].repeatCount <= slots[best].repeatCount
    requires forall k :: 0 <= k < best ==> slots[k].repeatCount < slots[best].repeatCount
    ensures Reported(bits, profile, slots[best].words)
    ensures var hits := AllHits(bits, slots[best].words);
            hits != [] && slots[best].at == hits[0] && slots[best].repeatCount == Saturated(|hits|)
  {
    hide Hits, AllHits, Owned, Present;
    HitsAtEnd(bits);
    var w := slots[best].words;
    assert SlotHolds(bits, profile, slots[best], 8, 0);
    forall v | v != w && Present(bits, v) && Owned(v, profile)
      ensures Outranks(bits, w, v) || exists others :: SlotsTaken(bits, profile, v, others)
    {
      if InSlot(slots, v) {
        var k :| 0 <= k < |slots| && slots[k].words == v;
        assert SlotHolds(bits, profile, slots[k], 8, 0);
      } else {
        var others := seq(|slots|, i requires 0 <= i < |slots| => slots[i].words);
        forall i | 0 <= i < |slots| ensures Present(bits, slots[i].words) && Owned(slots[i].words, profile) {
          assert SlotHolds(bits, profile, slots[i], 8, 0);
        }
        assert SlotsTaken(bits, profile, v, others);
      }
    }
  }

  ghost predicate OwnedIsPresent(bits: seq<bool>, profile: DecodeProfile) {
    exists v :: Present(bits, v) && Owned(v, profile)
  }

  lemma ReportedIsOwned(bits: seq<bool>, profile: DecodeProfile, words: seq<bv8>)
    requires Reported(bits, profile, words)
    ensures OwnedIsPresent(bits, profile)
  {
    hide Present, Owned;
  }

  /** What a rejection says: the first reason in this order that some frame of the payload gives. */
  ghost predicate Explained(bits: seq<bool>, profile: DecodeProfile, r: Report)
    requires r.Rejected?
  {
    var foreign := exists v :: Present(bits, v) && !SerialMatches(v, profile);
    var mismatch := exists v :: Present(bits, v) && SerialMatches(v, profile) && !EccMatches(v, profile);
    && r.reason ==
         (if foreign then WrongSerialId
          else if mismatch then EccMismatch
          else if exists v :: Present(bits, v) then InvalidObservedState
          else LastWindow)
    && (r.diagnostic.Some? <==> exists v :: Present(bits, v))
    && (r.diagnostic.Some? ==> Present(bits, r.diagnostic.value))
    && (r.serialMatched <==> exists v :: Present(bits, v) && SerialMatches(v, profile))
    && (r.diagnostic.Some? ==> (r.serialMatched <==> SerialMatches(r.diagnostic.value, profile)))
    && (r.diagnostic.Some? ==> (r.eccMatched <==> r.serialMatched && EccMatches(r.diagnostic.value, profile)))
    && (r.diagnostic.None? ==> !r.eccMatched)
  }

  /** All windows of a payload: the filled slots and the context of a rejection. */
  method Scan(bits: seq<bool>, profile: DecodeProfile) returns (slots: seq<Slot>, context: Context)
    requires |bits| >= WINDOW_BITS
    ensures SlotsHold(bits, profile, slots, 8, 0) && ContextHolds(bits, profile, context, 8, 0)
  {
    hide Hits, SlotsHold, ContextHolds, Accepts, NoneAccepted, Owned, Noted;
    slots, context := [], Context(false, false, false, None);
    HitsAtStart(bits);
    StartHolds(bits, profile);
    for b := 0 to 8
      invariant SlotsHold(bits, profile, slots, b, 0) && ContextHolds(bits, profile, context, b, 0)
    {
      var symbolCount := (|bits| - b) / 2;
      if symbolCount >= WINDOW_SYMBOLS {
        for s := 0 to symbolCount - WINDOW_SYMBOLS + 1
          invariant SlotsHold(bits, profile, slots, b, s) && ContextHolds(bits, profile, context, b, s)
        {
          var window := ParseSymbolWindow(bits, b + 2 * s);
          HitsStep(bits, b, s, window);
          if window.None? {
            SlotsSkip(bits, profile, slots, b, s, b, s + 1);
            ContextSkip(bits, profile, context, b, s, b, s + 1);
          } else {
            NotedHolds(bits, profile, context, b, s, window.value);
            context := Noted(context, profile, window.value);
            if Owned(window.value, profile) {
              slots := RecordOwned(bits, profile, slots, b, s, window.value);
            } else {
              SlotsSkip(bits, profile, slots, b, s, b, s + 1);
            }
          }
        }
        assert symbolCount - WINDOW_SYMBOLS + 1 == WindowCount(bits, b);
      }
      HitsNextAlignment(bits, b);
      SlotsSkip(bits, profile, slots, b, WindowCount(bits, b), b + 1, 0);
      ContextSkip(bits, profile, context, b, WindowCount(bits, b), b + 1, 0);
    }
  }

  lemma StartHolds(bits: seq<bool>, profile: DecodeProfile)
    ensures SlotsHold(bits, profile, [], 0, 0) && ContextHolds(bits, profile, Context(false, false, false, None), 0, 0)
  {
    HitsAtStart(bits);
  }

  /** proflame2_decode_fifo_window, for payloads whose symbol offsets fit its sixteen-bit counters. */
  method DecodeFifoWindow(payload: seq<bv8>, profile: DecodeProfile) returns (r: Report)
    requires |payload| <= 0x4000
    ensures var bits := BytesToBits(payload);
            if payload == [] then r == Rejected(PayloadEmpty, None, false, false)
            else if !profile.enabled || profile.serialId == 0 then r == Rejected(ProfileNotConfigured, None, false, false)
            else if |bits| < WINDOW_BITS then r == Rejected(PayloadTooShort, None, false, false)
            else (r.Accepted? <==> OwnedIsPresent(bits, profile)) && (r.Rejected? ==> Explained(bits, profile, r))
    ensures r.Accepted? ==>
              var bits := BytesToBits(payload);
              var hits := AllHits(bits, r.words);
              && Reported(bits, profile, r.words)
              && hits != [] && r.at == hits[0]
              && r.repeatCount == (if |hits| < 255 then |hits| else 255)
              && r.confidence == 100 + 20 * (if |hits| < 7 then |hits| else 7)
  {
    hide Hits, AllHits, Present, SerialMatches, EccMatches, StateValid, BytesToBits, Reported, SlotHolds;
    if payload == [] {
      return Rejected(PayloadEmpty, None, false, false);
    }
    if !IsConfigured(profile) {
      return Rejected(ProfileNotConfigured, None, false, false);
    }
    var bits := BytesToBits(payload);
    if |bits| < WINDOW_BITS {
      return Rejected(PayloadTooShort, None, false, false);
    }
    var slots, c := Scan(bits, profile);
    HitsAtEnd(bits);
    if slots == [] {
      forall v ensures !Present(bits, v) || !Owned(v, profile) { assert !InSlot(slots, v); }
      var matched := c.diagnostic.Some? && SerialMatches(c.diagnostic.value, profile);
      var reason :=
        if c.wrongSerial then WrongSerialId
        else if c.eccFailure then EccMismatch
        else if c.invalidState then InvalidObservedState
        else if c.diagnostic.Some? then NoMatchingProfileCandidate
        else LastWindow;
      return Rejected(reason, c.diagnostic, matched, matched && EccMatches(c.diagnostic.value, profile));
    }
    var best := BestSlot(slots);
    BestIsReported(bits, profile, slots, best);
    ReportedIsOwned(bits, profile, slots[best].words);
    var count := slots[best].repeatCount;
    return Accepted(slots[best].words, slots[best].at, count, 100 + 20 * if count > 7 then 7 else count);
  }

  // ----- Firmware and integration -----

  /** The firmware reports a frame of a payload exactly when the integration could decode one of its frames with the profile. */
  lemma FirmwareAgrees(bits: seq<bool>, profile: DecodeProfile)
    ensures OwnedIsPresent(bits, profile)
       <==> exists words :: Present(bits, words) && DecodeState(FrameFromWords(words), Legacy(profile.serialId, profile.ecc)).Ok?
  {
    hide Present, Owned, DecodeState, FrameFromWords;
    forall words ensures Present(bits, words) ==> |words| == STANDARD_WORDS {
      PresentIff(bits, words);
    }
    forall words | Present(bits, words)
      ensures Owned(words, profile) <==> DecodeState(FrameFromWords(words), Legacy(profile.serialId, profile.ecc)).Ok?
    {
      OwnedIffDecodes(words, profile);
    }
  }

  /** Of a state sent in a burst the firmware reports the frame itself, if there are two copies and the serial number fits. */
  lemma OwnBurstIsReported(s: State, profile: DecodeProfile, allowPowerOffFlame: bool, n: nat, words: seq<bv8>)
    requires n > 0 && EncodeState(s, Legacy(profile.serialId, profile.ecc), allowPowerOffFlame).Ok?
    ensures var frame := EncodeState(s, Legacy(profile.serialId, profile.ecc), allowPowerOffFlame).value;
            var burst := BuildRepeatedAirPayload(BuildTransmissionPlan(frame), Some(n), NATIVE_REPEAT_SEPARATOR_BITS);
            && burst.Ok?
            && (Reported(BytesToBits(burst.value.0), profile, words)
                <==> n >= 2 && profile.serialId < 0x100_0000 && words == frame.WireWords())
  {
    hide EncodeState, DecodeState, Frame.WireWords, FrameFromWords, BuildRepeatedAirPayload, BuildTransmissionPlan, BytesToBits, Present,
      Owned, AllHits, Masked, IntegrityMatches;
    var legacy := Legacy(profile.serialId, profile.ecc);
    var frame := EncodeState(s, legacy, allowPowerOffFlame).value;
    EncodedIsWellFormed(s, legacy, allowPowerOffFlame);
    StateRoundTrip(s, legacy, allowPowerOffFlame);
    CaptureStream.RepeatedPayloadHits(frame, n);
    FrameSurvivesWords(frame);
    OwnedIffDecodes(frame.WireWords(), profile);
    var read := FrameFromWords(frame.WireWords());
    if read.serialId != profile.serialId {
      WrongSerialIsRefused(read, legacy);
    }
  }
}
