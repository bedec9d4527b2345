/**
  One transmission from fireplace state to fireplace state, through the transmitter's bytes and both
  receivers.
 */
module EndToEnd {
  import opened Wrappers
  import opened Bytes
  import opened Packet
  import opened Ecc
  import opened Waveform
  import opened Pulse
  import opened PulseScan
  import opened PulseStream
  import opened PulseBurst
  import opened StateCodec
  import opened Capture
  import opened CaptureScan
  import opened CaptureStream
  import KnownFrames
  import Runtime
  import RuntimeRuns
  import RuntimeView

  /** The bits of a single transmission. */
  function AirBits(frame: Frame): seq<bool> { BytesToBits(BuildTransmissionPlan(frame).airPayload) }

  /** Silence at the end of a single transmission; ten-word frames need one more silent symbol to fill the last byte. */
  function ClosingGap(frame: Frame): nat { if frame.IsExtended() then 20 else 18 }

  lemma ClosingBits(body: seq<bool>, extended: bool)
    requires |body| == if extended then 260 else 182
    ensures ByteAligned(body + Zeros(18)) == body + Zeros(if extended then 20 else 18)
  {
    var bits := body + Zeros(18);
    if extended {
      assert |bits| / 8 * 8 == 272 && bits[..272] == body + Zeros(12) && bits[272..] == Zeros(6);
      assert Zeros(12) + Zeros(2) + Zeros(6) == Zeros(20);
      assert body + Zeros(12) + Zeros(2) + Zeros(6) == body + (Zeros(12) + Zeros(2) + Zeros(6));
    } else {
      AlignedWhole(bits);
    }
  }

  lemma AirBitsAre(frame: Frame)
    requires frame.WellFormed()
    ensures AirBits(frame) == FrameBits(frame.WireWords()) + Zeros(ClosingGap(frame))
  {
    hide Zeros, ByteAligned, WordsSymbols, Frame.WireWords;
    var words := frame.WireWords();
    BitsSurviveBytes(ToBits(FrameSymbols(frame)));
    ToBitsConcat(WordsSymbols(words), Silence(TRAILING_ZERO_SYMBOLS));
    SilenceBits(TRAILING_ZERO_SYMBOLS);
    ClosingBits(FrameBits(words), frame.IsExtended());
  }

  /** The decoded symbols are the transmitted ones, with one more silent symbol for a ten-word frame. */
  lemma AirSymbolsAre(frame: Frame)
    requires frame.WellFormed()
    ensures var payload := BuildTransmissionPlan(frame).airPayload;
            SymbolsAt(BytesToBits(payload), 0, 4 * |payload|)
            == FrameSymbols(frame) + Silence(if frame.IsExtended() then 1 else 0)
  {
    hide Frame.WireWords, WordsSymbols, Silence;
    var symbols := FrameSymbols(frame);
    SymbolsSurviveBytes(symbols);
    if frame.IsExtended() {
      ExtendedSilence(WordsSymbols(frame.WireWords()));
    } else {
      NoSilence(symbols);
    }
  }

  lemma NoSilence(symbols: seq<Symbol>)
    ensures symbols + Silence(0) == symbols
  {}

  lemma ExtendedSilence(body: seq<Symbol>)
    requires |body| == 130
    ensures SymbolAligned(body + Silence(9)) == body + Silence(9) + Silence(1)
  {
    var symbols := body + Silence(9);
    assert |symbols| / 4 * 4 == 136 && symbols[..136] == body + Silence(6) && symbols[136..] == Silence(3);
    assert body + Silence(6) + Silence(1) + Silence(3) == body + Silence(9) + Silence(1);
  }

  function AirSegments(frame: Frame): seq<Segment> { [Segment(frame.WireWords(), ClosingGap(frame))] }

  lemma AirBitsAreRow(frame: Frame)
    requires frame.WellFormed()
    ensures AirBits(frame) == Row(AirSegments(frame))
  {
    hide Zeros, FrameBits, Frame.WireWords, AirBits, Row;
    AirBitsAre(frame);
    RowCons(Segment(frame.WireWords(), ClosingGap(frame)), []);
    RowNothing();
    assert [Segment(frame.WireWords(), ClosingGap(frame))] + [] == AirSegments(frame);
  }

  /** The pulse receiver reports exactly one candidate for a single transmission. */
  lemma PcmReceives(frame: Frame)
    requires frame.WellFormed() && (frame.IsExtended() ==> IntegrityMatches(frame.WireWords()))
    ensures forall c: Candidate ::
              Reports(AirBits(frame), c)
              <==> c == CandidateOf(frame.WireWords(), if frame.IsExtended() then Extended else Standard, 0, ClosingGap(frame))
  {
    hide Reports, AirBits, Row, FrameFromWords, Frame.WireWords, IntegrityMatches;
    var segments := AirSegments(frame);
    AirBitsAreRow(frame);
    ReceivedReports(segments, false, AirBits(frame));
    assert Expected(0, segments, false) == ExpectedHere(0, segments[0], false) + [];
  }

  /** The FIFO receiver finds a legacy transmission exactly once and never finds an extended one. */
  lemma FifoReceives(frame: Frame)
    requires frame.WellFormed()
    ensures forall w :: Present(AirBits(frame), w) <==> !frame.IsExtended() && w == frame.WireWords()
    ensures !frame.IsExtended() ==> AllHits(AirBits(frame), frame.WireWords()) == [Hit(0, 0)]
  {
    hide AirBits, Row, Frame.WireWords, Accepts, StreamAt, HitsBelow, WeightedCount;
    var bits, segments := AirBits(frame), AirSegments(frame);
    AirBitsAreRow(frame);
    AirBitsAre(frame);
    ReceivedIsStream(segments, false, bits);
    assert segments[1..] == [];
    forall p: nat, w ensures Accepts(bits, p, w) <==> !frame.IsExtended() && p == 0 && w == frame.WireWords() {
      StreamAccepts(bits, 0, segments, p, w);
      assert !Window(WORD_BITS * |frame.WireWords()| + ClosingGap(frame), [], |bits|, p, w);
    }
    if !frame.IsExtended() {
      assert Accepts(bits, 0, frame.WireWords());
      OnlyHit(bits, frame.WireWords());
    }
  }

  lemma OnlyHit(bits: seq<bool>, words: seq<bv8>)
    requires forall p: nat :: Accepts(bits, p, words) <==> p == 0
    ensures AllHits(bits, words) == [Hit(0, 0)]
  {
    hide Accepts, HitsBelow, WeightedCount;
    RepeatCountLaw(bits, words);
    WeightOfZero(bits, words, |bits| + 8);
    HitsBelowAre(bits, words, 8, AllHits(bits, words)[0]);
  }

  lemma {:induction false} WeightOfZero(bits: seq<bool>, words: seq<bv8>, limit: nat)
    requires forall p: nat :: Accepts(bits, p, words) <==> p == 0
    ensures WeightedCount(bits, words, limit) == if limit == 0 then 0 else 1
  {
    hide Accepts;
    if limit > 0 {
      WeightOfZero(bits, words, limit - 1);
      assert Accepts(bits, limit - 1, words) <==> limit - 1 == 0;
    }
  }

  lemma EncodedIsWellFormed(s: State, profile: Profile, allowPowerOffFlame: bool)
    requires EncodeState(s, profile, allowPowerOffFlame).Ok?
    ensures var frame := EncodeState(s, profile, allowPowerOffFlame).value;
            && frame.WellFormed() && (frame.IsExtended() <==> profile.TenWord?)
            && (frame.IsExtended() ==> IntegrityMatches(frame.WireWords()))
            && frame.serialId == profile.serialId
            && (frame.FitsWire() <==> 0 <= profile.serialId < 0x100_0000)
  {
    hide LowByte, ValueOf, BuildCmd1, BuildCmd2, IntegrityWords, Err1For, Err2For, IntegrityMatches;
    if profile.TenWord? {
      var frame := EncodeState(s, profile, allowPowerOffFlame).value;
      var t := profile.template;
      LowByteOfByte((t.w4Base & 0x80) | BuildCmd1(s));
      LowByteOfByte(BuildCmd2(s));
      LowByteOfByte(t.w6);
      LowByteOfByte(t.w7);
      GeneratedWordsAreTheOnlyMatch(frame.WireWords());
    }
  }

  /**
    State to state over the air: the pulse receiver reports one frame, and decoding it gives the carried
    state exactly when the profile's serial number fits its three bytes; otherwise the serial is refused.
   */
  lemma StateSurvivesTheAir(s: State, profile: Profile, allowPowerOffFlame: bool, c: Candidate)
    requires EncodeState(s, profile, allowPowerOffFlame).Ok?
    requires Reports(AirBits(EncodeState(s, profile, allowPowerOffFlame).value), c)
    ensures 0 <= profile.serialId < 0x100_0000 ==>
              c.frame == EncodeState(s, profile, allowPowerOffFlame).value && DecodeState(c.frame, profile) == Ok(Carried(s, profile))
    ensures DecodeState(c.frame, profile).Ok? <==> 0 <= profile.serialId < 0x100_0000
  {
    hide AirBits, Reports, FrameFromWords, Frame.WireWords, EncodeState, DecodeState, Masked, IntegrityMatches;
    var frame := EncodeState(s, profile, allowPowerOffFlame).value;
    EncodedIsWellFormed(s, profile, allowPowerOffFlame);
    PcmReceives(frame);
    FrameSurvivesWords(frame);
    StateRoundTrip(s, profile, allowPowerOffFlame);
    if !(0 <= profile.serialId < 0x100_0000) {
      WrongSerialIsRefused(c.frame, profile);
    }
  }

  lemma MaskedKeepsState(frame: Frame)
    ensures StateFromFrame(Masked(frame)) == StateFromFrame(frame)
  {
    hide ByteOf, ValueOf, StateOfCommands;
    assert LowByte(frame.cmd1 % 0x100) == LowByte(frame.cmd1) && LowByte(frame.cmd2 % 0x100) == LowByte(frame.cmd2);
  }

  /**
    The same through the FIFO receiver, for legacy profiles: the scan never raises on such a payload, and
    whatever it returns is a single candidate whose frame decodes to the transmitted state, exactly when the
    profile's serial number fits its three bytes.
   */
  lemma StateSurvivesFifo(s: State, profile: Profile, allowPowerOffFlame: bool, cs: seq<DecodeCandidate>)
    requires profile.Legacy? && EncodeState(s, profile, allowPowerOffFlame).Ok?
    requires var payload := BuildTransmissionPlan(EncodeState(s, profile, allowPowerOffFlame).value).airPayload;
             Complete(payload, cs) && Ranked(cs)
    ensures forall w :: Present(AirBits(EncodeState(s, profile, allowPowerOffFlame).value), w) ==> !Unreadable(w)
    ensures |cs| == 1 && cs[0].repeatCount == 1
    ensures 0 <= profile.serialId < 0x100_0000 ==> DecodeState(cs[0].frame, profile) == Ok(s)
    ensures DecodeState(cs[0].frame, profile).Ok? <==> 0 <= profile.serialId < 0x100_0000
  {
    hide FrameFromWords, Frame.WireWords, EncodeState, DecodeState, Masked, IntegrityMatches, Present, HitsBelow,
      BuildTransmissionPlan, IsCandidate, StateFromFrame, LowByte, ValueOf, StateOfCommands;
    var frame := EncodeState(s, profile, allowPowerOffFlame).value;
    var payload := BuildTransmissionPlan(frame).airPayload;
    EncodedIsWellFormed(s, profile, allowPowerOffFlame);
    StateRoundTrip(s, profile, allowPowerOffFlame);
    FifoReceives(frame);
    FrameSurvivesWords(frame);
    OnePresentOneCandidate(payload, frame.WireWords(), cs);
    MaskedKeepsState(frame);
    DecodedIsReadable(frame, profile);
    assert cs[0] in cs;
    CandidateFrame(payload, cs[0]);
    if cs[0].frame.serialId != profile.serialId {
      WrongSerialIsRefused(cs[0].frame, profile);
    }
  }

  lemma CandidateFrame(payload: seq<bv8>, c: DecodeCandidate)
    requires IsCandidate(payload, c)
    ensures |c.frame.WireWords()| == STANDARD_WORDS && c.frame == FrameFromWords(c.frame.WireWords())
  {
    hide HitsBelow, FrameFromWords, Frame.WireWords, StateFromFrame, ZeroRun, PayloadSlice;
  }

  lemma DecodedIsReadable(frame: Frame, profile: Profile)
    requires DecodeState(frame, profile).Ok?
    ensures StateFromFrame(frame).Ok?
  {
    hide StateFromFrame;
  }

  lemma WrongSerialIsRefused(frame: Frame, profile: Profile)
    requires frame.serialId != profile.serialId
    ensures DecodeState(frame, profile).Err?
  {}

  /** A legacy transmission makes the FIFO scan raise exactly when its state cannot be observed. */
  lemma TransmissionRaisesIff(frame: Frame)
    requires frame.WellFormed() && !frame.IsExtended()
    ensures (exists words :: Present(AirBits(frame), words) && Unreadable(words)) <==> StateFromFrame(frame).Err?
  {
    hide AirBits, Present, StateFromFrame, Frame.WireWords, FrameFromWords;
    var words := frame.WireWords();
    FifoReceives(frame);
    FrameSurvivesWords(frame);
    MaskedKeepsState(frame);
    assert |words| == STANDARD_WORDS && FrameFromWords(words) == Masked(frame);
    assert Present(AirBits(frame), words);
    assert Unreadable(words) <==> StateFromFrame(frame).Err?;
  }

  /** It happens: flame level 7 fits its three bits, but no state has it. */
  lemma FlameSevenRaises(frame: Frame)
    requires frame.WellFormed() && !frame.IsExtended() && LowByte(frame.cmd2) & 0x07 == 0x07
    ensures exists words :: Present(AirBits(frame), words) && Unreadable(words)
  {
    hide AirBits, Present, Unreadable, LowByte, ValueOf;
    SevenIsSeven();
    TransmissionRaisesIff(frame);
  }

  lemma SevenIsSeven()
    ensures ValueOf(0x07) == 7
  {
    hide ValueOf;
    KnownFrames.ValueIsSum(0x07);
  }

  /**
    From the user's edits to the receiver: in a run whose edits do not overlap a send, every packet handed to the backend is
    heard by the pulse receiver as one frame, and that frame decodes to the fold of all the edits before it.
   */
  lemma EditsReachTheReceiver(w: RuntimeRuns.World, events: seq<RuntimeRuns.Event>, flight: RuntimeRuns.Flight, c: Candidate)
    requires RuntimeView.EditingRun(w, events) && RuntimeRuns.After(w, events).Some?
    requires flight in RuntimeRuns.After(w, events).value.flights && !flight.Starting?
    requires 0 <= w.entry.profile.serialId < 0x100_0000 && Reports(AirBits(flight.packet.frame), c)
    ensures DecodeState(c.frame, w.entry.profile)
         == Ok(Carried(RuntimeView.Folded(w.entry.features, Runtime.Current(w.entry).value, events), w.entry.profile))
  {
    hide *;
    RuntimeView.SentPacketIsEncoded(w, events, flight);
    RuntimeView.SentPacketCarriesFold(w, events, flight);
    StateSurvivesTheAir(flight.send.requested, w.entry.profile, true, c);
  }
}
