/**
  The active listener on whole payloads: what it makes of a FIFO window, from the frames that the window holds.  It joins the
  firmware's decoder with the duplicate filter, as evaluate_window of active_listener.cpp does.
 */
module Listener {
  import opened Wrappers
  import opened Bytes
  import opened Packet
  import opened Waveform
  import opened Capture
  import opened CaptureScan
  import opened FirmwareDecoder
  import D = DuplicateFilter

  function SeenReason(reason: FirmwareDecoder.Reason): D.RejectReason {
    match reason
    case WrongSerialId => D.WrongSerialId
    case EccMismatch => D.EccMismatch
    case NoMatchingProfileCandidate => D.NoMatchingProfileCandidate
    case _ => D.OtherReason
  }

  /** The packet of seven words; the two commands stand before the two Err bytes. */
  function PacketOf(words: seq<bv8>): D.Packet
    requires |words| == 7
  {
    D.Packet(Serial(words[0], words[1], words[2]), words[3], words[4], words[5], words[6])
  }

  /** The packet holds a frame. */
  predicate HoldsFrame(packet: D.Packet, frame: Frame) {
    && packet.serialId == frame.serialId
    && packet.cmd1 == LowByte(frame.cmd1) && packet.err1 == LowByte(frame.err1)
    && packet.cmd2 == LowByte(frame.cmd2) && packet.err2 == LowByte(frame.err2)
  }

  lemma PacketHoldsFrame(words: seq<bv8>)
    requires |words| == 7
    ensures HoldsFrame(PacketOf(words), FrameFromWords(words))
  {
    hide LowByte, ValueOf;
    LowByteOfByte(words[3]);
    LowByteOfByte(words[4]);
    LowByteOfByte(words[5]);
    LowByteOfByte(words[6]);
  }

  /** The decoder's report as the filter looks at it. */
  function Seen(r: Report): D.Decoded
    requires r.Accepted? ==> |r.words| == 7
  {
    match r
    case Accepted(words, _, _, _) => D.Decoded(PacketOf(words))
    case Rejected(reason, diagnostic, serialMatched, _) => D.Rejected(diagnostic.Some?, serialMatched, SeenReason(reason))
  }

  lemma OwnedLength(words: seq<bv8>, profile: DecodeProfile)
    requires Owned(words, profile)
    ensures |words| == 7
  {}

  /**
    A complete window without an owned frame: noise if it holds no frame; a profile mismatch if one of its frames is foreign or fails
    the Err check; otherwise its frames have unobservable states, which is a decoding failure.  Nothing is remembered.
   */
  lemma RejectionMeaning(bits: seq<bool>, profile: DecodeProfile, r: Report, last: D.Remembered, count: nat, now: D.Tick, dedup: D.Tick)
    requires r.Rejected? && Explained(bits, profile, r) && !OwnedIsPresent(bits, profile) && count > 0
    ensures var (remembered, outcome) := D.Step(last, D.Window(count, true, Seen(r)), now, dedup);
            && remembered == last
            && (outcome == D.IdleNoCandidate <==> forall v :: !Present(bits, v))
            && (outcome == D.Dropped(D.ProfileMismatch) <==>
                  exists v :: Present(bits, v) && (!SerialMatches(v, profile) || !EccMatches(v, profile)))
            && (outcome == D.Dropped(D.DecodeFailed) <==>
                  && (exists v :: Present(bits, v))
                  && forall v :: Present(bits, v) ==> SerialMatches(v, profile) && EccMatches(v, profile) && !StateValid(v))
  {
    hide Present, SerialMatches, EccMatches, StateValid;
    assert !OwnedIsPresent(bits, profile) ==> forall v :: Present(bits, v) ==> !Owned(v, profile);
  }

  /** Before any frame is looked at: a window that is empty, incomplete, too short or without a configured profile. */
  predicate Unread(payload: seq<bv8>, complete: bool, profile: DecodeProfile) {
    payload == [] || !complete || !profile.enabled || profile.serialId == 0 || |payload| < 25
  }

  /** evaluate_window, on the payload itself. */
  method EvaluatePayload(listener: D.ActiveListenerController, payload: seq<bv8>, complete: bool, profile: DecodeProfile, now: D.Tick,
                         dedup: D.Tick)
    returns (outcome: D.Outcome)
    requires |payload| <= 0x4000
    modifies listener
    ensures outcome == D.Dropped(D.NoRfCaptured) <==> payload == []
    ensures outcome == D.Dropped(D.FifoIncomplete) <==> payload != [] && !complete
    ensures !outcome.Accepted? ==> listener.Last() == old(listener.Last())
    ensures payload != [] && complete && Unread(payload, complete, profile) ==> outcome == D.IdleNoCandidate
    ensures !Unread(payload, complete, profile) ==>
              var bits := BytesToBits(payload);
              if OwnedIsPresent(bits, profile) then
                && (outcome.Accepted? || outcome.Duplicate?)
                && exists words :: Reported(bits, profile, words) && |words| == 7
                                   && HoldsFrame(outcome.packet, FrameFromWords(words))
                                   && (outcome.Accepted? ==> listener.Last() == D.Remember(outcome.packet, now))
              else
                && (outcome == D.IdleNoCandidate <==> forall v :: !Present(bits, v))
                && (outcome == D.Dropped(D.ProfileMismatch) <==>
                      exists v :: Present(bits, v) && (!SerialMatches(v, profile) || !EccMatches(v, profile)))
                && (outcome == D.Dropped(D.DecodeFailed) <==>
                      && (exists v :: Present(bits, v))
                      && forall v :: Present(bits, v) ==> SerialMatches(v, profile) && EccMatches(v, profile) && !StateValid(v))
  {
    hide BytesToBits, Reported, Present, SerialMatches, EccMatches, StateValid, Explained, OwnedIsPresent, AllHits, HoldsFrame;
    ghost var last := listener.Last();
    var report := DecodeFifoWindow(payload, profile);
    if report.Accepted? {
      ReportedLength(BytesToBits(payload), profile, report.words);
      PacketHoldsFrame(report.words);
    } else if !Unread(payload, complete, profile) {
      RejectionMeaning(BytesToBits(payload), profile, report, last, |payload|, now, dedup);
    }
    outcome := listener.EvaluateWindow(D.Window(|payload|, complete, Seen(report)), now, dedup);
  }

  lemma ReportedLength(bits: seq<bool>, profile: DecodeProfile, words: seq<bv8>)
    requires Reported(bits, profile, words)
    ensures |words| == 7
  {
    hide Present;
    OwnedLength(words, profile);
  }
}
