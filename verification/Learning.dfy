/**
  Learning a remote from its packets: custom_components/proflame2/learning.py.  A packet is its frame: its remote id is the
  frame's serial.  Receiving until a deadline is a finite list in which `None` is a receive call that timed out.
 */
module Learning {
  import opened Wrappers
  import opened Packet
  import opened Ecc
  import opened StateCodec

  const MIN_UNIQUE_CMD1_SAMPLES: nat := 2
  const MIN_UNIQUE_CMD2_SAMPLES: nat := 2
  const MIN_VALID_PACKETS: nat := 3
  const DEFAULT_EXTENDED_MANUAL_W7: bv8 := 0xC8

  datatype ErrorCode = Timeout | InconsistentRemoteId | ContradictoryProfile | AmbiguousProfile

  datatype Lesson = LegacyLesson(ecc: EccProfile) | TenWordLesson(template: Template)

  datatype Outcome = Learned(lesson: Lesson) | Failure(code: ErrorCode)

  datatype LearnResult = LearnResult(
    outcome: Outcome, remoteId: Option<int>, packetsSeen: nat, validPackets: nat, finalPacket: Option<Frame>)

  function Heard(received: seq<Option<Frame>>): seq<Frame> {
    if received == [] then []
    else if received[0].Some? then [received[0].value] + Heard(received[1..])
    else Heard(received[1..])
  }

  // ----- The guided session -----

  /** The fields of a session. */
  datatype Session = Session(
    packetsSeen: nat, validPackets: nat, remoteId: Option<int>, packets: seq<Frame>, seenFrames: set<seq<bv8>>)

  const NEW_SESSION := Session(0, 0, None, [], {})

  predicate IsStranger(remoteId: Option<int>, frame: Frame) { remoteId.Some? && remoteId.value != frame.serialId }

  /** One received packet: counted, then refused if it is another remote's, then kept unless its words were seen. */
  function Receive(s: Session, frame: Frame): Session {
    var counted := s.(packetsSeen := s.packetsSeen + 1, validPackets := s.validPackets + 1);
    if IsStranger(s.remoteId, frame) then counted
    else
      var locked := counted.(remoteId := Some(frame.serialId));
      if frame.WireWords() in s.seenFrames then locked
      else locked.(seenFrames := s.seenFrames + {frame.WireWords()}, packets := s.packets + [frame])
  }

  function ReceivedAll(s: Session, frames: seq<Frame>): Session
    decreases |frames|
  {
    if frames == [] then s else ReceivedAll(Receive(s, frames[0]), frames[1..])
  }

  datatype Capture = Captured(packet: Frame) | Stopped(result: LearnResult)

  function SessionFailure(s: Session, code: ErrorCode): LearnResult {
    LearnResult(Failure(code), s.remoteId, s.packetsSeen, s.validPackets, None)
  }

  predicate IsRestore(prompt: string) { prompt == "restore_power_on" }

  /** How a packet ends the prompt, if it does; a repeated frame does so only for the restore prompt. */
  function Verdict(s: Session, prompt: string, frame: Frame): Option<Capture> {
    if IsStranger(s.remoteId, frame) then Some(Stopped(SessionFailure(Receive(s, frame), InconsistentRemoteId)))
    else if frame.WireWords() in s.seenFrames && !IsRestore(prompt) then None
    else Some(Captured(frame))
  }

  /** One prompt: how many receive calls it makes, and how it ends. */
  function Prompted(s: Session, prompt: string, received: seq<Option<Frame>>): (r: (nat, Capture))
    ensures r.0 <= |received|
    decreases |received|
  {
    if received == [] then (0, Stopped(SessionFailure(s, Timeout)))
    else if received[0].Some? && Verdict(s, prompt, received[0].value).Some? then (1, Verdict(s, prompt, received[0].value).value)
    else
      var next := if received[0].Some? then Receive(s, received[0].value) else s;
      var (used, capture) := Prompted(next, prompt, received[1..]);
      (used + 1, capture)
  }

  class LearnSession {
    var packetsSeen: nat
    var validPackets: nat
    var remoteId: Option<int>
    var packets: seq<Frame>
    var seenFrames: set<seq<bv8>>
    var promptLabel: string

    ghost function Fields(): Session
      reads this
    {
      Session(packetsSeen, validPackets, remoteId, packets, seenFrames)
    }

    constructor ()
      ensures Fields() == NEW_SESSION
    {
      packetsSeen, validPackets, remoteId, packets, seenFrames, promptLabel := 0, 0, None, [], {}, "";
    }

    /** What a session does with one packet, up to the answer it gives the prompt. */
    method Take(frame: Frame) returns (verdict: Option<Capture>)
      modifies this
      ensures Fields() == Receive(old(Fields()), frame)
      ensures verdict == Verdict(old(Fields()), promptLabel, frame)
      ensures promptLabel == old(promptLabel)
    {
      hide Frame.WireWords;
      packetsSeen := packetsSeen + 1;
      validPackets := validPackets + 1;
      if remoteId.None? {
        remoteId := Some(frame.serialId);
      } else if frame.serialId != remoteId.value {
        return Some(Stopped(LearnResult(Failure(InconsistentRemoteId), remoteId, packetsSeen, validPackets, None)));
      }
      var frameKey := frame.WireWords();
      if frameKey in seenFrames {
        if IsRestore(promptLabel) {
          return Some(Captured(frame));
        }
        return None;
      }
      seenFrames := seenFrames + {frameKey};
      packets := packets + [frame];
      return Some(Captured(frame));
    }

    /** async_capture_next_learning_packet: the loop until a packet answers the prompt or the deadline passes. */
    method CaptureNext(received: seq<Option<Frame>>) returns (used: nat, capture: Capture)
      modifies this
      ensures (used, capture) == Prompted(old(Fields()), old(promptLabel), received)
      ensures Fields() == ReceivedAll(old(Fields()), Heard(received[..used]))
      ensures promptLabel == old(promptLabel)
    {
      hide Receive, Verdict, ReceivedAll, Heard;
      used := 0;
      NothingReceived(Fields());
      while used < |received|
        invariant used <= |received| && promptLabel == old(promptLabel)
        invariant Fields() == ReceivedAll(old(Fields()), Heard(received[..used]))
        invariant Prompted(old(Fields()), promptLabel, received).0 == used + Prompted(Fields(), promptLabel, received[used..]).0
        invariant Prompted(old(Fields()), promptLabel, received).1 == Prompted(Fields(), promptLabel, received[used..]).1
      {
        var packet := received[used];
        HeardMore(old(Fields()), received, used);
        used := used + 1;
        if packet.None? {
          continue;
        }
        var verdict := Take(packet.value);
        if verdict.Some? {
          capture := verdict.value;
          return;
        }
      }
      capture := Stopped(LearnResult(Failure(Timeout), remoteId, packetsSeen, validPackets, None));
    }
  }

  lemma NothingReceived(s: Session)
    ensures ReceivedAll(s, Heard([])) == s
  {}

  lemma {:induction false} ReceivedAppend(s: Session, a: seq<Frame>, b: seq<Frame>)
    ensures ReceivedAll(s, a + b) == ReceivedAll(ReceivedAll(s, a), b)
    decreases |a|
  {
    hide Receive;
    if a == [] {
      assert a + b == b;
    } else {
      assert (a + b)[1..] == a[1..] + b;
      ReceivedAppend(Receive(s, a[0]), a[1..], b);
    }
  }

  lemma {:induction false} HeardAppend(a: seq<Option<Frame>>, b: seq<Option<Frame>>)
    ensures Heard(a + b) == Heard(a) + Heard(b)
  {
    if a == [] {
      assert a + b == b;
    } else {
      assert (a + b)[1..] == a[1..] + b;
      HeardAppend(a[1..], b);
    }
  }

  lemma HeardMore(s: Session, received: seq<Option<Frame>>, used: nat)
    requires used < |received|
    ensures ReceivedAll(s, Heard(received[..used + 1]))
         == (var before := ReceivedAll(s, Heard(received[..used]));
             if received[used].Some? then Receive(before, received[used].value) else before)
  {
    hide Receive;
    assert received[..used + 1] == received[..used] + [received[used]];
    HeardAppend(received[..used], [received[used]]);
    if received[used].Some? {
      var frame := received[used].value;
      assert Heard([received[used]]) == [frame];
      ReceivedAppend(s, Heard(received[..used]), [frame]);
      assert ReceivedAll(ReceivedAll(s, Heard(received[..used])), [frame]) == Receive(ReceivedAll(s, Heard(received[..used])), frame);
    } else {
      assert Heard([received[used]]) == [];
      assert Heard(received[..used]) + [] == Heard(received[..used]);
    }
  }

  ghost predicate Distinct(packets: seq<Frame>) {
    forall i, j :: 0 <= i < j < |packets| ==> packets[i].WireWords() != packets[j].WireWords()
  }

  /** What a session has made of the packets it heard, in whatever order and however often they came. */
  ghost predicate SessionOf(s: Session, frames: seq<Frame>) {
    && s.validPackets == s.packetsSeen == |frames|
    && s.remoteId == (if frames == [] then None else Some(frames[0].serialId))
    && Distinct(s.packets)
    && (forall p :: p in s.packets ==> p in frames && !IsStranger(s.remoteId, p))
    && (forall f :: f in frames && !IsStranger(s.remoteId, f) ==> f.WireWords() in s.seenFrames)
    && (forall words :: words in s.seenFrames <==> exists p :: p in s.packets && p.WireWords() == words)
  }

  lemma ReceiveKeeps(s: Session, frames: seq<Frame>, frame: Frame)
    requires SessionOf(s, frames)
    ensures SessionOf(Receive(s, frame), frames + [frame])
  {
    hide Frame.WireWords;
    var t := Receive(s, frame);
    if !IsStranger(s.remoteId, frame) && frame.WireWords() !in s.seenFrames {
      forall p | p in s.packets ensures p.WireWords() != frame.WireWords() {}
      assert t.packets[|s.packets|] == frame;
      forall words | words in t.seenFrames ensures exists p :: p in t.packets && p.WireWords() == words {
        if words in s.seenFrames {
          var p :| p in s.packets && p.WireWords() == words;
          assert p in t.packets;
        } else {
          assert frame in t.packets;
        }
      }
    }
  }

  /** A session over any packets at all: its packets are pairwise distinct, match the seen set and share one remote id. */
  lemma {:induction false} SessionMeaning(frames: seq<Frame>)
    ensures SessionOf(ReceivedAll(NEW_SESSION, frames), frames)
  {
    hide SessionOf, Receive;
    if frames == [] {
      assert SessionOf(NEW_SESSION, []) by { EmptySession(); }
    } else {
      var n := |frames| - 1;
      SessionMeaning(frames[..n]);
      ReceiveKeeps(ReceivedAll(NEW_SESSION, frames[..n]), frames[..n], frames[n]);
      assert frames == frames[..n] + [frames[n]];
      ReceivedAppend(NEW_SESSION, frames[..n], [frames[n]]);
    }
  }

  lemma EmptySession()
    ensures SessionOf(NEW_SESSION, [])
  {}

  /** A frame of the locked remote whose words the session has seen. */
  predicate IsRepeat(s: Session, frame: Frame) { !IsStranger(s.remoteId, frame) && frame.WireWords() in s.seenFrames }

  ghost predicate Repeats(s: Session, frames: seq<Frame>) { forall i :: 0 <= i < |frames| ==> IsRepeat(s, frames[i]) }

  /**
    How a prompt ends.  It skips repeats until a new frame of the remote, or any frame of it for the restore prompt, answers it;
    until another remote is heard; or until the deadline.
   */
  lemma {:induction false} PromptMeaning(s: Session, prompt: string, received: seq<Option<Frame>>)
    requires s.seenFrames != {} ==> s.remoteId.Some?
    ensures var (used, capture) := Prompted(s, prompt, received);
            var heard := Heard(received[..used]);
            match capture
            case Captured(packet) =>
              && heard != [] && heard[|heard| - 1] == packet && Repeats(s, heard[..|heard| - 1])
              && !IsStranger(s.remoteId, packet) && (!IsRepeat(s, packet) || prompt == "restore_power_on")
            case Stopped(result) =>
              && result.packetsSeen == s.packetsSeen + |heard| && result.validPackets == s.validPackets + |heard|
              && result.remoteId == (if s.remoteId.Some? || heard == [] then s.remoteId else Some(heard[0].serialId))
              && result.finalPacket.None?
              && if result.outcome == Failure(Timeout) then
                   used == |received| && Repeats(s, heard) && (heard != [] ==> prompt != "restore_power_on")
                 else
                   && result.outcome == Failure(InconsistentRemoteId) && heard != []
                   && Repeats(s, heard[..|heard| - 1]) && IsStranger(s.remoteId, heard[|heard| - 1])
    decreases |received|
  {
    hide Frame.WireWords, Receive, Heard;
    NothingHeard();
    if received != [] {
      var (used, capture) := Prompted(s, prompt, received);
      HeardFirst(received, used);
      if received[0].Some? {
        ReceiveCounts(s, received[0].value);
      }
      if received[0].None? {
        PromptMeaning(s, prompt, received[1..]);
      } else if Verdict(s, prompt, received[0].value).None? {
        var next := Receive(s, received[0].value);
        RepeatLeaves(s, received[0].value);
        PromptMeaning(next, prompt, received[1..]);
      } else {
        assert received[1..][..0] == [];
      }
    }
  }

  lemma ReceiveCounts(s: Session, frame: Frame)
    ensures Receive(s, frame).packetsSeen == s.packetsSeen + 1 && Receive(s, frame).validPackets == s.validPackets + 1
    ensures Receive(s, frame).remoteId == if s.remoteId.Some? then s.remoteId else Some(frame.serialId)
  {
    hide Frame.WireWords;
  }

  lemma NothingHeard()
    ensures Heard([]) == []
  {}

  /** A repeat only counts. */
  lemma RepeatLeaves(s: Session, frame: Frame)
    requires IsRepeat(s, frame) && s.remoteId.Some?
    ensures Receive(s, frame).remoteId == s.remoteId && Receive(s, frame).seenFrames == s.seenFrames
  {}

  lemma HeardFirst(received: seq<Option<Frame>>, used: nat)
    requires 0 < used <= |received|
    ensures Heard(received[..used])
         == (if received[0].Some? then [received[0].value] else []) + Heard(received[1..][..used - 1])
  {
    assert received[..used][0] == received[0] && received[..used][1..] == received[1..][..used - 1];
  }
}
