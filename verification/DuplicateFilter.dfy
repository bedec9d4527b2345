/**
  The active listener of esphome/components/proflame2_tembed/active_listener.cpp: classifying one FIFO
  window and suppressing repeats of the last accepted packet with wrapping 32-bit ticks.
 */
module DuplicateFilter {

  const TICKS := 0x1_0000_0000

  type Tick = n: nat | n < TICKS

  datatype Packet = Packet(serialId: nat, cmd1: bv8, cmd2: bv8, err1: bv8, err2: bv8)

  /** What the FIFO decoder reports for a window, as far as this filter looks at it; FirmwareDecoder models the decoder itself. */
  datatype Decoded =
    | Decoded(packet: Packet)
    | Rejected(candidateSeen: bool, serialMatched: bool, reason: RejectReason)

  datatype RejectReason = NoReason | WrongSerialId | EccMismatch | NoMatchingProfileCandidate | OtherReason

  datatype DropStage = NoRfCaptured | FifoIncomplete | ProfileMismatch | DecodeFailed

  datatype Outcome =
    | IdleNoCandidate
    | Dropped(stage: DropStage)
    | Duplicate(packet: Packet, age: Tick)
    | Accepted(packet: Packet)

  /** One evaluated window. */
  datatype Window = Window(selectedCount: nat, trailingComplete: bool, decoded: Decoded)

  /** What is remembered of a packet: the serial number keeps its low 24 bits. */
  datatype Remembered = Remembered(tick: Tick, serialId: nat, cmd1: bv8, cmd2: bv8, err1: bv8, err2: bv8)

  function Remember(packet: Packet, tick: Tick): Remembered {
    Remembered(tick, packet.serialId % 0x100_0000, packet.cmd1, packet.cmd2, packet.err1, packet.err2)
  }

  predicate SamePacket(a: Packet, b: Packet) {
    && a.serialId % 0x100_0000 == b.serialId % 0x100_0000
    && a.cmd1 == b.cmd1 && a.cmd2 == b.cmd2 && a.err1 == b.err1 && a.err2 == b.err2
  }

  /** `complete_ms - last` in unsigned 32-bit arithmetic. */
  function TickDifference(now: Tick, last: Tick): Tick { (now + TICKS - last) % TICKS }

  function ProfileMismatchRejection(candidateSeen: bool, serialMatched: bool, reason: RejectReason): bool {
    (serialMatched || candidateSeen) && reason != OtherReason
  }

  function IsDuplicate(last: Remembered, packet: Packet, now: Tick, dedup: Tick): bool {
    last.tick != 0 && TickDifference(now, last.tick) < dedup && last == Remember(packet, last.tick)
  }

  /** What one window does to the remembered packet, and its outcome. */
  function Step(last: Remembered, w: Window, now: Tick, dedup: Tick): (Remembered, Outcome) {
    if w.selectedCount == 0 then (last, Dropped(NoRfCaptured))
    else if !w.trailingComplete then (last, Dropped(FifoIncomplete))
    else
      match w.decoded
      case Rejected(seen, matched, reason) =>
        if !seen then (last, IdleNoCandidate)
        else (last, Dropped(if ProfileMismatchRejection(seen, matched, reason) then ProfileMismatch else DecodeFailed))
      case Decoded(packet) =>
        if IsDuplicate(last, packet, now, dedup) then (last, Duplicate(packet, TickDifference(now, last.tick)))
        else (Remember(packet, now), Accepted(packet))
  }

  class ActiveListenerController {
    var lastTick: Tick
    var lastSerialId: nat
    var lastCmd1: bv8
    var lastCmd2: bv8
    var lastErr1: bv8
    var lastErr2: bv8

    ghost function Last(): Remembered
      reads this
    {
      Remembered(lastTick, lastSerialId, lastCmd1, lastCmd2, lastErr1, lastErr2)
    }

    constructor ()
      ensures Last() == Remembered(0, 0, 0, 0, 0, 0)
    {
      lastTick, lastSerialId, lastCmd1, lastCmd2, lastErr1, lastErr2 := 0, 0, 0, 0, 0, 0;
    }

    /** evaluate_window: its outcome and its new state are those of `Step`. */
    method EvaluateWindow(w: Window, completeMs: Tick, dedupMs: Tick) returns (outcome: Outcome)
      modifies this
      ensures (Last(), outcome) == Step(old(Last()), w, completeMs, dedupMs)
    {
      if w.selectedCount == 0 {
        return Dropped(NoRfCaptured);
      }
      if !w.trailingComplete {
        return Dropped(FifoIncomplete);
      }
      match w.decoded {
        case Rejected(seen, matched, reason) =>
          if !seen {
            return IdleNoCandidate;
          }
          return Dropped(if ProfileMismatchRejection(seen, matched, reason) then ProfileMismatch else DecodeFailed);
        case Decoded(packet) =>
          var duplicate, age := CheckDuplicate(packet, completeMs, dedupMs);
          if duplicate {
            return Duplicate(packet, age);
          }
          RememberAccepted(packet, completeMs);
          return Accepted(packet);
      }
    }

    /** is_duplicate_: a remembered tick of zero means that nothing was accepted yet. */
    method CheckDuplicate(packet: Packet, completeMs: Tick, dedupMs: Tick) returns (duplicate: bool, age: Tick)
      ensures duplicate <==> IsDuplicate(Last(), packet, completeMs, dedupMs)
      ensures duplicate ==> age == TickDifference(completeMs, lastTick)
    {
      if lastTick == 0 {
        return false, 0;
      }
      age := TickDifference(completeMs, lastTick);
      duplicate := age < dedupMs && lastSerialId == packet.serialId % 0x100_0000 && lastCmd1 == packet.cmd1
        && lastCmd2 == packet.cmd2 && lastErr1 == packet.err1 && lastErr2 == packet.err2;
    }

    /** remember_accepted_ */
    method RememberAccepted(packet: Packet, completeMs: Tick)
      modifies this
      ensures Last() == Remember(packet, completeMs)
    {
      lastTick := completeMs;
      lastSerialId := packet.serialId % 0x100_0000;
      lastCmd1, lastCmd2 := packet.cmd1, packet.cmd2;
      lastErr1, lastErr2 := packet.err1, packet.err2;
    }
  }

  // ----- Whole runs -----

  /** A window that completes at a real time, of which the listener sees the low 32 bits. */
  datatype Event = Event(time: nat, window: Window)

  function TickOf(time: nat): Tick { time % TICKS }

  /** What is remembered after the first n events. */
  function After(initial: Remembered, events: seq<Event>, dedup: Tick, n: nat): Remembered
    requires n <= |events|
  {
    if n == 0 then initial
    else Step(After(initial, events, dedup, n - 1), events[n - 1].window, TickOf(events[n - 1].time), dedup).0
  }

  function OutcomeAt(initial: Remembered, events: seq<Event>, dedup: Tick, n: nat): Outcome
    requires n < |events|
  {
    Step(After(initial, events, dedup, n), events[n].window, TickOf(events[n].time), dedup).1
  }

  ghost predicate InOrder(events: seq<Event>) {
    forall i, j :: 0 <= i < j < |events| ==> events[i].time <= events[j].time
  }

  /** Event i was accepted and nothing between i and j was. */
  ghost predicate LastAcceptedBefore(initial: Remembered, events: seq<Event>, dedup: Tick, i: nat, j: nat) {
    && i < j < |events|
    && OutcomeAt(initial, events, dedup, i).Accepted?
    && forall k :: i < k < j ==> !OutcomeAt(initial, events, dedup, k).Accepted?
  }

  /** An event whose window reaches the duplicate check. */
  predicate Decodes(e: Event) {
    e.window.selectedCount > 0 && e.window.trailingComplete && e.window.decoded.Decoded?
  }

  lemma {:induction false} RemembersLastAccepted(initial: Remembered, events: seq<Event>, dedup: Tick, i: nat, j: nat)
    requires LastAcceptedBefore(initial, events, dedup, i, j)
    ensures Decodes(events[i])
    ensures After(initial, events, dedup, j) == Remember(events[i].window.decoded.packet, TickOf(events[i].time))
    decreases j
  {
    if j > i + 1 {
      RemembersLastAccepted(initial, events, dedup, i, j - 1);
      assert !OutcomeAt(initial, events, dedup, j - 1).Accepted?;
    }
  }

  /** Wrapping subtraction of ticks is the elapsed real time modulo 2^32. */
  lemma TickDifferenceIsElapsed(now: nat, last: nat)
    requires last <= now
    ensures TickDifference(TickOf(now), TickOf(last)) == (now - last) % TICKS
  {
    var a, b := now / TICKS, last / TICKS;
    var x, y := TickOf(now), TickOf(last);
    assert now == a * TICKS + x && last == b * TICKS + y;
    var d := x + TICKS - y;
    assert now - last == (a - b - 1) * TICKS + d;
  }

  /**
    The exact law: after an accepted event, a decoded window is called a duplicate precisely when the
    accepted tick was not zero, the packets agree, and the elapsed time modulo 2^32 is below the window.
   */
  lemma DuplicateIff(initial: Remembered, events: seq<Event>, dedup: Tick, i: nat, j: nat)
    requires InOrder(events) && LastAcceptedBefore(initial, events, dedup, i, j) && Decodes(events[j])
    ensures Decodes(events[i])
    ensures OutcomeAt(initial, events, dedup, j).Duplicate?
       <==> && TickOf(events[i].time) != 0
            && SamePacket(events[i].window.decoded.packet, events[j].window.decoded.packet)
            && (events[j].time - events[i].time) % 0x1_0000_0000 < dedup
    ensures OutcomeAt(initial, events, dedup, j).Duplicate? || OutcomeAt(initial, events, dedup, j).Accepted?
  {
    hide After;
    RemembersLastAccepted(initial, events, dedup, i, j);
    TickDifferenceIsElapsed(events[j].time, events[i].time);
  }

  /** Two consecutive accepted equal packets are at least the window apart in real time, across counter wrap too. */
  lemma AcceptedRepeatsAreApart(initial: Remembered, events: seq<Event>, dedup: Tick, i: nat, j: nat)
    requires InOrder(events) && LastAcceptedBefore(initial, events, dedup, i, j)
    requires OutcomeAt(initial, events, dedup, j).Accepted?
    requires Decodes(events[i]) && Decodes(events[j]) && SamePacket(events[i].window.decoded.packet, events[j].window.decoded.packet)
    requires TickOf(events[i].time) != 0
    ensures events[j].time - events[i].time >= dedup
  {
    hide After, OutcomeAt;
    DuplicateIff(initial, events, dedup, i, j);
    var elapsed := events[j].time - events[i].time;
    assert elapsed < TICKS ==> elapsed % TICKS == elapsed;
  }

  /** A repeat that arrives after the window, and before the counter comes round, is accepted again. */
  lemma LateRepeatsAreAccepted(initial: Remembered, events: seq<Event>, dedup: Tick, i: nat, j: nat)
    requires InOrder(events) && LastAcceptedBefore(initial, events, dedup, i, j) && Decodes(events[j])
    requires dedup <= events[j].time - events[i].time < TICKS
    ensures OutcomeAt(initial, events, dedup, j).Accepted?
  {
    hide After, OutcomeAt;
    DuplicateIff(initial, events, dedup, i, j);
  }

  /** The zero tick is also the "nothing yet" mark: a packet accepted at tick zero is never suppressed. */
  lemma ZeroTickIsNotSuppressed(packet: Packet, dedup: Tick)
    requires dedup > 1
    ensures var w := Window(1, true, Decoded(packet));
            var events := [Event(TICKS, w), Event(TICKS + 1, w)];
            var initial := Remembered(0, 0, 0, 0, 0, 0);
            OutcomeAt(initial, events, dedup, 0).Accepted? && OutcomeAt(initial, events, dedup, 1).Accepted?
  {
    var w := Window(1, true, Decoded(packet));
    var events := [Event(TICKS, w), Event(TICKS + 1, w)];
    var initial := Remembered(0, 0, 0, 0, 0, 0);
    assert After(initial, events, dedup, 0) == initial;
    assert After(initial, events, dedup, 1) == Remember(packet, 0);
  }
}
