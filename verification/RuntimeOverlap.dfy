/**
  An edit that is staged while a send is in progress: what becomes of it, over every order in which the debounce fires and the
  sends end.
 */
module RuntimeOverlap {
  import opened Wrappers
  import opened StateCodec
  import Control
  import opened Runtime
  import opened RuntimeRuns

  /** The edit waits for its timer, missed it because a send ended first, or was caught by a send of its own. */
  datatype Phase = Waits | Missed | Caught

  /** Whose state was commanded last: neither's since the edit, that of the send in progress, or the edit's. */
  datatype Last = Before | Sent | Staged

  datatype Fate = Fate(phase: Phase, sentGone: bool, stagedGone: bool, sentDone: bool, stagedDone: bool, last: Last)

  /** The send in progress keeps the first place while it lasts. */
  predicate IsSent(f: Fate, i: nat) { i == 0 && !f.sentGone }

  /** The end of any send takes a staged state that still waits. */
  function Ended(f: Fate, i: nat): Fate {
    var g := if f.phase == Waits then f.(phase := Missed) else f;
    if IsSent(f, i) then g.(sentGone := true) else g.(stagedGone := true)
  }

  function NextFate(f: Fate, event: Event): Fate {
    match event
    case Fire => if f.phase == Waits then f.(phase := Caught) else f
    case Succeed(i) => if IsSent(f, i) then f.(sentDone := true, last := Sent) else f.(stagedDone := true, last := Last.Staged)
    case Finish(i) => Ended(f, i)
    case Fail(i, _) => Ended(f, i)
    case _ => f
  }

  function FateAfter(f: Fate, events: seq<Event>): Fate {
    if events == [] then f else NextFate(FateAfter(f, events[..|events| - 1]), events[|events| - 1])
  }

  /** Timers, sends and their ends, without further edits, calls or observations. */
  predicate IsQuiet(event: Event) {
    match event
    case Fire => true
    case Begin(_) => true
    case Succeed(_) => true
    case Fail(_, _) => true
    case Finish(_) => true
    case Settle(_) => true
    case Expire => true
    case _ => false
  }

  /** The send in progress, the state of the edit, and the known state after the edit. */
  datatype Overlap = Overlap(send: Send, staged: State, known: Option<State>)

  function Commanded(o: Overlap, last: Last): Option<State> {
    match last
    case Before => o.known
    case Sent => Some(o.send.requested)
    case Staged => Some(o.staged)
  }

  predicate Sendable(send: Send) { TransmitError(send.requested, false, send.debounced).None? }

  function OwnSend(o: Overlap): Send { Send(o.staged, true, None) }

  predicate IsFlightOf(flight: Flight, send: Send, done: bool, profile: Profile) {
    flight.send == send && CarriesItsSend(flight, profile) && (flight.Recording? <==> done)
  }

  predicate OwnFlies(f: Fate) { f.phase == Caught && !f.stagedGone }

  /** How the fate of the edit shows in the entry and its sends. */
  predicate Tracks(w: World, o: Overlap, f: Fate) {
    && !w.entry.shuttingDown && w.entry.backendAvailable && Sendable(o.send) && Sendable(OwnSend(o))
    && Current(w.entry) == Commanded(o, f.last)
    && |w.flights| == (if f.sentGone then 0 else 1) + (if OwnFlies(f) then 1 else 0)
    && (!f.sentGone ==> IsFlightOf(w.flights[0], o.send, f.sentDone, w.entry.profile))
    && (OwnFlies(f) ==> IsFlightOf(w.flights[|w.flights| - 1], OwnSend(o), f.stagedDone, w.entry.profile))
    && match f.phase
       case Waits => w.entry.desired == Some(o.staged) && w.entry.debouncePending && !f.sentGone && !f.stagedGone && !f.stagedDone
       case Missed => w.entry.desired.None? && !f.stagedGone && !f.stagedDone
       case Caught => !w.entry.debouncePending && (f.sentGone || f.stagedGone ==> w.entry.desired.None?)
  }

  lemma BeginTracks(w: World, o: Overlap, f: Fate, i: nat)
    requires Tracks(w, o, f) && Enabled(w, Begin(i))
    ensures Tracks(Next(w, Begin(i)), o, f)
  {
    hide EncodeState, DecodeState, TransmitError, Carried;
    StateRoundTrip(w.flights[i].send.requested, w.entry.profile, w.flights[i].send.debounced);
  }

  lemma FireTracks(w: World, o: Overlap, f: Fate)
    requires Tracks(w, o, f) && Enabled(w, Fire)
    ensures Tracks(Next(w, Fire), o, NextFate(f, Fire))
  {
    hide EncodeState, TransmitError;
  }

  lemma SucceedTracks(w: World, o: Overlap, f: Fate, i: nat)
    requires Tracks(w, o, f) && Enabled(w, Succeed(i))
    ensures Tracks(Next(w, Succeed(i)), o, NextFate(f, Succeed(i)))
  {
    hide EncodeState, TransmitError;
  }

  lemma EndTracks(w: World, o: Overlap, f: Fate, event: Event)
    requires Tracks(w, o, f) && Enabled(w, event) && (event.Finish? || event.Fail?)
    ensures Tracks(Next(w, event), o, NextFate(f, event))
  {
    hide CarriesItsSend, TransmitError;
  }

  lemma StepTracks(w: World, o: Overlap, f: Fate, event: Event)
    requires Tracks(w, o, f) && Enabled(w, event) && IsQuiet(event)
    ensures Tracks(Next(w, event), o, NextFate(f, event))
  {
    hide CarriesItsSend, TransmitError, BeginStep;
    match event
    case Fire => FireTracks(w, o, f);
    case Begin(i) => BeginTracks(w, o, f, i);
    case Succeed(i) => SucceedTracks(w, o, f, i);
    case Finish(_) => EndTracks(w, o, f, event);
    case Fail(_, _) => EndTracks(w, o, f, event);
    case _ =>
  }

  lemma {:induction false} RunTracks(w: World, o: Overlap, f: Fate, events: seq<Event>)
    requires Tracks(w, o, f) && (forall event :: event in events ==> IsQuiet(event)) && After(w, events).Some?
    ensures Tracks(After(w, events).value, o, FateAfter(f, events))
  {
    hide Tracks, Enabled, Next, NextFate, IsQuiet;
    if events != [] {
      var n := |events| - 1;
      assert events[n] in events;
      RunTracks(w, o, f, events[..n]);
      StepTracks(After(w, events[..n]).value, o, FateAfter(f, events[..n]), events[n]);
    }
  }

  /** One send that may be sent, in any of its phases, no timer, and a live entry with a backend. */
  predicate IsSending(w: World) {
    && !w.entry.shuttingDown && w.entry.backendAvailable && !w.entry.debouncePending
    && |w.flights| == 1 && Sendable(w.flights[0].send) && CarriesItsSend(w.flights[0], w.entry.profile)
  }

  /** The state an edit asks for. */
  function StagedState(e: Entry, changes: Control.Changes): State
    requires Effective(e).Some? && Control.Staged(e.features, Effective(e).value, changes).Ok?
  {
    Control.Staged(e.features, Effective(e).value, changes).value
  }

  function StartFate(w: World, phase: Phase): Fate
    requires |w.flights| == 1
  {
    Fate(phase, false, false, w.flights[0].Recording?, false, Before)
  }

  /** The edit came to nothing, was already known, or was kept as a setting: it leaves no staged state and no timer. */
  lemma SettledEdit(e: Entry, changes: Control.Changes)
    requires StageStep(e, changes).1.MatchesCurrent? || StageStep(e, changes).1.Retained?
    ensures !e.shuttingDown && Effective(e).Some? && Control.Staged(e.features, Effective(e).value, changes).Ok?
    ensures var r := StageStep(e, changes).0;
            r.desired.None? && !r.debouncePending && Current(r) == Some(StagedState(e, changes))
    ensures StageStep(e, changes).1.Retained? ==> EncodeState(StagedState(e, changes), e.profile, true).Ok?
  {
    hide Control.Staged, EncodeState;
  }

  /** An edit during a send starts to wait, or has already missed. */
  lemma EditTracks(w: World, changes: Control.Changes)
    requires IsSending(w)
    requires StageStep(w.entry, changes).1 in {Pended, MatchesCurrent, Retained}
    ensures Effective(w.entry).Some? && Control.Staged(w.entry.features, Effective(w.entry).value, changes).Ok?
    ensures Sendable(Send(StagedState(w.entry, changes), true, None)) ==>
              var v := Next(w, Edit(changes));
              Tracks(v, Overlap(w.flights[0].send, StagedState(w.entry, changes), Current(v.entry)),
                     StartFate(w, if StageStep(w.entry, changes).1 == Pended then Waits else Missed))
  {
    hide StageStep, CarriesItsSend, Control.Staged, TransmitError;
    StagingLeaves(w.entry, changes);
    if StageStep(w.entry, changes).1 == Pended {
      PendedStages(w.entry, changes);
    } else {
      SettledEdit(w.entry, changes);
    }
  }

  /** A run after an edit: timers and sends, until no send is left. */
  predicate RunsOut(w: World, changes: Control.Changes, events: seq<Event>) {
    && (forall event :: event in events ==> IsQuiet(event))
    && After(Next(w, Edit(changes)), events).Some?
    && After(Next(w, Edit(changes)), events).value.flights == []
  }

  /**
    Failures included, the shown state after the sends is the one commanded last, which the order of the events decides: the
    edit's own send exists if its timer fired before any send ended.
   */
  lemma FateOfEdit(w: World, changes: Control.Changes, events: seq<Event>)
    requires IsSending(w) && RunsOut(w, changes, events)
    requires StageStep(w.entry, changes).1 in {Pended, MatchesCurrent, Retained}
    requires Effective(w.entry).Some? && Control.Staged(w.entry.features, Effective(w.entry).value, changes).Ok?
    requires Sendable(Send(StagedState(w.entry, changes), true, None))
    ensures var v := Next(w, Edit(changes));
            var o := Overlap(w.flights[0].send, StagedState(w.entry, changes), Current(v.entry));
            var f := StartFate(w, if StageStep(w.entry, changes).1 == Pended then Waits else Missed);
            && Effective(After(v, events).value.entry) == Commanded(o, FateAfter(f, events).last)
            && Tracks(After(v, events).value, o, FateAfter(f, events))
  {
    hide StageStep, After, FateAfter, Sendable, IsFlightOf, StagedState, IsQuiet, CarriesItsSend;
    var v := Next(w, Edit(changes));
    var o := Overlap(w.flights[0].send, StagedState(w.entry, changes), Current(v.entry));
    var f := StartFate(w, if StageStep(w.entry, changes).1 == Pended then Waits else Missed);
    EditTracks(w, changes);
    RunTracks(v, o, f, events);
  }

  // ----- The exact condition, when no send fails -----

  predicate SomeFinish(events: seq<Event>) { exists i :: 0 <= i < |events| && events[i].Finish? }

  /** The timer fires before any send ends. */
  predicate FiredInTime(events: seq<Event>) { exists i :: 0 <= i < |events| && events[i].Fire? && !SomeFinish(events[..i]) }

  /** The edit's own send, in the second place, succeeds before the send it overlaps. */
  predicate Overtakes(events: seq<Event>) {
    exists i, j :: 0 <= i < j < |events| && events[i] == Succeed(1) && events[j] == Succeed(0)
  }

  lemma FinishMore(events: seq<Event>, event: Event)
    ensures SomeFinish(events + [event]) <==> SomeFinish(events) || event.Finish?
  {
    var more := events + [event];
    if i :| 0 <= i < |events| && events[i].Finish? {
      assert more[i].Finish?;
    }
    assert more[|events|] == event;
  }

  lemma FiredMore(events: seq<Event>, event: Event)
    ensures FiredInTime(events + [event]) <==> FiredInTime(events) || (event.Fire? && !SomeFinish(events))
  {
    hide SomeFinish;
    var more := events + [event];
    forall i | 0 <= i <= |events| ensures more[..i] == events[..i] {}
    assert events[..|events|] == events;
    if i :| 0 <= i < |events| && events[i].Fire? && !SomeFinish(events[..i]) {
      assert more[i].Fire? && !SomeFinish(more[..i]);
    }
    if event.Fire? && !SomeFinish(events) {
      assert more[|events|].Fire? && !SomeFinish(more[..|events|]);
    }
  }

  lemma OvertakesMore(events: seq<Event>, event: Event)
    ensures Overtakes(events + [event]) <==> Overtakes(events) || (event == Succeed(0) && Succeed(1) in events)
  {
    var more := events + [event];
    if i, j :| 0 <= i < j < |events| && events[i] == Succeed(1) && events[j] == Succeed(0) {
      assert more[i] == Succeed(1) && more[j] == Succeed(0);
    }
    if event == Succeed(0) && Succeed(1) in events {
      var i :| 0 <= i < |events| && events[i] == Succeed(1);
      assert more[i] == Succeed(1) && more[|events|] == Succeed(0);
    }
  }

  /** What the events so far say about the fate, when none of them is a failure. */
  predicate Reads(f: Fate, events: seq<Event>, recording: bool) {
    && (f.phase == Caught <==> FiredInTime(events))
    && (f.phase == Waits ==> !SomeFinish(events)) && (f.phase == Missed ==> SomeFinish(events))
    && (f.sentGone ==> f.sentDone) && (f.stagedGone ==> f.stagedDone)
    && (f.last == Last.Staged ==> f.stagedDone) && (f.stagedDone || (f.sentDone && !recording) ==> f.last != Before)
    && (Succeed(1) in events ==> f.stagedDone) && (f.stagedDone && !f.sentGone ==> Succeed(1) in events)
    && (Overtakes(events) <==> f.stagedDone && f.last == Sent)
  }

  lemma StepReads(w: World, o: Overlap, f: Fate, events: seq<Event>, event: Event, recording: bool)
    requires Tracks(w, o, f) && Reads(f, events, recording) && Enabled(w, event) && IsQuiet(event) && !event.Fail?
    ensures Reads(NextFate(f, event), events + [event], recording)
  {
    hide CarriesItsSend, Sendable, SomeFinish, FiredInTime, Overtakes;
    FinishMore(events, event);
    FiredMore(events, event);
    OvertakesMore(events, event);
  }

  lemma NothingRead(f: Fate)
    requires f.phase == Waits && !f.sentGone && !f.stagedGone && !f.stagedDone && f.last == Before
    ensures Reads(f, [], f.sentDone)
  {}

  lemma {:induction false} RunReads(w: World, o: Overlap, f: Fate, events: seq<Event>)
    requires Tracks(w, o, f) && f == Fate(Waits, false, false, f.sentDone, false, Before) && After(w, events).Some?
    requires forall event :: event in events ==> IsQuiet(event) && !event.Fail?
    ensures Reads(FateAfter(f, events), events, f.sentDone)
  {
    hide Tracks, Enabled, Next, NextFate, IsQuiet, Reads;
    if events == [] {
      NothingRead(f);
    } else {
      var n := |events| - 1;
      assert events[n] in events && events == events[..n] + [events[n]];
      RunReads(w, o, f, events[..n]);
      RunTracks(w, o, f, events[..n]);
      StepReads(After(w, events[..n]).value, o, FateAfter(f, events[..n]), events[..n], events[n], f.sentDone);
    }
  }

  /**
    A pending edit during a send takes effect if and only if it asked for the state being sent, or its timer fires before the
    first send ends and its own send is not overtaken by the one it overlaps.  For every order of events without a failure.
   */
  lemma EditDuringSendSurvivesIff(w: World, changes: Control.Changes, events: seq<Event>)
    requires IsSending(w) && RunsOut(w, changes, events) && forall event :: event in events ==> !event.Fail?
    requires w.flights[0].Recording? ==> Current(w.entry) == Some(w.flights[0].send.requested)
    requires StageStep(w.entry, changes).1 == Pended
    requires Effective(w.entry).Some? && Control.Staged(w.entry.features, Effective(w.entry).value, changes).Ok?
    requires Sendable(Send(StagedState(w.entry, changes), true, None))
    ensures Effective(After(Next(w, Edit(changes)), events).value.entry) == Some(StagedState(w.entry, changes))
       <==> || StagedState(w.entry, changes) == w.flights[0].send.requested
            || (FiredInTime(events) && !Overtakes(events))
  {
    hide StageStep, After, FateAfter, Sendable, IsFlightOf, StagedState, IsQuiet, FiredInTime, Overtakes, SomeFinish, CarriesItsSend;
    var v := Next(w, Edit(changes));
    var o := Overlap(w.flights[0].send, StagedState(w.entry, changes), Current(v.entry));
    FateOfEdit(w, changes, events);
    EditTracks(w, changes);
    RunReads(v, o, StartFate(w, Waits), events);
    PendedStages(w.entry, changes);
  }

  /** An edit that was already known or kept as a setting is overwritten by a send that has not succeeded yet, and only by that. */
  lemma SettledEditSurvivesIff(w: World, changes: Control.Changes, events: seq<Event>)
    requires IsSending(w) && RunsOut(w, changes, events) && forall event :: event in events ==> !event.Fail?
    requires StageStep(w.entry, changes).1 in {MatchesCurrent, Retained}
    requires Effective(w.entry).Some? && Control.Staged(w.entry.features, Effective(w.entry).value, changes).Ok?
    requires Sendable(Send(StagedState(w.entry, changes), true, None))
    ensures Effective(After(Next(w, Edit(changes)), events).value.entry) == Some(StagedState(w.entry, changes))
       <==> StagedState(w.entry, changes) == w.flights[0].send.requested || w.flights[0].Recording?
  {
    hide StageStep, After, FateAfter, Sendable, IsFlightOf, StagedState, IsQuiet, CarriesItsSend;
    var v := Next(w, Edit(changes));
    var o := Overlap(w.flights[0].send, StagedState(w.entry, changes), Current(v.entry));
    FateOfEdit(w, changes, events);
    EditTracks(w, changes);
    RunMisses(v, o, StartFate(w, Missed), events);
    SettledEdit(w.entry, changes);
  }

  /** Without a staged state only the send in progress can command anything. */
  lemma {:induction false} RunMisses(w: World, o: Overlap, f: Fate, events: seq<Event>)
    requires Tracks(w, o, f) && f == Fate(Missed, false, false, f.sentDone, false, Before) && After(w, events).Some?
    requires forall event :: event in events ==> IsQuiet(event) && !event.Fail?
    ensures var g := FateAfter(f, events);
            && g.phase == Missed && !g.stagedDone && (f.sentDone ==> g.last == Before)
            && (!f.sentDone ==> (g.sentDone <==> g.last == Sent)) && g.last != Last.Staged && (g.sentGone ==> g.sentDone)
            && (f.sentDone ==> g.sentDone)
  {
    hide Sendable, CarriesItsSend, Next;
    if events != [] {
      var n := |events| - 1;
      assert events[n] in events;
      RunMisses(w, o, f, events[..n]);
      RunTracks(w, o, f, events[..n]);
      StepTracks(After(w, events[..n]).value, o, FateAfter(f, events[..n]), events[n]);
    }
  }

  const LATE: seq<Event> := [Succeed(0), Finish(0)]

  const IN_TIME: seq<Event> := [Fire, Succeed(0), Finish(0), Begin(0), Succeed(0), Finish(0)]

  lemma LateRun(v: World, o: Overlap)
    requires Tracks(v, o, Fate(Waits, false, false, false, false, Before)) && v.flights[0].Transmitting?
    ensures After(v, LATE).Some? && After(v, LATE).value.flights == []
  {
    hide After, TransmitError, EncodeState;
    AfterNothing(v);
    AfterMore(v, [], Succeed(0));
    AfterMore(v, [] + [Succeed(0)], Finish(0));
    assert [] + [Succeed(0)] + [Finish(0)] == LATE;
  }

  lemma {:induction false} AfterParts(w: World, a: seq<Event>, b: seq<Event>)
    requires After(w, a).Some?
    ensures After(w, a + b) == After(After(w, a).value, b)
  {
    hide Enabled, Next;
    if b == [] {
      assert a + b == a;
    } else {
      var n := |b| - 1;
      AfterParts(w, a, b[..n]);
      assert (a + b)[..|a| + n] == a + b[..n];
    }
  }

  /** The timer fires, and the send in progress succeeds and ends. */
  lemma FireRun(v: World, o: Overlap)
    requires Tracks(v, o, Fate(Waits, false, false, false, false, Before)) && v.flights[0].Transmitting?
    ensures After(v, [Fire, Succeed(0), Finish(0)]).Some?
    ensures var w := After(v, [Fire, Succeed(0), Finish(0)]).value; w.flights == [Starting(OwnSend(o))] && w.entry.backendAvailable
  {
    hide After, TransmitError, EncodeState, Sendable, BeginStep;
    AfterNothing(v);
    AfterMore(v, [], Fire);
    var v1 := Next(v, Fire);
    assert v1.flights == [v.flights[0], Starting(OwnSend(o))];
    AfterMore(v, [] + [Fire], Succeed(0));
    AfterMore(v, [] + [Fire] + [Succeed(0)], Finish(0));
    assert [] + [Fire] + [Succeed(0)] + [Finish(0)] == [Fire, Succeed(0), Finish(0)];
  }

  /** A send that may be sent runs to its end. */
  lemma OwnRun(w: World, send: Send)
    requires w.flights == [Starting(send)] && w.entry.backendAvailable && Sendable(send)
    ensures After(w, [Begin(0), Succeed(0), Finish(0)]).Some? && After(w, [Begin(0), Succeed(0), Finish(0)]).value.flights == []
  {
    hide After, Sendable, BeginStep;
    AfterNothing(w);
    AfterMore(w, [], Begin(0));
    BeginSends(w, send);
    AfterMore(w, [] + [Begin(0)], Succeed(0));
    AfterMore(w, [] + [Begin(0)] + [Succeed(0)], Finish(0));
    assert [] + [Begin(0)] + [Succeed(0)] + [Finish(0)] == [Begin(0), Succeed(0), Finish(0)];
  }

  lemma InTimeRun(v: World, o: Overlap)
    requires Tracks(v, o, Fate(Waits, false, false, false, false, Before)) && v.flights[0].Transmitting?
    ensures After(v, IN_TIME).Some? && After(v, IN_TIME).value.flights == []
  {
    hide After, Sendable;
    FireRun(v, o);
    OwnRun(After(v, [Fire, Succeed(0), Finish(0)]).value, OwnSend(o));
    AfterParts(v, [Fire, Succeed(0), Finish(0)], [Begin(0), Succeed(0), Finish(0)]);
    assert [Fire, Succeed(0), Finish(0)] + [Begin(0), Succeed(0), Finish(0)] == IN_TIME;
  }

  lemma BeginSends(w: World, send: Send)
    requires w.flights == [Starting(send)] && w.entry.backendAvailable && Sendable(send)
    ensures |Next(w, Begin(0)).flights| == 1 && Next(w, Begin(0)).flights[0].Transmitting?
  {
    hide EncodeState, DecodeState, TransmitError, Carried;
    StateRoundTrip(send.requested, w.entry.profile, send.debounced);
  }

  /** Both happen to a pending edit that asks for something new: lost when the timer is late, in effect when it fires in time. */
  lemma BothHappen(w: World, changes: Control.Changes)
    requires IsSending(w) && w.flights[0].Transmitting? && StageStep(w.entry, changes).1 == Pended
    requires Effective(w.entry).Some? && Control.Staged(w.entry.features, Effective(w.entry).value, changes).Ok?
    requires Sendable(Send(StagedState(w.entry, changes), true, None))
    requires StagedState(w.entry, changes) != w.flights[0].send.requested
    ensures RunsOut(w, changes, LATE) && RunsOut(w, changes, IN_TIME)
    ensures Effective(After(Next(w, Edit(changes)), LATE).value.entry) != Some(StagedState(w.entry, changes))
    ensures Effective(After(Next(w, Edit(changes)), IN_TIME).value.entry) == Some(StagedState(w.entry, changes))
  {
    hide StageStep, After, Sendable, StagedState, CarriesItsSend, Tracks;
    var v := Next(w, Edit(changes));
    var o := Overlap(w.flights[0].send, StagedState(w.entry, changes), Current(v.entry));
    EditTracks(w, changes);
    LateRun(v, o);
    InTimeRun(v, o);
    EditDuringSendSurvivesIff(w, changes, LATE);
    EditDuringSendSurvivesIff(w, changes, IN_TIME);
    assert IN_TIME[0].Fire? && !SomeFinish(IN_TIME[..0]);
    assert forall j :: 0 <= j < |IN_TIME| ==> IN_TIME[j] != Succeed(1);
  }
}
