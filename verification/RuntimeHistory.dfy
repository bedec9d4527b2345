/**
  What the visible fields of an entry say about its past: status, confidence, last error, timer and applied profile, over any run.
 */
module RuntimeHistory {
  import opened Wrappers
  import opened Packet
  import opened StateCodec
  import Control
  import opened Runtime
  import opened RuntimeRuns

  // ----- The last word on each field -----

  /** What an event writes; a field it leaves alone is `None`. */
  datatype Marks = Marks(
    status: Option<Status>, confidence: Option<Confidence>, error: Option<Option<FailureCause>>, timer: Option<bool>)

  const NO_MARKS := Marks(None, None, None, None)

  function EditMarks(outcome: StageOutcome): Marks {
    match outcome
    case StageRefused => NO_MARKS
    case StageRaised(_) => NO_MARKS
    case NoKnownState => Marks(Some(Failed), None, Some(Some(NoCurrentState)), Some(false))
    case MatchesCurrent => Marks(Some(Ready), None, None, Some(false))
    case Retained => Marks(Some(Ready), Some(Requested), None, Some(false))
    case RetainRaised(_) => Marks(Some(Ready), None, None, Some(false))
    case Pended => Marks(Some(Pending), None, None, Some(true))
  }

  function CallMarks(e: Entry, data: Control.Request): Marks {
    if e.shuttingDown then NO_MARKS
    else
      match Control.BuildRequestedState(e.features, data)
      case Err(reason) => Marks(None, None, Some(Some(BadRequest(reason))), None)
      case Ok(_) => Marks(None, None, None, Some(false))
  }

  function BeginMarks(e: Entry, send: Send): Marks {
    if !e.backendAvailable then
      Marks(Some(if send.debounced then Failed else Unavailable), None, Some(Some(NoBackend)), None)
    else
      match EncodeState(send.requested, e.profile, send.debounced)
      case Err(error) => Marks(Some(Failed), None, Some(Some(BadState(error))), None)
      case Ok(_) => Marks(Some(SendingNow), None, Some(None), None)
  }

  /** What each event writes. */
  function MarksOf(w: World, event: Event): Marks
    requires Enabled(w, event)
  {
    match event
    case Edit(changes) => EditMarks(StageStep(w.entry, changes).1)
    case Fire => NO_MARKS.(timer := Some(false))
    case Call(data, _) => CallMarks(w.entry, data)
    case Begin(i) => BeginMarks(w.entry, w.flights[i].send)
    case Succeed(_) => Marks(None, Some(Requested), Some(None), None)
    case Fail(_, cause) => Marks(Some(Failed), None, Some(Some(cause)), None)
    case Finish(_) => NO_MARKS.(status := if w.entry.activeListening then Some(Confirming) else None)
    case Settle(confirming) =>
      NO_MARKS.(status := if w.entry.activeListening then None else Some(if confirming then Confirming else Ready))
    case Observe(_) => Marks(Some(Ready), Some(Observed), Some(None), None)
    case Expire => Marks(Some(Ready), Some(Requested), None, None)
    case ShutDown => NO_MARKS.(timer := Some(false))
    case Drop(_) => NO_MARKS
  }

  function Or<T>(later: Option<T>, before: T): T { if later.Some? then later.value else before }

  predicate Marked(before: Entry, m: Marks, after: Entry) {
    && after.status == Or(m.status, before.status)
    && after.confidence == Or(m.confidence, before.confidence)
    && after.lastError == Or(m.error, before.lastError)
    && after.debouncePending == Or(m.timer, before.debouncePending)
  }

  function Later(a: Marks, b: Marks): Marks {
    Marks(if b.status.Some? then b.status else a.status, if b.confidence.Some? then b.confidence else a.confidence,
          if b.error.Some? then b.error else a.error, if b.timer.Some? then b.timer else a.timer)
  }

  /** The last word on each field in a run. */
  function LastMarks(w: World, events: seq<Event>): Marks
    requires After(w, events).Some?
  {
    if events == [] then NO_MARKS
    else
      var n := |events| - 1;
      Later(LastMarks(w, events[..n]), MarksOf(After(w, events[..n]).value, events[n]))
  }

  lemma RetainMarks(e: Entry, desired: State)
    ensures var (r, outcome) := RetainStep(Settled(e), desired); Marked(e, EditMarks(outcome), r)
  {
    hide EncodeState;
  }

  lemma AdoptMarks(e: Entry, desired: State, changes: Control.Changes)
    ensures var (r, outcome) := AdoptStep(e, desired, changes); Marked(e, EditMarks(outcome), r)
  {
    hide RetainStep, IsRetainedOffEdit;
    RetainMarks(e, desired);
  }

  lemma EditIsMarked(e: Entry, changes: Control.Changes)
    ensures var (r, outcome) := StageStep(e, changes); Marked(e, EditMarks(outcome), r)
  {
    hide Control.Staged, AdoptStep;
    if !e.shuttingDown && Effective(e).Some? {
      var staged := Control.Staged(e.features, Effective(e).value, changes);
      if staged.Ok? {
        AdoptMarks(Unprofiled(e, staged.value), staged.value, changes);
      }
    }
  }

  lemma StepIsMarked(w: World, event: Event)
    requires Enabled(w, event) && NoTimerAfterShutDown(w.entry)
    ensures Marked(w.entry, MarksOf(w, event), Next(w, event).entry)
  {
    hide StageStep, EncodeState, Control.BuildRequestedState;
    if event.Edit? {
      EditIsMarked(w.entry, event.changes);
    }
  }

  /** Over any run each field has the value that was written last. */
  lemma {:induction false} LastWord(w: World, events: seq<Event>)
    requires Consistent(w) && After(w, events).Some?
    ensures Marked(w.entry, LastMarks(w, events), After(w, events).value.entry)
  {
    hide Consistent, Enabled, Next, MarksOf;
    if events != [] {
      var n := |events| - 1;
      LastWord(w, events[..n]);
      RunsStayConsistent(w, events[..n]);
      ConsistentHasNoTimer(After(w, events[..n]).value);
      StepIsMarked(After(w, events[..n]).value, events[n]);
    }
  }

  // ----- What an observed confidence means -----

  /** The event decides anew what is known. */
  predicate Decides(w: World, event: Event) {
    match event
    case Edit(changes) => StageStep(w.entry, changes).1.Retained?
    case Succeed(_) => true
    case Observe(_) => true
    case Expire => true
    case _ => false
  }

  /** The last event that decides what is known is the observation of this packet. */
  predicate HeardLast(w: World, events: seq<Event>, packet: StatePacket) {
    if events == [] then false
    else
      var n := |events| - 1;
      match After(w, events[..n])
      case None => false
      case Some(v) => if Decides(v, events[n]) then events[n] == Observe(packet) else HeardLast(w, events[..n], packet)
  }

  lemma AdoptLeavesKnown(e: Entry, desired: State, changes: Control.Changes)
    ensures var (r, outcome) := AdoptStep(e, desired, changes);
            !outcome.Retained? ==> r.lastPacket == e.lastPacket && r.confidence == e.confidence
  {
    hide EncodeState;
  }

  lemma EditLeavesKnown(e: Entry, changes: Control.Changes)
    ensures var (r, outcome) := StageStep(e, changes);
            !outcome.Retained? ==> r.lastPacket == e.lastPacket && r.confidence == e.confidence
  {
    hide Control.Staged, AdoptStep;
    if !e.shuttingDown && Effective(e).Some? {
      var staged := Control.Staged(e.features, Effective(e).value, changes);
      if staged.Ok? {
        AdoptLeavesKnown(Unprofiled(e, staged.value), staged.value, changes);
      }
    }
  }

  lemma KnownStays(w: World, event: Event)
    requires Enabled(w, event) && !Decides(w, event)
    ensures Next(w, event).entry.lastPacket == w.entry.lastPacket && Next(w, event).entry.confidence == w.entry.confidence
  {
    hide EncodeState, Control.BuildRequestedState, StageStep;
    if event.Edit? {
      EditLeavesKnown(w.entry, event.changes);
    }
  }

  lemma DecidesAnew(w: World, event: Event)
    requires Enabled(w, event) && Decides(w, event)
    ensures Next(w, event).entry.confidence == Observed <==> event.Observe?
    ensures event.Observe? ==> Next(w, event).entry.lastPacket == Some(event.packet)
  {
    hide EncodeState, Control.Staged;
  }

  /** The confidence says "observed" exactly when the known packet is the one that was heard last, and nothing has replaced it since. */
  lemma {:induction false} ObservedIffHeard(w: World, events: seq<Event>, packet: StatePacket)
    requires After(w, events).Some? && w.entry.confidence != Observed
    ensures var e := After(w, events).value.entry;
            e.confidence == Observed && e.lastPacket == Some(packet) <==> HeardLast(w, events, packet)
  {
    hide Enabled, Next, Decides;
    if events != [] {
      var n := |events| - 1;
      var v := After(w, events[..n]).value;
      ObservedIffHeard(w, events[..n], packet);
      if Decides(v, events[n]) {
        DecidesAnew(v, events[n]);
      } else {
        KnownStays(v, events[n]);
      }
    }
  }

  // ----- Whether a failure has a reason -----

  /** A failed or unavailable status comes with an error. */
  predicate FailureHasReason(e: Entry) { e.status == Failed || e.status == Unavailable ==> e.lastError.Some? }

  /** The exact condition: a failure loses its reason when a send succeeds while it is shown, and only then. */
  lemma FailureHasReasonIff(w: World, event: Event)
    requires Enabled(w, event) && NoTimerAfterShutDown(w.entry) && FailureHasReason(w.entry)
    ensures FailureHasReason(Next(w, event).entry)
       <==> !(event.Succeed? && (w.entry.status == Failed || w.entry.status == Unavailable))
  {
    hide Next, StageStep, EncodeState, Control.BuildRequestedState;
    StepIsMarked(w, event);
  }

  const FAILED_THEN_SENT: seq<Event> := [Call(OFF, None), Call(OFF, None), Begin(0), Begin(1), Fail(0, BackendFailed), Succeed(0)]

  /** It happens with two overlapping calls, from any entry at rest: the first fails, then the second succeeds. */
  lemma FailureWithoutReason(w: World)
    requires w.flights == [] && !w.entry.shuttingDown && w.entry.backendAvailable
    ensures After(w, FAILED_THEN_SENT).Some? && !FailureHasReason(After(w, FAILED_THEN_SENT).value.entry)
  {
    hide BeginStep, RequestStep, Control.DefaultManualState, After;
    AfterNothing(w);
    var call := Call(OFF, None);
    CallOff(w);
    var w1 := Next(w, call);
    AfterMore(w, [], call);
    CallOff(w1);
    var w2 := Next(w1, call);
    AfterMore(w, [] + [call], call);
    BeginOff(w2, 0);
    var w3 := Next(w2, Begin(0));
    AfterMore(w, [] + [call] + [call], Begin(0));
    BeginOff(w3, 1);
    var w4 := Next(w3, Begin(1));
    AfterMore(w, [] + [call] + [call] + [Begin(0)], Begin(1));
    var w5 := Next(w4, Fail(0, BackendFailed));
    AfterMore(w, [] + [call] + [call] + [Begin(0)] + [Begin(1)], Fail(0, BackendFailed));
    AfterMore(w, [] + [call] + [call] + [Begin(0)] + [Begin(1)] + [Fail(0, BackendFailed)], Succeed(0));
    assert [] + [call] + [call] + [Begin(0)] + [Begin(1)] + [Fail(0, BackendFailed)] + [Succeed(0)] == FAILED_THEN_SENT;
  }

  // ----- The applied profile -----

  /** A profile is marked as active exactly when its id is held. */
  predicate ProfileIsNamed(e: Entry) { e.activeProfile.Some? <==> e.appliedProfileId.Some? }

  /** An edit or an observed packet asks for, or shows, another state than the active profile's. */
  predicate Disowns(w: World, event: Event) {
    match event
    case Edit(changes) =>
      && !w.entry.shuttingDown && Effective(w.entry).Some?
      && var staged := Control.Staged(w.entry.features, Effective(w.entry).value, changes);
         staged.Ok? && Some(staged.value) != w.entry.activeProfile
    case Observe(packet) => Some(packet.state) != w.entry.activeProfile
    case _ => false
  }

  lemma AdoptKeepsProfile(e: Entry, desired: State, changes: Control.Changes)
    ensures var r := AdoptStep(e, desired, changes).0;
            r.activeProfile == e.activeProfile && r.appliedProfileId == e.appliedProfileId
  {
    hide EncodeState;
  }

  lemma EditOfProfile(w: World, changes: Control.Changes)
    requires ProfileIsNamed(w.entry)
    ensures var r := StageStep(w.entry, changes).0;
            if Disowns(w, Edit(changes)) then r.appliedProfileId == None && r.activeProfile == None
            else r.appliedProfileId == w.entry.appliedProfileId && r.activeProfile == w.entry.activeProfile
  {
    hide Control.Staged, AdoptStep;
    if !w.entry.shuttingDown && Effective(w.entry).Some? {
      var staged := Control.Staged(w.entry.features, Effective(w.entry).value, changes);
      if staged.Ok? {
        AdoptKeepsProfile(Unprofiled(w.entry, staged.value), staged.value, changes);
      }
    }
  }

  /** The exact law of a step: a success sets the profile to its send's, what disowns it removes it, and nothing else touches it. */
  lemma ProfileStep(w: World, event: Event)
    requires Enabled(w, event) && ProfileIsNamed(w.entry)
    ensures ProfileIsNamed(Next(w, event).entry)
    ensures var e, r := w.entry, Next(w, event).entry;
            if event.Succeed? then
              var send := w.flights[event.i].send;
              r.appliedProfileId == send.profileId && (send.profileId.Some? ==> r.activeProfile == Some(send.requested))
            else if Disowns(w, event) then
              r.appliedProfileId == None && r.activeProfile == None
            else
              r.appliedProfileId == e.appliedProfileId && r.activeProfile == e.activeProfile
  {
    hide EncodeState, Control.BuildRequestedState, StageStep, Control.Staged;
    if event.Edit? {
      EditOfProfile(w, event.changes);
    }
  }

  /** Some event of the run disowns the active profile. */
  predicate Disowned(w: World, events: seq<Event>) {
    events != []
    && var n := |events| - 1;
       Disowned(w, events[..n]) || (After(w, events[..n]).Some? && Disowns(After(w, events[..n]).value, events[n]))
  }

  /**
    The applied profile over a run without a success: it is the one it was, unless an edit or an observed packet has disowned it, and
    then there is none.
   */
  lemma {:induction false} ProfileOverRun(w: World, events: seq<Event>)
    requires ProfileIsNamed(w.entry) && After(w, events).Some? && forall event :: event in events ==> !event.Succeed?
    ensures var e := After(w, events).value.entry;
            && ProfileIsNamed(e)
            && e.appliedProfileId == (if Disowned(w, events) then None else w.entry.appliedProfileId)
            && e.activeProfile == (if Disowned(w, events) then None else w.entry.activeProfile)
  {
    hide Enabled, Next, Disowns;
    if events != [] {
      var n := |events| - 1;
      ProfileOverRun(w, events[..n]);
      assert events[n] in events;
      ProfileStep(After(w, events[..n]).value, events[n]);
    }
  }

  /**
    Whatever came before: after a send has succeeded and then any run without another success, the applied id is the send's, unless
    its state was disowned.
   */
  lemma AppliedSinceSend(w: World, i: nat, events: seq<Event>)
    requires Enabled(w, Succeed(i)) && After(Next(w, Succeed(i)), events).Some?
    requires forall event :: event in events ==> !event.Succeed?
    ensures var sent := Next(w, Succeed(i));
            var e, send := After(sent, events).value.entry, w.flights[i].send;
            && e.appliedProfileId == (if Disowned(sent, events) then None else send.profileId)
            && (e.activeProfile.Some? ==> e.activeProfile == Some(send.requested))
            && (e.activeProfile.Some? <==> send.profileId.Some? && !Disowned(sent, events))
  {
    hide After, Disowned, Enabled;
    ProfileOverRun(Next(w, Succeed(i)), events);
  }

  /** Every run keeps the mark and the id together. */
  lemma {:induction false} ProfileStaysNamed(w: World, events: seq<Event>)
    requires ProfileIsNamed(w.entry)
    ensures After(w, events).Some? ==> ProfileIsNamed(After(w, events).value.entry)
  {
    hide Enabled, Next, ProfileIsNamed;
    if events != [] {
      var n := |events| - 1;
      ProfileStaysNamed(w, events[..n]);
      if After(w, events).Some? {
        ProfileStep(After(w, events[..n]).value, events[n]);
      }
    }
  }

  // ----- Starting -----

  /**
    The fields of a started entry: those that were saved; else an observed state that was learned; else everything off, marked as
    restored, with the notice that nothing was observed.
   */
  lemma StartTells(profile: Profile, features: Control.Features, backend: bool, listening: bool, saved: Option<Saved>,
                   learned: Option<Frame>)
    requires StartUp(FreshEntry(profile, features, backend, listening), saved, learned).Ok?
    ensures var e := StartUp(FreshEntry(profile, features, backend, listening), saved, learned).value;
            && e.profile == profile && e.features == features && e.backendAvailable == backend && e.activeListening == listening
            && e.status == Ready && e.desired.None? && !e.sending && !e.debouncePending && !e.shuttingDown
            && ProfileIsNamed(e) && e.lastPacket.Some?
            && (if saved.Some? then
                  && e.confidence == saved.value.confidence && e.appliedProfileId == saved.value.appliedProfileId
                  && e.lastError.None?
                  && (saved.value.frame.Some? ==> e.lastPacket.value.frame == saved.value.frame.value)
                  && (saved.value.frame.None? ==> e.lastPacket.value.state == saved.value.state)
                  && (e.activeProfile.Some? ==> e.activeProfile == Some(saved.value.state))
                else if learned.Some? then
                  && e.confidence == Observed && e.lastPacket.value.frame == learned.value && e.lastError.None?
                  && e.appliedProfileId.None?
                else
                  && e.confidence == Confidence.Restored && e.lastError == Some(NoObservedState) && e.appliedProfileId.None?
                  && e.lastPacket.value.state == State(false, 0, 0, 0, false, false, false, false))
  {
    hide EncodeState, StateFromFrame;
  }

  /** A restart keeps the frame, the confidence and the applied profile; a profile that was applied is marked with the saved state. */
  lemma RestartTells(w: World, profile: Profile, features: Control.Features, backend: bool, listening: bool, learned: Option<Frame>)
    requires Consistent(w) && w.entry.lastPacket.Some?
    ensures var start := StartUp(FreshEntry(profile, features, backend, listening), SavedOf(w.entry), learned);
            && start.Ok?
            && start.value.lastPacket.Some? && start.value.lastPacket.value.frame == w.entry.lastPacket.value.frame
            && start.value.confidence == w.entry.confidence
            && start.value.appliedProfileId == w.entry.appliedProfileId
            && start.value.activeProfile == if w.entry.appliedProfileId.Some? then Current(w.entry) else None
  {
    hide EncodeState, StateFromFrame, StartUp;
    var e := FreshEntry(profile, features, backend, listening);
    FirstStart(profile, features, backend, listening);
    RestartIff(w, e, learned);
    StartTells(profile, features, backend, listening, SavedOf(w.entry), learned);
  }

  /** So a start from what was saved after a send without a profile marks none. */
  lemma PlainSendIsForgotten(w: World, i: nat, profile: Profile, features: Control.Features, backend: bool, listening: bool,
                             learned: Option<Frame>)
    requires Consistent(w) && Enabled(w, Succeed(i)) && w.flights[i].send.profileId.None?
    ensures var start := StartUp(FreshEntry(profile, features, backend, listening), SavedOf(Next(w, Succeed(i)).entry), learned);
            start.Ok? && start.value.activeProfile.None? && start.value.appliedProfileId.None?
  {
    hide EncodeState, StateFromFrame, StartUp, Consistent;
    StepKeeps(w, Succeed(i));
    RestartTells(Next(w, Succeed(i)), profile, features, backend, listening, learned);
  }

  // ----- Shutting down -----

  /** A debounce that wakes in an entry that shuts down sends nothing: what was staged is dropped as failed, under the first error. */
  lemma LateWakeFails(e: Entry)
    requires e.shuttingDown
    ensures var (r, send) := FireStep(e);
            && send.None? && !r.debouncePending && r.desired.None? && r.lastPacket == e.lastPacket
            && (if e.desired.None? then r.status == e.status && r.lastError == e.lastError
                else
                  && r.status == Failed && !r.sending
                  && (e.lastError.Some? ==> r.lastError == e.lastError)
                  && (e.lastError.None? ==> r.lastError == Some(ShuttingDown)))
  {}

  /** Nothing new is accepted: no timer, no listening. */
  predicate IsClosed(e: Entry) { e.shuttingDown && !e.debouncePending && !e.activeListening }

  lemma ClosedStep(w: World, event: Event)
    requires Enabled(w, event) && IsClosed(w.entry)
    ensures IsClosed(Next(w, event).entry) && |Next(w, event).flights| <= |w.flights|
    ensures event.Edit? || event.Call? ==> Next(w, event) == w
  {
    hide EncodeState;
  }

  lemma {:induction false} ClosedRun(w: World, events: seq<Event>)
    requires IsClosed(w.entry) && After(w, events).Some?
    ensures IsClosed(After(w, events).value.entry) && |After(w, events).value.flights| <= |w.flights|
  {
    hide Enabled, Next, IsClosed;
    if events != [] {
      var n := |events| - 1;
      ClosedRun(w, events[..n]);
      ClosedStep(After(w, events[..n]).value, events[n]);
    }
  }

  /** After a shutdown the entry stays closed, and no send is added to those in progress. */
  lemma ClosedStaysClosed(w: World, events: seq<Event>)
    requires After(Next(w, ShutDown), events).Some?
    ensures var v := After(Next(w, ShutDown), events).value; IsClosed(v.entry) && |v.flights| <= |w.flights|
  {
    hide After;
    ClosedRun(Next(w, ShutDown), events);
  }
}
