/**
  Runs of the runtime entry: any interleaving of edits, debounce firings, service calls, sends that may overlap,
  observed packets and shutdown, one stretch between two awaits at a time.
 */
module RuntimeRuns {
  import opened Wrappers
  import opened Packet
  import opened StateCodec
  import Control
  import opened Runtime

  /** A send between two of its awaits: stopping the receiver, waiting for the backend, saving the new state. */
  datatype Flight =
    | Starting(send: Send)
    | Transmitting(send: Send, packet: StatePacket)
    | Recording(send: Send, packet: StatePacket)

  /** The entry, its sends in progress, and the state last commanded over the air or observed. */
  datatype World = World(entry: Entry, flights: seq<Flight>, actual: Option<State>)

  datatype Event =
    | Edit(changes: Control.Changes)
    | Fire
    | Call(data: Control.Request, profileId: Option<string>)
    | Begin(i: nat)
    | Succeed(i: nat)
    | Fail(i: nat, cause: FailureCause)
    | Finish(i: nat)
    | Settle(confirming: bool)
    | Observe(packet: StatePacket)
    | Expire
    | ShutDown
    | Drop(i: nat)

  /** A packet read off the air carries the state of its frame. */
  predicate ReadOffTheAir(packet: StatePacket) { StateFromFrame(packet.frame) == Ok(packet.state) }

  predicate Enabled(w: World, event: Event) {
    match event
    case Edit(_) => true
    case Fire => w.entry.debouncePending
    case Call(_, _) => true
    case Begin(i) => i < |w.flights| && w.flights[i].Starting?
    case Succeed(i) => i < |w.flights| && w.flights[i].Transmitting?
    case Fail(i, _) => i < |w.flights| && w.flights[i].Transmitting?
    case Finish(i) => i < |w.flights| && w.flights[i].Recording?
    case Settle(_) => true
    case Observe(packet) => ReadOffTheAir(packet)
    case Expire => true
    case ShutDown => true
    // A send that is cancelled outside its backend call, where no handler catches it.
    case Drop(i) => i < |w.flights| && !w.flights[i].Transmitting?
  }

  function Without(flights: seq<Flight>, i: nat): seq<Flight>
    requires i < |flights|
  {
    flights[..i] + flights[i + 1..]
  }

  function Launched(flights: seq<Flight>, send: Option<Send>): seq<Flight> {
    if send.Some? then flights + [Starting(send.value)] else flights
  }

  function Next(w: World, event: Event): World
    requires Enabled(w, event)
  {
    match event
    case Edit(changes) => w.(entry := StageStep(w.entry, changes).0)
    case Fire =>
      var (entry, send) := FireStep(w.entry);
      w.(entry := entry, flights := Launched(w.flights, send))
    case Call(data, profileId) =>
      var (entry, send) := RequestStep(w.entry, data, profileId);
      w.(entry := entry, flights := Launched(w.flights, send))
    case Begin(i) =>
      var send := w.flights[i].send;
      var (entry, packet) := BeginStep(w.entry, send);
      w.(entry := entry,
         flights := if packet.Some? then w.flights[i := Transmitting(send, packet.value)] else Without(w.flights, i))
    case Succeed(i) =>
      var flight := w.flights[i];
      World(SucceedStep(w.entry, flight.send, flight.packet), w.flights[i := Recording(flight.send, flight.packet)],
            Some(flight.packet.state))
    case Fail(i, cause) => w.(entry := SendFailed(w.entry, cause), flights := Without(w.flights, i))
    case Finish(i) => w.(entry := FinishStep(w.entry), flights := Without(w.flights, i))
    case Settle(confirming) => w.(entry := SettleStep(w.entry, confirming))
    case Observe(packet) => w.(entry := ObserveStep(w.entry, packet), actual := Some(packet.state))
    case Expire => w.(entry := ExpireStep(w.entry))
    case ShutDown => w.(entry := ShutDownStep(w.entry))
    case Drop(i) => w.(flights := Without(w.flights, i))
  }

  /** Where a run leads, if every event is enabled in its turn. */
  function After(w: World, events: seq<Event>): Option<World> {
    if events == [] then Some(w)
    else
      var n := |events| - 1;
      match After(w, events[..n])
      case None => None
      case Some(v) => if Enabled(v, events[n]) then Some(Next(v, events[n])) else None
  }

  // ----- What every run keeps -----

  /** Known and actual state may differ only in the settings of a fireplace that is off. */
  predicate AgreeUnlessOff(known: Option<State>, actual: Option<State>) {
    && known.Some? == actual.Some?
    && (known.Some? ==>
          known.value.power == actual.value.power && (known.value.power ==> known.value == actual.value))
  }

  /** An applied profile is still the known state. */
  predicate ProfileIsCurrent(e: Entry) { e.activeProfile.Some? ==> Current(e) == e.activeProfile }

  predicate SendingIsReal(w: World) {
    w.entry.sending ==> exists i :: 0 <= i < |w.flights| && w.flights[i].Transmitting?
  }

  /** A packet on its way is the encoding of the state captured when its send started. */
  predicate CarriesItsSend(flight: Flight, profile: Profile) {
    flight.Starting?
    || (&& flight.packet.state == flight.send.requested
        && EncodeState(flight.send.requested, profile, flight.send.debounced) == Ok(flight.packet.frame))
  }

  predicate FlightsCarrySends(w: World) {
    forall flight :: flight in w.flights ==> CarriesItsSend(flight, w.entry.profile)
  }

  /** The known frame reads back as the known state, but for a CPI flag that ten-word frames do not have. */
  predicate FrameMatchesState(e: Entry) {
    e.lastPacket.Some? ==>
      var packet := e.lastPacket.value;
      StateFromFrame(packet.frame) == Ok(if packet.frame.IsExtended() then packet.state.(cpi := false) else packet.state)
  }

  /** Shutting down leaves no timer behind. */
  predicate NoTimerAfterShutDown(e: Entry) { e.shuttingDown ==> !e.debouncePending }

  predicate Consistent(w: World) {
    && AgreeUnlessOff(Current(w.entry), w.actual)
    && SendingIsReal(w)
    && FlightsCarrySends(w)
    && FrameMatchesState(w.entry)
    && NoTimerAfterShutDown(w.entry)
  }

  /** What a step preserves; the profile marker is kept apart because a start may break it. */
  predicate Keeps(w: World, v: World) {
    Consistent(v) && (ProfileIsCurrent(w.entry) ==> ProfileIsCurrent(v.entry))
  }

  /** Ten-word frames never read as a CPI flag. */
  lemma ReadPacketMatches(packet: StatePacket)
    requires ReadOffTheAir(packet)
    ensures StateFromFrame(packet.frame) == Ok(if packet.frame.IsExtended() then packet.state.(cpi := false) else packet.state)
  {
    hide ObservedError;
  }

  lemma RetainKeeps(w: World, desired: State)
    requires Consistent(w) && (w.entry.activeProfile.Some? ==> w.entry.activeProfile == Some(desired))
    requires Current(w.entry).Some? && !Current(w.entry).value.power && !desired.power
    ensures Keeps(w, w.(entry := RetainStep(Settled(w.entry), desired).0))
  {
    hide EncodeState, StateFromFrame, CarriesItsSend, SendingIsReal;
    var entry := RetainStep(Settled(w.entry), desired).0;
    if EncodeState(desired, w.entry.profile, true).Ok? {
      EncodedReads(desired, w.entry.profile, true, entry.lastPacket.value.frame);
    }
    SettledKeeps(w, entry);
  }

  lemma SettledKeeps(w: World, entry: Entry)
    requires SendingIsReal(w) && entry.sending == w.entry.sending
    ensures SendingIsReal(w.(entry := entry))
  {}

  lemma AdoptKeeps(w: World, desired: State, changes: Control.Changes)
    requires Consistent(w) && !w.entry.shuttingDown && (w.entry.activeProfile.Some? ==> w.entry.activeProfile == Some(desired))
    ensures Keeps(w, w.(entry := AdoptStep(w.entry, desired, changes).0))
  {
    hide RetainStep, StateFromFrame, CarriesItsSend;
    if Current(w.entry) != Some(desired) && IsRetainedOffEdit(Current(w.entry), desired, changes) {
      RetainKeeps(w, desired);
    }
  }

  lemma UnprofiledKeeps(w: World, desired: State)
    requires Consistent(w)
    ensures Keeps(w, w.(entry := Unprofiled(w.entry, desired)))
  {
    hide StateFromFrame, CarriesItsSend;
  }

  lemma EditKeeps(w: World, changes: Control.Changes)
    requires Consistent(w)
    ensures Keeps(w, Next(w, Edit(changes)))
  {
    hide Control.Staged, AdoptStep, StateFromFrame, CarriesItsSend;
    if !w.entry.shuttingDown && Effective(w.entry).Some? {
      var staged := Control.Staged(w.entry.features, Effective(w.entry).value, changes);
      if staged.Ok? {
        UnprofiledKeeps(w, staged.value);
        AdoptKeeps(w.(entry := Unprofiled(w.entry, staged.value)), staged.value, changes);
      }
    }
  }

  lemma ReplacedFlight(w: World, i: nat, flight: Flight)
    requires i < |w.flights| && FlightsCarrySends(w) && CarriesItsSend(flight, w.entry.profile)
    ensures FlightsCarrySends(w.(flights := w.flights[i := flight]))
  {
    hide CarriesItsSend;
  }

  lemma BeginKeeps(w: World, i: nat)
    requires Consistent(w) && Enabled(w, Begin(i))
    ensures Keeps(w, Next(w, Begin(i)))
  {
    hide EncodeState, StateFromFrame;
    var v := Next(w, Begin(i));
    var packet := BeginStep(w.entry, w.flights[i].send).1;
    if packet.Some? {
      assert v.flights[i].Transmitting?;
      ReplacedFlight(w, i, v.flights[i]);
    }
  }

  lemma SucceedKeeps(w: World, i: nat)
    requires Consistent(w) && Enabled(w, Succeed(i))
    ensures Keeps(w, Next(w, Succeed(i)))
  {
    hide EncodeState, StateFromFrame;
    var flight := w.flights[i];
    assert CarriesItsSend(flight, w.entry.profile);
    EncodedReads(flight.send.requested, w.entry.profile, flight.send.debounced, flight.packet.frame);
    ReplacedFlight(w, i, Recording(flight.send, flight.packet));
  }

  lemma RemovedFlight(w: World, i: nat)
    requires i < |w.flights| && FlightsCarrySends(w)
    ensures FlightsCarrySends(w.(flights := Without(w.flights, i)))
    ensures !w.flights[i].Transmitting? && SendingIsReal(w) ==> SendingIsReal(w.(flights := Without(w.flights, i)))
  {
    hide CarriesItsSend;
    var rest := Without(w.flights, i);
    if !w.flights[i].Transmitting? && w.entry.sending && SendingIsReal(w) {
      var k :| 0 <= k < |w.flights| && w.flights[k].Transmitting?;
      assert rest[if k < i then k else k - 1] == w.flights[k];
    }
  }

  /** A new send joins those in progress. */
  lemma LaunchedFlight(w: World, send: Option<Send>)
    requires FlightsCarrySends(w)
    ensures FlightsCarrySends(w.(flights := Launched(w.flights, send)))
    ensures SendingIsReal(w) ==> SendingIsReal(w.(flights := Launched(w.flights, send)))
  {
    if w.entry.sending && SendingIsReal(w) {
      var k :| 0 <= k < |w.flights| && w.flights[k].Transmitting?;
      assert Launched(w.flights, send)[k].Transmitting?;
    }
  }

  lemma FireKeeps(w: World)
    requires Consistent(w) && Enabled(w, Fire)
    ensures Keeps(w, Next(w, Fire))
  {
    hide EncodeState, StateFromFrame, CarriesItsSend;
    LaunchedFlight(w, FireStep(w.entry).1);
  }

  lemma CallKeeps(w: World, data: Control.Request, profileId: Option<string>)
    requires Consistent(w)
    ensures Keeps(w, Next(w, Call(data, profileId)))
  {
    hide RequestStep, EncodeState, StateFromFrame, CarriesItsSend;
    LaunchedFlight(w, RequestStep(w.entry, data, profileId).1);
  }

  lemma EndKeeps(w: World, event: Event)
    requires Consistent(w) && Enabled(w, event) && (event.Fail? || event.Finish? || event.Drop?)
    ensures Keeps(w, Next(w, event))
  {
    hide EncodeState, StateFromFrame, CarriesItsSend;
    RemovedFlight(w, event.i);
  }

  /** What depends only on the sends and their flag. */
  lemma SameSends(w: World, v: World)
    requires v.flights == w.flights && v.entry.profile == w.entry.profile && v.entry.sending == w.entry.sending
    ensures SendingIsReal(w) <==> SendingIsReal(v)
    ensures FlightsCarrySends(w) <==> FlightsCarrySends(v)
  {
    hide CarriesItsSend;
  }

  lemma ObserveKeeps(w: World, packet: StatePacket)
    requires Consistent(w) && Enabled(w, Observe(packet))
    ensures Keeps(w, Next(w, Observe(packet)))
  {
    hide StateFromFrame, SendingIsReal, FlightsCarrySends;
    ReadPacketMatches(packet);
    SameSends(w, Next(w, Observe(packet)));
  }

  lemma OtherKeeps(w: World, event: Event)
    requires Consistent(w) && (event.Settle? || event.Expire? || event.ShutDown?)
    ensures Keeps(w, Next(w, event))
  {
    hide EncodeState, StateFromFrame, CarriesItsSend;
  }

  lemma StepKeeps(w: World, event: Event)
    requires Consistent(w) && Enabled(w, event)
    ensures Keeps(w, Next(w, event))
  {
    hide *;
    match event
    case Edit(changes) => EditKeeps(w, changes);
    case Fire => FireKeeps(w);
    case Call(data, profileId) => CallKeeps(w, data, profileId);
    case Begin(i) => BeginKeeps(w, i);
    case Succeed(i) => SucceedKeeps(w, i);
    case Observe(packet) => ObserveKeeps(w, packet);
    case Fail(_, _) => EndKeeps(w, event);
    case Finish(_) => EndKeeps(w, event);
    case Drop(_) => EndKeeps(w, event);
    case _ => OtherKeeps(w, event);
  }

  /** Every run, however its sends, edits and observations interleave, keeps the entry consistent, and the profile marker true. */
  lemma {:induction false} RunsStayConsistent(w: World, events: seq<Event>)
    requires Consistent(w)
    ensures After(w, events).Some? ==> Keeps(w, After(w, events).value)
  {
    hide Consistent, Enabled, Next, ProfileIsCurrent;
    if events != [] {
      var n := |events| - 1;
      RunsStayConsistent(w, events[..n]);
      if After(w, events).Some? {
        StepKeeps(After(w, events[..n]).value, events[n]);
      }
    }
  }

  /** A marker that a start has broken is put right by the next observation or successful send. */
  lemma StaleMarkerEnds(w: World, event: Event)
    requires Consistent(w) && Enabled(w, event) && (event.Observe? || event.Succeed?)
    ensures ProfileIsCurrent(Next(w, event).entry)
  {
    hide EncodeState, StateFromFrame;
    if event.Succeed? {
      assert CarriesItsSend(w.flights[event.i], w.entry.profile);
    }
  }

  lemma StepKeepsSetup(w: World, event: Event)
    requires Enabled(w, event)
    ensures SameSetup(Next(w, event).entry, w.entry)
  {
    hide StageStep, FireStep, RequestStep, BeginStep, Enabled;
    if event.Edit? {
      StagingLeaves(w.entry, event.changes);
    }
  }

  lemma {:induction false} SetupIsFixed(w: World, events: seq<Event>)
    ensures After(w, events).Some? ==> SameSetup(After(w, events).value.entry, w.entry)
  {
    hide Enabled, Next;
    if events != [] {
      var n := |events| - 1;
      SetupIsFixed(w, events[..n]);
      if After(w, events).Some? {
        StepKeepsSetup(After(w, events[..n]).value, events[n]);
      }
    }
  }

  // ----- When a staged state is stranded -----

  /** A staged state has something that will send or discard it. */
  predicate NothingStranded(w: World) {
    !w.entry.shuttingDown && w.entry.desired.Some? ==> w.entry.debouncePending || w.flights != []
  }

  /** The only send is cancelled outside its backend call while a state is staged and no timer runs. */
  predicate Strands(w: World, event: Event) {
    event.Drop? && |w.flights| == 1 && !w.entry.shuttingDown && w.entry.desired.Some? && !w.entry.debouncePending
  }

  lemma AdoptedIsTimed(e: Entry, desired: State, changes: Control.Changes)
    ensures AdoptStep(e, desired, changes).0.desired.Some? ==> AdoptStep(e, desired, changes).0.debouncePending
  {
    hide EncodeState;
  }

  lemma EditStrandsNothing(w: World, changes: Control.Changes)
    requires NothingStranded(w)
    ensures NothingStranded(Next(w, Edit(changes)))
  {
    hide Control.Staged, AdoptStep, Unprofiled;
    if !w.entry.shuttingDown && Effective(w.entry).Some? {
      var staged := Control.Staged(w.entry.features, Effective(w.entry).value, changes);
      if staged.Ok? {
        AdoptedIsTimed(Unprofiled(w.entry, staged.value), staged.value, changes);
      }
    }
  }

  /** The exact condition: a step strands a staged state only by such a cancellation, and then it does. */
  lemma StrandedIff(w: World, event: Event)
    requires Enabled(w, event) && NothingStranded(w)
    ensures NothingStranded(Next(w, event)) <==> !Strands(w, event)
  {
    hide StageStep, RequestStep, EncodeState, StateFromFrame;
    if event.Edit? {
      EditStrandsNothing(w, event.changes);
    }
  }

  predicate NeverStrands(w: World, events: seq<Event>) {
    events == []
    || (var n := |events| - 1;
        && NeverStrands(w, events[..n])
        && (After(w, events).Some? ==> !Strands(After(w, events[..n]).value, events[n])))
  }

  /** Over a whole run without such a cancellation no staged state is stranded. */
  lemma {:induction false} NothingStrandedOverRun(w: World, events: seq<Event>)
    requires NothingStranded(w) && NeverStrands(w, events)
    ensures After(w, events).Some? ==> NothingStranded(After(w, events).value)
  {
    hide Enabled, Next, NothingStranded, Strands;
    if events != [] {
      var n := |events| - 1;
      NothingStrandedOverRun(w, events[..n]);
      if After(w, events).Some? {
        StrandedIff(After(w, events[..n]).value, events[n]);
      }
    }
  }

  /** It happens: a service call cancels the timer of a staged edit and is itself cancelled while it stops the receiver. */
  lemma CancelledCallStrands(w: World, changes: Control.Changes)
    requires w.flights == [] && !w.entry.shuttingDown && StageStep(w.entry, changes).1 == Pended
    ensures var run := [Edit(changes), Call(OFF, None), Drop(0)];
            After(w, run).Some? && !NothingStranded(After(w, run).value)
  {
    hide StageStep, RequestStep, After, Control.DefaultManualState;
    StagingLeaves(w.entry, changes);
    PendedStages(w.entry, changes);
    AfterNothing(w);
    AfterMore(w, [], Edit(changes));
    var w1 := Next(w, Edit(changes));
    CallOff(w1);
    AfterMore(w, [] + [Edit(changes)], Call(OFF, None));
    AfterMore(w, [] + [Edit(changes)] + [Call(OFF, None)], Drop(0));
    assert [] + [Edit(changes)] + [Call(OFF, None)] + [Drop(0)] == [Edit(changes), Call(OFF, None), Drop(0)];
  }

  /** A pending edit: its state is staged under a timer and the known state stays. */
  lemma PendedStages(e: Entry, changes: Control.Changes)
    requires StageStep(e, changes).1 == Pended
    ensures !e.shuttingDown && Effective(e).Some? && Control.Staged(e.features, Effective(e).value, changes).Ok?
    ensures var r, staged := StageStep(e, changes).0, Control.Staged(e.features, Effective(e).value, changes).value;
            r.desired == Some(staged) && r.debouncePending && Current(r) == Current(e)
  {
    hide Control.Staged, EncodeState;
  }

  // ----- When the sending flag is right -----

  predicate SomeSend(flights: seq<Flight>) { exists i :: 0 <= i < |flights| && flights[i].Transmitting? }

  /** The flag says exactly whether a send is in its backend call. */
  predicate SendingIsExact(w: World) { w.entry.sending <==> SomeSend(w.flights) }

  /** The steps that lower the flag: a send that succeeds, fails, or cannot even start. */
  predicate Lowers(w: World, event: Event)
    requires Enabled(w, event)
  {
    event.Succeed? || event.Fail? || (event.Begin? && BeginStep(w.entry, w.flights[event.i].send).1.None?)
  }

  predicate OtherSend(flights: seq<Flight>, i: nat) { exists j :: 0 <= j < |flights| && j != i && flights[j].Transmitting? }

  /** The step lowers the flag while another send is in its backend call. */
  predicate LowersEarly(w: World, event: Event)
    requires Enabled(w, event)
  {
    Lowers(w, event) && OtherSend(w.flights, event.i)
  }

  lemma ReplacedSend(flights: seq<Flight>, i: nat, flight: Flight)
    requires i < |flights|
    ensures SomeSend(flights[i := flight]) <==> flight.Transmitting? || OtherSend(flights, i)
  {
    var v := flights[i := flight];
    if flight.Transmitting? {
      assert v[i].Transmitting?;
    }
    if OtherSend(flights, i) {
      var j :| 0 <= j < |flights| && j != i && flights[j].Transmitting?;
      assert v[j].Transmitting?;
    }
  }

  lemma RemovedSend(flights: seq<Flight>, i: nat)
    requires i < |flights|
    ensures SomeSend(Without(flights, i)) <==> OtherSend(flights, i)
    ensures SomeSend(flights) <==> flights[i].Transmitting? || OtherSend(flights, i)
  {
    var rest := Without(flights, i);
    forall k | 0 <= k < |rest| ensures rest[k] == flights[if k < i then k else k + 1] {}
    if OtherSend(flights, i) {
      var j :| 0 <= j < |flights| && j != i && flights[j].Transmitting?;
      assert rest[if j < i then j else j - 1] == flights[j];
    }
  }

  lemma LaunchedSend(flights: seq<Flight>, send: Option<Send>)
    ensures SomeSend(Launched(flights, send)) <==> SomeSend(flights)
  {
    var all := Launched(flights, send);
    if SomeSend(flights) {
      var k :| 0 <= k < |flights| && flights[k].Transmitting?;
      assert all[k].Transmitting?;
    }
  }

  lemma FlagAfterLaunch(w: World, event: Event)
    requires Enabled(w, event) && SendingIsExact(w) && NoTimerAfterShutDown(w.entry) && (event.Fire? || event.Call?)
    ensures SendingIsExact(Next(w, event))
  {
    hide RequestStep, SomeSend;
    if event.Fire? {
      LaunchedSend(w.flights, FireStep(w.entry).1);
    } else {
      LaunchedSend(w.flights, RequestStep(w.entry, event.data, event.profileId).1);
    }
  }

  lemma FlagAfterBegin(w: World, i: nat)
    requires Enabled(w, Begin(i)) && SendingIsExact(w)
    ensures SendingIsExact(Next(w, Begin(i))) <==> !LowersEarly(w, Begin(i))
  {
    hide EncodeState, SomeSend, OtherSend;
    RemovedSend(w.flights, i);
    var packet := BeginStep(w.entry, w.flights[i].send).1;
    if packet.Some? {
      ReplacedSend(w.flights, i, Transmitting(w.flights[i].send, packet.value));
    }
  }

  lemma FlagAfterEnd(w: World, event: Event)
    requires Enabled(w, event) && SendingIsExact(w) && (event.Succeed? || event.Fail? || event.Finish? || event.Drop?)
    ensures SendingIsExact(Next(w, event)) <==> !LowersEarly(w, event)
  {
    hide SomeSend, OtherSend;
    RemovedSend(w.flights, event.i);
    if event.Succeed? {
      ReplacedSend(w.flights, event.i, Recording(w.flights[event.i].send, w.flights[event.i].packet));
    }
  }

  /**
    The exact condition: an exact flag stays exact unless the step lowers it while another send is in its backend call, and
    then it does not.
   */
  lemma SendingFlagIff(w: World, event: Event)
    requires Enabled(w, event) && SendingIsExact(w) && NoTimerAfterShutDown(w.entry)
    ensures SendingIsExact(Next(w, event)) <==> !LowersEarly(w, event)
  {
    hide StageStep, FireStep, RequestStep, BeginStep, SomeSend, OtherSend;
    if event.Fire? || event.Call? {
      FlagAfterLaunch(w, event);
    } else if event.Begin? {
      FlagAfterBegin(w, event.i);
    } else if event.Succeed? || event.Fail? || event.Finish? || event.Drop? {
      FlagAfterEnd(w, event);
    } else {
      if event.Edit? {
        StagingLeaves(w.entry, event.changes);
      }
      assert Next(w, event).flights == w.flights;
    }
  }

  /** No step of the run lowers the flag early. */
  predicate NeverEarly(w: World, events: seq<Event>) {
    events == []
    || (var n := |events| - 1;
        && NeverEarly(w, events[..n])
        && (After(w, events).Some? ==> !LowersEarly(After(w, events[..n]).value, events[n])))
  }

  /** Over a whole run the flag stays exact when no step lowers it early. */
  lemma {:induction false} FlagExactOverRun(w: World, events: seq<Event>)
    requires Consistent(w) && SendingIsExact(w) && NeverEarly(w, events)
    ensures After(w, events).Some? ==> SendingIsExact(After(w, events).value)
  {
    hide Consistent, Enabled, Next, SendingIsExact, LowersEarly;
    if events != [] {
      var n := |events| - 1;
      FlagExactOverRun(w, events[..n]);
      if After(w, events).Some? {
        RunsStayConsistent(w, events[..n]);
        ConsistentHasNoTimer(After(w, events[..n]).value);
        SendingFlagIff(After(w, events[..n]).value, events[n]);
      }
    }
  }

  lemma ConsistentHasNoTimer(w: World)
    requires Consistent(w)
    ensures NoTimerAfterShutDown(w.entry)
  {}

  lemma AfterNothing(w: World)
    ensures After(w, []) == Some(w)
  {}

  lemma AfterMore(w: World, events: seq<Event>, event: Event)
    requires After(w, events).Some? && Enabled(After(w, events).value, event)
    ensures After(w, events + [event]) == Some(Next(After(w, events).value, event))
  {
    assert (events + [event])[..|events|] == events;
  }

  const OFF := Control.Request(Some(false), None, None, None, None, None, None)

  const TWO_CALLS: seq<Event> := [Call(OFF, None), Call(OFF, None), Begin(0), Begin(1), Succeed(1)]

  lemma CallOff(w: World)
    requires !w.entry.shuttingDown
    ensures Next(w, Call(OFF, None))
         == w.(entry := w.entry.(debouncePending := false),
               flights := w.flights + [Starting(Send(Control.DefaultManualState(), false, None))])
  {}

  lemma BeginOff(w: World, i: nat)
    requires Enabled(w, Begin(i)) && w.entry.backendAvailable
    requires w.flights[i].send == Send(Control.DefaultManualState(), false, None)
    ensures var v := Next(w, Begin(i));
            && v.flights == w.flights[i := v.flights[i]] && v.flights[i].Transmitting? && SameSetup(v.entry, w.entry)
  {
    hide EncodeState;
    StateRoundTrip(Control.DefaultManualState(), w.entry.profile, false);
  }

  /** Two overlapping calls, from any entry at rest: after the second succeeds the flag is down and the first is still sending. */
  lemma OverlappingCallsLowerTheFlag(w: World)
    requires w.flights == [] && !w.entry.shuttingDown && w.entry.backendAvailable
    ensures After(w, TWO_CALLS).Some?
    ensures !After(w, TWO_CALLS).value.entry.sending && SomeSend(After(w, TWO_CALLS).value.flights)
  {
    hide BeginStep, RequestStep, Control.DefaultManualState, After;
    AfterNothing(w);
    var call := Call(OFF, None);
    CallOff(w);
    var w1 := Next(w, call);
    AfterMore(w, [], call);
    CallOff(w1);
    var w2 := Next(w1, call);
    AfterMore(w, [] + [call], call);
    BeginOff(w2, 0);
    var w3 := Next(w2, Begin(0));
    AfterMore(w, [] + [call] + [call], Begin(0));
    BeginOff(w3, 1);
    var w4 := Next(w3, Begin(1));
    AfterMore(w, [] + [call] + [call] + [Begin(0)], Begin(1));
    var w5 := Next(w4, Succeed(1));
    AfterMore(w, [] + [call] + [call] + [Begin(0)] + [Begin(1)], Succeed(1));
    assert [] + [call] + [call] + [Begin(0)] + [Begin(1)] + [Succeed(1)] == TWO_CALLS;
    assert w5.flights[0].Transmitting?;
  }

  // ----- Starting and restarting -----

  /** An entry before its start: nothing staged, sent or timed. */
  predicate IsIdle(e: Entry) {
    e.desired.None? && !e.sending && !e.debouncePending && !e.shuttingDown && e.activeProfile.None? && FrameMatchesState(e)
  }

  function StartOf(e: Entry): World { World(e, [], Current(e)) }

  lemma RestoredPacketMatches(profile: Profile, saved: Saved)
    requires RestoredPacket(profile, saved).Ok?
    ensures var packet := RestoredPacket(profile, saved).value;
            StateFromFrame(packet.frame) == Ok(if packet.frame.IsExtended() then packet.state.(cpi := false) else packet.state)
  {
    hide EncodeState, StateFromFrame;
    if saved.frame.Some? {
      ReadPacketMatches(RestoredPacket(profile, saved).value);
    } else {
      EncodedReads(saved.state, profile, false, RestoredPacket(profile, saved).value.frame);
    }
  }

  /**
    Whatever was saved and learned, a start that does not raise is consistent and knows a state.  Its profile marker is true
    exactly when no profile was applied or the packet reads as the saved state.
   */
  lemma StartIsConsistent(e: Entry, saved: Option<Saved>, learned: Option<Frame>)
    requires IsIdle(e) && StartUp(e, saved, learned).Ok?
    ensures var r := StartUp(e, saved, learned).value;
            && Consistent(StartOf(r)) && NothingStranded(StartOf(r)) && Current(r).Some?
            && (ProfileIsCurrent(r) <==>
                  saved.Some? && saved.value.appliedProfileId.Some? ==> Current(r) == Some(saved.value.state))
  {
    hide EncodeState, StateFromFrame, RestoredPacket, Control.DefaultManualState;
    if saved.Some? {
      RestoredPacketMatches(e.profile, saved.value);
    }
    if learned.Some? && StateFromFrame(learned.value).Ok? {
      ReadPacketMatches(StatePacket(StateFromFrame(learned.value).value, learned.value));
    }
    if EncodeState(Control.DefaultManualState(), e.profile, false).Ok? {
      EncodedReads(Control.DefaultManualState(), e.profile, false, EncodeState(Control.DefaultManualState(), e.profile, false).value);
    }
  }

  /** Without a saved record or a learned frame the start never raises: everything is off. */
  lemma FirstStart(profile: Profile, features: Control.Features, backendAvailable: bool, activeListening: bool)
    ensures var e := FreshEntry(profile, features, backendAvailable, activeListening);
            && IsIdle(e) && Consistent(StartOf(e)) && ProfileIsCurrent(e)
            && StartUp(e, None, None).Ok? && Current(StartUp(e, None, None).value) == Some(Control.DefaultManualState())
  {
    hide EncodeState;
    StateRoundTrip(Control.DefaultManualState(), profile, false);
  }

  /**
    Saving a consistent entry and starting from what was saved never raises.  The known state comes back, but for a CPI flag
    held in a ten-word frame; with an applied profile the marker is true exactly when there is no such flag.
   */
  lemma RestartIff(w: World, e: Entry, learned: Option<Frame>)
    requires Consistent(w) && w.entry.lastPacket.Some? && IsIdle(e)
    ensures var packet, start := w.entry.lastPacket.value, StartUp(e, SavedOf(w.entry), learned);
            && start.Ok?
            && Current(start.value) == Some(if packet.frame.IsExtended() then packet.state.(cpi := false) else packet.state)
            && (w.entry.appliedProfileId.Some? ==>
                  (ProfileIsCurrent(start.value) <==> !(packet.frame.IsExtended() && packet.state.cpi)))
  {
    hide EncodeState, StateFromFrame;
    StartIsConsistent(e, SavedOf(w.entry), learned);
  }

  /**
    The failing case is reached: a profile with CPI that was sent to a ten-word remote is, after a restart, still marked as
    applied although the known state lacks the flag; the first observation or successful send removes the mark.
   */
  lemma SentCpiProfileGoesStale(w: World, i: nat, e: Entry, learned: Option<Frame>)
    requires Consistent(w) && Enabled(w, Succeed(i)) && w.flights[i].send.profileId.Some? && IsIdle(e)
    ensures var start := StartUp(e, SavedOf(Next(w, Succeed(i)).entry), learned);
            && start.Ok?
            && (ProfileIsCurrent(start.value) <==> !(w.entry.profile.TenWord? && w.flights[i].send.requested.cpi))
  {
    hide EncodeState, StateFromFrame, StartUp;
    var flight := w.flights[i];
    assert CarriesItsSend(flight, w.entry.profile);
    EncodedReads(flight.send.requested, w.entry.profile, flight.send.debounced, flight.packet.frame);
    StepKeeps(w, Succeed(i));
    RestartIff(Next(w, Succeed(i)), e, learned);
  }

  // ----- Edits during a send -----

  function Edited(e: Entry, edits: seq<Control.Changes>): Entry {
    if edits == [] then e else StageStep(Edited(e, edits[..|edits| - 1]), edits[|edits| - 1]).0
  }

  /**
    Whatever is staged while a send is in flight is lost if the send ends before a debounce fires: after a success the effective
    state is the one that was sent, after a failure the known one, and the debounce those edits started finds nothing to send.
   */
  lemma EditsDuringSendAreLost(w: World, edits: seq<Control.Changes>, cause: FailureCause)
    requires w.flights != [] && w.flights[0].Transmitting? && w.flights[0].packet.state == w.flights[0].send.requested
    ensures var edited := w.(entry := Edited(w.entry, edits));
            var done := Next(Next(edited, Succeed(0)), Finish(0)).entry;
            Effective(done) == Some(w.flights[0].send.requested) && FireStep(done).1.None?
    ensures var edited := w.(entry := Edited(w.entry, edits));
            var failed := Next(edited, Fail(0, cause)).entry;
            Effective(failed) == Current(edited.entry) && FireStep(failed).1.None?
  {
    hide Edited;
  }
}
