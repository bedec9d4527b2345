/**
  What a fireplace shows its user: every run of the runtime entry refines a small machine without tasks, timers, packets or frames,
  and runs of edits between sends show the fold of the edits.
 */
module RuntimeView {
  import opened Wrappers
  import opened Packet
  import opened StateCodec
  import Control
  import opened Runtime
  import opened RuntimeRuns

  /** The known state, the staged one, the sends in progress, and whether the entry is shutting down. */
  datatype View = View(known: Option<State>, pending: Option<State>, sends: seq<Send>, closed: bool)

  /** What the user sees. */
  function Shown(v: View): Option<State> { if v.pending.Some? then v.pending else v.known }

  /** An edit merges into the shown state: it is already known, it is kept as a setting of a fireplace that is off, or it waits. */
  function EditedView(features: Control.Features, v: View, changes: Control.Changes): View {
    if v.closed || Shown(v).None? then v
    else
      match Control.Staged(features, Shown(v).value, changes)
      case Err(_) => v
      case Ok(s) =>
        if v.known == Some(s) then v.(pending := None)
        else if v.known.Some? && !v.known.value.power && !s.power && changes.power.None? && changes.flame.None? then
          v.(pending := None, known := if TransmitError(s, false, true).None? then Some(s) else v.known)
        else v.(pending := Some(s))
  }

  function CalledView(features: Control.Features, v: View, data: Control.Request, profileId: Option<string>): View {
    if v.closed then v
    else
      match Control.BuildRequestedState(features, data)
      case Err(_) => v
      case Ok(r) => v.(sends := v.sends + [Send(r.0, false, profileId)])
  }

  function Removed(sends: seq<Send>, i: nat): seq<Send> { if i < |sends| then sends[..i] + sends[i + 1..] else sends }

  /** A send that ends takes the staged state with it, whatever it is by then. */
  function EndedView(v: View, i: nat): View { v.(pending := None, sends := Removed(v.sends, i)) }

  function NextView(features: Control.Features, backendAvailable: bool, v: View, event: Event): View {
    match event
    case Edit(changes) => EditedView(features, v, changes)
    case Fire =>
      if v.closed then v.(pending := None)
      else if v.pending.Some? then v.(sends := v.sends + [Send(v.pending.value, true, None)])
      else v
    case Call(data, profileId) => CalledView(features, v, data, profileId)
    case Begin(i) =>
      if i >= |v.sends| then v
      else if backendAvailable && TransmitError(v.sends[i].requested, false, v.sends[i].debounced).None? then v
      else EndedView(v, i)
    case Succeed(i) => if i < |v.sends| then v.(known := Some(v.sends[i].requested)) else v
    case Fail(i, _) => EndedView(v, i)
    case Finish(i) => EndedView(v, i)
    case Observe(packet) => v.(known := Some(packet.state))
    case ShutDown => v.(closed := true)
    case Drop(i) => v.(sends := Removed(v.sends, i))
    case _ => v
  }

  function ViewAfter(features: Control.Features, backendAvailable: bool, v: View, events: seq<Event>): View {
    if events == [] then v
    else
      var n := |events| - 1;
      NextView(features, backendAvailable, ViewAfter(features, backendAvailable, v, events[..n]), events[n])
  }

  function Sends(flights: seq<Flight>): (sends: seq<Send>)
    ensures |sends| == |flights| && forall i :: 0 <= i < |sends| ==> sends[i] == flights[i].send
  {
    seq(|flights|, i requires 0 <= i < |flights| => flights[i].send)
  }

  function ViewOf(w: World): View { View(Current(w.entry), w.entry.desired, Sends(w.flights), w.entry.shuttingDown) }

  lemma SendsFollow(flights: seq<Flight>, i: nat, flight: Flight, send: Send)
    ensures Sends(flights + [Starting(send)]) == Sends(flights) + [send]
    ensures i < |flights| ==> Sends(Without(flights, i)) == Removed(Sends(flights), i)
    ensures i < |flights| && flight.send == flights[i].send ==> Sends(flights[i := flight]) == Sends(flights)
  {}

  lemma AdoptRefines(e: Entry, desired: State, changes: Control.Changes)
    ensures var adopted := AdoptStep(e, desired, changes).0;
            if Current(e) == Some(desired) then adopted.desired.None? && Current(adopted) == Current(e)
            else if IsRetainedOffEdit(Current(e), desired, changes) then
              && adopted.desired.None?
              && Current(adopted) == if TransmitError(desired, false, true).None? then Some(desired) else Current(e)
            else adopted.desired == Some(desired) && Current(adopted) == Current(e)
  {
    hide EncodeState, DecodeState, TransmitError, Carried;
    StateRoundTrip(desired, e.profile, true);
  }

  lemma UnprofiledLeaves(e: Entry, desired: State)
    ensures var r := Unprofiled(e, desired);
            && Current(r) == Current(e) && r.desired == e.desired && r.profile == e.profile && r.shuttingDown == e.shuttingDown
  {}

  lemma EditRefines(w: World, changes: Control.Changes)
    ensures ViewOf(Next(w, Edit(changes))) == EditedView(w.entry.features, ViewOf(w), changes)
  {
    hide Control.Staged, AdoptStep, Unprofiled, TransmitError, Sends;
    if !w.entry.shuttingDown && Effective(w.entry).Some? {
      var staged := Control.Staged(w.entry.features, Effective(w.entry).value, changes);
      if staged.Ok? {
        UnprofiledLeaves(w.entry, staged.value);
        AdoptRefines(Unprofiled(w.entry, staged.value), staged.value, changes);
      }
    }
  }

  lemma FireRefines(w: World)
    requires FlightsCarrySends(w) && Enabled(w, Fire)
    ensures FlightsCarrySends(Next(w, Fire))
    ensures ViewOf(Next(w, Fire)) == NextView(w.entry.features, w.entry.backendAvailable, ViewOf(w), Fire)
  {
    hide CarriesItsSend, Sends;
    LaunchedFlight(w, FireStep(w.entry).1);
    if w.entry.desired.Some? {
      var send := Send(w.entry.desired.value, true, None);
      SendsFollow(w.flights, 0, Starting(send), send);
    }
  }

  lemma CallRefines(w: World, data: Control.Request, profileId: Option<string>)
    requires FlightsCarrySends(w)
    ensures FlightsCarrySends(Next(w, Call(data, profileId)))
    ensures ViewOf(Next(w, Call(data, profileId))) == CalledView(w.entry.features, ViewOf(w), data, profileId)
  {
    hide CarriesItsSend, Sends, Control.BuildRequestedState;
    var send := RequestStep(w.entry, data, profileId).1;
    LaunchedFlight(w, send);
    if send.Some? {
      SendsFollow(w.flights, 0, Starting(send.value), send.value);
    }
  }

  lemma BeginRefines(w: World, i: nat)
    requires FlightsCarrySends(w) && Enabled(w, Begin(i))
    ensures FlightsCarrySends(Next(w, Begin(i)))
    ensures ViewOf(Next(w, Begin(i))) == NextView(w.entry.features, w.entry.backendAvailable, ViewOf(w), Begin(i))
  {
    hide EncodeState, DecodeState, TransmitError, Carried, Sends;
    var send := w.flights[i].send;
    StateRoundTrip(send.requested, w.entry.profile, send.debounced);
    RemovedFlight(w, i);
    var packet := BeginStep(w.entry, send).1;
    if packet.Some? {
      ReplacedFlight(w, i, Transmitting(send, packet.value));
      SendsFollow(w.flights, i, Transmitting(send, packet.value), send);
    } else {
      SendsFollow(w.flights, i, w.flights[i], send);
    }
  }

  lemma SucceedRefines(w: World, i: nat)
    requires FlightsCarrySends(w) && Enabled(w, Succeed(i))
    ensures FlightsCarrySends(Next(w, Succeed(i)))
    ensures ViewOf(Next(w, Succeed(i))) == NextView(w.entry.features, w.entry.backendAvailable, ViewOf(w), Succeed(i))
  {
    hide EncodeState, Sends;
    var flight := w.flights[i];
    assert CarriesItsSend(flight, w.entry.profile);
    ReplacedFlight(w, i, Recording(flight.send, flight.packet));
    SendsFollow(w.flights, i, Recording(flight.send, flight.packet), flight.send);
  }

  lemma EndRefines(w: World, event: Event)
    requires FlightsCarrySends(w) && Enabled(w, event) && (event.Fail? || event.Finish? || event.Drop?)
    ensures FlightsCarrySends(Next(w, event))
    ensures ViewOf(Next(w, event)) == NextView(w.entry.features, w.entry.backendAvailable, ViewOf(w), event)
  {
    hide CarriesItsSend, Sends;
    RemovedFlight(w, event.i);
    SendsFollow(w.flights, event.i, w.flights[event.i], w.flights[event.i].send);
  }

  lemma OtherRefines(w: World, event: Event)
    requires FlightsCarrySends(w) && Enabled(w, event) && (event.Observe? || event.Settle? || event.Expire? || event.ShutDown?)
    ensures FlightsCarrySends(Next(w, event))
    ensures ViewOf(Next(w, event)) == NextView(w.entry.features, w.entry.backendAvailable, ViewOf(w), event)
  {
    hide CarriesItsSend, Sends, StateFromFrame;
  }

  lemma EditCarries(w: World, changes: Control.Changes)
    requires FlightsCarrySends(w)
    ensures FlightsCarrySends(Next(w, Edit(changes)))
  {
    hide StageStep, CarriesItsSend;
    StagingLeaves(w.entry, changes);
  }

  lemma StepRefines(w: World, event: Event)
    requires FlightsCarrySends(w) && Enabled(w, event)
    ensures FlightsCarrySends(Next(w, event))
    ensures ViewOf(Next(w, event)) == NextView(w.entry.features, w.entry.backendAvailable, ViewOf(w), event)
  {
    hide FlightsCarrySends, ViewOf, Enabled, Next;
    match event
    case Edit(changes) => EditRefines(w, changes); EditCarries(w, changes);
    case Fire => FireRefines(w);
    case Call(data, profileId) => CallRefines(w, data, profileId);
    case Begin(i) => BeginRefines(w, i);
    case Succeed(i) => SucceedRefines(w, i);
    case Fail(_, _) => EndRefines(w, event);
    case Finish(_) => EndRefines(w, event);
    case Drop(_) => EndRefines(w, event);
    case _ => OtherRefines(w, event);
  }

  /**
    Every run refines the view: edits and service calls at any time, sends that overlap, succeed, fail, are cancelled or cannot
    start, timers, observed packets and a shutdown.
   */
  lemma {:induction false} RunRefinesView(w: World, events: seq<Event>)
    requires FlightsCarrySends(w) && After(w, events).Some?
    ensures FlightsCarrySends(After(w, events).value)
    ensures ViewOf(After(w, events).value) == ViewAfter(w.entry.features, w.entry.backendAvailable, ViewOf(w), events)
  {
    hide Enabled, Next, NextView, FlightsCarrySends, ViewOf;
    if events != [] {
      var n := |events| - 1;
      RunRefinesView(w, events[..n]);
      SetupIsFixed(w, events[..n]);
      StepRefines(After(w, events[..n]).value, events[n]);
    }
  }

  // ----- Runs of edits -----

  /** Edits come between sends; everything else may happen at any time. */
  predicate Apart(w: World, event: Event) { event.Edit? ==> w.flights == [] }

  predicate ApartRun(w: World, events: seq<Event>) {
    events == []
    || (var n := |events| - 1;
        && ApartRun(w, events[..n])
        && After(w, events).Some?
        && Apart(After(w, events[..n]).value, events[n]))
  }

  /** At most one send, with no timer beside it. */
  predicate OneSend(w: World) {
    w.flights == [] || (|w.flights| == 1 && !w.entry.debouncePending && CarriesItsSend(w.flights[0], w.entry.profile))
  }

  /** Valid edits, debounce firings and sends that succeed. */
  predicate IsEditing(event: Event) {
    match event
    case Edit(changes) => Control.ValidChanges(changes)
    case Fire => true
    case Begin(_) => true
    case Succeed(_) => true
    case Finish(_) => true
    case Settle(_) => true
    case Expire => true
    case _ => false
  }

  /** A live entry with nothing in progress that knows a state in range; light level 7 is in range because it may be observed. */
  predicate AtRest(w: World) {
    && !w.entry.shuttingDown && w.entry.backendAvailable
    && w.flights == [] && w.entry.desired.None?
    && Current(w.entry).Some? && Control.InRange(Current(w.entry).value)
  }

  /** Every known state of a consistent entry is in range: it was read from its frame. */
  lemma KnownIsInRange(w: World)
    requires Consistent(w) && Current(w.entry).Some?
    ensures Control.InRange(Current(w.entry).value)
  {
    hide StateOfFrame, AgreeUnlessOff, SendingIsReal, FlightsCarrySends;
    var packet := w.entry.lastPacket.value;
    Control.ObservedIsInRange(if packet.frame.IsExtended() then packet.state.(cpi := false) else packet.state);
  }

  /** So a start with a backend, from whatever was saved or learned, is at rest. */
  lemma StartIsAtRest(e: Entry, saved: Option<Saved>, learned: Option<Frame>)
    requires IsIdle(e) && e.backendAvailable && StartUp(e, saved, learned).Ok?
    ensures AtRest(StartOf(StartUp(e, saved, learned).value))
  {
    hide RestoredPacket, StateFromFrame, EncodeState, Consistent, Control.InRange, Control.DefaultManualState;
    StartIsConsistent(e, saved, learned);
    KnownIsInRange(StartOf(StartUp(e, saved, learned).value));
  }

  predicate EditingRun(w: World, events: seq<Event>) {
    AtRest(w) && ApartRun(w, events) && forall event :: event in events ==> IsEditing(event)
  }

  /** One edit of the sequential meaning; an edit that cannot be staged changes nothing. */
  function FoldedStep(features: Control.Features, s: State, event: Event): State {
    if event.Edit? && Control.Staged(features, s, event.changes).Ok? then Control.Staged(features, s, event.changes).value else s
  }

  /** The sequential meaning of the edits of a run. */
  function Folded(features: Control.Features, s: State, events: seq<Event>): State {
    if events == [] then s else FoldedStep(features, Folded(features, s, events[..|events| - 1]), events[|events| - 1])
  }

  predicate Sendable(s: State) { Control.InRange(s) && TransmitError(s, false, true).None? }

  /** The entry shows s: it is the known state, or staged and perhaps on its way. */
  predicate Shows(w: World, s: State) {
    && !w.entry.shuttingDown && w.entry.backendAvailable && OneSend(w)
    && Current(w.entry).Some? && Control.InRange(Current(w.entry).value)
    && (w.entry.desired.Some? ==> Sendable(w.entry.desired.value))
    && Shown(ViewOf(w)) == Some(s)
    && (w.flights != [] ==>
          && w.flights[0].send.debounced && w.entry.desired == Some(w.flights[0].send.requested)
          && (w.flights[0].Recording? ==> Current(w.entry) == w.entry.desired))
  }

  lemma EditShows(w: World, s: State, changes: Control.Changes)
    requires Shows(w, s) && w.flights == [] && Control.ValidChanges(changes)
    ensures Shows(Next(w, Edit(changes)), FoldedStep(w.entry.features, s, Edit(changes)))
  {
    hide Control.Staged, StageStep, TransmitError, Control.ValidChanges, Control.InRange, CarriesItsSend, Sends;
    EditRefines(w, changes);
    StepKeepsSetup(w, Edit(changes));
    ShownInRange(w, s);
    Control.StagedStaysInRange(w.entry.features, s, changes);
  }

  lemma ShownInRange(w: World, s: State)
    requires Shows(w, s)
    ensures Control.InRange(s)
  {}

  lemma SendShows(w: World, s: State, event: Event)
    requires Shows(w, s) && Enabled(w, event) && IsEditing(event) && !event.Edit?
    ensures Shows(Next(w, event), s)
  {
    hide EncodeState, DecodeState, TransmitError, Control.InRange, Carried;
    if event.Begin? {
      StateRoundTrip(w.flights[0].send.requested, w.entry.profile, true);
    }
  }

  lemma {:induction false} RunShows(w: World, events: seq<Event>)
    requires EditingRun(w, events)
    ensures After(w, events).Some?
    ensures Shows(After(w, events).value, Folded(w.entry.features, Current(w.entry).value, events))
  {
    hide Enabled, Next, IsEditing, Shows, FoldedStep, Control.InRange;
    if events == [] {
      RestShows(w);
    } else {
      var n := |events| - 1;
      assert events[n] in events;
      RunShows(w, events[..n]);
      SetupIsFixed(w, events[..n]);
      var v, s := After(w, events[..n]).value, Folded(w.entry.features, Current(w.entry).value, events[..n]);
      ShowsStep(v, s, events[n]);
    }
  }

  lemma RestShows(w: World)
    requires AtRest(w)
    ensures Shows(w, Current(w.entry).value)
  {}

  lemma ShowsStep(w: World, s: State, event: Event)
    requires Shows(w, s) && Enabled(w, event) && Apart(w, event) && IsEditing(event)
    ensures Shows(Next(w, event), FoldedStep(w.entry.features, s, event))
  {
    hide Shows, Next, Control.Staged;
    if event.Edit? {
      EditShows(w, s, event.changes);
    } else {
      SendShows(w, s, event);
    }
  }

  /** Without failures the shown state is the fold of the edits, wherever the timers and sends fall. */
  lemma EffectiveIsFolded(w: World, events: seq<Event>)
    requires EditingRun(w, events)
    ensures After(w, events).Some?
    ensures Effective(After(w, events).value.entry) == Some(Folded(w.entry.features, Current(w.entry).value, events))
  {
    hide EditingRun, Folded, After, OneSend, Control.InRange;
    RunShows(w, events);
  }

  /** A packet handed to the backend is the encoding of its send's state. */
  lemma SentPacketIsEncoded(w: World, events: seq<Event>, flight: Flight)
    requires EditingRun(w, events)
    requires After(w, events).Some? && flight in After(w, events).value.flights && !flight.Starting?
    ensures EncodeState(flight.send.requested, w.entry.profile, true) == Ok(flight.packet.frame)
  {
    hide EditingRun, After, EncodeState, Folded, Control.InRange;
    RunShows(w, events);
    SetupIsFixed(w, events);
  }

  /** It decodes to the fold of the edits so far. */
  lemma SentPacketCarriesFold(w: World, events: seq<Event>, flight: Flight)
    requires EditingRun(w, events)
    requires After(w, events).Some? && flight in After(w, events).value.flights && !flight.Starting?
    ensures DecodeState(flight.packet.frame, w.entry.profile)
         == Ok(Carried(Folded(w.entry.features, Current(w.entry).value, events), w.entry.profile))
  {
    hide EditingRun, Folded, After, EncodeState, DecodeState, Carried, Control.InRange;
    RunShows(w, events);
    SentPacketIsEncoded(w, events, flight);
    StateRoundTrip(flight.send.requested, w.entry.profile, true);
  }
}
