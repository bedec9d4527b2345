/**
  The live runtime entry of one fireplace: custom_components/proflame2/runtime.py and the control paths of
  custom_components/proflame2/services.py.  Every member below is one stretch of code between two awaits.
 */
module Runtime {
  import opened Wrappers
  import opened Packet
  import opened StateCodec
  import opened Control

  datatype Status = Ready | Pending | SendingNow | Confirming | Failed | Unavailable

  datatype Confidence = Unknown | Observed | Requested | Restored

  datatype FailureCause =
    | NoCurrentState
    | ShuttingDown
    | NoBackend
    | BadState(error: CodecError)
    | BadRequest(reason: ControlError)
    | BackendFailed
    | Cancelled
    | TimedOut
    | NoObservedState

  /** An operational packet: the state it stands for and its frame. */
  datatype StatePacket = StatePacket(state: State, frame: Frame)

  /** One send: its captured state, whether the debounce task started it, and the profile it applies, if any. */
  datatype Send = Send(requested: State, debounced: bool, profileId: Option<string>)

  datatype StageOutcome =
    | StageRefused
    | NoKnownState
    | StageRaised(error: ControlError)
    | MatchesCurrent
    | Retained
    | RetainRaised(codecError: CodecError)
    | Pended

  /** The fields of an entry. */
  datatype Entry = Entry(
    profile: Profile,
    features: Features,
    lastPacket: Option<StatePacket>,
    desired: Option<State>,
    status: Status,
    confidence: Confidence,
    sending: bool,
    lastError: Option<FailureCause>,
    activeProfile: Option<State>,
    appliedProfileId: Option<string>,
    debouncePending: bool,
    activeListening: bool,
    backendAvailable: bool,
    shuttingDown: bool)

  /** What is persisted with the known state; an applied profile has both an id and a name. */
  datatype Saved = Saved(state: State, confidence: Confidence, appliedProfileId: Option<string>, frame: Option<Frame>)

  // ----- What each stretch does to the fields -----

  /** What no stretch touches. */
  predicate SameSetup(a: Entry, b: Entry) {
    a.profile == b.profile && a.features == b.features && a.backendAvailable == b.backendAvailable
  }

  /** runtime_current_state */
  function Current(e: Entry): Option<State> {
    if e.lastPacket.Some? then Some(e.lastPacket.value.state) else None
  }

  /** clear_active_profile_if_state_differs */
  function ProfileCleared(e: Entry, state: State): Entry {
    if e.activeProfile.Some? && e.activeProfile.value != state then e.(activeProfile := None, appliedProfileId := None) else e
  }

  /** Only feature keys, neither power nor flame. */
  predicate OnlyFeatureKeys(changes: Changes) { changes.power.None? && changes.flame.None? }

  /** _is_retained_off_control_edit */
  predicate IsRetainedOffEdit(current: Option<State>, desired: State, changes: Changes) {
    current.Some? && !current.value.power && !desired.power && OnlyFeatureKeys(changes)
  }

  /** No desired state and no timer. */
  function Settled(e: Entry): Entry { e.(desired := None, status := Ready, debouncePending := false) }

  /** A staged state becomes the known one without a transmission. */
  function RetainStep(e: Entry, desired: State): (r: (Entry, StageOutcome))
    ensures SameSetup(r.0, e) && r.0.shuttingDown == e.shuttingDown && r.0.sending == e.sending
  {
    match EncodeState(desired, e.profile, true)
    case Err(error) => (e, RetainRaised(error))
    case Ok(frame) => (e.(lastPacket := Some(StatePacket(desired, frame)), confidence := Requested), Retained)
  }

  /** What happens to a staged state: it is already known, it is retained, or it waits for the debounce. */
  function AdoptStep(e: Entry, desired: State, changes: Changes): (r: (Entry, StageOutcome))
    ensures SameSetup(r.0, e) && r.0.shuttingDown == e.shuttingDown && r.0.sending == e.sending
  {
    if Current(e) == Some(desired) then (Settled(e), MatchesCurrent)
    else if IsRetainedOffEdit(Current(e), desired, changes) then RetainStep(Settled(e), desired)
    else (e.(desired := Some(desired), status := Pending, debouncePending := true), Pended)
  }

  /** The profile marker goes when the staged state differs from it, and the applied profile with it. */
  function Unprofiled(e: Entry, desired: State): Entry {
    var cleared := ProfileCleared(e, desired);
    if cleared.activeProfile.None? then cleared.(appliedProfileId := None) else cleared
  }

  /** The state an edit starts from. */
  function Effective(e: Entry): Option<State> { if e.desired.Some? then e.desired else Current(e) }

  /** async_stage_control_change */
  function StageStep(e: Entry, changes: Changes): (Entry, StageOutcome) {
    if e.shuttingDown then (e, StageRefused)
    else if Effective(e).None? then
      (e.(status := Failed, lastError := Some(NoCurrentState), debouncePending := false), NoKnownState)
    else
      match Control.Staged(e.features, Effective(e).value, changes)
      case Err(error) => (e, StageRaised(error))
      case Ok(desired) => AdoptStep(Unprofiled(e, desired), desired, changes)
  }

  lemma StagingLeaves(e: Entry, changes: Changes)
    ensures var r := StageStep(e, changes).0;
            SameSetup(r, e) && r.shuttingDown == e.shuttingDown && r.sending == e.sending
  {
    hide Control.Staged, AdoptStep;
  }

  /** The failure fields that every failed send leaves behind. */
  function SendFailed(e: Entry, cause: FailureCause): Entry {
    e.(sending := false, status := Failed, lastError := Some(cause), desired := None)
  }

  /** The debounce task wakes up: it captures the desired state, or finds nothing to send. */
  function FireStep(e: Entry): (r: (Entry, Option<Send>))
    ensures SameSetup(r.0, e) && r.0.shuttingDown == e.shuttingDown
  {
    var e1 := e.(debouncePending := false);
    if e.desired.None? then (e1, None)
    else if e.shuttingDown then
      var error := if e.lastError.None? then Some(ShuttingDown) else e.lastError;
      (e1.(sending := false, desired := None, status := Failed, lastError := error), None)
    else (e1, Some(Send(e.desired.value, true, None)))
  }

  /** A service call or a saved profile: validated, then the send cancels the pending debounce and stops receiving. */
  function RequestStep(e: Entry, data: Control.Request, profileId: Option<string>): (r: (Entry, Option<Send>))
    ensures SameSetup(r.0, e) && r.0.shuttingDown == e.shuttingDown
    ensures r.0 == e.(lastError := r.0.lastError, debouncePending := r.0.debouncePending)
    ensures r.1.None? ==> r.0.debouncePending == e.debouncePending
    ensures r.0.debouncePending ==> e.debouncePending
  {
    if e.shuttingDown then (e, None)
    else
      match BuildRequestedState(e.features, data)
      case Err(reason) => (e.(lastError := Some(BadRequest(reason))), None)
      case Ok(r) => (e.(debouncePending := false), Some(Send(r.0, false, profileId)))
  }

  /** After receiving has stopped: enter the sending phase and build the packet. */
  function BeginStep(e: Entry, send: Send): (r: (Entry, Option<StatePacket>))
    ensures SameSetup(r.0, e) && r.0.shuttingDown == e.shuttingDown
  {
    var e1 := e.(sending := true, status := SendingNow, lastError := None);
    if !e.backendAvailable then
      var status := if send.debounced then Failed else Unavailable;
      (e1.(sending := false, desired := None, lastError := Some(NoBackend), status := status), None)
    else
      match EncodeState(send.requested, e.profile, send.debounced)
      case Err(error) => (SendFailed(e1, BadState(error)), None)
      case Ok(frame) => (e1, Some(StatePacket(send.requested, frame)))
  }

  /** The backend accepted the packet: it becomes the known state. */
  function SucceedStep(e: Entry, send: Send, packet: StatePacket): Entry {
    e.(sending := false, lastError := None,
       appliedProfileId := send.profileId,
       activeProfile := if send.profileId.Some? then Some(send.requested) else None,
       lastPacket := Some(packet), confidence := Requested)
  }

  /** The new state is persisted: the desired state is cleared, whatever it is by now. */
  function FinishStep(e: Entry): Entry {
    if e.activeListening then e.(desired := None, status := Confirming) else e.(desired := None)
  }

  /** async_apply_observed_packet */
  function ObserveStep(e: Entry, packet: StatePacket): Entry {
    ProfileCleared(e, packet.state).(lastError := None, status := Ready, lastPacket := Some(packet), confidence := Observed)
  }

  /** The confirmation window closes without a matching packet. */
  function ExpireStep(e: Entry): Entry { e.(status := Ready, confidence := Requested) }

  /** Without active listening, the send ends in a confirmation window or right away. */
  function SettleStep(e: Entry, confirming: bool): Entry {
    if e.activeListening then e else e.(status := if confirming then Confirming else Ready)
  }

  /** Unloading or stopping: no new action is accepted and the pending debounce is cancelled. */
  function ShutDownStep(e: Entry): Entry { e.(shuttingDown := true, activeListening := false, debouncePending := false) }

  // ----- Saving and starting -----

  /** The defaults of the record. */
  function FreshEntry(profile: Profile, features: Features, backendAvailable: bool, activeListening: bool): Entry {
    Entry(profile, features, None, None, Ready, Unknown, false, None, None, None, false, activeListening, backendAvailable, false)
  }

  /** async_persist_runtime_entry_state */
  function SavedOf(e: Entry): Option<Saved> {
    if e.lastPacket.None? then None
    else Some(Saved(e.lastPacket.value.state, e.confidence, e.appliedProfileId, Some(e.lastPacket.value.frame)))
  }

  /** The packet that a saved record stands for: read from its frame, or encoded from its state when it has none. */
  function RestoredPacket(profile: Profile, saved: Saved): Result<StatePacket, CodecError> {
    match saved.frame
    case Some(frame) =>
      (match StateFromFrame(frame)
       case Err(error) => Err(error)
       case Ok(state) => Ok(StatePacket(state, frame)))
    case None =>
      match EncodeState(saved.state, profile, false)
      case Err(error) => Err(error)
      case Ok(frame) => Ok(StatePacket(saved.state, frame))
  }

  /** async_restore_runtime_state: the active profile is the saved state, the known state that of the packet. */
  function RestoreStep(e: Entry, saved: Option<Saved>): (r: Result<Entry, CodecError>)
    ensures r.Ok? ==> SameSetup(r.value, e)
  {
    if saved.None? then Ok(e)
    else
      match RestoredPacket(e.profile, saved.value)
      case Err(error) => Err(error)
      case Ok(packet) =>
        Ok(e.(lastPacket := Some(packet), confidence := saved.value.confidence, appliedProfileId := saved.value.appliedProfileId,
              status := Ready,
              activeProfile := if saved.value.appliedProfileId.Some? then Some(saved.value.state) else e.activeProfile))
  }

  /** async_bootstrap_runtime_state_from_entry_data: the frame that was learned, if nothing is known yet. */
  function BootstrapStep(e: Entry, learned: Option<Frame>): (r: Result<Entry, CodecError>)
    ensures r.Ok? ==> SameSetup(r.value, e)
  {
    if e.lastPacket.Some? || learned.None? then Ok(e)
    else
      match StateFromFrame(learned.value)
      case Err(error) => Err(error)
      case Ok(state) => Ok(e.(lastPacket := Some(StatePacket(state, learned.value)), confidence := Observed, status := Ready))
  }

  /** async_initialize_safe_default_runtime_state: everything off, if nothing is known yet. */
  function SafeDefaultStep(e: Entry): (r: Result<Entry, CodecError>)
    ensures r.Ok? ==> SameSetup(r.value, e)
  {
    if e.lastPacket.Some? then Ok(e)
    else
      match EncodeState(DefaultManualState(), e.profile, false)
      case Err(error) => Err(error)
      case Ok(frame) =>
        Ok(e.(lastPacket := Some(StatePacket(DefaultManualState(), frame)), confidence := Confidence.Restored, status := Ready,
              lastError := Some(NoObservedState)))
  }

  /** The start of an entry: what was saved, else what was learned, else everything off. */
  function StartUp(e: Entry, saved: Option<Saved>, learned: Option<Frame>): Result<Entry, CodecError> {
    match RestoreStep(e, saved)
    case Err(error) => Err(error)
    case Ok(restored) =>
      match BootstrapStep(restored, learned)
      case Err(error) => Err(error)
      case Ok(bootstrapped) => SafeDefaultStep(bootstrapped)
  }

  // ----- The entry -----

  class RuntimeEntry {
    const profile: Profile
    const features: Features
    var lastPacket: Option<StatePacket>
    var desired: Option<State>
    var status: Status
    var confidence: Confidence
    var sending: bool
    var lastError: Option<FailureCause>
    var activeProfile: Option<State>
    var appliedProfileId: Option<string>
    var debouncePending: bool
    var activeListening: bool
    var backendAvailable: bool
    var shuttingDown: bool

    ghost function Fields(): Entry
      reads this
    {
      Entry(profile, features, lastPacket, desired, status, confidence, sending, lastError, activeProfile, appliedProfileId,
            debouncePending, activeListening, backendAvailable, shuttingDown)
    }

    constructor (profile: Profile, features: Features, backendAvailable: bool, activeListening: bool)
      ensures Fields() == FreshEntry(profile, features, backendAvailable, activeListening)
      ensures status == Ready && confidence == Unknown && lastPacket.None? && desired.None? && lastError.None?
      ensures activeProfile.None? && appliedProfileId.None? && !sending && !debouncePending && !shuttingDown
    {
      this.profile, this.features := profile, features;
      this.backendAvailable, this.activeListening := backendAvailable, activeListening;
      lastPacket, desired, activeProfile, appliedProfileId, lastError := None, None, None, None, None;
      status, confidence := Ready, Unknown;
      sending, debouncePending, shuttingDown := false, false, false;
    }

    method ClearActiveProfileIfStateDiffers(state: State)
      modifies this`activeProfile, this`appliedProfileId
      ensures Fields() == ProfileCleared(old(Fields()), state)
    {
      if activeProfile.None? {
        return;
      }
      if activeProfile.value != state {
        appliedProfileId := None;
        activeProfile := None;
      }
    }

    method SetRuntimeCurrentState(packet: StatePacket, newConfidence: Confidence)
      modifies this`lastPacket, this`confidence
      ensures Fields() == old(Fields()).(lastPacket := Some(packet), confidence := newConfidence)
    {
      lastPacket := Some(packet);
      confidence := newConfidence;
    }

    method AdoptDesired(desiredState: State, changes: Changes) returns (outcome: StageOutcome)
      modifies this
      ensures (Fields(), outcome) == AdoptStep(old(Fields()), desiredState, changes)
    {
      hide EncodeState;
      var current := if lastPacket.Some? then Some(lastPacket.value.state) else None;
      if current == Some(desiredState) {
        desired, status := None, Ready;
        debouncePending := false;
        return MatchesCurrent;
      }
      if IsRetainedOffEdit(current, desiredState, changes) {
        desired, status := None, Ready;
        debouncePending := false;
        var frame := EncodeState(desiredState, profile, true);
        if frame.Err? {
          return RetainRaised(frame.error);
        }
        SetRuntimeCurrentState(StatePacket(desiredState, frame.value), Requested);
        return Retained;
      }
      desired, status := Some(desiredState), Pending;
      debouncePending := true;
      return Pended;
    }

    /** async_restore_runtime_state */
    method Restore(saved: Option<Saved>) returns (error: Option<CodecError>)
      modifies this
      ensures error.None? <==> RestoreStep(old(Fields()), saved).Ok?
      ensures if error.None? then RestoreStep(old(Fields()), saved) == Ok(Fields())
              else RestoreStep(old(Fields()), saved) == Err(error.value) && Fields() == old(Fields())
    {
      hide StateFromFrame, EncodeState;
      if saved.None? {
        return None;
      }
      var record := saved.value;
      if record.frame.Some? {
        var state := StateFromFrame(record.frame.value);
        if state.Err? {
          return Some(state.error);
        }
        lastPacket := Some(StatePacket(state.value, record.frame.value));
      } else {
        var frame := EncodeState(record.state, profile, false);
        if frame.Err? {
          return Some(frame.error);
        }
        lastPacket := Some(StatePacket(record.state, frame.value));
      }
      confidence := record.confidence;
      appliedProfileId := record.appliedProfileId;
      status := Ready;
      if appliedProfileId.Some? {
        activeProfile := Some(record.state);
      }
      return None;
    }

    /** async_bootstrap_runtime_state_from_entry_data */
    method Bootstrap(learned: Option<Frame>) returns (error: Option<CodecError>)
      modifies this
      ensures error.None? <==> BootstrapStep(old(Fields()), learned).Ok?
      ensures if error.None? then BootstrapStep(old(Fields()), learned) == Ok(Fields())
              else BootstrapStep(old(Fields()), learned) == Err(error.value) && Fields() == old(Fields())
    {
      hide StateFromFrame;
      if lastPacket.Some? || learned.None? {
        return None;
      }
      var state := StateFromFrame(learned.value);
      if state.Err? {
        return Some(state.error);
      }
      lastPacket := Some(StatePacket(state.value, learned.value));
      confidence := Observed;
      status := Ready;
      return None;
    }

    /** async_initialize_safe_default_runtime_state */
    method InitializeSafeDefault() returns (error: Option<CodecError>)
      modifies this
      ensures error.None? <==> SafeDefaultStep(old(Fields())).Ok?
      ensures if error.None? then SafeDefaultStep(old(Fields())) == Ok(Fields())
              else SafeDefaultStep(old(Fields())) == Err(error.value) && Fields() == old(Fields())
    {
      hide EncodeState;
      if lastPacket.Some? {
        return None;
      }
      var frame := EncodeState(DefaultManualState(), profile, false);
      if frame.Err? {
        return Some(frame.error);
      }
      lastPacket := Some(StatePacket(DefaultManualState(), frame.value));
      confidence := Confidence.Restored;
      status := Ready;
      lastError := Some(NoObservedState);
      return None;
    }

    method StageControlChange(changes: Changes) returns (outcome: StageOutcome)
      modifies this
      ensures (Fields(), outcome) == StageStep(old(Fields()), changes)
    {
      hide Control.Staged, AdoptStep;
      if shuttingDown {
        return StageRefused;
      }
      var baseState := if desired.Some? then desired else if lastPacket.Some? then Some(lastPacket.value.state) else None;
      if baseState.None? {
        desired := None;
        status := Failed;
        lastError := Some(NoCurrentState);
        debouncePending := false;
        return NoKnownState;
      }
      var staged := BuildStagedState(features, baseState, changes);
      if staged.Err? {
        return StageRaised(staged.error);
      }
      ClearActiveProfileIfStateDiffers(staged.value);
      if activeProfile.None? {
        appliedProfileId := None;
      }
      outcome := AdoptDesired(staged.value, changes);
    }

    /** The first stretch of the debounce task after its sleep. */
    method FireDebounce() returns (send: Option<Send>)
      modifies this
      ensures (Fields(), send) == FireStep(old(Fields()))
    {
      var captured := desired;
      debouncePending := false;
      if captured.None? {
        return None;
      }
      if shuttingDown {
        sending, desired, status := false, None, Failed;
        if lastError.None? {
          lastError := Some(ShuttingDown);
        }
        return None;
      }
      return Some(Send(captured.value, true, None));
    }

    method RequestState(data: Control.Request, profileId: Option<string>) returns (send: Option<Send>)
      modifies this
      ensures (Fields(), send) == RequestStep(old(Fields()), data, profileId)
    {
      if shuttingDown {
        return None;
      }
      var requested := BuildRequestedState(features, data);
      if requested.Err? {
        lastError := Some(BadRequest(requested.error));
        return None;
      }
      debouncePending := false;
      return Some(Send(requested.value.0, false, profileId));
    }

    /** _mark_send_failed */
    method MarkSendFailed(cause: FailureCause)
      modifies this
      ensures Fields() == SendFailed(old(Fields()), cause)
    {
      sending := false;
      status := Failed;
      lastError := Some(cause);
      desired := None;
    }

    method BeginSend(send: Send) returns (packet: Option<StatePacket>)
      modifies this
      ensures (Fields(), packet) == BeginStep(old(Fields()), send)
    {
      lastError := None;
      sending := true;
      status := SendingNow;
      if !backendAvailable {
        sending := false;
        status := Unavailable;
        lastError := Some(NoBackend);
        desired := None;
        if send.debounced {
          status := Failed;
        }
        return None;
      }
      var frame := EncodeState(send.requested, profile, send.debounced);
      if frame.Err? {
        MarkSendFailed(BadState(frame.error));
        return None;
      }
      return Some(StatePacket(send.requested, frame.value));
    }

    /** _async_record_successful_send up to the save of the new state. */
    method RecordSuccessfulSend(send: Send, packet: StatePacket)
      modifies this
      ensures Fields() == SucceedStep(old(Fields()), send, packet)
      ensures appliedProfileId == send.profileId
      ensures activeProfile == if send.profileId.Some? then Some(send.requested) else None
    {
      sending := false;
      lastError := None;
      if send.profileId.None? {
        appliedProfileId := None;
        activeProfile := None;
      } else {
        appliedProfileId := send.profileId;
        activeProfile := Some(send.requested);
      }
      SetRuntimeCurrentState(packet, Requested);
    }

    /** What follows the save: the desired state is cleared unconditionally. */
    method FinishSend()
      modifies this
      ensures Fields() == FinishStep(old(Fields()))
    {
      desired := None;
      if activeListening {
        status := Confirming;
      }
    }

    method SettleSend(confirming: bool)
      modifies this
      ensures Fields() == SettleStep(old(Fields()), confirming)
    {
      if activeListening {
        return;
      }
      if confirming {
        status := Confirming;
      } else {
        status := Ready;
      }
    }

    method ShutDown()
      modifies this
      ensures Fields() == ShutDownStep(old(Fields()))
    {
      shuttingDown := true;
      activeListening := false;
      debouncePending := false;
    }

    method ApplyObservedPacket(packet: StatePacket)
      modifies this
      ensures Fields() == ObserveStep(old(Fields()), packet)
    {
      ClearActiveProfileIfStateDiffers(packet.state);
      lastError := None;
      status := Ready;
      if lastPacket.Some? && lastPacket.value.state == packet.state && confidence == Observed {
        lastPacket := Some(packet);
        return;
      }
      SetRuntimeCurrentState(packet, Observed);
    }

    method ConfirmationWindowExpired()
      modifies this
      ensures Fields() == ExpireStep(old(Fields()))
    {
      status := Ready;
      confidence := Requested;
    }
  }
}
