/**
  Requested and staged fireplace states: custom_components/proflame2/control.py.
 */
module Control {
  import opened Wrappers
  import opened StateCodec

  datatype Features = Features(fan: bool, light: bool, front: bool, aux: bool, cpi: bool)

  /** Service or profile input; an absent key is `None`. */
  datatype Request = Request(
    power: Option<bool>, flame: Option<int>, fan: Option<int>, light: Option<int>,
    front: Option<bool>, aux: Option<bool>, cpi: Option<bool>)

  /** A partial control edit; the flame key may be present with no value. */
  datatype Changes = Changes(
    power: Option<bool>, flame: Option<Option<int>>, fan: Option<int>, light: Option<int>,
    front: Option<bool>, aux: Option<bool>, cpi: Option<bool>)

  datatype ControlError = PowerRequired | FlameRequired | FlameRange | FlameWithoutPower | FanRange | LightRange

  datatype Ignored = IgnoredFan | IgnoredLight | IgnoredFront | IgnoredAux | IgnoredCpi

  function DefaultManualState(): State { State(false, 0, 0, 0, false, false, false, false) }

  /** _validate_feature_number: the value, or what is wrong with it; a disabled feature is ignored with a warning. */
  function FeatureNumber(enabled: bool, value: Option<int>, error: ControlError, warning: Ignored)
    : Result<(int, seq<Ignored>), ControlError>
  {
    match value
    case None => Ok((0, []))
    case Some(v) =>
      if !(0 <= v <= 6) then Err(error)
      else if !enabled then Ok((0, [warning]))
      else Ok((v, []))
  }

  /** _validate_feature_bool */
  function FeatureBool(enabled: bool, value: Option<bool>, warning: Ignored): (bool, seq<Ignored>) {
    match value
    case None => (false, [])
    case Some(v) => if enabled then (v, []) else (false, [warning])
  }

  function RequestedFlame(power: bool, flame: Option<int>): Result<int, ControlError> {
    if power then
      match flame
      case None => Err(FlameRequired)
      case Some(v) => if 1 <= v <= 6 then Ok(v) else Err(FlameRange)
    else if flame.Some? && flame.value != 0 then Err(FlameWithoutPower)
    else Ok(0)
  }

  /** build_requested_state */
  function BuildRequestedState(features: Features, data: Request): Result<(State, seq<Ignored>), ControlError> {
    if data.power.None? then Err(PowerRequired)
    else
      var flame := RequestedFlame(data.power.value, data.flame);
      if flame.Err? then Err(flame.error)
      else
        var fan := FeatureNumber(features.fan, data.fan, FanRange, IgnoredFan);
        if fan.Err? then Err(fan.error)
        else
          var light := FeatureNumber(features.light, data.light, LightRange, IgnoredLight);
          if light.Err? then Err(light.error)
          else
            var front := FeatureBool(features.front, data.front, IgnoredFront);
            var aux := FeatureBool(features.aux, data.aux, IgnoredAux);
            var cpi := FeatureBool(features.cpi, data.cpi, IgnoredCpi);
            Ok((State(data.power.value, flame.value, fan.value.0, light.value.0, front.0, aux.0, false, cpi.0),
                fan.value.1 + light.value.1 + front.1 + aux.1 + cpi.1))
  }

  /** A feature may be asked for whether the fireplace has it or not, but only in range. */
  predicate NumberAsked(asked: Option<int>) { asked.Some? ==> 0 <= asked.value <= 6 }

  predicate FlameAsked(data: Request)
    requires data.power.Some?
  {
    if data.power.value then data.flame.Some? && 1 <= data.flame.value <= 6 else data.flame.None? || data.flame.value == 0
  }

  /** Which requests are refused, and for what: the first of power, flame, fan and light that is wrong. */
  lemma RequestRefusedIff(features: Features, data: Request)
    ensures BuildRequestedState(features, data).Ok? <==>
              data.power.Some? && FlameAsked(data) && NumberAsked(data.fan) && NumberAsked(data.light)
    ensures BuildRequestedState(features, data) == Err(PowerRequired) <==> data.power.None?
    ensures BuildRequestedState(features, data) == Err(FlameRequired) <==> data.power == Some(true) && data.flame.None?
    ensures BuildRequestedState(features, data) == Err(FlameRange) <==>
              data.power == Some(true) && data.flame.Some? && !(1 <= data.flame.value <= 6)
    ensures BuildRequestedState(features, data) == Err(FlameWithoutPower) <==>
              data.power == Some(false) && data.flame.Some? && data.flame.value != 0
    ensures BuildRequestedState(features, data) == Err(FanRange) <==>
              data.power.Some? && FlameAsked(data) && !NumberAsked(data.fan)
    ensures BuildRequestedState(features, data) == Err(LightRange) <==>
              data.power.Some? && FlameAsked(data) && NumberAsked(data.fan) && !NumberAsked(data.light)
  {}

  /** The number a request asks for, and whether its key is ignored because the fireplace lacks the feature. */
  predicate NumberAsAsked(present: bool, asked: Option<int>, r: int, ignored: seq<Ignored>, warning: Ignored) {
    && (if present && asked.Some? then asked.value == r else r == 0)
    && (warning in ignored <==> !present && asked.Some?)
  }

  predicate FlagAsAsked(present: bool, asked: Option<bool>, r: bool, ignored: seq<Ignored>, warning: Ignored) {
    && (r <==> present && asked == Some(true))
    && (warning in ignored <==> !present && asked.Some?)
  }

  lemma NumberIs(present: bool, asked: Option<int>, error: ControlError, warning: Ignored)
    requires NumberAsked(asked)
    ensures FeatureNumber(present, asked, error, warning).Ok?
    ensures var r := FeatureNumber(present, asked, error, warning).value;
            NumberAsAsked(present, asked, r.0, r.1, warning) && forall w :: w in r.1 ==> w == warning
  {}

  lemma FlagIs(present: bool, asked: Option<bool>, warning: Ignored)
    ensures var r := FeatureBool(present, asked, warning);
            FlagAsAsked(present, asked, r.0, r.1, warning) && forall w :: w in r.1 ==> w == warning
  {}

  /** What a request that is not refused asks for, and which of its keys are ignored. */
  lemma RequestFields(features: Features, data: Request)
    requires BuildRequestedState(features, data).Ok?
    ensures var (r, ignored) := BuildRequestedState(features, data).value;
            && data.power == Some(r.power) && !r.thermostat
            && (if r.power then data.flame == Some(r.flame) else r.flame == 0)
            && NumberAsAsked(features.fan, data.fan, r.fan, ignored, IgnoredFan)
            && NumberAsAsked(features.light, data.light, r.light, ignored, IgnoredLight)
            && FlagAsAsked(features.front, data.front, r.front, ignored, IgnoredFront)
            && FlagAsAsked(features.aux, data.aux, r.aux, ignored, IgnoredAux)
            && FlagAsAsked(features.cpi, data.cpi, r.cpi, ignored, IgnoredCpi)
  {
    RequestRefusedIff(features, data);
    hide FeatureNumber, FeatureBool;
    NumberIs(features.fan, data.fan, FanRange, IgnoredFan);
    NumberIs(features.light, data.light, LightRange, IgnoredLight);
    FlagIs(features.front, data.front, IgnoredFront);
    FlagIs(features.aux, data.aux, IgnoredAux);
    FlagIs(features.cpi, data.cpi, IgnoredCpi);
  }

  /** A requested state always passes the transmit rules without any allowance. */
  lemma RequestedIsTransmittable(features: Features, data: Request)
    ensures BuildRequestedState(features, data).Ok? ==>
              TransmitError(BuildRequestedState(features, data).value.0, false, false).None?
  {}

  // ----- What staging means -----

  /** The value an edit asks for, where the feature exists. */
  function Pick<V>(enabled: bool, change: Option<V>, current: V, absent: V): V {
    if !enabled then absent else if change.Some? then change.value else current
  }

  function PickedFlame(s: State, changes: Changes): int {
    if changes.flame.Some? && changes.flame.value.Some? then changes.flame.value.value
    else if s.flame > 0 then s.flame
    else 1
  }

  /** Power follows the edit; asking for a positive flame turns it on. */
  function PickedPower(s: State, changes: Changes): bool {
    if changes.flame.Some? && changes.flame.value.Some? && changes.flame.value.value > 0 then true
    else if changes.power.Some? then changes.power.value
    else s.power
  }

  /** Field by field, the state an edit asks for. */
  function Merged(features: Features, s: State, changes: Changes): State {
    State(PickedPower(s, changes), PickedFlame(s, changes),
          Pick(features.fan, changes.fan, s.fan, 0), Pick(features.light, changes.light, s.light, 0),
          Pick(features.front, changes.front, s.front, false), Pick(features.aux, changes.aux, s.aux, false),
          false, Pick(features.cpi, changes.cpi, s.cpi, false))
  }

  /** Staging: the merged state, checked only when power is on. */
  function Staged(features: Features, s: State, changes: Changes): Result<State, ControlError> {
    var m := Merged(features, s, changes);
    if !m.power then Ok(m)
    else if !(1 <= m.flame <= 6) then Err(FlameRange)
    else if !(0 <= m.fan <= 6) then Err(FanRange)
    else if !(0 <= m.light <= 6) then Err(LightRange)
    else Ok(m)
  }

  predicate FeatureAsAsked<V(==)>(present: bool, asked: Option<V>, before: V, rest: V, after: V) {
    && (present && asked.Some? ==> after == asked.value)
    && (present && asked.None? ==> after == before)
    && (!present ==> after == rest)
  }

  lemma PickIsAsked<V>(present: bool, asked: Option<V>, before: V, rest: V)
    ensures forall v :: FeatureAsAsked(present, asked, before, rest, v) <==> v == Pick(present, asked, before, rest)
  {}

  /**
    What an edit of a state asks for, field by field.  A feature that the fireplace has gets the value asked for, or keeps its own;
    one that it lacks is at rest.  Without a flame in the edit a flame of zero becomes one; asking for a flame turns the power on.
   */
  predicate AsAsked(features: Features, s: State, changes: Changes, r: State) {
    && FeatureAsAsked(features.fan, changes.fan, s.fan, 0, r.fan)
    && FeatureAsAsked(features.light, changes.light, s.light, 0, r.light)
    && FeatureAsAsked(features.front, changes.front, s.front, false, r.front)
    && FeatureAsAsked(features.aux, changes.aux, s.aux, false, r.aux)
    && FeatureAsAsked(features.cpi, changes.cpi, s.cpi, false, r.cpi)
    && !r.thermostat
    && match changes.flame
       case Some(Some(flame)) =>
         && r.flame == flame
         && (flame > 0 ==> r.power)
         && (flame <= 0 ==> r.power == if changes.power.Some? then changes.power.value else s.power)
       case _ =>
         && r.flame == (if s.flame > 0 then s.flame else 1)
         && r.power == if changes.power.Some? then changes.power.value else s.power
  }

  /**
    The frame law of staging: what an edit asks for is one state, and staging is that state, unless the power is on and its flame,
    fan or light, the first of them, is out of range.
   */
  lemma StagedAsAsked(features: Features, s: State, changes: Changes)
    ensures Staged(features, s, changes).Ok? ==> AsAsked(features, s, changes, Staged(features, s, changes).value)
    ensures forall r :: AsAsked(features, s, changes, r) ==>
              Staged(features, s, changes) ==
              if r.power && !(1 <= r.flame <= 6) then Err(FlameRange)
              else if r.power && !(0 <= r.fan <= 6) then Err(FanRange)
              else if r.power && !(0 <= r.light <= 6) then Err(LightRange)
              else Ok(r)
    ensures exists r :: AsAsked(features, s, changes, r)
  {
    hide AsAsked, Merged;
    forall r ensures AsAsked(features, s, changes, r) <==> r == Merged(features, s, changes) { MergedIsAsked(features, s, changes, r); }
    assert AsAsked(features, s, changes, Merged(features, s, changes));
  }

  lemma StagedIsAsked(features: Features, s: State, changes: Changes)
    ensures Staged(features, s, changes).Ok? ==> AsAsked(features, s, changes, Staged(features, s, changes).value)
  {
    hide AsAsked, Merged;
    MergedIsAsked(features, s, changes, Merged(features, s, changes));
  }

  lemma MergedIsAsked(features: Features, s: State, changes: Changes, r: State)
    ensures AsAsked(features, s, changes, r) <==> r == Merged(features, s, changes)
  {
    hide FeatureAsAsked, Pick, PickedPower, PickedFlame;
    PickIsAsked(features.fan, changes.fan, s.fan, 0);
    PickIsAsked(features.light, changes.light, s.light, 0);
    PickIsAsked(features.front, changes.front, s.front, false);
    PickIsAsked(features.aux, changes.aux, s.aux, false);
    PickIsAsked(features.cpi, changes.cpi, s.cpi, false);
    PowerAndFlame(s, changes, r);
  }

  lemma PowerAndFlame(s: State, changes: Changes, r: State)
    ensures r.power == PickedPower(s, changes) && r.flame == PickedFlame(s, changes)
       <==> match changes.flame
            case Some(Some(flame)) =>
              && r.flame == flame
              && (flame > 0 ==> r.power)
              && (flame <= 0 ==> r.power == if changes.power.Some? then changes.power.value else s.power)
            case _ =>
              && r.flame == (if s.flame > 0 then s.flame else 1)
              && r.power == if changes.power.Some? then changes.power.value else s.power
  {}

  function FullRequest(s: State): Request {
    Request(Some(s.power), Some(s.flame), Some(s.fan), Some(s.light), Some(s.front), Some(s.aux), Some(s.cpi))
  }

  /** Requesting every field of a merged state with power on is staging it: disabled features are already at rest. */
  lemma RequestOfMerged(features: Features, s: State, changes: Changes)
    requires PickedPower(s, changes)
    ensures var requested := BuildRequestedState(features, FullRequest(Merged(features, s, changes)));
            Staged(features, s, changes) == if requested.Ok? then Ok(requested.value.0) else Err(requested.error)
  {}

  /** build_staged_state: the loop-free merge, local by local. */
  method BuildStagedState(features: Features, baseState: Option<State>, changes: Changes) returns (r: Result<State, ControlError>)
    ensures r == Staged(features, if baseState.Some? then baseState.value else DefaultManualState(), changes)
    ensures baseState.Some? && r.Ok? ==> AsAsked(features, baseState.value, changes, r.value)
    ensures baseState.None? && r.Ok? ==>
              AsAsked(features, State(false, 0, 0, 0, false, false, false, false), changes, r.value)
  {
    hide BuildRequestedState;
    StagedIsAsked(features, if baseState.Some? then baseState.value else DefaultManualState(), changes);
    hide AsAsked;
    var state := if baseState.Some? then baseState.value else DefaultManualState();
    var power := state.power;
    var flame := if state.flame > 0 then state.flame else 1;
    var fan := if features.fan then state.fan else 0;
    var light := if features.light then state.light else 0;
    var front := if features.front then state.front else false;
    var aux := if features.aux then state.aux else false;
    var cpi := if features.cpi then state.cpi else false;
    if changes.power.Some? {
      power := changes.power.value;
    }
    if changes.flame.Some? && changes.flame.value.Some? {
      flame := changes.flame.value.value;
      if flame > 0 {
        power := true;
      }
    }
    if changes.fan.Some? && features.fan {
      fan := changes.fan.value;
    }
    if changes.light.Some? && features.light {
      light := changes.light.value;
    }
    if changes.front.Some? && features.front {
      front := changes.front.value;
    }
    if changes.aux.Some? && features.aux {
      aux := changes.aux.value;
    }
    if changes.cpi.Some? && features.cpi {
      cpi := changes.cpi.value;
    }
    var merged := State(power, flame, fan, light, front, aux, false, cpi);
    assert merged == Merged(features, state, changes);
    if power {
      var requested := BuildRequestedState(features, FullRequest(merged));
      RequestOfMerged(features, state, changes);
      if requested.Err? {
        return Err(requested.error);
      }
      return Ok(requested.value.0);
    }
    return Ok(merged);
  }

  /** States on which every control edit in range can be staged and sent. */
  predicate Editable(s: State) {
    0 <= s.flame <= 6 && 0 <= s.fan <= 6 && 0 <= s.light <= 6
  }

  /** Edits in range. */
  predicate ValidChanges(changes: Changes) {
    && (changes.flame.Some? && changes.flame.value.Some? ==> 1 <= changes.flame.value.value <= 6)
    && (changes.fan.Some? ==> 0 <= changes.fan.value <= 6)
    && (changes.light.Some? ==> 0 <= changes.light.value <= 6)
  }

  /** From an editable state, a valid edit never raises and its result is editable and may be transmitted as a debounced send. */
  lemma StagedIsEncodable(features: Features, s: State, changes: Changes)
    requires Editable(s) && ValidChanges(changes)
    ensures Staged(features, s, changes).Ok?
    ensures var staged := Staged(features, s, changes).value;
            && Editable(staged) && TransmitError(staged, false, true).None?
            && (staged.power ==> TransmitError(staged, false, false).None?)
  {}

  /** The ranges of a state that was observed, requested or staged; light level 7 may be observed. */
  predicate InRange(s: State) {
    0 <= s.flame <= 6 && 0 <= s.fan <= 6 && 0 <= s.light <= 7
  }

  lemma ObservedIsInRange(s: State)
    requires ObservedError(s, true).None?
    ensures InRange(s)
  {}

  /** From any state in range, a valid edit is refused for its light level or stages a state that is in range and may be sent. */
  lemma StagedStaysInRange(features: Features, s: State, changes: Changes)
    requires InRange(s) && ValidChanges(changes)
    ensures Staged(features, s, changes).Err? <==> PickedPower(s, changes) && Pick(features.light, changes.light, s.light, 0) == 7
    ensures Staged(features, s, changes).Err? ==> Staged(features, s, changes).error == LightRange
    ensures Staged(features, s, changes).Ok? ==>
              InRange(Staged(features, s, changes).value) && TransmitError(Staged(features, s, changes).value, false, true).None?
  {}

  /** The receiver accepts light level 7, but staging any edit that keeps it with power on is refused. */
  lemma ObservedLightSevenCannotBeEdited(features: Features, s: State, changes: Changes)
    requires features.light && s.light == 7 && ObservedError(s, true).None?
    requires changes.light.None? && ValidChanges(changes) && Pick(features.fan, changes.fan, s.fan, 0) <= 6
    ensures Staged(features, s, changes) == Err(LightRange) <==> PickedPower(s, changes)
  {}

  /** An edit is idempotent: staging it again changes nothing. */
  lemma StagingTwice(features: Features, s: State, changes: Changes)
    requires Staged(features, s, changes).Ok?
    requires changes.flame.Some? && changes.flame.value.Some? ==> changes.flame.value.value > 0
    ensures Staged(features, Staged(features, s, changes).value, changes) == Staged(features, s, changes)
  {}
}
