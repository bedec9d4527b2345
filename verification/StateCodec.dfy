/**
  Fireplace states as frames and back: models.py, encoder.py, decoder.py and the state reading of
  packet.py in custom_components/proflame2/protocol/.
 */
module StateCodec {
  import opened Wrappers
  import opened Bytes
  import opened Packet
  import opened Ecc

  datatype State = State(power: bool, flame: int, fan: int, light: int, front: bool, aux: bool, thermostat: bool, cpi: bool)

  datatype Template = Template(w4Base: bv8, w6: bv8, w7: bv8, w8: bv8)

  /** A well-formed learned profile: the template is present exactly in the ten-word variant. */
  datatype Profile =
    | Legacy(serialId: int, ecc: EccProfile)
    | TenWord(serialId: int, template: Template)

  // ----- Validation -----

  datatype StateError = FlameWhenOff | FlameOutOfRange | FanOutOfRange | LightOutOfRange | ThermostatDisabled

  function FlameError(s: State, low: int): Option<StateError> {
    if low <= s.flame <= 6 then None else Some(FlameOutOfRange)
  }

  function LimitsError(s: State, allowThermostat: bool): Option<StateError> {
    if !(0 <= s.fan <= 6) then Some(FanOutOfRange)
    else if !(0 <= s.light <= 7) then Some(LightOutOfRange)
    else if s.thermostat && !allowThermostat then Some(ThermostatDisabled)
    else None
  }

  /** validate_transmit: the first violated rule, if any. */
  function TransmitError(s: State, allowThermostat: bool, allowPowerOffFlame: bool): Option<StateError> {
    var flame :=
      if !s.power then
        if s.flame != 0 && !allowPowerOffFlame then Some(FlameWhenOff)
        else if allowPowerOffFlame then FlameError(s, 0)
        else None
      else FlameError(s, if s.thermostat && allowThermostat then 0 else 1);
    if flame.Some? then flame else LimitsError(s, allowThermostat)
  }

  /** validate_observed */
  function ObservedError(s: State, allowThermostat: bool): Option<StateError> {
    var flame := FlameError(s, if !s.power || (s.thermostat && allowThermostat) then 0 else 1);
    if flame.Some? then flame else LimitsError(s, allowThermostat)
  }

  /** The flame levels a state may have. */
  predicate FlameFits(s: State, allowThermostat: bool, allowPowerOffFlame: bool) {
    if s.power then (if s.thermostat && allowThermostat then 0 <= s.flame <= 6 else 1 <= s.flame <= 6)
    else if allowPowerOffFlame then 0 <= s.flame <= 6
    else s.flame == 0
  }

  /** Which states may be sent, and what the first violated rule is for the others: flame, fan, light, thermostat, in this order. */
  lemma TransmitIff(s: State, allowThermostat: bool, allowPowerOffFlame: bool)
    ensures var error, flame := TransmitError(s, allowThermostat, allowPowerOffFlame), FlameFits(s, allowThermostat, allowPowerOffFlame);
            && (error.None? <==> flame && 0 <= s.fan <= 6 && 0 <= s.light <= 7 && (s.thermostat ==> allowThermostat))
            && (error == Some(FlameWhenOff) <==> !flame && !s.power && !allowPowerOffFlame)
            && (error == Some(FlameOutOfRange) <==> !flame && (s.power || allowPowerOffFlame))
            && (error == Some(FanOutOfRange) <==> flame && !(0 <= s.fan <= 6))
            && (error == Some(LightOutOfRange) <==> flame && 0 <= s.fan <= 6 && !(0 <= s.light <= 7))
  {}

  /** The rules for received states are those for sending with a flame allowed while the power is off. */
  lemma ObservedIsTransmittable(s: State, allowThermostat: bool)
    ensures ObservedError(s, allowThermostat) == TransmitError(s, allowThermostat, true)
  {}

  // ----- Command bytes -----

  /** `value & 0x07` */
  function ThreeBits(value: int): bv8 { ByteOf(value % 8) }

  function BuildCmd1(s: State): bv8 {
    Weight(s.power, 0x01) | Weight(s.thermostat, 0x02) | (ThreeBits(s.light) << 4) | Weight(s.cpi, 0x80)
  }

  function BuildCmd2(s: State): bv8 {
    ThreeBits(s.flame) | Weight(s.aux, 0x08) | (ThreeBits(s.fan) << 4) | Weight(s.front, 0x80)
  }

  /** The state read off the two command bytes; in ten-word frames the high bit is not the CPI field. */
  function StateOfCommands(cmd1: bv8, cmd2: bv8, extended: bool): State {
    State(cmd1 & 0x01 != 0, ValueOf(cmd2 & 0x07), ValueOf((cmd2 >> 4) & 0x07), ValueOf((cmd1 >> 4) & 0x07),
          cmd2 & 0x80 != 0, cmd2 & 0x08 != 0, cmd1 & 0x02 != 0, cmd1 & 0x80 != 0 && !extended)
  }

  function StateOfFrame(frame: Frame): State {
    StateOfCommands(LowByte(frame.cmd1), LowByte(frame.cmd2), frame.IsExtended())
  }

  datatype CodecError =
    | InvalidState(error: StateError)
    | WrongVariant
    | IntegrityMismatch
    | Err1Mismatch
    | Err2Mismatch
    | SerialMismatch

  /** state_from_frame: reading a state raises when the observed values are out of range. */
  function StateFromFrame(frame: Frame): Result<State, CodecError> {
    var state := StateOfFrame(frame);
    match ObservedError(state, true)
    case Some(e) => Err(InvalidState(e))
    case None => Ok(state)
  }

  /** The ten-word frame that a profile's template gives to two command bytes. */
  function TemplateFrame(serialId: int, t: Template, w4: bv8, w5: bv8): Frame {
    var (w9, w10) := IntegrityWords(w4, w5, t.w6, t.w7, t.w8);
    Frame(serialId, ValueOf(w4), ValueOf(t.w6), ValueOf(w5), ValueOf(t.w7), [t.w8, w9, w10])
  }

  /** encode_state */
  function EncodeState(s: State, profile: Profile, allowPowerOffFlame: bool): Result<Frame, CodecError> {
    match TransmitError(s, false, allowPowerOffFlame)
    case Some(e) => Err(InvalidState(e))
    case None =>
      var cmd1, cmd2 := BuildCmd1(s), BuildCmd2(s);
      match profile
      case TenWord(serialId, t) =>
        Ok(TemplateFrame(serialId, t, (t.w4Base & 0x80) | cmd1, cmd2))
      case Legacy(serialId, ecc) =>
        Ok(Frame(serialId, ValueOf(cmd1), ValueOf(Err1For(cmd1, ecc)), ValueOf(cmd2), ValueOf(Err2For(cmd2, ecc)), []))
  }

  /** decode_state */
  function DecodeState(frame: Frame, profile: Profile): Result<State, CodecError> {
    if profile.TenWord? then
      if !frame.IsExtended() then Err(WrongVariant)
      else if !IntegrityMatches(frame.WireWords()) then Err(IntegrityMismatch)
      else if frame.serialId != profile.serialId then Err(SerialMismatch)
      else StateFromFrame(frame)
    else
      if frame.IsExtended() then Err(WrongVariant)
      else if frame.err1 != ValueOf(Err1For(LowByte(frame.cmd1), profile.ecc)) then Err(Err1Mismatch)
      else if frame.err2 != ValueOf(Err2For(LowByte(frame.cmd2), profile.ecc)) then Err(Err2Mismatch)
      else if frame.serialId != profile.serialId then Err(SerialMismatch)
      else StateFromFrame(frame)
  }

  /** The Err bytes of a legacy frame are those of its commands. */
  predicate Err1Matches(frame: Frame, ecc: EccProfile) { frame.err1 == ValueOf(BuildErrByte(LowByte(frame.cmd1), ecc.c1, ecc.d1)) }

  predicate Err2Matches(frame: Frame, ecc: EccProfile) { frame.err2 == ValueOf(BuildErrByte(LowByte(frame.cmd2), ecc.c2, ecc.d2)) }

  /** The check bytes of a frame of the profile's variant. */
  predicate IsChecked(frame: Frame, profile: Profile) {
    match profile
    case TenWord(_, _) => IntegrityMatches(frame.WireWords())
    case Legacy(_, ecc) => Err1Matches(frame, ecc) && Err2Matches(frame, ecc)
  }

  /**
    Which frames a profile decodes: those of its variant and serial number, with the right check bytes and an observable state; and what
    is reported for the others, variant first, then check bytes, then serial number.
   */
  lemma DecodeIff(frame: Frame, profile: Profile)
    ensures var r := DecodeState(frame, profile);
            var checked := IsChecked(frame, profile);
            && (r == Err(WrongVariant) <==> (frame.IsExtended() != profile.TenWord?))
            && (r.Ok? ==> frame.IsExtended() == profile.TenWord? && checked && frame.serialId == profile.serialId)
            && (frame.IsExtended() == profile.TenWord? ==>
                  && (r == Err(SerialMismatch) <==> checked && frame.serialId != profile.serialId)
                  && (r == Err(IntegrityMismatch) <==> profile.TenWord? && !checked)
                  && (r == Err(Err1Mismatch) <==> profile.Legacy? && !Err1Matches(frame, profile.ecc))
                  && (r == Err(Err2Mismatch) <==> profile.Legacy? && Err1Matches(frame, profile.ecc) && !Err2Matches(frame, profile.ecc))
                  && (checked && frame.serialId == profile.serialId ==>
                        r == match ObservedError(StateOfFrame(frame), true)
                             case None => Ok(StateOfFrame(frame))
                             case Some(error) => Err(InvalidState(error))))
  {
    hide StateOfFrame, ObservedError, LowByte, ValueOf, BuildErrByte, IntegrityMatches, Frame.WireWords;
  }

  // ----- The command bytes hold the state -----

  lemma {:induction false} DigitsOfZero(width: nat)
    ensures forall i :: 0 <= i < width ==> !Digits(0, width)[i]
  {
    if width > 0 {
      DigitsOfZero(width - 1);
    }
  }

  lemma SmallDigits(n: nat)
    requires n < 8
    ensures forall i :: 0 <= i < 5 ==> !Digits(n, 8)[i]
  {
    DigitsOfZero(5);
    var h1 := n / 2;
    var h2 := h1 / 2;
    assert Digits(h2, 6) == Digits(h2 / 2, 5) + [h2 % 2 == 1];
    assert Digits(h1, 7) == Digits(h2, 6) + [h1 % 2 == 1];
    assert Digits(n, 8) == Digits(h1, 7) + [n % 2 == 1];
  }

  lemma HighBitsClear(b: bv8)
    requires !ByteBits(b)[0] && !ByteBits(b)[1] && !ByteBits(b)[2] && !ByteBits(b)[3] && !ByteBits(b)[4]
    ensures b & 0x07 == b
  {}

  lemma SmallByte(n: int)
    requires 0 <= n < 8
    ensures ThreeBits(n) & 0x07 == ThreeBits(n)
    ensures ValueOf(ThreeBits(n)) == n
  {
    hide BitsByte, ByteBits, Digits, ValueOf;
    ByteOfValue(n, ByteOf(n));
    SmallDigits(n);
    BitsByteRoundTrip(Digits(n, 8));
    HighBitsClear(ByteOf(n));
  }

  /** A byte packed from two flags, three bits and a high flag gives them back. */
  lemma UnpackHigh(a: bv8, b: bv8, c: bv8, d: bv8)
    requires a & 0x01 == a && b & 0x02 == b && c & 0x07 == c && d & 0x80 == d
    ensures var x := a | b | (c << 4) | d;
            x & 0x01 == a && x & 0x02 == b && (x >> 4) & 0x07 == c && x & 0x80 == d
  {}

  lemma UnpackLow(a: bv8, b: bv8, c: bv8, d: bv8)
    requires a & 0x07 == a && b & 0x08 == b && c & 0x07 == c && d & 0x80 == d
    ensures var x := a | b | (c << 4) | d;
            x & 0x07 == a && x & 0x08 == b && (x >> 4) & 0x07 == c && x & 0x80 == d
  {}

  lemma OrHighBit(base: bv8, x: bv8)
    ensures var y := (base & 0x80) | x;
            y & 0x01 == x & 0x01 && y & 0x02 == x & 0x02 && (y >> 4) & 0x07 == (x >> 4) & 0x07
  {}

  lemma Cmd1Fields(s: State)
    requires 0 <= s.light <= 7
    ensures var x := BuildCmd1(s);
            && x & 0x01 == Weight(s.power, 0x01) && x & 0x02 == Weight(s.thermostat, 0x02)
            && (x >> 4) & 0x07 == ThreeBits(s.light) && x & 0x80 == Weight(s.cpi, 0x80)
  {
    hide Weight, ThreeBits, ValueOf;
    SmallByte(s.light);
    WeightBit(s.power, 0x01);
    WeightBit(s.thermostat, 0x02);
    WeightBit(s.cpi, 0x80);
    UnpackHigh(Weight(s.power, 0x01), Weight(s.thermostat, 0x02), ThreeBits(s.light), Weight(s.cpi, 0x80));
  }

  lemma Cmd2Fields(s: State)
    requires 0 <= s.flame <= 6 && 0 <= s.fan <= 6
    ensures var x := BuildCmd2(s);
            && x & 0x07 == ThreeBits(s.flame) && x & 0x08 == Weight(s.aux, 0x08)
            && (x >> 4) & 0x07 == ThreeBits(s.fan) && x & 0x80 == Weight(s.front, 0x80)
  {
    hide Weight, ThreeBits, ValueOf;
    SmallByte(s.flame);
    SmallByte(s.fan);
    WeightBit(s.aux, 0x08);
    WeightBit(s.front, 0x80);
    UnpackLow(ThreeBits(s.flame), Weight(s.aux, 0x08), ThreeBits(s.fan), Weight(s.front, 0x80));
  }

  lemma CommandsHoldState(s: State)
    requires 0 <= s.flame <= 6 && 0 <= s.fan <= 6 && 0 <= s.light <= 7
    ensures StateOfCommands(BuildCmd1(s), BuildCmd2(s), false) == s
  {
    hide Weight, ThreeBits, ValueOf, BuildCmd1, BuildCmd2;
    Cmd1Fields(s);
    Cmd2Fields(s);
    SmallByte(s.flame);
    SmallByte(s.fan);
    SmallByte(s.light);
    WeightBit(s.power, 0x01);
    WeightBit(s.thermostat, 0x02);
    WeightBit(s.cpi, 0x80);
    WeightBit(s.aux, 0x08);
    WeightBit(s.front, 0x80);
  }

  /** The template's high bit only ever disturbs the CPI field, which ten-word frames do not have. */
  lemma TemplateKeepsState(cmd1: bv8, cmd2: bv8, base: bv8)
    ensures StateOfCommands((base & 0x80) | cmd1, cmd2, true) == StateOfCommands(cmd1, cmd2, true)
  {
    hide ValueOf;
    OrHighBit(base, cmd1);
  }

  lemma ExtendedDropsCpi(cmd1: bv8, cmd2: bv8)
    ensures StateOfCommands(cmd1, cmd2, true) == StateOfCommands(cmd1, cmd2, false).(cpi := false)
  {
    hide ValueOf;
  }

  /** What survives transmission: everything, except CPI in the ten-word variant. */
  function Carried(s: State, profile: Profile): State {
    if profile.TenWord? then s.(cpi := false) else s
  }

  /** Whatever may be sent may also be observed. */
  lemma TransmittableIsObservable(s: State, allowPowerOffFlame: bool)
    requires TransmitError(s, false, allowPowerOffFlame).None?
    ensures ObservedError(s, true).None? && ObservedError(s.(cpi := false), true).None?
    ensures 0 <= s.flame <= 6 && 0 <= s.fan <= 6 && 0 <= s.light <= 7
  {}

  /** The encoded frame carries the right state bytes. */
  lemma EncodedStateBytes(s: State, profile: Profile, allowPowerOffFlame: bool)
    requires EncodeState(s, profile, allowPowerOffFlame).Ok?
    ensures StateOfFrame(EncodeState(s, profile, allowPowerOffFlame).value) == Carried(s, profile)
  {
    hide LowByte, ValueOf, StateOfCommands, BuildCmd1, BuildCmd2, IntegrityWords, Err1For, Err2For;
    TransmittableIsObservable(s, allowPowerOffFlame);
    CommandsHoldState(s);
    LowByteOfByte(BuildCmd1(s));
    LowByteOfByte(BuildCmd2(s));
    if profile.TenWord? {
      LowByteOfByte((profile.template.w4Base & 0x80) | BuildCmd1(s));
      TemplateKeepsState(BuildCmd1(s), BuildCmd2(s), profile.template.w4Base);
      ExtendedDropsCpi(BuildCmd1(s), BuildCmd2(s));
    }
  }

  /** Encoding then decoding with the same profile, for every state: refused, or the carried state comes back. */
  lemma StateRoundTrip(s: State, profile: Profile, allowPowerOffFlame: bool)
    ensures EncodeState(s, profile, allowPowerOffFlame).Ok? <==> TransmitError(s, false, allowPowerOffFlame).None?
    ensures EncodeState(s, profile, allowPowerOffFlame).Ok? ==>
              DecodeState(EncodeState(s, profile, allowPowerOffFlame).value, profile) == Ok(Carried(s, profile))
  {
    hide LowByte, ValueOf, StateOfCommands, BuildCmd1, BuildCmd2, IntegrityWords, Err1For, Err2For, IntegrityMatches;
    if EncodeState(s, profile, allowPowerOffFlame).Ok? {
      var frame := EncodeState(s, profile, allowPowerOffFlame).value;
      TransmittableIsObservable(s, allowPowerOffFlame);
      EncodedStateBytes(s, profile, allowPowerOffFlame);
      LowByteOfByte(BuildCmd1(s));
      LowByteOfByte(BuildCmd2(s));
      if profile.TenWord? {
        var t := profile.template;
        LowByteOfByte((t.w4Base & 0x80) | BuildCmd1(s));
        LowByteOfByte(t.w6);
        LowByteOfByte(t.w7);
        GeneratedWordsAreTheOnlyMatch(frame.WireWords());
      }
    }
  }

  /** The state read from an encoded frame, without any profile. */
  lemma EncodedReads(s: State, profile: Profile, allowPowerOffFlame: bool, frame: Frame)
    requires EncodeState(s, profile, allowPowerOffFlame) == Ok(frame)
    ensures StateFromFrame(frame) == Ok(if frame.IsExtended() then s.(cpi := false) else s)
    ensures frame.IsExtended() <==> profile.TenWord?
  {
    hide StateFromFrame, IntegrityWords, Err1For, Err2For, ByteOf, ValueOf, IntegrityMatches, LowByte, Frame.WireWords;
    StateRoundTrip(s, profile, allowPowerOffFlame);
  }

  // ----- Frames that come back -----

  /** Leading zeros keep a number small. */
  lemma {:induction false} NumberBelow(bits: seq<bool>, low: nat)
    requires low <= |bits| && forall i :: 0 <= i < |bits| - low ==> !bits[i]
    ensures Number(bits) < Power2(low)
  {
    if low == 0 {
      if bits != [] {
        NumberBelow(bits[..|bits| - 1], 0);
      }
    } else {
      NumberBelow(bits[..|bits| - 1], low - 1);
    }
  }

  lemma SmallBits(b: bv8)
    ensures var bits := ByteBits(b & 0x07); !bits[0] && !bits[1] && !bits[2] && !bits[3] && !bits[4]
  {}

  lemma SmallValue(b: bv8)
    ensures ValueOf(b & 0x07) < 8 && ThreeBits(ValueOf(b & 0x07)) == b & 0x07
  {
    hide ByteOf, ByteBits, Number;
    SmallBits(b);
    var bits := ByteBits(b & 0x07);
    forall i | 0 <= i < |bits| - 3 ensures !bits[i] { assert i < 5; }
    NumberBelow(bits, 3);
    assert Power2(3) == 8;
    ByteOfValue(ValueOf(b & 0x07), b & 0x07);
  }

  lemma WeightOfBit(b: bv8)
    ensures Weight(b & 0x01 != 0, 0x01) == b & 0x01 && Weight(b & 0x02 != 0, 0x02) == b & 0x02
    ensures Weight(b & 0x08 != 0, 0x08) == b & 0x08 && Weight(b & 0x80 != 0, 0x80) == b & 0x80
  {}

  lemma PackHigh(b: bv8)
    ensures (b & 0x01) | (b & 0x02) | (((b >> 4) & 0x07) << 4) | (b & 0x80) == b & 0xF3
  {}

  lemma PackLow(b: bv8)
    ensures (b & 0x07) | (b & 0x08) | (((b >> 4) & 0x07) << 4) | (b & 0x80) == b
  {}

  lemma PackSeven(b: bv8)
    ensures (b & 0x01) | (b & 0x02) | (((b >> 4) & 0x07) << 4) | 0 == b & 0x73
  {}

  /** Reading a state and writing it back keeps the second command, and of the first the bits that hold the state. */
  lemma StateHoldsCommands(cmd1: bv8, cmd2: bv8, extended: bool)
    ensures BuildCmd1(StateOfCommands(cmd1, cmd2, extended)) == cmd1 & if extended then 0x73 else 0xF3
    ensures BuildCmd2(StateOfCommands(cmd1, cmd2, extended)) == cmd2
  {
    hide ThreeBits, ValueOf;
    SmallValue(cmd1 >> 4);
    SmallValue(cmd2);
    SmallValue(cmd2 >> 4);
    Packed(cmd1, cmd2, extended);
  }

  lemma Packed(cmd1: bv8, cmd2: bv8, extended: bool)
    ensures Weight(cmd1 & 0x01 != 0, 0x01) | Weight(cmd1 & 0x02 != 0, 0x02) | (((cmd1 >> 4) & 0x07) << 4)
            | Weight(cmd1 & 0x80 != 0 && !extended, 0x80) == cmd1 & if extended then 0x73 else 0xF3
    ensures (cmd2 & 0x07) | Weight(cmd2 & 0x08 != 0, 0x08) | (((cmd2 >> 4) & 0x07) << 4) | Weight(cmd2 & 0x80 != 0, 0x80) == cmd2
  {
    hide Weight;
    WeightOfBit(cmd1);
    WeightOfBit(cmd2);
    WeightNone(0x80);
    PackHigh(cmd1);
    PackSeven(cmd1);
    PackLow(cmd2);
  }

  lemma WeightNone(weight: bv8)
    ensures Weight(false, weight) == 0
  {}

  lemma FirstWordKept(cmd1: bv8, base: bv8)
    ensures cmd1 & 0xF3 == cmd1 <==> cmd1 & 0x0C == 0
    ensures (base & 0x80) | (cmd1 & 0x73) == cmd1 <==> cmd1 & 0x0C == 0 && cmd1 & 0x80 == base & 0x80
  {}

  /** The template fields of a ten-word frame agree with the profile's. */
  predicate MatchesTemplate(frame: Frame, t: Template) {
    && LowByte(frame.cmd1) & 0x80 == t.w4Base & 0x80
    && LowByte(frame.err1) == t.w6 && LowByte(frame.err2) == t.w7
    && frame.extension != [] && frame.extension[0] == t.w8
  }

  lemma ByteField(value: int, b: bv8)
    requires 0 <= value < 0x100
    ensures value == ValueOf(b) <==> LowByte(value) == b
  {
    hide LowByte, ValueOf;
    LowByteIs(value, b);
  }

  lemma LegacyFrameRoundTrip(frame: Frame, profile: Profile, allowPowerOffFlame: bool)
    requires frame.FitsWire() && profile.Legacy? && DecodeState(frame, profile).Ok?
    ensures EncodeState(StateOfFrame(frame), profile, allowPowerOffFlame) == Ok(frame)
       <==> TransmitError(StateOfFrame(frame), false, allowPowerOffFlame).None? && LowByte(frame.cmd1) & 0x0C == 0
  {
    hide LowByte, ValueOf, StateOfCommands, BuildCmd1, BuildCmd2, Err1For, Err2For, TransmitError, ObservedError;
    var cmd1, cmd2 := LowByte(frame.cmd1), LowByte(frame.cmd2);
    StateHoldsCommands(cmd1, cmd2, false);
    FirstWordKept(cmd1, 0);
    ByteField(frame.cmd1, BuildCmd1(StateOfFrame(frame)));
    ByteField(frame.cmd2, cmd2);
  }

  lemma TemplateFrameIs(frame: Frame, t: Template, w4: bv8, w5: bv8)
    requires frame.WellFormed() && frame.FitsWire() && frame.IsExtended() && IntegrityMatches(frame.WireWords())
    ensures frame == TemplateFrame(frame.serialId, t, w4, w5)
       <==> && LowByte(frame.cmd1) == w4 && LowByte(frame.cmd2) == w5
            && LowByte(frame.err1) == t.w6 && LowByte(frame.err2) == t.w7 && frame.extension[0] == t.w8
  {
    hide LowByte, ValueOf, IntegrityWords, IntegrityMatches;
    ByteField(frame.cmd1, w4);
    ByteField(frame.cmd2, w5);
    ByteField(frame.err1, t.w6);
    ByteField(frame.err2, t.w7);
    GeneratedWordsAreTheOnlyMatch(frame.WireWords());
    assert frame.extension == [frame.extension[0], frame.extension[1], frame.extension[2]];
  }

  /**
    Decoding then encoding: a received frame is sent back word for word exactly when its state may be transmitted, its first
    command has no bit outside the state, and its other words are the profile's.
   */
  lemma FrameRoundTrip(frame: Frame, profile: Profile, allowPowerOffFlame: bool)
    requires frame.WellFormed() && frame.FitsWire() && DecodeState(frame, profile).Ok?
    ensures EncodeState(DecodeState(frame, profile).value, profile, allowPowerOffFlame) == Ok(frame)
       <==> && TransmitError(DecodeState(frame, profile).value, false, allowPowerOffFlame).None?
            && LowByte(frame.cmd1) & 0x0C == 0
            && (profile.TenWord? ==> MatchesTemplate(frame, profile.template))
  {
    hide LowByte, ValueOf, StateOfCommands, BuildCmd1, BuildCmd2, IntegrityWords, IntegrityMatches, Err1For, Err2For, TransmitError,
         ObservedError, Frame.WireWords;
    if profile.TenWord? {
      var t, cmd1, cmd2 := profile.template, LowByte(frame.cmd1), LowByte(frame.cmd2);
      var w4 := (t.w4Base & 0x80) | BuildCmd1(StateOfFrame(frame));
      StateHoldsCommands(cmd1, cmd2, true);
      FirstWordKept(cmd1, t.w4Base);
      TemplateFrameIs(frame, t, w4, cmd2);
    } else {
      LegacyFrameRoundTrip(frame, profile, allowPowerOffFlame);
    }
  }
}
