/**
  From captured packets to a remote profile: the session derivation and the one-shot learner of
  custom_components/proflame2/learning.py.
 */
module LearningResults {
  import opened Wrappers
  import opened Bytes
  import opened Packet
  import opened Ecc
  import opened StateCodec
  import opened Learning

  // ----- Samples -----

  type Pair = (int, int)

  function Cmd1Pairs(frames: seq<Frame>): set<Pair> { set f | f in frames :: (f.cmd1, f.err1) }

  function Cmd2Pairs(frames: seq<Frame>): set<Pair> { set f | f in frames :: (f.cmd2, f.err2) }

  predicate PairAtMost(a: Pair, b: Pair) { a.0 < b.0 || (a.0 == b.0 && a.1 <= b.1) }

  predicate IsLeast(pairs: set<Pair>, p: Pair) { p in pairs && forall q :: q in pairs ==> PairAtMost(p, q) }

  lemma {:induction false} LeastExists(pairs: set<Pair>)
    requires pairs != {}
    ensures exists p :: IsLeast(pairs, p)
    decreases |pairs|
  {
    var x :| x in pairs;
    var rest := pairs - {x};
    if rest == {} {
      assert pairs == {x};
      assert IsLeast(pairs, x);
    } else {
      LeastExists(rest);
      var p :| IsLeast(rest, p);
      assert pairs == rest + {x};
      assert IsLeast(pairs, if PairAtMost(p, x) then p else x);
    }
  }

  /** `sorted` on a set of pairs. */
  function Sorted(pairs: set<Pair>): (sorted: seq<Pair>)
    ensures forall p :: p in sorted <==> p in pairs
    ensures forall i, j :: 0 <= i < j < |sorted| ==> PairAtMost(sorted[i], sorted[j])
    decreases |pairs|
  {
    if pairs == {} then []
    else
      LeastExists(pairs);
      var least :| IsLeast(pairs, least);
      [least] + Sorted(pairs - {least})
  }

  function ToSample(p: Pair): Sample { Sample(LowByte(p.0), LowByte(p.1)) }

  function ToSamples(pairs: seq<Pair>): (samples: seq<Sample>)
    ensures |samples| == |pairs| && forall i :: 0 <= i < |pairs| ==> samples[i] == ToSample(pairs[i])
  {
    seq(|pairs|, i requires 0 <= i < |pairs| => ToSample(pairs[i]))
  }

  /** derive_ecc_profile on two sample sets. */
  function Derive(cmd1: set<Pair>, cmd2: set<Pair>): Result<EccProfile, DeriveError> {
    DeriveEccProfile(ToSamples(Sorted(cmd1)), ToSamples(Sorted(cmd2)))
  }

  /** The constants account for both Err bytes of every frame. */
  ghost predicate Explains(frames: seq<Frame>, ecc: EccProfile) {
    forall f :: f in frames ==>
      LowByte(f.err1) == Err1For(LowByte(f.cmd1), ecc) && LowByte(f.err2) == Err2For(LowByte(f.cmd2), ecc)
  }

  function Cd1(f: Frame): bv8 { ImpliedCd(ToSample((f.cmd1, f.err1))) }

  function Cd2(f: Frame): bv8 { ImpliedCd(ToSample((f.cmd2, f.err2))) }

  /** Two of the frames imply different constants. */
  ghost predicate Conflict(frames: seq<Frame>) {
    exists f, g :: f in frames && g in frames && (Cd1(f) != Cd1(g) || Cd2(f) != Cd2(g))
  }

  lemma SamplesOf(pairs: set<Pair>, sample: Sample)
    ensures sample in ToSamples(Sorted(pairs)) <==> exists p :: p in pairs && ToSample(p) == sample
    ensures ToSamples(Sorted(pairs)) == [] <==> pairs == {}
  {
    hide ToSample;
    var sorted := Sorted(pairs);
    if p :| p in pairs && ToSample(p) == sample {
      var i :| 0 <= i < |sorted| && sorted[i] == p;
      assert ToSamples(sorted)[i] == sample;
    }
    if pairs != {} {
      var p :| p in pairs;
      assert p in sorted;
    }
  }

  lemma Cmd1SampleOf(frames: seq<Frame>, sample: Sample)
    ensures sample in ToSamples(Sorted(Cmd1Pairs(frames))) <==> exists f :: f in frames && ToSample((f.cmd1, f.err1)) == sample
  {
    hide ToSample, ToSamples, Sorted;
    SamplesOf(Cmd1Pairs(frames), sample);
    if f :| f in frames && ToSample((f.cmd1, f.err1)) == sample {
      assert (f.cmd1, f.err1) in Cmd1Pairs(frames);
    }
  }

  lemma Cmd2SampleOf(frames: seq<Frame>, sample: Sample)
    ensures sample in ToSamples(Sorted(Cmd2Pairs(frames))) <==> exists f :: f in frames && ToSample((f.cmd2, f.err2)) == sample
  {
    hide ToSample, ToSamples, Sorted;
    SamplesOf(Cmd2Pairs(frames), sample);
    if f :| f in frames && ToSample((f.cmd2, f.err2)) == sample {
      assert (f.cmd2, f.err2) in Cmd2Pairs(frames);
    }
  }

  lemma PairsNonempty(frames: seq<Frame>)
    requires frames != []
    ensures Cmd1Pairs(frames) != {} && Cmd2Pairs(frames) != {}
    ensures ToSamples(Sorted(Cmd1Pairs(frames))) != [] && ToSamples(Sorted(Cmd2Pairs(frames))) != []
  {
    hide ToSample, ToSamples, Sorted;
    var f := frames[0];
    assert (f.cmd1, f.err1) in Cmd1Pairs(frames) && (f.cmd2, f.err2) in Cmd2Pairs(frames);
    SamplesOf(Cmd1Pairs(frames), Sample(0, 0));
    SamplesOf(Cmd2Pairs(frames), Sample(0, 0));
  }

  /** Derivation from frames finds exactly the constants that explain them all. */
  lemma DeriveIff(frames: seq<Frame>, ecc: EccProfile)
    requires frames != [] && Nibbles(ecc)
    ensures Derive(Cmd1Pairs(frames), Cmd2Pairs(frames)) == Ok(ecc) <==> Explains(frames, ecc)
  {
    hide ToSamples, Sorted, DeriveEccProfile, Err1For, Err2For, Cmd1Pairs, Cmd2Pairs, LowByte;
    PairsNonempty(frames);
    var cmd1, cmd2 := ToSamples(Sorted(Cmd1Pairs(frames))), ToSamples(Sorted(Cmd2Pairs(frames)));
    ProfileDerivedIff(cmd1, cmd2, ecc);
    forall s ensures s in cmd1 <==> exists f :: f in frames && ToSample((f.cmd1, f.err1)) == s { Cmd1SampleOf(frames, s); }
    forall s ensures s in cmd2 <==> exists f :: f in frames && ToSample((f.cmd2, f.err2)) == s { Cmd2SampleOf(frames, s); }
    if Derive(Cmd1Pairs(frames), Cmd2Pairs(frames)) == Ok(ecc) {
      forall f | f in frames
        ensures LowByte(f.err1) == Err1For(LowByte(f.cmd1), ecc) && LowByte(f.err2) == Err2For(LowByte(f.cmd2), ecc)
      {
        assert ToSample((f.cmd1, f.err1)) in cmd1 && ToSample((f.cmd2, f.err2)) in cmd2;
      }
    }
    if Explains(frames, ecc) {
      forall s | s in cmd1 ensures s.err == Err1For(s.command, ecc) {
        var f :| f in frames && ToSample((f.cmd1, f.err1)) == s;
      }
      forall s | s in cmd2 ensures s.err == Err2For(s.command, ecc) {
        var f :| f in frames && ToSample((f.cmd2, f.err2)) == s;
      }
    }
  }

  lemma Cmd1Disagree(frames: seq<Frame>)
    ensures Disagree(ToSamples(Sorted(Cmd1Pairs(frames)))) <==> exists f, g :: f in frames && g in frames && Cd1(f) != Cd1(g)
  {
    hide ToSample, ToSamples, Sorted, Cmd1Pairs, ImpliedCd, Disagree;
    var cmd1 := ToSamples(Sorted(Cmd1Pairs(frames)));
    forall s ensures s in cmd1 <==> exists f :: f in frames && ToSample((f.cmd1, f.err1)) == s { Cmd1SampleOf(frames, s); }
    DisagreeIff(cmd1);
    if Disagree(cmd1) {
      var a, b :| a in cmd1 && b in cmd1 && ImpliedCd(a) != ImpliedCd(b);
      var f :| f in frames && ToSample((f.cmd1, f.err1)) == a;
      var g :| g in frames && ToSample((g.cmd1, g.err1)) == b;
      assert Cd1(f) != Cd1(g);
    }
    forall f, g | f in frames && g in frames && Cd1(f) != Cd1(g) ensures Disagree(cmd1) {
      assert ToSample((f.cmd1, f.err1)) in cmd1 && ToSample((g.cmd1, g.err1)) in cmd1;
    }
  }

  lemma Cmd2Disagree(frames: seq<Frame>)
    ensures Disagree(ToSamples(Sorted(Cmd2Pairs(frames)))) <==> exists f, g :: f in frames && g in frames && Cd2(f) != Cd2(g)
  {
    hide ToSample, ToSamples, Sorted, Cmd2Pairs, ImpliedCd, Disagree;
    var cmd2 := ToSamples(Sorted(Cmd2Pairs(frames)));
    forall s ensures s in cmd2 <==> exists f :: f in frames && ToSample((f.cmd2, f.err2)) == s { Cmd2SampleOf(frames, s); }
    DisagreeIff(cmd2);
    if Disagree(cmd2) {
      var a, b :| a in cmd2 && b in cmd2 && ImpliedCd(a) != ImpliedCd(b);
      var f :| f in frames && ToSample((f.cmd2, f.err2)) == a;
      var g :| g in frames && ToSample((g.cmd2, g.err2)) == b;
      assert Cd2(f) != Cd2(g);
    }
    forall f, g | f in frames && g in frames && Cd2(f) != Cd2(g) ensures Disagree(cmd2) {
      assert ToSample((f.cmd2, f.err2)) in cmd2 && ToSample((g.cmd2, g.err2)) in cmd2;
    }
  }

  /** And it fails, always as a contradiction, exactly when two frames imply different constants. */
  lemma DeriveFailsIff(frames: seq<Frame>)
    requires frames != []
    ensures Derive(Cmd1Pairs(frames), Cmd2Pairs(frames)) == Err(NoStable) <==> Conflict(frames)
    ensures Derive(Cmd1Pairs(frames), Cmd2Pairs(frames)).Err? ==> Derive(Cmd1Pairs(frames), Cmd2Pairs(frames)) == Err(NoStable)
    ensures Derive(Cmd1Pairs(frames), Cmd2Pairs(frames)).Ok? ==> Nibbles(Derive(Cmd1Pairs(frames), Cmd2Pairs(frames)).value)
  {
    hide ToSamples, Sorted, DeriveStableCd, Cmd1Pairs, Cmd2Pairs, SplitC, SplitD, Disagree, AllImply, Cd1, Cd2;
    PairsNonempty(frames);
    StableCdIff(ToSamples(Sorted(Cmd1Pairs(frames))));
    StableCdIff(ToSamples(Sorted(Cmd2Pairs(frames))));
    Cmd1Disagree(frames);
    Cmd2Disagree(frames);
    forall cd ensures Nibble(SplitC(cd)) && Nibble(SplitD(cd)) { SplitNibbles(cd); }
  }

  predicate Nibble(b: bv8) { b & 0x0F == b }

  lemma SplitNibbles(cd: bv8)
    ensures Nibble(SplitC(cd)) && Nibble(SplitD(cd))
  {}

  lemma DisagreeIff(samples: seq<Sample>)
    ensures Disagree(samples) <==> exists a, b :: a in samples && b in samples && ImpliedCd(a) != ImpliedCd(b)
  {
    hide ImpliedCd;
    if a, b :| a in samples && b in samples && ImpliedCd(a) != ImpliedCd(b) {
      var i :| 0 <= i < |samples| && samples[i] == a;
      var j :| 0 <= j < |samples| && samples[j] == b;
      if i < j {
        assert ImpliedCd(samples[i]) != ImpliedCd(samples[j]);
      } else {
        assert j < i && ImpliedCd(samples[j]) != ImpliedCd(samples[i]);
      }
    }
  }

  // ----- The session derivation -----

  function Filter(frames: seq<Frame>, keep: Frame -> bool): (kept: seq<Frame>)
    ensures forall f :: f in kept <==> f in frames && keep(f)
    ensures |kept| <= |frames| && (|kept| == |frames| ==> kept == frames)
    ensures |kept| == |frames| <==> forall f :: f in frames ==> keep(f)
    ensures kept == [] <==> forall f :: f in frames ==> !keep(f)
  {
    if frames == [] then []
    else
      var n := |frames| - 1;
      Split(frames);
      Filter(frames[..n], keep) + if keep(frames[n]) then [frames[n]] else []
  }

  lemma Split(frames: seq<Frame>)
    requires frames != []
    ensures frames == frames[..|frames| - 1] + [frames[|frames| - 1]]
  {}

  predicate IsTenWord(frame: Frame) { frame.IsExtended() }

  /** `(cmd1 & 0x03) == 0x01` */
  predicate IsManual(frame: Frame) { LowByte(frame.cmd1) & 0x03 == 0x01 }

  function Bases(frames: seq<Frame>): set<bv8> { set f | f in frames :: LowByte(f.cmd1) & 0x80 }

  function W5s(frames: seq<Frame>): set<int> { set f | f in frames :: f.cmd2 }

  function W6s(frames: seq<Frame>): set<int> { set f | f in frames :: f.err1 }

  function Word8(f: Frame): bv8 { if f.IsExtended() then f.extension[0] else 0 }

  function W8s(frames: seq<Frame>): set<bv8> { set f | f in frames :: Word8(f) }

  /** The template read off one manual frame; W7 is a constant. */
  function TemplateOf(f: Frame): Template {
    Template(LowByte(f.cmd1) & 0x80, LowByte(f.err1), DEFAULT_EXTENDED_MANUAL_W7, Word8(f))
  }

  function SessionSuccess(s: Session, lesson: Lesson): LearnResult
    requires s.packets != []
  {
    LearnResult(Learned(lesson), s.remoteId, s.packetsSeen, s.validPackets, Some(s.packets[|s.packets| - 1]))
  }

  /** _derive_extended_learn_result */
  function DeriveExtended(s: Session, extended: seq<Frame>): Option<LearnResult>
    requires extended != [] && |extended| <= |s.packets|
  {
    if |extended| != |s.packets| then Some(SessionFailure(s, ContradictoryProfile))
    else if |extended| < MIN_VALID_PACKETS then None
    else
      var manual := Filter(extended, IsManual);
      if |manual| < 2 || |W5s(manual)| < 2 then None
      else if |Bases(manual)| != 1 || |W6s(manual)| != 1 || |W8s(manual)| != 1 then Some(SessionFailure(s, ContradictoryProfile))
      else
        // Each set has one element, so the first frame has it.
        var first := manual[0];
        Some(SessionSuccess(s, TenWordLesson(TemplateOf(first))))
  }

  /** derive_learn_result_from_session */
  function DeriveLearnResult(s: Session): Option<LearnResult> {
    var extended := Filter(s.packets, IsTenWord);
    if extended != [] then DeriveExtended(s, extended)
    else
      var cmd1, cmd2 := Cmd1Pairs(s.packets), Cmd2Pairs(s.packets);
      if s.validPackets < MIN_VALID_PACKETS || |cmd1| < MIN_UNIQUE_CMD1_SAMPLES || |cmd2| < MIN_UNIQUE_CMD2_SAMPLES then None
      else
        match Derive(cmd1, cmd2)
        case Ok(ecc) =>
          Some(LearnResult(Learned(LegacyLesson(ecc)), s.remoteId, s.packetsSeen, s.validPackets,
                           if s.packets == [] then None else Some(s.packets[|s.packets| - 1])))
        case Err(NoStable) => Some(SessionFailure(s, ContradictoryProfile))
        case Err(Ambiguous(_)) => None
        case Err(NoSamples) => Some(SessionFailure(s, ContradictoryProfile))
  }

  /** Frames as scanners build them. */
  ghost predicate OffTheAir(frames: seq<Frame>) { forall f :: f in frames ==> f.WellFormed() && f.FitsWire() }

  ghost predicate OneRemote(frames: seq<Frame>) { forall f :: f in frames ==> f.serialId == frames[0].serialId }

  ghost predicate AllLegacy(frames: seq<Frame>) { forall f :: f in frames ==> !f.IsExtended() }

  /** Enough packets, repeats included, with enough different command/Err pairs. */
  predicate Ready(frames: seq<Frame>, minCmd1: nat, minCmd2: nat, minValid: nat) {
    |frames| >= minValid && |Cmd1Pairs(frames)| >= minCmd1 && |Cmd2Pairs(frames)| >= minCmd2
  }

  predicate ReadyByDefault(frames: seq<Frame>) {
    Ready(frames, 2, 2, 3)
  }

  lemma SameFrame(a: Frame, b: Frame)
    requires a.WellFormed() && a.FitsWire() && b.WellFormed() && b.FitsWire() && a.WireWords() == b.WireWords()
    ensures a == b
  {
    hide Frame.WireWords;
    FrameSurvivesWords(a);
    FrameSurvivesWords(b);
  }

  /** A session keeps every frame of its remote, once. */
  lemma SessionKeepsAll(frames: seq<Frame>)
    requires OffTheAir(frames) && OneRemote(frames)
    ensures var s := ReceivedAll(NEW_SESSION, frames);
            && (forall f :: f in s.packets <==> f in frames)
            && Distinct(s.packets)
            && s.validPackets == s.packetsSeen == |frames|
            && s.remoteId == (if frames == [] then None else Some(frames[0].serialId))
  {
    hide Frame.WireWords, ReceivedAll, Frame.FitsWire, Frame.WellFormed;
    var s := ReceivedAll(NEW_SESSION, frames);
    SessionMeaning(frames);
    forall f | f in frames ensures f in s.packets {
      assert f.WireWords() in s.seenFrames;
      var p :| p in s.packets && p.WireWords() == f.WireWords();
      SameFrame(p, f);
    }
  }

  lemma SamePairs(a: seq<Frame>, b: seq<Frame>)
    requires forall f :: f in a <==> f in b
    ensures Cmd1Pairs(a) == Cmd1Pairs(b) && Cmd2Pairs(a) == Cmd2Pairs(b)
  {}

  function LegacyOutcome(frames: seq<Frame>): Outcome {
    match Derive(Cmd1Pairs(frames), Cmd2Pairs(frames))
    case Ok(ecc) => Learned(LegacyLesson(ecc))
    case Err(_) => Failure(ContradictoryProfile)
  }

  /** The outcome in terms of the packets: the one explanation of them all, or a conflict between two of them. */
  lemma OutcomeMeaning(frames: seq<Frame>)
    requires frames != []
    ensures forall ecc :: Nibbles(ecc) ==> (LegacyOutcome(frames) == Learned(LegacyLesson(ecc)) <==> Explains(frames, ecc))
    ensures LegacyOutcome(frames) == Failure(ContradictoryProfile) <==> Conflict(frames)
    ensures LegacyOutcome(frames).Learned? ==>
              LegacyOutcome(frames).lesson.LegacyLesson? && Nibbles(LegacyOutcome(frames).lesson.ecc)
  {
    hide Derive, Explains, Conflict, Nibbles;
    DeriveFailsIff(frames);
    forall ecc | Nibbles(ecc) ensures Derive(Cmd1Pairs(frames), Cmd2Pairs(frames)) == Ok(ecc) <==> Explains(frames, ecc) {
      DeriveIff(frames, ecc);
    }
  }

  /**
    A session that heard one legacy remote, in any order and with any repeats: no verdict before the thresholds are met,
    then the outcome of all its packets.
   */
  lemma SessionVerdict(frames: seq<Frame>)
    requires OffTheAir(frames) && OneRemote(frames) && AllLegacy(frames)
    ensures var result := DeriveLearnResult(ReceivedAll(NEW_SESSION, frames));
            && (result.None? <==> !ReadyByDefault(frames))
            && (result.Some? ==>
                  && result.value.outcome == LegacyOutcome(frames)
                  && result.value.remoteId == Some(frames[0].serialId)
                  && result.value.packetsSeen == result.value.validPackets == |frames|)
  {
    hide Derive, Frame.FitsWire, Frame.WellFormed, ReceivedAll, Cmd1Pairs, Cmd2Pairs, Filter, DeriveExtended, Distinct, Conflict, Nibbles;
    var s := ReceivedAll(NEW_SESSION, frames);
    SessionKeepsAll(frames);
    SamePairs(s.packets, frames);
    assert Filter(s.packets, IsTenWord) == [];
    if frames != [] {
      DeriveFailsIff(frames);
    }
  }

  /** The frame at this place was new when it came, and nothing after it was. */
  ghost predicate LastNewAt(frames: seq<Frame>, packet: Frame, i: nat) {
    && i < |frames| && frames[i] == packet && packet !in frames[..i]
    && forall j :: i < j < |frames| ==> frames[j] in frames[..j]
  }

  /** The last frame that was new when it came. */
  ghost predicate LastNew(frames: seq<Frame>, packet: Frame) { exists i :: LastNewAt(frames, packet, i) }

  lemma RepeatLeavesLast(frames: seq<Frame>, f: Frame, packet: Frame, i: nat)
    requires f in frames && LastNewAt(frames, packet, i)
    ensures LastNewAt(frames + [f], packet, i)
  {
    var more := frames + [f];
    assert more[..i] == frames[..i];
    forall j | i < j < |more| ensures more[j] in more[..j] { assert more[..j] == frames[..j]; }
  }

  lemma LastNewMore(frames: seq<Frame>, f: Frame, packet: Frame)
    ensures f !in frames ==> LastNew(frames + [f], f)
    ensures f in frames && LastNew(frames, packet) ==> LastNew(frames + [f], packet)
  {
    if f !in frames {
      assert (frames + [f])[..|frames|] == frames;
      assert LastNewAt(frames + [f], f, |frames|);
    } else if LastNew(frames, packet) {
      var i :| LastNewAt(frames, packet, i);
      hide LastNewAt;
      RepeatLeavesLast(frames, f, packet, i);
    }
  }

  lemma NewIsKept(s: Session, frames: seq<Frame>, f: Frame)
    requires SessionOf(s, frames) && OffTheAir(frames + [f]) && OneRemote(frames + [f])
    requires forall g :: g in s.packets <==> g in frames
    ensures f in frames ==> Receive(s, f).packets == s.packets
    ensures f !in frames ==> Receive(s, f).packets == s.packets + [f]
  {
    hide Frame.WireWords, Frame.FitsWire, Frame.WellFormed;
    assert f == (frames + [f])[|frames|];
    assert !IsStranger(s.remoteId, f) by { assert frames != [] ==> frames[0] == (frames + [f])[0]; }
    if f in frames {
      assert f.WireWords() in s.seenFrames;
    } else if f.WireWords() in s.seenFrames {
      var p :| p in s.packets && p.WireWords() == f.WireWords();
      assert p in frames + [f] && f in frames + [f];
      SameFrame(p, f);
    }
  }

  /** The last packet of a session is the last frame that was new. */
  lemma {:induction false} LastKept(frames: seq<Frame>)
    requires OffTheAir(frames) && OneRemote(frames) && frames != []
    ensures var packets := ReceivedAll(NEW_SESSION, frames).packets;
            packets != [] && LastNew(frames, packets[|packets| - 1])
  {
    hide Frame.WireWords, Frame.FitsWire, Frame.WellFormed, ReceivedAll, Receive, SessionOf, LastNew;
    var n := |frames| - 1;
    var init, f := frames[..n], frames[n];
    var s := ReceivedAll(NEW_SESSION, init);
    Split(frames);
    SessionMeaning(init);
    SessionKeepsAll(init);
    NewIsKept(s, init, f);
    ReceivedAppend(NEW_SESSION, init, [f]);
    ReceivedOne(s, f);
    if n > 0 {
      LastKept(init);
      LastNewMore(init, f, s.packets[|s.packets| - 1]);
    } else {
      LastNewMore(init, f, f);
    }
  }

  lemma ReceivedOne(s: Session, f: Frame)
    ensures ReceivedAll(s, [f]) == Receive(s, f)
  {
    hide Receive;
    assert [f][1..] == [];
  }

  lemma ResultFields(s: Session)
    requires DeriveLearnResult(s).Some?
    ensures s.packets == [] ==> s.validPackets > 0
    ensures var result := DeriveLearnResult(s).value;
            && result.remoteId == s.remoteId && result.packetsSeen == s.packetsSeen && result.validPackets == s.validPackets
            && (result.outcome.Failure? ==> result.outcome.code == ContradictoryProfile && result.finalPacket.None?)
            && (result.outcome.Learned? && s.packets != [] ==> result.finalPacket == Some(s.packets[|s.packets| - 1]))
  {
    hide Derive, Cmd1Pairs, Cmd2Pairs, Filter, TemplateOf, Bases, W5s, W6s, W8s;
  }

  /**
    What a session reports beside its outcome, in any format: the remote, how many packets it heard, and with a success the last frame
    that was new when it came.
   */
  lemma ResultMeaning(frames: seq<Frame>)
    requires OffTheAir(frames) && OneRemote(frames) && DeriveLearnResult(ReceivedAll(NEW_SESSION, frames)).Some?
    ensures frames != []
    ensures var result := DeriveLearnResult(ReceivedAll(NEW_SESSION, frames)).value;
            && result.remoteId == Some(frames[0].serialId)
            && result.packetsSeen == |frames| && result.validPackets == |frames|
            && (result.outcome.Learned? <==> result.finalPacket.Some?)
            && (result.finalPacket.Some? ==> LastNew(frames, result.finalPacket.value))
            && (result.outcome.Failure? ==> result.outcome.code == ContradictoryProfile)
  {
    hide DeriveLearnResult, Frame.FitsWire, Frame.WellFormed, Frame.WireWords, ReceivedAll, Distinct, LastNew;
    SessionKeepsAll(frames);
    ResultFields(ReceivedAll(NEW_SESSION, frames));
    SomePacket(ReceivedAll(NEW_SESSION, frames), frames);
    if frames != [] {
      LastKept(frames);
    }
  }

  lemma SomePacket(s: Session, frames: seq<Frame>)
    requires forall f :: f in s.packets <==> f in frames
    ensures s.packets == [] <==> frames == []
  {
    if frames != [] {
      assert frames[0] in s.packets;
    }
    if s.packets != [] {
      assert exists f :: f in s.packets && f in frames by { assert s.packets[0] in s.packets; }
    }
  }

  // ----- The one-shot learner -----

  /** The local variables of the one-shot learner. */
  datatype Tally = Tally(heard: nat, remoteId: Option<int>, cmd1: set<Pair>, cmd2: set<Pair>, ambiguous: bool)

  function TallyResult(t: Tally, outcome: Outcome): LearnResult {
    LearnResult(outcome, t.remoteId, t.heard, t.heard, None)
  }

  function Tallied(t: Tally, f: Frame): Tally {
    Tally(t.heard + 1, Some(f.serialId), t.cmd1 + {(f.cmd1, f.err1)}, t.cmd2 + {(f.cmd2, f.err2)}, t.ambiguous)
  }

  /** What one packet decides, if anything. */
  function Decided(t: Tally, f: Frame, minCmd1: nat, minCmd2: nat, minValid: nat): Option<LearnResult> {
    var next := Tallied(t, f);
    if IsStranger(t.remoteId, f) then Some(LearnResult(Failure(InconsistentRemoteId), t.remoteId, t.heard + 1, t.heard + 1, None))
    else if next.heard < minValid || |next.cmd1| < minCmd1 || |next.cmd2| < minCmd2 then None
    else
      match Derive(next.cmd1, next.cmd2)
      case Ok(ecc) => Some(TallyResult(next, Learned(LegacyLesson(ecc))))
      case Err(NoStable) => Some(TallyResult(next, Failure(ContradictoryProfile)))
      case Err(Ambiguous(_)) => None
      case Err(NoSamples) => Some(TallyResult(next, Failure(ContradictoryProfile)))
  }

  /** The learner from some point on. */
  function LearnFrom(t: Tally, frames: seq<Frame>, minCmd1: nat, minCmd2: nat, minValid: nat): LearnResult
    decreases |frames|
  {
    if frames == [] then TallyResult(t, Failure(if t.ambiguous then AmbiguousProfile else Timeout))
    else
      var decided := Decided(t, frames[0], minCmd1, minCmd2, minValid);
      if decided.Some? then decided.value
      else
        var next := Tallied(t, frames[0]);
        var hesitates := next.heard >= minValid && |next.cmd1| >= minCmd1 && |next.cmd2| >= minCmd2;
        LearnFrom(next.(ambiguous := t.ambiguous || hesitates), frames[1..], minCmd1, minCmd2, minValid)
  }

  const NO_TALLY := Tally(0, None, {}, {}, false)

  lemma HeardRest(received: seq<Option<Frame>>, i: nat)
    requires i < |received|
    ensures Heard(received[i..]) == (if received[i].Some? then [received[i].value] else []) + Heard(received[i + 1..])
  {
    assert received[i..][0] == received[i] && received[i..][1..] == received[i + 1..];
  }

  /** async_learn_remote_profile */
  method LearnRemoteProfile(received: seq<Option<Frame>>, minCmd1: nat, minCmd2: nat, minValid: nat) returns (r: LearnResult)
    ensures r == LearnFrom(NO_TALLY, Heard(received), minCmd1, minCmd2, minValid)
  {
    hide Derive;
    var packetsSeen, validPackets: nat := 0, 0;
    var remoteId: Option<int> := None;
    var cmd1Samples: set<Pair>, cmd2Samples: set<Pair> := {}, {};
    var lastAmbiguity := false;
    assert received[0..] == received;
    for i := 0 to |received|
      invariant packetsSeen == validPackets
      invariant LearnFrom(NO_TALLY, Heard(received), minCmd1, minCmd2, minValid)
             == LearnFrom(Tally(validPackets, remoteId, cmd1Samples, cmd2Samples, lastAmbiguity), Heard(received[i..]), minCmd1, minCmd2,
                          minValid)
    {
      HeardRest(received, i);
      if received[i].None? {
        continue;
      }
      var packet := received[i].value;
      packetsSeen := packetsSeen + 1;
      validPackets := validPackets + 1;
      if remoteId.None? {
        remoteId := Some(packet.serialId);
      } else if packet.serialId != remoteId.value {
        return LearnResult(Failure(InconsistentRemoteId), remoteId, packetsSeen, validPackets, None);
      }
      cmd1Samples := cmd1Samples + {(packet.cmd1, packet.err1)};
      cmd2Samples := cmd2Samples + {(packet.cmd2, packet.err2)};
      if validPackets < minValid || |cmd1Samples| < minCmd1 || |cmd2Samples| < minCmd2 {
        continue;
      }
      var ecc := Derive(cmd1Samples, cmd2Samples);
      match ecc {
        case Ok(value) => return LearnResult(Learned(LegacyLesson(value)), remoteId, packetsSeen, validPackets, None);
        case Err(NoStable) => return LearnResult(Failure(ContradictoryProfile), remoteId, packetsSeen, validPackets, None);
        case Err(Ambiguous(_)) => lastAmbiguity := true;
        case Err(NoSamples) => return LearnResult(Failure(ContradictoryProfile), remoteId, packetsSeen, validPackets, None);
      }
    }
    return LearnResult(Failure(if lastAmbiguity then AmbiguousProfile else Timeout), remoteId, packetsSeen, validPackets, None);
  }

  function TallyOf(frames: seq<Frame>): Tally {
    Tally(|frames|, if frames == [] then None else Some(frames[0].serialId), Cmd1Pairs(frames), Cmd2Pairs(frames), false)
  }

  lemma TalliedMore(frames: seq<Frame>, f: Frame)
    requires frames == [] || frames[0].serialId == f.serialId
    ensures TallyOf(frames + [f]) == Tallied(TallyOf(frames), f)
  {
    var more := frames + [f];
    assert forall g :: g in more <==> g in frames || g == f;
    assert Cmd1Pairs(more) == Cmd1Pairs(frames) + {(f.cmd1, f.err1)};
    assert Cmd2Pairs(more) == Cmd2Pairs(frames) + {(f.cmd2, f.err2)};
  }

  /** The outcome of the one-shot learner: that of the shortest prefix that is ready. */
  lemma {:induction false} OneShotVerdict(frames: seq<Frame>, i: nat, k: nat, minCmd1: nat, minCmd2: nat, minValid: nat)
    requires OneRemote(frames) && i < k <= |frames|
    requires Ready(frames[..k], minCmd1, minCmd2, minValid)
    requires forall j :: 0 < j < k ==> !Ready(frames[..j], minCmd1, minCmd2, minValid)
    ensures LearnFrom(TallyOf(frames[..i]), frames[i..], minCmd1, minCmd2, minValid)
         == LearnResult(LegacyOutcome(frames[..k]), Some(frames[0].serialId), k, k, None)
    decreases k - i
  {
    hide Derive, Cmd1Pairs, Cmd2Pairs;
    var f := frames[i];
    assert frames[..i + 1] == frames[..i] + [f] && frames[i..][0] == f && frames[i..][1..] == frames[i + 1..];
    assert f in frames;
    TalliedMore(frames[..i], f);
    if i + 1 == k {
      DeriveFailsIff(frames[..k]);
    } else {
      assert !Ready(frames[..i + 1], minCmd1, minCmd2, minValid);
      OneShotVerdict(frames, i + 1, k, minCmd1, minCmd2, minValid);
    }
  }

  lemma {:induction false} OneShotTimesOut(frames: seq<Frame>, i: nat, minCmd1: nat, minCmd2: nat, minValid: nat)
    requires OneRemote(frames) && i <= |frames|
    requires forall j :: 0 < j <= |frames| ==> !Ready(frames[..j], minCmd1, minCmd2, minValid)
    ensures LearnFrom(TallyOf(frames[..i]), frames[i..], minCmd1, minCmd2, minValid)
         == LearnResult(Failure(Timeout), if frames == [] then None else Some(frames[0].serialId), |frames|, |frames|, None)
    decreases |frames| - i
  {
    hide Derive, Cmd1Pairs, Cmd2Pairs;
    if i < |frames| {
      var f := frames[i];
      assert frames[..i + 1] == frames[..i] + [f] && frames[i..][0] == f && frames[i..][1..] == frames[i + 1..];
      assert f in frames;
      TalliedMore(frames[..i], f);
      assert !Ready(frames[..i + 1], minCmd1, minCmd2, minValid);
      OneShotTimesOut(frames, i + 1, minCmd1, minCmd2, minValid);
    } else {
      assert frames[..i] == frames;
    }
  }

  /** A packet of another remote ends the one-shot learner that has no answer yet, whatever comes after it. */
  lemma {:induction false} StrangerEndsOneShot(frames: seq<Frame>, i: nat, stranger: Frame, rest: seq<Frame>, minCmd1: nat, minCmd2: nat,
                                               minValid: nat)
    requires OneRemote(frames) && i <= |frames| && frames != [] && stranger.serialId != frames[0].serialId
    requires forall j :: 0 < j <= |frames| ==> !Ready(frames[..j], minCmd1, minCmd2, minValid)
    ensures LearnFrom(TallyOf(frames[..i]), frames[i..] + ([stranger] + rest), minCmd1, minCmd2, minValid)
         == LearnResult(Failure(InconsistentRemoteId), Some(frames[0].serialId), |frames| + 1, |frames| + 1, None)
    decreases |frames| - i
  {
    hide Derive, Cmd1Pairs, Cmd2Pairs;
    var later := frames[i..] + ([stranger] + rest);
    if i < |frames| {
      var f := frames[i];
      assert frames[..i + 1] == frames[..i] + [f] && later[0] == f && later[1..] == frames[i + 1..] + ([stranger] + rest);
      assert f in frames;
      TalliedMore(frames[..i], f);
      assert !Ready(frames[..i + 1], minCmd1, minCmd2, minValid);
      StrangerEndsOneShot(frames, i + 1, stranger, rest, minCmd1, minCmd2, minValid);
    } else {
      assert frames[..i] == frames && later[0] == stranger;
    }
  }

  lemma NothingTallied()
    ensures TallyOf([]) == NO_TALLY
  {
    assert Cmd1Pairs([]) == {} && Cmd2Pairs([]) == {};
  }

  /**
    The two learners agree: asked after every packet, the session first answers where the one-shot learner stops, with the
    same outcome, remote and counts.
   */
  lemma LearnersAgree(frames: seq<Frame>, k: nat)
    requires OffTheAir(frames) && OneRemote(frames) && AllLegacy(frames) && 0 < k <= |frames|
    requires DeriveLearnResult(ReceivedAll(NEW_SESSION, frames[..k])).Some?
    requires forall j :: 0 < j < k ==> DeriveLearnResult(ReceivedAll(NEW_SESSION, frames[..j])).None?
    ensures LearnFrom(NO_TALLY, frames, MIN_UNIQUE_CMD1_SAMPLES, MIN_UNIQUE_CMD2_SAMPLES, MIN_VALID_PACKETS)
         == DeriveLearnResult(ReceivedAll(NEW_SESSION, frames[..k])).value.(finalPacket := None)
  {
    hide Derive, DeriveLearnResult, LegacyOutcome, LearnFrom, Frame.FitsWire, Frame.WellFormed, Ready, ReceivedAll;
    forall j | 0 < j <= k ensures ReadyByDefault(frames[..j]) <==> j == k {
      assert forall f :: f in frames[..j] ==> f in frames;
      SessionVerdict(frames[..j]);
    }
    SessionVerdict(frames[..k]);
    OneShotVerdict(frames, 0, k, MIN_UNIQUE_CMD1_SAMPLES, MIN_UNIQUE_CMD2_SAMPLES, MIN_VALID_PACKETS);
    NothingTallied();
    assert frames[..0] == [] && frames[0..] == frames;
  }

  // ----- What is learned -----

  lemma {:induction false} PrefixIsSmaller(frames: seq<Frame>, k: nat)
    requires k <= |frames|
    ensures |Cmd1Pairs(frames[..k])| <= |Cmd1Pairs(frames)| && |Cmd2Pairs(frames[..k])| <= |Cmd2Pairs(frames)|
  {
    SubsetSize(Cmd1Pairs(frames[..k]), Cmd1Pairs(frames));
    SubsetSize(Cmd2Pairs(frames[..k]), Cmd2Pairs(frames));
  }

  lemma {:induction false} SubsetSize(a: set<Pair>, b: set<Pair>)
    requires a <= b
    ensures |a| <= |b|
    decreases |a|
  {
    if a != {} {
      var x :| x in a;
      SubsetSize(a - {x}, b - {x});
    }
  }

  /** The shortest ready prefix, if the whole is ready. */
  lemma {:induction false} FirstReady(frames: seq<Frame>, k: nat, minCmd1: nat, minCmd2: nat, minValid: nat) returns (j: nat)
    requires 0 < k <= |frames| && Ready(frames[..k], minCmd1, minCmd2, minValid)
    ensures 0 < j <= k && Ready(frames[..j], minCmd1, minCmd2, minValid)
    ensures forall i :: 0 < i < j ==> !Ready(frames[..i], minCmd1, minCmd2, minValid)
  {
    hide Ready;
    j := 1;
    while !Ready(frames[..j], minCmd1, minCmd2, minValid)
      invariant 0 < j <= k
      invariant forall i :: 0 < i < j ==> !Ready(frames[..i], minCmd1, minCmd2, minValid)
      decreases k - j
    {
      j := j + 1;
    }
  }

  /**
    Sound and complete: packets that one set of constants explains, in any order and with any repeats, teach both learners
    exactly those constants once the thresholds are met, and nothing before.
   */
  lemma ConstantsAreLearned(frames: seq<Frame>, ecc: EccProfile)
    requires OffTheAir(frames) && OneRemote(frames) && AllLegacy(frames)
    requires Nibbles(ecc) && Explains(frames, ecc)
    ensures var session := DeriveLearnResult(ReceivedAll(NEW_SESSION, frames));
            if ReadyByDefault(frames) then session.Some? && session.value.outcome == Learned(LegacyLesson(ecc)) else session.None?
    ensures LearnFrom(NO_TALLY, frames, MIN_UNIQUE_CMD1_SAMPLES, MIN_UNIQUE_CMD2_SAMPLES, MIN_VALID_PACKETS).outcome
         == if ReadyByDefault(frames) then Learned(LegacyLesson(ecc)) else Failure(Timeout)
  {
    hide Derive, DeriveLearnResult, LegacyOutcome, LearnFrom, Frame.FitsWire, Frame.WellFormed, Ready, ReceivedAll;
    hide Err1For, Err2For, Nibbles;
    SessionVerdict(frames);
    NothingTallied();
    assert frames[..0] == [] && frames[0..] == frames && frames[..|frames|] == frames;
    if ReadyByDefault(frames) {
      SomethingReady(frames);
      OutcomeMeaning(frames);
      var k := FirstReady(frames, |frames|, MIN_UNIQUE_CMD1_SAMPLES, MIN_UNIQUE_CMD2_SAMPLES, MIN_VALID_PACKETS);
      OneShotVerdict(frames, 0, k, MIN_UNIQUE_CMD1_SAMPLES, MIN_UNIQUE_CMD2_SAMPLES, MIN_VALID_PACKETS);
      OutcomeMeaning(frames[..k]);
    } else {
      forall j | 0 < j <= |frames|
        ensures !Ready(frames[..j], MIN_UNIQUE_CMD1_SAMPLES, MIN_UNIQUE_CMD2_SAMPLES, MIN_VALID_PACKETS)
      {
        if Ready(frames[..j], MIN_UNIQUE_CMD1_SAMPLES, MIN_UNIQUE_CMD2_SAMPLES, MIN_VALID_PACKETS) {
          ReadyGrows(frames, j);
        }
      }
      OneShotTimesOut(frames, 0, MIN_UNIQUE_CMD1_SAMPLES, MIN_UNIQUE_CMD2_SAMPLES, MIN_VALID_PACKETS);
    }
  }

  lemma SomethingReady(frames: seq<Frame>)
    requires ReadyByDefault(frames)
    ensures frames != []
  {}

  lemma ReadyGrows(frames: seq<Frame>, k: nat)
    requires k <= |frames| && ReadyByDefault(frames[..k])
    ensures ReadyByDefault(frames)
  {
    PrefixIsSmaller(frames, k);
  }

  /** Every frame a profile encodes is off the air of one legacy remote and explained by its constants. */
  lemma EncodedFrameIsExplained(s: State, serialId: int, ecc: EccProfile, allowPowerOffFlame: bool)
    requires 0 <= serialId < 0x100_0000 && EncodeState(s, Legacy(serialId, ecc), allowPowerOffFlame).Ok?
    ensures var f := EncodeState(s, Legacy(serialId, ecc), allowPowerOffFlame).value;
            OffTheAir([f]) && AllLegacy([f]) && Explains([f], ecc) && f.serialId == serialId
  {
    hide LowByte, ValueOf, BuildCmd1, BuildCmd2, Err1For, Err2For, TransmitError;
    var cmd1, cmd2 := BuildCmd1(s), BuildCmd2(s);
    LowByteOfByte(cmd1);
    LowByteOfByte(cmd2);
    LowByteOfByte(Err1For(cmd1, ecc));
    LowByteOfByte(Err2For(cmd2, ecc));
  }

  /** What is learned decodes every frame it was learned from, with its own serial. */
  lemma LearnedProfileDecodes(frames: seq<Frame>, ecc: EccProfile, f: Frame)
    requires OffTheAir(frames) && AllLegacy(frames) && f in frames
    ensures Explains(frames, ecc) ==> DecodeState(f, Legacy(f.serialId, ecc)) == StateFromFrame(f)
  {
    hide LowByte, ValueOf, Err1For, Err2For, StateFromFrame;
    if Explains(frames, ecc) {
      ByteField(f.err1, Err1For(LowByte(f.cmd1), ecc));
      ByteField(f.err2, Err2For(LowByte(f.cmd2), ecc));
    }
  }

  /** It sends one of them back word for word exactly when its state may be sent and its first command has no bit outside it. */
  lemma LearnedProfileResends(frames: seq<Frame>, ecc: EccProfile, f: Frame, allowPowerOffFlame: bool)
    requires OffTheAir(frames) && AllLegacy(frames) && Explains(frames, ecc) && f in frames && StateFromFrame(f).Ok?
    ensures EncodeState(StateFromFrame(f).value, Legacy(f.serialId, ecc), allowPowerOffFlame) == Ok(f)
       <==> TransmitError(StateFromFrame(f).value, false, allowPowerOffFlame).None? && LowByte(f.cmd1) & 0x0C == 0
  {
    hide LowByte, EncodeState, DecodeState, TransmitError, StateFromFrame, Explains;
    LearnedProfileDecodes(frames, ecc, f);
    FrameRoundTrip(f, Legacy(f.serialId, ecc), allowPowerOffFlame);
  }

  // ----- Ten-word remotes -----

  ghost predicate AllTenWord(frames: seq<Frame>) { forall f :: f in frames ==> f.IsExtended() }

  /** The power is on and the thermostat off. */
  predicate Manual(f: Frame) { StateOfFrame(f).power && !StateOfFrame(f).thermostat }

  lemma ManualIff(f: Frame)
    ensures IsManual(f) <==> Manual(f)
  {
    hide ValueOf, LowByte;
    TwoLowBits(LowByte(f.cmd1));
  }

  lemma TwoLowBits(b: bv8)
    ensures b & 0x03 == 0x01 <==> b & 0x01 != 0 && b & 0x02 == 0
  {}

  /** The manual frames all have the fixed fields of the template; W7 is a constant. */
  ghost predicate FixedFields(frames: seq<Frame>, t: Template) {
    forall f :: f in frames && Manual(f) ==> TemplateOf(f) == t
  }

  /** Two manual frames differ in a field that the template fixes. */
  ghost predicate FieldsConflict(frames: seq<Frame>) {
    exists f, g :: f in frames && g in frames && Manual(f) && Manual(g) && TemplateOf(f) != TemplateOf(g)
  }

  /** Three different frames, and manual ones with two different state words. */
  predicate TenWordReady(frames: seq<Frame>) {
    |set f | f in frames| >= 3 && |set f | f in frames && Manual(f) :: f.cmd2| >= 2
  }

  lemma {:induction false} DistinctSize(packets: seq<Frame>)
    requires Distinct(packets)
    ensures |set f | f in packets| == |packets|
  {
    hide Frame.WireWords;
    if packets != [] {
      var n := |packets| - 1;
      DistinctSize(packets[..n]);
      Split(packets);
      assert packets[n] !in packets[..n];
      assert (set f | f in packets) == (set f | f in packets[..n]) + {packets[n]};
    }
  }

  lemma {:induction false} W5sAreFewer(frames: seq<Frame>)
    ensures |W5s(frames)| <= |frames|
  {
    if frames != [] {
      var n := |frames| - 1;
      W5sAreFewer(frames[..n]);
      Split(frames);
      assert W5s(frames) == W5s(frames[..n]) + {frames[n].cmd2};
    }
  }

  lemma SingletonIff<T>(s: set<T>, x: T)
    requires x in s
    ensures |s| == 1 <==> forall y :: y in s ==> y == x
  {
    if forall y :: y in s ==> y == x {
      assert s == {x};
    }
    if |s| == 1 {
      assert |s - {x}| == 0;
    }
  }

  lemma OneBase(manual: seq<Frame>)
    requires manual != []
    ensures |Bases(manual)| == 1 <==> forall f :: f in manual ==> LowByte(f.cmd1) & 0x80 == LowByte(manual[0].cmd1) & 0x80
  {
    hide LowByte;
    assert manual[0] in manual;
    SingletonIff(Bases(manual), LowByte(manual[0].cmd1) & 0x80);
    forall f | f in manual ensures LowByte(f.cmd1) & 0x80 in Bases(manual) {}
  }

  lemma OneW6(manual: seq<Frame>)
    requires manual != []
    ensures |W6s(manual)| == 1 <==> forall f :: f in manual ==> f.err1 == manual[0].err1
  {
    assert manual[0] in manual;
    SingletonIff(W6s(manual), manual[0].err1);
    forall f | f in manual ensures f.err1 in W6s(manual) {}
  }

  lemma OneW8(manual: seq<Frame>)
    requires manual != []
    ensures |W8s(manual)| == 1 <==> forall f :: f in manual ==> Word8(f) == Word8(manual[0])
  {
    hide Word8;
    assert manual[0] in manual;
    SingletonIff(W8s(manual), Word8(manual[0]));
    forall f | f in manual ensures Word8(f) in W8s(manual) {}
  }

  /** The three singleton tests together say that all frames agree with the first. */
  predicate OneTemplate(manual: seq<Frame>) { |Bases(manual)| == 1 && |W6s(manual)| == 1 && |W8s(manual)| == 1 }

  lemma TemplateTest(manual: seq<Frame>)
    requires manual != [] && OffTheAir(manual)
    ensures OneTemplate(manual) <==> forall f :: f in manual ==> TemplateOf(f) == TemplateOf(manual[0])
  {
    hide LowByte, Bases, W6s, W8s, Word8, Frame.WellFormed;
    OneBase(manual);
    OneW6(manual);
    OneW8(manual);
    assert manual[0] in manual;
    forall f | f in manual ensures f.err1 == manual[0].err1 <==> LowByte(f.err1) == LowByte(manual[0].err1) {
      SameByte(f.err1, manual[0].err1);
    }
    if OneTemplate(manual) {
      forall f | f in manual ensures TemplateOf(f) == TemplateOf(manual[0]) {}
    }
    if forall f :: f in manual ==> TemplateOf(f) == TemplateOf(manual[0]) {
      forall f | f in manual
        ensures LowByte(f.cmd1) & 0x80 == LowByte(manual[0].cmd1) & 0x80 && f.err1 == manual[0].err1 && Word8(f) == Word8(manual[0])
      {
        assert TemplateOf(f) == TemplateOf(manual[0]);
      }
    }
  }

  /** A mixture of the two frame formats is always a contradiction. */
  lemma MixtureIsContradictory(frames: seq<Frame>, legacy: Frame, extended: Frame)
    requires OffTheAir(frames) && OneRemote(frames)
    requires legacy in frames && !legacy.IsExtended() && extended in frames && extended.IsExtended()
    ensures DeriveLearnResult(ReceivedAll(NEW_SESSION, frames))
         == Some(LearnResult(Failure(ContradictoryProfile), Some(frames[0].serialId), |frames|, |frames|, None))
  {
    hide Filter, Frame.FitsWire, Frame.WellFormed, ReceivedAll, Distinct, Derive;
    SessionKeepsAll(frames);
    var packets := ReceivedAll(NEW_SESSION, frames).packets;
    var kept := Filter(packets, IsTenWord);
    assert extended in packets && legacy in packets;
    assert IsTenWord(extended) && !IsTenWord(legacy);
  }

  lemma ManualWords(manual: seq<Frame>, frames: seq<Frame>)
    requires forall f :: f in manual <==> f in frames && IsManual(f)
    ensures W5s(manual) == set f | f in frames && Manual(f) :: f.cmd2
  {
    hide Manual, IsManual;
    forall f ensures IsManual(f) <==> Manual(f) { ManualIff(f); }
  }

  lemma TenWordDerivation(frames: seq<Frame>)
    requires OffTheAir(frames) && OneRemote(frames) && AllTenWord(frames) && frames != []
    ensures var s := ReceivedAll(NEW_SESSION, frames);
            var manual := Filter(s.packets, IsManual);
            var result := DeriveLearnResult(s);
            && (forall f :: f in manual <==> f in frames && IsManual(f))
            && (result.None? <==> !TenWordReady(frames))
            && (result.Some? ==>
                  && manual != []
                  && result.value.outcome == if OneTemplate(manual) then Learned(TenWordLesson(TemplateOf(manual[0])))
                                             else Failure(ContradictoryProfile))
  {
    hide Filter, Frame.FitsWire, Frame.WellFormed, ReceivedAll, Distinct, Derive, LowByte;
    var s := ReceivedAll(NEW_SESSION, frames);
    SessionKeepsAll(frames);
    DistinctSize(s.packets);
    assert (set f | f in s.packets) == (set f | f in frames);
    assert frames[0] in frames;
    forall f | f in s.packets ensures IsTenWord(f) {}
    var manual := Filter(s.packets, IsManual);
    W5sAreFewer(manual);
    ManualWords(manual, frames);
    hide Manual, W5s;
    assert manual == [] || manual[0] in manual;
  }

  /**
    A session that heard one ten-word remote learns a template exactly when it is ready and all its manual frames have the
    template's fields; it is a contradiction exactly when it is ready and two of them differ in one.
   */
  lemma TenWordLearnedIff(frames: seq<Frame>, t: Template)
    requires OffTheAir(frames) && OneRemote(frames) && AllTenWord(frames) && frames != []
    ensures var result := DeriveLearnResult(ReceivedAll(NEW_SESSION, frames));
            && (result.None? <==> !TenWordReady(frames))
            && (result.Some? && result.value.outcome == Learned(TenWordLesson(t)) <==> TenWordReady(frames) && FixedFields(frames, t))
            && (result.Some? && result.value.outcome == Failure(ContradictoryProfile) <==> TenWordReady(frames) && FieldsConflict(frames))
  {
    hide DeriveLearnResult, ReceivedAll, TenWordReady, Filter, TemplateOf, OneTemplate, IsManual, Frame.FitsWire, Frame.WellFormed;
    TenWordDerivation(frames);
    forall f ensures IsManual(f) <==> Manual(f) { ManualIff(f); }
    hide Manual;
    if TenWordReady(frames) {
      var manual := Filter(ReceivedAll(NEW_SESSION, frames).packets, IsManual);
      TemplateTest(manual);
      assert manual[0] in manual;
    }
  }

  lemma SameByte(a: int, b: int)
    requires 0 <= a < 0x100 && 0 <= b < 0x100
    ensures a == b <==> LowByte(a) == LowByte(b)
  {
    hide LowByte, ValueOf;
    ByteField(a, LowByte(b));
    ByteField(b, LowByte(b));
  }

  /**
    A ten-word profile learned from manual frames sends one of them back word for word exactly when its W7 was the assumed
    constant and its first command has no bit outside the state.
   */
  lemma LearnedTemplateResends(frames: seq<Frame>, t: Template, f: Frame, allowPowerOffFlame: bool)
    requires OffTheAir(frames) && AllTenWord(frames) && FixedFields(frames, t) && f in frames && Manual(f)
    requires IntegrityMatches(f.WireWords()) && StateFromFrame(f).Ok?
    ensures EncodeState(StateFromFrame(f).value, TenWord(f.serialId, t), allowPowerOffFlame) == Ok(f)
       <==> LowByte(f.err2) == 0xC8 && LowByte(f.cmd1) & 0x0C == 0
  {
    hide LowByte, EncodeState, IntegrityMatches, Frame.WireWords;
    FrameRoundTrip(f, TenWord(f.serialId, t), allowPowerOffFlame);
  }

  // ----- The one-shot learner on ten-word remotes -----

  function Bare(f: Frame): Frame { f.(extension := []) }

  /** The one-shot learner has no format check: extension words make no difference to it. */
  lemma {:induction false} OneShotIgnoresExtensions(t: Tally, a: seq<Frame>, b: seq<Frame>, minCmd1: nat, minCmd2: nat, minValid: nat)
    requires |a| == |b| && forall i :: 0 <= i < |a| ==> Bare(a[i]) == Bare(b[i])
    ensures LearnFrom(t, a, minCmd1, minCmd2, minValid) == LearnFrom(t, b, minCmd1, minCmd2, minValid)
    decreases |a|
  {
    hide Derive;
    if a != [] {
      assert Bare(a[0]) == Bare(b[0]);
      forall u: Tally ensures LearnFrom(u, a[1..], minCmd1, minCmd2, minValid) == LearnFrom(u, b[1..], minCmd1, minCmd2, minValid) {
        OneShotIgnoresExtensions(u, a[1..], b[1..], minCmd1, minCmd2, minValid);
      }
    }
  }

  function Widened(frames: seq<Frame>, extension: seq<bv8>): (wide: seq<Frame>)
    ensures |wide| == |frames| && forall i :: 0 <= i < |wide| ==> wide[i] == frames[i].(extension := extension)
  {
    seq(|frames|, i requires 0 <= i < |frames| => frames[i].(extension := extension))
  }

  /** So it learns legacy constants from ten-word packets: exactly those that explain the packets without their extensions. */
  lemma OneShotMistakesTenWord(frames: seq<Frame>, extension: seq<bv8>, ecc: EccProfile)
    requires OffTheAir(frames) && OneRemote(frames) && AllLegacy(frames) && |extension| == 3
    requires Nibbles(ecc) && Explains(frames, ecc) && ReadyByDefault(frames)
    ensures OffTheAir(Widened(frames, extension)) && AllTenWord(Widened(frames, extension))
    ensures LearnFrom(NO_TALLY, Widened(frames, extension), MIN_UNIQUE_CMD1_SAMPLES, MIN_UNIQUE_CMD2_SAMPLES, MIN_VALID_PACKETS).outcome
         == Learned(LegacyLesson(ecc))
  {
    hide LearnFrom, Explains, Nibbles, Ready;
    var wide := Widened(frames, extension);
    forall f | f in wide ensures f.WellFormed() && f.FitsWire() && f.IsExtended() {
      var i :| 0 <= i < |wide| && wide[i] == f;
      assert frames[i] in frames;
    }
    ConstantsAreLearned(frames, ecc);
    OneShotIgnoresExtensions(NO_TALLY, wide, frames, MIN_UNIQUE_CMD1_SAMPLES, MIN_UNIQUE_CMD2_SAMPLES, MIN_VALID_PACKETS);
  }

  /** An extension, the same for all packets that the constants explain. */
  function CheckedExtension(ecc: EccProfile, w8: bv8): seq<bv8> {
    var cd1, cd2 := CombineCd(ecc.c1, ecc.d1), CombineCd(ecc.c2, ecc.d2);
    [w8, Xor(T(cd2), 0x23), Xor(T(Xor(T(cd1), w8)), 0x65)]
  }

  lemma ErrCancels(command: bv8, c: bv8, d: bv8)
    ensures Xor(T(command), BuildErrByte(command, c, d)) == CombineCd(c, d)
  {
    hide BuildErrByte, T, Xor, CombineCd;
    ErrByteIsAffine(command, c, d);
    XorLaws(T(command), CombineCd(c, d), BuildErrByte(command, c, d), 0);
    XorLaws(T(command), BuildErrByte(command, c, d), CombineCd(c, d), 0);
    XorAssoc(CombineCd(c, d), T(command), 0);
  }

  lemma CheckedFrame(f: Frame, ecc: EccProfile, w8: bv8)
    requires !f.IsExtended() && Explains([f], ecc)
    ensures IntegrityMatches(f.(extension := CheckedExtension(ecc, w8)).WireWords())
  {
    hide BuildErrByte, T, Xor, CombineCd, LowByte, Lane;
    assert f in [f];
    var words := f.(extension := CheckedExtension(ecc, w8)).WireWords();
    ErrCancels(words[3], ecc.c1, ecc.d1);
    ErrCancels(words[4], ecc.c2, ecc.d2);
    LaneOfPair(words[4], words[6]);
    LaneOfTriple(words[3], words[5], words[7]);
  }

  /** With it the scanner accepts every one of them, so the mistaken packets can be received. */
  lemma MistakenPacketsAreReceivable(frames: seq<Frame>, ecc: EccProfile, w8: bv8)
    requires AllLegacy(frames) && Explains(frames, ecc)
    ensures |CheckedExtension(ecc, w8)| == 3
    ensures forall f :: f in Widened(frames, CheckedExtension(ecc, w8)) ==> IntegrityMatches(f.WireWords())
  {
    hide CheckedExtension, IntegrityMatches, Frame.WireWords, LowByte, Err1For, Err2For;
    var wide := Widened(frames, CheckedExtension(ecc, w8));
    forall f | f in wide ensures IntegrityMatches(f.WireWords()) {
      var i :| 0 <= i < |wide| && wide[i] == f;
      assert frames[i] in frames;
      CheckedFrame(frames[i], ecc, w8);
    }
    ThreeWords(ecc, w8);
  }

  lemma ThreeWords(ecc: EccProfile, w8: bv8)
    ensures |CheckedExtension(ecc, w8)| == 3
  {}

  /**
    On a ten-word remote the one-shot learner stops at its first ready prefix with a contradiction or with legacy constants,
    which decode none of the packets; it agrees with a session that answers only when both report a contradiction.
   */
  lemma LearnersOnTenWord(frames: seq<Frame>, k: nat)
    requires OffTheAir(frames) && OneRemote(frames) && AllTenWord(frames) && 0 < k <= |frames|
    requires ReadyByDefault(frames[..k]) && forall j :: 0 < j < k ==> !ReadyByDefault(frames[..j])
    ensures var oneShot := LearnFrom(NO_TALLY, frames, MIN_UNIQUE_CMD1_SAMPLES, MIN_UNIQUE_CMD2_SAMPLES, MIN_VALID_PACKETS).outcome;
            var session := DeriveLearnResult(ReceivedAll(NEW_SESSION, frames));
            && (oneShot == Failure(ContradictoryProfile) <==> Conflict(frames[..k]))
            && (oneShot.Learned? ==>
                  && oneShot.lesson.LegacyLesson?
                  && forall f :: f in frames ==> DecodeState(f, Legacy(f.serialId, oneShot.lesson.ecc)) == Err(WrongVariant))
            && (session.Some? ==> (session.value.outcome == oneShot <==> FieldsConflict(frames) && Conflict(frames[..k])))
  {
    hide Derive, DeriveLearnResult, LegacyOutcome, LearnFrom, Frame.FitsWire, Frame.WellFormed, Ready, ReceivedAll, Conflict;
    hide FixedFields, FieldsConflict, TenWordReady, Explains, Nibbles;
    OneShotVerdict(frames, 0, k, MIN_UNIQUE_CMD1_SAMPLES, MIN_UNIQUE_CMD2_SAMPLES, MIN_VALID_PACKETS);
    NothingTallied();
    assert frames[..0] == [] && frames[0..] == frames;
    OutcomeMeaning(frames[..k]);
    OutcomeIsLegacy(frames[..k]);
    var session := DeriveLearnResult(ReceivedAll(NEW_SESSION, frames));
    SessionOutcomeIsTenWord(frames);
    TenWordLearnedIff(frames, Template(0, 0, 0, 0));
  }

  lemma OutcomeIsLegacy(frames: seq<Frame>)
    ensures LegacyOutcome(frames).Learned? ==> LegacyOutcome(frames).lesson.LegacyLesson?
    ensures LegacyOutcome(frames).Learned? || LegacyOutcome(frames) == Failure(ContradictoryProfile)
  {
    hide Derive;
  }

  lemma SessionOutcomeIsTenWord(frames: seq<Frame>)
    requires OffTheAir(frames) && OneRemote(frames) && AllTenWord(frames) && frames != []
    ensures var result := DeriveLearnResult(ReceivedAll(NEW_SESSION, frames));
            result.Some? ==>
              || result.value.outcome == Failure(ContradictoryProfile)
              || (result.value.outcome.Learned? && result.value.outcome.lesson.TenWordLesson?)
  {
    hide DeriveLearnResult, ReceivedAll, Filter, OneTemplate, TemplateOf, TenWordReady;
    TenWordDerivation(frames);
  }
}
