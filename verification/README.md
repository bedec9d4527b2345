# A Dafny model of Proflame2 remote control

A Proflame2 handheld remote talks to a fireplace by on-off keyed radio frames of seven words, or ten in a newer variant. The
integration prints frames as symbols, Manchester bits and repeated bursts, searches noisy receptions for frames, learns a remote's
hidden constants from its packets, and turns a user's edits into debounced sends. This project models that logic and proves
properties of it for all inputs, all receptions and all runs.

## The modules

| module | what it models |
|---|---|
| `Wrappers`, `Bytes` | option and result types; bytes as bits and as numbers |
| `Packet`, `StateCodec` | frames and their word orders; fireplace states, command bytes, encoding and decoding with a profile |
| `Ecc` | Err bytes, the integrity lanes of ten-word frames, derivation of the constants C and D |
| `Waveform` | symbols, words on the air, air bytes, transmission plans and repeated payloads |
| `Pulse`, `PulseScan`, `PulseStream`, `PulseBurst` | the pulse receiver: word parser, scan of arbitrary rows, rows of frames and silences, jittered bursts |
| `Capture`, `CaptureScan`, `CaptureStream` | the FIFO receiver: window test, scan and ranking, what it makes of transmitted payloads |
| `EndToEnd` | state to state, and edit to receiver, over the air |
| `KnownFrames` | reference values from the repository's tests, which anchor the bit layouts |
| `Gf2`, `AffineFit`, `MinimalInputs`, `Crc8` | elimination over GF(2), the rank test for affine fits, minimal input sets, CRC-8 |
| `RepeatPattern` | repeat detection in code lists |
| `FirmwareDecoder`, `DuplicateFilter`, `Listener` | the firmware's own FIFO decoder; its duplicate suppression with 32-bit ticks; both together on a payload |
| `Control`, `Runtime` | staging of edits, the fields of a live entry stretch by stretch, saving and starting |
| `RuntimeRuns`, `RuntimeView`, `RuntimeOverlap`, `RuntimeHistory` | all runs of an entry and what they keep; what an entry shows its user; edits during a send; what status, confidence, error and applied profile say about the past |
| `Learning`, `LearningResults` | the guided session, its derivation, and the one-shot learner |

Code that loops and updates is a method with invariants, proved against a specification; the properties are then lemmas about the
specification. Objects that update their fields are classes: `RuntimeEntry`, `LearnSession` and `ActiveListenerController`, whose
methods state their whole new state through a step function. Bit rows are `seq<bool>`, bytes `bv8`, integers used as bit vectors
over GF(2) are the sets of their one-bits, and the scalar fields of a frame are unbounded integers that the wire masks.

The runtime is a state machine with one step for each stretch of code between two awaits, so a run may interleave any edits, timers,
service calls, overlapping sends, observations and a shutdown. `World.actual` is a ghost of the run, not of the code: the state last
commanded over the air or observed.

## Findings

- The FIFO scan's repeat count is not the number of physical repeats: one window at bit p is met min(p/2, 3) + 1 times, and the
  default burst of n copies counts 1 + 4(n - 2). Its "unknown" symbol never occurs, since the table covers all four bit pairs.
- The FIFO scan raises when a frame that passes the window test has an unobservable state; that is the exact condition.
- A single legacy frame needs eighteen low bits after it, or a row that ends one bit short, to be seen by the pulse scan. In the
  default burst only the last copy is.
- The ambiguous branches of constant derivation and of both learners, and the return after the loop of the repeat detector, are
  never taken.
- The one-shot learner does not look at the frame format. From ten-word packets that pass their integrity check it can learn legacy
  constants that decode none of them.
- The desired state is cleared when a send ends, whatever it is by then. Without failures an edit staged during a send
  therefore survives if and only if its debounce fires before any send ends and its own send does not succeed before the one it
  overlaps, or it asked for the state being sent. The fold of edits is proved for runs in which edits do not
  overlap sends; all runs refine the view.
- A service call that is cancelled while it stops the receiver has already cancelled the timer of a staged edit, and nothing clears or
  sends that edit: it is shown, but neither a timer nor a send stands behind it. Only cancelling the last send outside its backend call
  strands a staged state.
- The sending flag implies a send in its backend call. The converse fails exactly when one send succeeds, fails or cannot begin while
  another is in its call, which two service calls can bring about.
- A failed status comes with an error except after a send that succeeds while the failure is shown: of two overlapping calls the first
  fails and the second succeeds, and the entry shows a failure without a reason until the send is settled.
- A restored frame of a ten-word remote cannot give back a CPI flag that was requested: ten-word frames have no such field. After a
  restart a profile with CPI is therefore still marked as applied although the known state lacks the flag, until the next observation
  or successful send.
- A profile whose serial number does not fit 24 bits encodes, but its frames are refused when decoded.
- Light level 7 may be observed, but no edit that keeps it with power on can be staged.
- When it rejects, the firmware's decoder gives a wrong serial as the reason if one foreign frame is present, also when a refused frame of
  its own remote is there too, which it shows and marks as matched. Its reason for an unmatched candidate is never given.
- A packet accepted when the tick counter is zero is never suppressed as a duplicate.
- The learned ten-word template assumes W7 = 0xC8 whatever the frames carried, so it resends a learned frame exactly only for that W7.
- Packing symbols into bytes inserts silence before, not after, a partial last byte; only the silence at the end of a frame keeps this
  harmless.

## Model

| member | source | states |
|---|---|---|
| `Packet.WordsSurviveFrame` | custom_components/proflame2/protocol/packet.py:38-51 | seven or ten decoded words, made into a frame, are transmitted as exactly those words again |
| `Packet.FrameSurvivesWords` | custom_components/proflame2/protocol/packet.py:16-51 | a frame read back from its wire words is the frame with every scalar masked to its width, so the same frame if and only if its fields fit |
| `Packet.FrameSurvivesBytes` | custom_components/proflame2/protocol/packet.py:53-66 | the seven canonical bytes return a frame unchanged if and only if it is legacy and its fields fit |
| `Packet.BytesSurviveFrame` | custom_components/proflame2/protocol/packet.py:68-80 | parsing succeeds exactly on seven bytes, and those bytes come back |
| `Waveform.FrameToSymbolString` | custom_components/proflame2/rf/waveform.py:168-182 | the loop builds sync, guard, nine data bits, parity and end guard for every word, then nine silent symbols |
| `Waveform.AirBytesToSymbols` | custom_components/proflame2/rf/waveform.py:185-199 | never raises: every bit pair is in the symbol table and bytes have an even number of bits |
| `Waveform.WordParse` | custom_components/proflame2/rf/pulse.py:182-202 | thirteen symbols pass the word checks if and only if they are the printed form of a byte, and that byte is the one read off |
| `Waveform.WordsSymbolsAt` | custom_components/proflame2/rf/waveform.py:176-180 | word k of a frame is symbols 13k to 13k+13, and only word 0 has trailing bit 1 |
| `Waveform.BitsSurviveBytes` | custom_components/proflame2/rf/waveform.py:202-206 | packing bits into bytes and unpacking inserts leading zeros in a partial last byte and changes nothing else |
| `Waveform.BytesSurviveBits` | custom_components/proflame2/rf/waveform.py:185-206 | unpacking bytes and packing them again is the identity |
| `Waveform.SymbolsSurviveBytes` | custom_components/proflame2/rf/waveform.py:185-206 | symbols to bytes to symbols is the identity if and only if they fill whole bytes; otherwise silence is inserted before the last partial byte |
| `Waveform.PlanCarriesFrameBits` | custom_components/proflame2/rf/waveform.py:98-114 | the plan's declared bit length is 26 bits a word, and its bytes begin with exactly the frame's bits |
| `Waveform.RepeatedPayloadOf` | custom_components/proflame2/rf/waveform.py:132-165 | for any plan: the repeated payload exists if and only if the count is positive, the separator not negative and the declared length available; which error it is otherwise; and its bits |
| `Waveform.RepeatedPayloadBits` | custom_components/proflame2/rf/waveform.py:132-165 | for a frame's own plan it exists exactly for a positive count, five by default, and a non-negative separator, and is the copies joined by the separator plus less than a byte of zeros |
| `KnownFrames.WordLayout` | custom_components/proflame2/rf/waveform.py:176-182 | bit by bit, a word on the air: sync, start guard, then each data, trailing, parity and end-guard bit followed by its complement |
| `KnownFrames.KnownFirstWord` | tests/test_send.py:85-93 | the first word of the captured low-state payload has the bits that the repository pins |
| `KnownFrames.KnownNextWord` | tests/test_send.py:85-93 | so has its second word, which has trailing bit 0 |
| `KnownFrames.KnownFrame` | tests/test_send.py:67-74 | the low state of the known remote encodes to the pinned seven bytes |
| `KnownFrames.KnownCommands` | tests/test_encoder.py:37-38 | the pinned command bytes of a state that uses most fields |
| `KnownFrames.KnownConstants` | tests/test_ecc.py:38-39 | the pinned pairs derive the constants of the known remote |
| `KnownFrames.KnownTenWordFrame` | tests/test_issue_15_extended_protocol.py:93-94 | the pinned ten-word frame passes its integrity check |
| `Ecc.TransformAlgebra` | custom_components/proflame2/protocol/ecc.py:45-75 | the constant-free transform is the GF(2)-linear bijection that takes the eight single bits to 0x21, 0x42, 0x84, 0x08, 0x31, 0x62, 0xC4 and 0x88, with an explicit inverse |
| `Ecc.ErrBits` | custom_components/proflame2/protocol/ecc.py:45-75 | each bit of the Err byte is the sum of one bit of C or D and of one to three bits of the command, for every command and every C and D |
| `Ecc.ErrByteIsAffine` | custom_components/proflame2/protocol/ecc.py:45-75 | the Err byte is the transform of the command XOR the combined C/D byte |
| `Ecc.BuildExtendedIntegrityByte` | custom_components/proflame2/protocol/ecc.py:77-89 | the loop computes the chained lane of the values, then the final XOR, for any number of values |
| `Ecc.LaneLinear` | custom_components/proflame2/protocol/ecc.py:77-89 | the lane of the XOR of two equally long lists is the XOR of their lanes |
| `Ecc.OneChangeIsDetected` | custom_components/proflame2/protocol/ecc.py:77-89 | changing exactly one value of a list of any length changes the lane |
| `Ecc.TwoChangesCancelIff` | custom_components/proflame2/protocol/ecc.py:77-89 | two changed values leave the lane unchanged if and only if their powers of the transform coincide |
| `Ecc.GeneratedWordsAreTheOnlyMatch` | custom_components/proflame2/protocol/ecc.py:91-114 | for every W1 to W8 exactly one pair W9, W10 passes the check, the generated one |
| `Ecc.OneWordErrorIsRejected` | custom_components/proflame2/protocol/ecc.py:91-105 | an error confined to one of W4 to W10 of a valid frame is always rejected |
| `Ecc.UndetectedErrors` | custom_components/proflame2/protocol/ecc.py:91-105 | the errors that a valid frame hides are exactly the solutions of two linear equations |
| `Ecc.BruteForceIsClosedForm` | custom_components/proflame2/protocol/ecc.py:134-157 | the search over 256 bytes finds exactly one candidate, err XOR T(command) |
| `Ecc.StableCdIff` | custom_components/proflame2/protocol/ecc.py:177-199 | derivation from samples returns cd if and only if there is a sample and all imply cd; it is contradictory if and only if two disagree; the ambiguous branch is never taken |
| `Ecc.ProfileDerivedIff` | custom_components/proflame2/protocol/ecc.py:202-225 | the profile found is the only one that reproduces the Err byte of every sample, and is found whenever one exists |
| `StateCodec.Cmd1Fields` | custom_components/proflame2/protocol/encoder.py:10-18 | power, thermostat, light and CPI sit in their documented bits of the first command |
| `StateCodec.Cmd2Fields` | custom_components/proflame2/protocol/encoder.py:21-29 | flame, aux, fan and front sit in theirs of the second |
| `StateCodec.CommandsHoldState` | custom_components/proflame2/protocol/packet.py:151-172 | reading the two commands of a state in range gives the state back |
| `StateCodec.StateHoldsCommands` | custom_components/proflame2/protocol/packet.py:159-170 | writing the state read from any two commands keeps the second, and of the first exactly the bits that hold state |
| `StateCodec.TransmittableIsObservable` | custom_components/proflame2/protocol/models.py:87-133 | whatever the transmit rules allow, the observation rules accept |
| `StateCodec.TransmitIff` | custom_components/proflame2/protocol/models.py:87-112 | which states may be sent, in numbers, and which rule the others violate first |
| `StateCodec.ObservedIsTransmittable` | custom_components/proflame2/protocol/models.py:87-133 | the rules for received states are those for sending with a flame allowed while power is off |
| `StateCodec.DecodeIff` | custom_components/proflame2/protocol/decoder.py:10-35 | a profile decodes exactly the frames of its variant and serial with the right check bytes and an observable state; for the others the error is that of the variant, else of the check bytes, else of the serial |
| `StateCodec.EncodedStateBytes` | custom_components/proflame2/runtime.py:248-260 | the state read back from an encoded frame is the encoded one, but for CPI in the ten-word variant |
| `StateCodec.StateRoundTrip` | custom_components/proflame2/protocol/decoder.py:10-30 | for every state: encoding succeeds if and only if the transmit rules allow the state, and decoding then returns it, without CPI in the ten-word variant |
| `StateCodec.EncodedReads` | custom_components/proflame2/protocol/packet.py:151-172 | an encoded frame is read without any profile as its state, without CPI if it has ten words |
| `StateCodec.FrameRoundTrip` | custom_components/proflame2/protocol/encoder.py:32-67 | a decoded frame is encoded back word for word if and only if its state may be sent, two unused command bits are clear, and its template words are the profile's |
| `PulseBurst.PulseDurationsToBits` | custom_components/proflame2/rf/pulse.py:50-76 | raises if and only if the unit is not positive or some run cannot be measured, with the error of the first such run, in numbers; otherwise returns each run repeated for its rounded units |
| `PulseBurst.RunErrorIff` | custom_components/proflame2/rf/pulse.py:64-75 | a run is refused if and only if it is zero, shorter than half a unit, a high run that rounds to four units or more, or a low run that rounds to seventeen or more, each with its own error |
| `PulseBurst.UnitsWindow` | custom_components/proflame2/rf/pulse.py:69 | a duration counts as n units if and only if it lies in the half-open window around n units |
| `Pulse.CarriesIff` | custom_components/proflame2/rf/pulse.py:174-203 | a row carries words if and only if each word stands in its place, the first with trailing bit 1 |
| `Pulse.DecodeOneWord` | custom_components/proflame2/rf/pulse.py:176-202 | one word is read if and only if its symbols pass the checks, also when its last bit is missing |
| `Pulse.DecodeWords` | custom_components/proflame2/rf/pulse.py:169-203 | returns the words the row carries, allowing only the final low bit to be missing, and nothing if and only if it carries none |
| `PulseScan.LeadingZeroCount` | custom_components/proflame2/rf/pulse.py:214-220 | counts exactly the run of low bits |
| `PulseScan.SyncOnlyAtWordStart` | custom_components/proflame2/rf/pulse.py:182-183 | inside a word three high bits in a row occur only at its start |
| `PulseScan.FrameOnlyAtRunStart` | custom_components/proflame2/rf/pulse.py:196-202 | inside a run of words nothing that looks like a first word starts anywhere but at its front |
| `PulseScan.ScanAt` | custom_components/proflame2/rf/pulse.py:95-164 | one offset: the candidate reported there, or nothing if and only if nothing is there |
| `PulseScan.ScanRow` | custom_components/proflame2/rf/pulse.py:92-164 | for every row, the scan before de-duplication returns in order exactly the candidates whose transmitter bits and end condition the row holds |
| `PulseScan.DeduplicateCandidates` | custom_components/proflame2/rf/pulse.py:223-232 | keeps, in offset order, exactly the earliest candidate of each frame and format |
| `PulseScan.FindProflamePcmCandidates` | custom_components/proflame2/rf/pulse.py:89-166 | for every row, returns in order exactly the reported candidates that were not reported earlier with the same frame and format |
| `PulseScan.ReportedFramesAreDisjoint` | custom_components/proflame2/rf/pulse.py:95-164 | in any row, noise included, reported frames do not overlap each other or the silence counted as a gap; a truncated one is the last; offsets differ by at least 200 bits (legacy) or 270 (ten words) |
| `PulseScan.ReportedUnique` | custom_components/proflame2/rf/pulse.py:95-164 | at most one candidate is reported at an offset |
| `PulseScan.ReportedNotBoth` | custom_components/proflame2/rf/pulse.py:118-132 | a ten-word frame is never also reported as its first seven words |
| `PulseStream.StreamReports` | custom_components/proflame2/rf/pulse.py:89-164 | for every sequence of legacy and ten-word frames and silences, exactly the expected candidates are reported, none elsewhere |
| `PulseStream.ReceivedReports` | custom_components/proflame2/rf/pulse.py:93-117 | the same for whole received rows, with or without the final low bit |
| `PulseStream.GapDecides` | custom_components/proflame2/rf/pulse.py:106-160 | between two frames, one of seven words is reported if and only if at least eighteen low bits follow it, one of ten words if and only if at least ten follow it and its integrity holds |
| `PulseStream.LegacyNeverExtended` | custom_components/proflame2/rf/pulse.py:130-164 | a row of legacy frames with any silences never yields a ten-word candidate |
| `PulseBurst.FindProflamePulseCandidates` | custom_components/proflame2/rf/pulse.py:79-86 | from pulse durations: raises if and only if the unit or a run is bad, with the error of the first bad run, else the scan of the quantised row |
| `PulseBurst.StreamShortRuns` | custom_components/proflame2/rf/waveform.py:176-182 | a transmitted row with silences of at most 15 bits has no four high and no seventeen low bits in a row |
| `PulseBurst.RoundedRowQuantises` | custom_components/proflame2/rf/pulse.py:50-76 | in any unit, durations that round to the runs of a row without long runs quantise, without error, to exactly that row |
| `PulseBurst.MeasuredRowQuantises` | custom_components/proflame2/rf/pulse.py:50-76 | durations within half a unit of the runs of such a row quantise, without error, to exactly that row |
| `PulseBurst.LegacyBurstThroughJitter` | custom_components/proflame2/rf/pulse.py:89-232 | n jittered copies of a legacy frame give exactly one candidate, the last copy at 194(n-1) with a truncated guard |
| `PulseBurst.ExtendedBurstThroughJitter` | custom_components/proflame2/rf/pulse.py:89-232 | n >= 2 jittered copies of a ten-word frame give exactly two candidates, the first copy and the truncated last one, both with all ten words |
| `Capture.WordOfChunk` | custom_components/proflame2/rf/capture.py:458-517 | one chunk of the window: its nine-bit word, or the reason it is refused |
| `Capture.SampleFromSymbolWindow` | custom_components/proflame2/rf/capture.py:432-598 | a window is accepted if and only if it starts with the 91 printed symbols of a frame and at least four silent ones follow; the sample is that frame, and the guard is valid if and only if all nine are silent |
| `Capture.WindowIff` | custom_components/proflame2/rf/capture.py:281-289 | testing a window of symbols is testing the bits under it |
| `Capture.AcceptedWindowsAreDisjoint` | custom_components/proflame2/rf/capture.py:472-571 | in any payload two accepted windows start at least 190 bits apart |
| `Capture.AcceptedUnique` | custom_components/proflame2/rf/capture.py:536-540 | an accepted window determines its frame |
| `Capture.TwoAlignmentsSuffice` | custom_components/proflame2/rf/capture.py:277-300 | whatever any of the eight alignments finds, alignment 0 or 1 finds |
| `Capture.RepeatCountLaw` | custom_components/proflame2/rf/capture.py:277-307 | a frame's hit count is the sum over its physical windows at bit p of min(p/2, 3) + 1 |
| `CaptureScan.TolerantSymbols` | custom_components/proflame2/rf/capture.py:601-613 | every pair is in the symbol table, so no unknown symbol ever appears, and a last odd bit is dropped |
| `CaptureScan.CollectOccurrences` | custom_components/proflame2/rf/capture.py:273-300 | the dictionary holds, for every frame, exactly its hits in scan order |
| `CaptureScan.BuildCandidates` | custom_components/proflame2/rf/capture.py:302-345 | one candidate per entry in order, or the state error of an entry; each with the place, hits, confidence and enclosing bytes that the payload's bits give |
| `CaptureScan.FindProflameCandidates` | custom_components/proflame2/rf/capture.py:255-355 | raises if and only if some present frame has an unobservable state; otherwise one candidate per present frame: more hits first, of equal hits a silent guard first, then the earlier one |
| `CaptureScan.CandidateMeaning` | custom_components/proflame2/rf/capture.py:302-345 | a candidate's offset is its first hit, its confidence 100 plus 20 a hit, less 10 (20 for a single hit) if one of the eighteen bits after the window is high, and its bytes contain the window's 200 bits |
| `CaptureScan.RankingMeaning` | custom_components/proflame2/rf/capture.py:347-355 | the order of candidates in terms of hits, guard bits and offsets |
| `CaptureStream.StreamAccepts` | custom_components/proflame2/rf/capture.py:432-571 | for every sequence of frames and silences the accepted windows are exactly the legacy frames with enough silence after them |
| `CaptureStream.ExtendedIsNeverPresent` | custom_components/proflame2/rf/capture.py:519-571 | a payload of ten-word frames has no FIFO frame at any alignment |
| `CaptureStream.RepeatedPayloadHits` | custom_components/proflame2/rf/capture.py:273-307 | the repeated payload of n copies holds exactly its frame if n >= 2, with repeat count 1 + 4(n-2), and nothing if n = 1 |
| `CaptureStream.OnePresentOneCandidate` | custom_components/proflame2/rf/capture.py:302-355 | when one frame is present the scan returns one candidate with that frame's hit count |
| `CaptureStream.BurstConfidence` | custom_components/proflame2/rf/capture.py:302-345 | the default burst of n copies gives one candidate at offset 0 with confidence 100 for two copies and 80n - 50 for more |
| `CaptureStream.FirstHit` | custom_components/proflame2/rf/capture.py:303-308 | the reported offset is the first copy at an even bit offset if there is one, else the first copy |
| `EndToEnd.AirSymbolsAre` | custom_components/proflame2/rf/waveform.py:185-206 | a transmitted frame decodes to its own symbols, with one more silent symbol for ten words |
| `EndToEnd.PcmReceives` | custom_components/proflame2/rf/pulse.py:89-166 | the pulse receiver reports exactly one candidate for one transmission, of the right variant and with all its words |
| `EndToEnd.FifoReceives` | custom_components/proflame2/rf/capture.py:255-355 | the FIFO receiver finds a legacy transmission exactly once and never a ten-word one |
| `EndToEnd.StateSurvivesTheAir` | custom_components/proflame2/protocol/decoder.py:10-30 | every transmittable state sent over the air decodes to itself (without CPI in ten words) if and only if the profile's serial fits 24 bits; otherwise it is refused |
| `EndToEnd.StateSurvivesFifo` | custom_components/proflame2/rf/capture.py:255-355 | the same through the FIFO scan, which does not raise and returns one candidate; its frame decodes if and only if the serial fits 24 bits |
| `EndToEnd.TransmissionRaisesIff` | custom_components/proflame2/rf/capture.py:326 | a legacy transmission makes the FIFO scan raise if and only if its state cannot be observed |
| `EndToEnd.FlameSevenRaises` | custom_components/proflame2/rf/capture.py:326 | it happens for every legacy frame with flame level 7 |
| `EndToEnd.EditsReachTheReceiver` | custom_components/proflame2/services.py:413-503 | what the receiver decodes from a debounced packet is the fold of all the user's edits before it, when edits do not overlap sends |
| `Gf2.Gf2Rank` | tools/proflame_extended/analyze_issue_15.py:39-51 | elimination terminates and returns the rank; the span of the rows has exactly 2^rank elements |
| `Gf2.ReduceRow` | tools/proflame_extended/analyze_issue_15.py:42-50 | one row of elimination: the pivots stay in echelon form and span one more row |
| `Gf2.SpanSize` | tools/proflame_extended/analyze_issue_15.py:39-51 | any rows span exactly 2^rank vectors |
| `Gf2.RankIgnoresOrderAndDuplicates` | tools/proflame_extended/analyze_issue_15.py:39-51 | neither order nor repetition of rows changes span or rank |
| `Gf2.OutsideIffSeparated` | tools/proflame_extended/analyze_issue_15.py:263-281 | a vector is outside a span if and only if some functional is zero on the span and one on the vector |
| `AffineFit.StateFeatureVector` | tools/proflame_extended/analyze_issue_15.py:254-260 | bit k of the vector is bit k % 8 of state word k / 8 |
| `AffineFit.MaskedRank` | tools/proflame_extended/analyze_issue_15.py:277-281 | dropping the output column lowers the rank by one if and only if that column is spanned |
| `AffineFit.RankTestDecidesFit` | tools/proflame_extended/analyze_issue_15.py:272-281 | for any number of captures the two ranks agree if and only if some affine function of the 32 state bits gives the output bit of every capture |
| `AffineFit.DesignRank` | tools/proflame_extended/analyze_issue_15.py:285-287 | the affine design rank is always one more than the rank of the differences to the first capture |
| `AffineFit.AffineFitSummary` | tools/proflame_extended/analyze_issue_15.py:263-291 | the summary's eight verdicts are exactly the existence of affine fits, and its two ranks differ by one; without captures it raises |
| `MinimalInputs.ConflictFree` | tools/proflame_extended/analyze_issue_15.py:112-120 | the inner loop completes if and only if captures that agree on the inputs agree on the output |
| `MinimalInputs.CombinationsAre` | tools/proflame_extended/analyze_issue_15.py:111 | combinations are exactly the increasing selections of the wanted size |
| `MinimalInputs.MinimalInputSets` | tools/proflame_extended/analyze_issue_15.py:105-123 | reports exactly the smallest non-empty sets of state words that determine the output; none if and only if even all five do not |
| `Crc8.Reflect` | tools/proflame_extended/analyze_issue_15.py:54-60 | reverses the bits below the width |
| `Crc8.ReflectTwice` | tools/proflame_extended/analyze_issue_15.py:54-60 | reflecting twice keeps exactly the bits below the width |
| `Crc8.Crc8Of` | tools/proflame_extended/analyze_issue_15.py:63-82 | the loops compute the register over the optionally reflected bytes, then the optional reflection and final XOR |
| `Crc8.RegisterConcat` | tools/proflame_extended/analyze_issue_15.py:63-82 | the register over a concatenation is the register of the second part started from the first |
| `Crc8.CrcAffine` | tools/proflame_extended/analyze_issue_15.py:63-82 | on equally long inputs the checksum commutes with the XOR of three inputs |
| `Crc8.RegisterIsRemainder` | tools/proflame_extended/analyze_issue_15.py:63-82 | the register has degree below eight and differs from the message polynomial by a multiple of the generator |
| `Crc8.RemainderUnique` | tools/proflame_extended/analyze_issue_15.py:63-82 | there is only one such remainder, for any data length |
| `Crc8.CrcMeaning` | tools/proflame_extended/analyze_issue_15.py:63-82 | the whole checksum bit by bit: the remainder of the message of the bytes, each reversed if asked, itself reversed if asked, and the final XOR |
| `RepeatPattern.AllChunksEqual` | tools/compare_rtl433_captures.py:280 | compares every chunk: succeeds if and only if the codes are a power of the chunk |
| `RepeatPattern.DetectRepeatPattern` | tools/compare_rtl433_captures.py:273-288 | returns a word without smaller repeat whose power is the input; the return after the loop is never reached |
| `RepeatPattern.PrimitiveRootUnique` | tools/compare_rtl433_captures.py:273-288 | words without smaller repeat that have a common power are equal, with equal exponents |
| `RepeatPattern.DetectsPower` | tools/compare_rtl433_captures.py:273-288 | detecting u^k for such a u gives exactly u and k |
| `RepeatPattern.FirstCodeDifferenceIndex` | tools/compare_rtl433_captures.py:342-349 | nothing if and only if the lists are equal, else the length of their common prefix |
| `FirmwareDecoder.ParseSymbolWindow` | esphome/components/proflame2_tembed/proflame2_decoder.cpp:65-136 | the firmware's window test accepts exactly the windows that the integration's scan accepts, and reads the same words |
| `FirmwareDecoder.StateRuleAgrees` | esphome/components/proflame2_tembed/proflame2_decoder.cpp:143-159 | its state rule is the integration's observation rule |
| `FirmwareDecoder.OwnedIffDecodes` | esphome/components/proflame2_tembed/proflame2_decoder.cpp:251-266 | serial, Err bytes and state pass if and only if the integration decodes the frame with that profile |
| `FirmwareDecoder.RecordOwned` | esphome/components/proflame2_tembed/proflame2_decoder.cpp:268-288 | counts a frame in its slot, or fills the first free one: the slots keep the first hits in order and the saturated numbers of hits |
| `FirmwareDecoder.Scan` | esphome/components/proflame2_tembed/proflame2_decoder.cpp:231-291 | all windows of all eight alignments: what the slots and the flags of a rejection hold |
| `FirmwareDecoder.BestSlot` | esphome/components/proflame2_tembed/proflame2_decoder.cpp:293-301 | the first slot with the largest count |
| `FirmwareDecoder.DecodeFifoWindow` | esphome/components/proflame2_tembed/proflame2_decoder.cpp:201-330 | a frame is reported if and only if an owned one is present; it is the one hit most often, of those the first met, unless eight others had taken the slots; else the first reason in the order wrong serial, Err bytes, state that some frame gives, and whether any frame has the serial |
| `FirmwareDecoder.FirmwareAgrees` | esphome/components/proflame2_tembed/proflame2_decoder.cpp:201-330 | the firmware reports a frame of a payload if and only if the integration could decode one with the same profile |
| `FirmwareDecoder.OwnBurstIsReported` | esphome/components/proflame2_tembed/proflame2_decoder.cpp:201-330 | of a state sent in a burst of n copies the frame itself is reported if and only if n is at least two and the serial fits 24 bits |
| `Listener.EvaluatePayload` | esphome/components/proflame2_tembed/active_listener.cpp:21-68 | what the listener makes of a payload, from the frames it holds: an owned one is accepted or a duplicate; otherwise noise, a profile mismatch or a decoding failure, and nothing is remembered |
| `Listener.RejectionMeaning` | esphome/components/proflame2_tembed/active_listener.cpp:40-51 | noise if and only if no frame is present; a mismatch if and only if one is foreign or fails the Err check; a decoding failure if and only if all that are present only have unobservable states |
| `DuplicateFilter.ActiveListenerController.EvaluateWindow` | esphome/components/proflame2_tembed/active_listener.cpp:21-68 | the outcome and the remembered packet after one window, for every branch |
| `DuplicateFilter.ActiveListenerController.CheckDuplicate` | esphome/components/proflame2_tembed/active_listener.cpp:70-82 | the duplicate test and the age it reports |
| `DuplicateFilter.RemembersLastAccepted` | esphome/components/proflame2_tembed/active_listener.cpp:84-91 | over any run the filter remembers the last accepted packet |
| `DuplicateFilter.DuplicateIff` | esphome/components/proflame2_tembed/active_listener.cpp:70-82 | a decoded window is a duplicate if and only if the last accepted tick was not zero, the packets agree, and the elapsed time modulo 2^32 is below the window |
| `DuplicateFilter.AcceptedRepeatsAreApart` | esphome/components/proflame2_tembed/active_listener.cpp:53-68 | consecutive accepted equal packets are at least the window apart in real time, across counter wrap |
| `DuplicateFilter.LateRepeatsAreAccepted` | esphome/components/proflame2_tembed/active_listener.cpp:70-82 | a repeat after the window and before the counter comes round is accepted |
| `DuplicateFilter.ZeroTickIsNotSuppressed` | esphome/components/proflame2_tembed/active_listener.cpp:72-74 | a packet accepted at tick zero is never suppressed: an immediate repeat is accepted |
| `Control.RequestedIsTransmittable` | custom_components/proflame2/control.py:30-75 | a request that passes validation always passes the transmit rules |
| `Control.RequestRefusedIff` | custom_components/proflame2/control.py:30-57 | which requests are refused, and for which of their keys: power, flame, fan, light in this order |
| `Control.RequestFields` | custom_components/proflame2/control.py:58-75 | what an accepted request asks for, field by field, and exactly which keys are ignored for want of a feature |
| `Control.BuildStagedState` | custom_components/proflame2/control.py:78-136 | the merge, local by local: every field is the one the edit asks for, or keeps its value, or is at rest without its feature |
| `Control.StagedAsAsked` | custom_components/proflame2/control.py:78-136 | what an edit asks for is one state, field by field; staging gives that state, or with power on the first of flame, fan and light that is out of range |
| `Control.RequestOfMerged` | custom_components/proflame2/control.py:113-135 | re-validating the merged state as a full request gives that state, or the error of the first field out of range |
| `Control.StagedIsEncodable` | custom_components/proflame2/control.py:78-136 | from an editable state every valid edit stages, to an editable state that the debounced send can encode |
| `Control.StagedStaysInRange` | custom_components/proflame2/control.py:78-136 | from any state in the observable range a valid edit is refused if and only if it would keep light level 7 with power on, and otherwise stages a state in range that may be sent |
| `Control.ObservedLightSevenCannotBeEdited` | custom_components/proflame2/protocol/models.py:114-133 | light level 7 is observable, but an edit that keeps it is refused if and only if power would be on |
| `Control.StagingTwice` | custom_components/proflame2/control.py:78-136 | staging the same edit twice is staging it once |
| `Runtime.RuntimeEntry.StageControlChange` | custom_components/proflame2/services.py:301-410 | one edit: refusal, failure, no change, retained OFF edit or staging, with all fields after each |
| `Runtime.RuntimeEntry.FireDebounce` | custom_components/proflame2/services.py:413-440 | the debounce wakes: nothing to send, shut down, or the captured state |
| `Runtime.RuntimeEntry.RequestState` | custom_components/proflame2/services.py:1006-1047 | a service call or profile: refused while shutting down, invalid, or a captured send that cancels the debounce |
| `Runtime.RuntimeEntry.BeginSend` | custom_components/proflame2/services.py:1236-1291 | the sending phase, a missing backend, and the packet |
| `Runtime.RuntimeEntry.MarkSendFailed` | custom_components/proflame2/services.py:1368-1375 | the fields after a failed, timed-out or cancelled send |
| `Runtime.RuntimeEntry.RecordSuccessfulSend` | custom_components/proflame2/services.py:1378-1417 | the fields when the backend has accepted the packet; the applied profile is exactly that of the send, none without one |
| `Runtime.RuntimeEntry.FinishSend` | custom_components/proflame2/services.py:1418-1430 | the desired state is cleared unconditionally |
| `Runtime.RuntimeEntry.SettleSend` | custom_components/proflame2/services.py:1439-1451 | the send ends in a confirmation window or right away |
| `Runtime.RuntimeEntry.ApplyObservedPacket` | custom_components/proflame2/services.py:620-650 | an observed packet becomes the known state |
| `Runtime.RuntimeEntry.ConfirmationWindowExpired` | custom_components/proflame2/services.py:722-723 | the confirmation window closes |
| `Runtime.RuntimeEntry.ShutDown` | custom_components/proflame2/runtime.py:676-687 | shutting down refuses new actions and cancels the debounce |
| `Runtime.RuntimeEntry.SetRuntimeCurrentState` | custom_components/proflame2/runtime.py:190-209 | the known packet and its confidence |
| `Runtime.RuntimeEntry.ClearActiveProfileIfStateDiffers` | custom_components/proflame2/runtime.py:215-223 | the profile marker goes when the state differs from it |
| `Runtime.RuntimeEntry.Restore` | custom_components/proflame2/runtime.py:226-272 | a start from a saved record: the packet read from its frame, or encoded from its state, and the profile marker; it raises without changing anything when that fails |
| `Runtime.RuntimeEntry.Bootstrap` | custom_components/proflame2/runtime.py:275-299 | the learned frame, if nothing is known yet |
| `Runtime.RuntimeEntry.InitializeSafeDefault` | custom_components/proflame2/runtime.py:309-333 | everything off, if nothing is known yet |
| `RuntimeRuns.StepKeeps` | custom_components/proflame2/services.py:301-503 | one stretch of any task keeps the entry consistent |
| `RuntimeRuns.RunsStayConsistent` | custom_components/proflame2/services.py:301-653 | every run, with overlapping sends, cancelled calls and observations, keeps: known and last commanded or observed state agree on power, and fully when on; the sending flag implies a send; packets carry the state their send captured; the known frame reads back as the known state; shutting down leaves no timer; and an applied profile, if it is the known state at the start, is the known state at the end |
| `RuntimeRuns.StrandedIff` | custom_components/proflame2/services.py:1221-1234 | a step leaves a staged state with neither timer nor send if and only if it cancels the only send outside its backend call while a state is staged, no timer runs and no shutdown has begun |
| `RuntimeRuns.NothingStrandedOverRun` | custom_components/proflame2/services.py:301-653 | over a whole run without such a cancellation no staged state is stranded |
| `RuntimeRuns.CancelledCallStrands` | custom_components/proflame2/services.py:1221-1234 | it happens in three steps from any live entry without a send and any edit that is staged |
| `RuntimeRuns.StartIsConsistent` | custom_components/proflame2/runtime.py:634-638 | whatever was saved or learned, a start that does not raise satisfies these invariants, strands nothing and knows a state; its profile marker is true if and only if no profile was applied or the packet reads as the saved state |
| `RuntimeRuns.FirstStart` | custom_components/proflame2/runtime.py:309-333 | a new entry satisfies them, and its first start does not raise and is off |
| `RuntimeRuns.RestartIff` | custom_components/proflame2/runtime.py:170-187 | starting from what a consistent entry saved never raises and gives the known state back, without a CPI flag held in a ten-word frame; with an applied profile the marker is true if and only if there was no such flag |
| `RuntimeRuns.SentCpiProfileGoesStale` | custom_components/proflame2/runtime.py:248-272 | after a profile is sent and the integration restarts, the marker is true if and only if not (ten-word remote and CPI on) |
| `RuntimeRuns.StaleMarkerEnds` | custom_components/proflame2/services.py:627-650 | the next observation or successful send puts a stale marker right |
| `RuntimeRuns.SendingFlagIff` | custom_components/proflame2/services.py:1371-1390 | an exact sending flag stays exact over a step if and only if the step is not a success, failure or failed begin of one send while another is in its backend call |
| `RuntimeRuns.FlagExactOverRun` | custom_components/proflame2/services.py:1092-1206 | over a whole run without such a step the flag says exactly whether a send is in its backend call |
| `RuntimeRuns.OverlappingCallsLowerTheFlag` | custom_components/proflame2/services.py:1390 | from any entry at rest, two calls of which the second succeeds first leave the flag down while the first is still sending |
| `RuntimeHistory.LastWord` | custom_components/proflame2/services.py:301-740 | over any run status, confidence, last error and timer have the values written last, by the event that writes them |
| `RuntimeHistory.ObservedIffHeard` | custom_components/proflame2/services.py:620-653 | the confidence is observed and the packet known if and only if that packet was heard and no later edit, success, observation or expiry decided anew what is known |
| `RuntimeHistory.FailureHasReasonIff` | custom_components/proflame2/services.py:1390-1392 | a shown failure loses its reason if and only if a send succeeds while it is shown |
| `RuntimeHistory.FailureWithoutReason` | custom_components/proflame2/services.py:1390-1392 | it happens: of two overlapping calls the first fails and then the second succeeds |
| `RuntimeHistory.ProfileStep` | custom_components/proflame2/services.py:1400-1407 | a success sets the applied profile to its send's, none without one; an edit or observation of another state removes it; nothing else touches it |
| `RuntimeHistory.ProfileOverRun` | custom_components/proflame2/runtime.py:215-223 | over a run without a success the applied profile stays until an edit or an observed packet disowns it, and then there is none |
| `RuntimeHistory.AppliedSinceSend` | custom_components/proflame2/services.py:1400-1407 | after any success and any run without another, the applied id is that send's unless it was disowned since |
| `RuntimeHistory.ProfileStaysNamed` | custom_components/proflame2/runtime.py:215-223 | a profile is marked as active if and only if its id is held, over every run |
| `RuntimeHistory.StartTells` | custom_components/proflame2/runtime.py:226-333 | the fields of a started entry, for every saved record and learned frame |
| `RuntimeHistory.RestartTells` | custom_components/proflame2/runtime.py:170-187 | a restart keeps frame, confidence and applied profile, and marks an applied profile with the saved state |
| `RuntimeHistory.PlainSendIsForgotten` | custom_components/proflame2/runtime.py:269-272 | a start from what was saved after a send without a profile has no active profile |
| `RuntimeHistory.LateWakeFails` | custom_components/proflame2/services.py:413-494 | a debounce that wakes in an entry that shuts down sends nothing and drops what was staged, as failed |
| `RuntimeHistory.ClosedStaysClosed` | custom_components/proflame2/runtime.py:676-687 | after a shutdown no run reopens the entry, starts a timer or adds a send |
| `RuntimeView.StepRefines` | custom_components/proflame2/services.py:301-503 | one step of any task, whatever else is going on, is one step of the view |
| `RuntimeView.RunRefinesView` | custom_components/proflame2/services.py:1092-1206 | every run refines a machine of known state, staged state and captured sends: an edit merges into the shown state, a send carries the state it captured, success makes that known, the end of any send drops what is staged, an observation replaces what is known, a shutdown refuses edits |
| `RuntimeView.KnownIsInRange` | custom_components/proflame2/services.py:620-650 | the known state of a consistent entry is always in the observable range |
| `RuntimeView.StartIsAtRest` | custom_components/proflame2/runtime.py:226-333 | so a start with a backend, from any saved record and learned frame, is a start for the fold of edits |
| `RuntimeView.EffectiveIsFolded` | custom_components/proflame2/services.py:301-503 | over valid edits, timers and successful sends the desired-or-known state is the fold of the edits, from any known state in the observable range |
| `RuntimeView.SentPacketCarriesFold` | custom_components/proflame2/services.py:1270-1313 | a debounced packet decodes to the fold of the edits before it |
| `RuntimeRuns.EditsDuringSendAreLost` | custom_components/proflame2/services.py:1378-1418 | whatever edits are staged while a send is in flight, they are lost if the send ends before a debounce fires: a success leaves the sent state, a failure the known one, and the debounce finds nothing |
| `RuntimeOverlap.FateOfEdit` | custom_components/proflame2/services.py:413-440 | an edit during a send, over every order of its timer, its own send and the end of the first, failures included: what is shown at the end is the state commanded last, which the order alone decides |
| `RuntimeOverlap.EditDuringSendSurvivesIff` | custom_components/proflame2/services.py:1378-1418 | an edit that was staged during a send, in any order of timers and ends without a failure: it is the shown state at the end if and only if it asked for the sent state, or its debounce fires before any send ends and its own send does not succeed before the first one |
| `RuntimeOverlap.SettledEditSurvivesIff` | custom_components/proflame2/services.py:347-394 | an edit that needed no send of its own survives if and only if the send in progress had already succeeded or asked for that state |
| `RuntimeOverlap.BothHappen` | custom_components/proflame2/services.py:413-440 | both happen: for any staged edit that differs from the sent state one run loses it and one keeps it |
| `Learning.LearnSession.Take` | custom_components/proflame2/learning.py:502-664 | one packet: counted, refused from another remote, skipped as a repeat unless restoring, or kept |
| `Learning.LearnSession.CaptureNext` | custom_components/proflame2/learning.py:398-431 | the prompt loop: how many receives it makes, how it ends, and what the session has kept |
| `Learning.PromptMeaning` | custom_components/proflame2/learning.py:577-664 | a prompt skips repeats until a new frame of the remote answers it (any frame of it when restoring), another remote is heard, or the deadline passes; a failure carries the remote and the counts |
| `Learning.SessionMeaning` | custom_components/proflame2/learning.py:502-664 | over any packets: the kept ones are pairwise distinct, match the seen set, share one remote id and miss nothing of it |
| `LearningResults.DeriveFailsIff` | custom_components/proflame2/learning.py:782-809 | derivation from packets fails, always as a contradiction, if and only if two of them imply different constants |
| `LearningResults.SessionVerdict` | custom_components/proflame2/learning.py:758-831 | a session of one legacy remote has no result if and only if the thresholds are not met, else the outcome of all its packets, whatever their order and repeats |
| `LearningResults.OutcomeMeaning` | custom_components/proflame2/learning.py:782-831 | that outcome is a profile if and only if it explains every packet, and a contradiction if and only if two conflict |
| `LearningResults.ResultMeaning` | custom_components/proflame2/learning.py:758-885 | in any format a session that answers reports its remote, its counts, and with a success the last frame that was new when it came |
| `LearningResults.LearnRemoteProfile` | custom_components/proflame2/learning.py:888-1002 | the one-shot loop, for any thresholds |
| `LearningResults.OneShotVerdict` | custom_components/proflame2/learning.py:888-1002 | its outcome is that of the shortest prefix that meets the thresholds |
| `LearningResults.OneShotTimesOut` | custom_components/proflame2/learning.py:888-1002 | without a ready prefix it times out, with the counts of all packets |
| `LearningResults.StrangerEndsOneShot` | custom_components/proflame2/learning.py:929-945 | a packet of another remote ends it at once, whatever follows, if no prefix was ready |
| `LearningResults.LearnersAgree` | custom_components/proflame2/learning.py:758-1002 | the session first answers where the one-shot learner stops, with the same outcome, remote and counts |
| `LearningResults.ConstantsAreLearned` | custom_components/proflame2/learning.py:758-1002 | packets that one set of constants explains teach both learners exactly those constants once the thresholds are met, and nothing before |
| `LearningResults.EncodedFrameIsExplained` | custom_components/proflame2/protocol/encoder.py:61-67 | every frame a legacy profile encodes is such a packet |
| `LearningResults.LearnedProfileDecodes` | custom_components/proflame2/protocol/decoder.py:10-30 | the learned profile decodes every packet it was learned from |
| `LearningResults.LearnedProfileResends` | custom_components/proflame2/protocol/encoder.py:32-67 | it sends one of them back word for word if and only if its state may be sent and two unused command bits are clear |
| `LearningResults.OneShotIgnoresExtensions` | custom_components/proflame2/learning.py:943-954 | the one-shot learner has no format check: extension words make no difference to it |
| `LearningResults.OneShotMistakesTenWord` | custom_components/proflame2/learning.py:943-990 | it learns legacy constants from ten-word packets whenever the packets without their extensions have any |
| `LearningResults.MistakenPacketsAreReceivable` | custom_components/proflame2/protocol/ecc.py:91-114 | such packets can be received: any legacy frames that one set of constants explains, widened by three fixed words, pass the integrity check of ten-word frames |
| `LearningResults.LearnersOnTenWord` | custom_components/proflame2/learning.py:888-1002 | on a ten-word remote it ends with a contradiction or with legacy constants that decode none of the packets, and agrees with a session that answers if and only if both report a contradiction |
| `LearningResults.MixtureIsContradictory` | custom_components/proflame2/learning.py:840-849 | a mixture of both frame formats is always contradictory |
| `LearningResults.TenWordLearnedIff` | custom_components/proflame2/learning.py:834-885 | a session of one ten-word remote learns a template if and only if it has three distinct frames, two manual state words, and all manual frames have the template's fields; contradictory if and only if two differ |
| `LearningResults.LearnedTemplateResends` | custom_components/proflame2/learning.py:853-885 | the learned template resends a manual frame word for word if and only if its W7 was the assumed constant and two command bits are clear |

## Left out

- Home Assistant plumbing (config flow, entities, registries, dispatcher, storage, service schemas, notifications): framework calls.
- Radio, USB, subprocess, socket and ESPHome transport: receptions, backend outcomes and timeouts are inputs and events of the model.
- Clocks and floating point: a deadline is the end of a list of receive calls, and a delay is an event that may happen.
- FirmwareDecoder.DecodeFifoWindow: is for payloads of at most 16384 bytes, whose symbol offsets fit sixteen bits (the firmware keeps at
  most 4096); the count of accepted windows, the byte range, and the failed check of the last window are not modelled.
- The FIFO reception before the firmware's decoder is not part of this model.
- The storage behind saved records, and when it is written: a start is modelled from any record, and a restart from what the entry
  would save at that moment. Saving is taken not to raise. The name of an applied profile goes with its id.
- Stopping reception before a send is taken not to raise; the model then leaves out a send that ends there with an error.
- Errors raised by a receive call during learning: they end the session with the error itself.
- Task handles: cancelling the debounce, cancelled sends and shutting down are modelled, but not which task owns a handle, nor the
  listener and display loops.
- Display state, logging, packet debug files, diagnostics and reports, among them `diagnose_air_payload` and the text of validation
  notes and warnings; packet metadata such as signal strength and receive time.
- Input parsing: unknown keys of a service call or edit, conversions of their values, profile lookup by name, and variants named by
  strings (a profile is legacy or ten-word by construction).
- Sorting is modelled by its result for distinct keys; `sorted` on samples by repeated choice of the least pair.
- Integers used as GF(2) vectors are non-negative; negative values do not occur in the analysis.
- The other hypothesis tables of the issue analysis (direct and packed C/D assignments, the sum and XOR families) and the other parts
  of the rtl_433 comparison: they only tabulate functions that are modelled, or format text.
- RuntimeView.EffectiveIsFolded: is about runs of edits and sends that do not overlap; overlapping edits are the subject of
  RuntimeOverlap, and observed packets, service calls, failures and a shutdown of RuntimeView.RunRefinesView.
