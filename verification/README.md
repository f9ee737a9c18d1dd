# Verified model of the modem bench

The repository measures and carries modem calls over SIP and E1. This project models the parts of it
that compute or keep state, and proves what each of them promises over every input, every way the
input may be cut up, and every interleaving.

- **The RcFixed sample-rate converter.** Mode 0, a polyphase rational resampler, is a class with the
  200-slot wrapping window, the incremental phase and the pending counter of the source. A call is
  proved to compute a closed form (`Polyphase.Call`) for every input, bank and reachable state, a state
  paused in mid-step included; runs of calls are proved to be one call on the joined input, and that to
  be the textbook chain of zero-stuffing, convolution and decimation. Mode 1, the two fourfold half-band
  cascades, is a class with three circular delay lines and the packed words; it is proved to be its
  composition of filters, zero-stuffing and decimation, with the impulse responses and the settled
  answer to a steady input written out, and to need no more than 32 bits.
- **The slmodem bridge loop.** Reads of any length, blocks of 80, conversion to 9.6 kHz and back,
  fragments, and dropping or padding on `update_delay`. The modem is an arbitrary function that may
  change `update_delay`, stdout an arbitrary sequence of accepted and refused writes. Samples are
  followed through: what the modem hears is the resampling of the blocks read, and what is sent the
  resampling of what the modem and the padding gave.
- **RTP.** Packet building and parsing against the packet format of RFC 3550 (sections 5.1 and 5.3.1),
  the 16-bit sequence filter, payload-type adoption, statistics, and a sender and a receiver joined by
  a network that drops, repeats and reorders as it likes. WAV pacing in unsigned 64-bit milliseconds.
- **The burst analysis.** Running sums, peak picking, the correlation search and the greedy pairing,
  over real-valued powers; an ideal delayed recording is analysed exactly.
- **The data probe.** Greedy recognition of responses in a growing buffer, and the probe, observer and
  caller as three interleaved threads, with the exact account of the rates seen.
- **Framing.** The stdin assembler, the E1 block writer, the write-retry loops and the stdio pump.
- **The scrambler** of the V.90 training sequence.

Where the source keeps state in objects or static variables the model has a class whose methods are
proved against a function of the old state; the laws are then proved about that function. Shifts are
floor divisions, masks and `|` are written arithmetically, and 16-, 32- and 64-bit wrap-around is
written out where the source has it.

## What the code was found to do

- 96 samples at 9.6 kHz into a buffer of 80 lose one sample in exactly one settled state: one sample
  pending and no remainder (`Ratios.ModemBlockExact`). Over a session of the bridge that is exactly
  when the number of samples kept so far is 5 modulo 6 (`BridgePhase.SessionLosses`). A modem
  that leaves `update_delay` alone never gets there (`BridgeSignal.QuietSessionExact`); one that takes
  off a single sample in the first block of a new bridge does (`BridgePhase.OneDropThenLoss`).
- `k * down` inputs give `k * up` outputs and restore the phase exactly when the position is less than
  one output step above its floor, `position < min(up, down) + down` (`PolyphaseLaws.BlockExact`). A
  call with input leaves another state only when `up > down`, it fills its capacity, and its last
  output is on a branch of at least `down` (`PolyphaseLaws.CallSettlesIff`);
  `Ratios.FullCallUnsettles` is one.
- The downsampling counters start over with every call, so a cut may spoil the output; it is harmless
  for all samples exactly when the first call's length is a multiple of 4, nothing follows, or it
  leaves 2 over and a single sample follows (`HalfBandLaws.CutHarmlessIff`).
- Padding at 9.6 kHz stops the bridge exactly when the last piece is one sample that meets two pending
  ones (`BridgeLaws.PaddingStopsIff`); it happens in the second block of a new bridge whose modem takes
  two samples off the delay in the first and puts one back (`BridgePhase.PaddingCanStop`).
- Bridge reads of given lengths give the samples of the byte stream, whatever the bytes, if and only if
  every read of odd length has no byte after it (`BridgeReads.ReadsGiveStreamIff`).
- The B-channel line carries each block exactly once if and only if no write took some but not all of a
  block; a block torn so is sent again from its start (`Framing.WriterExactIff`).
- The RTP parser accepts every packet of the format and one more kind: a padding count of zero, which
  section 5.1 of RFC 3550 rules out and the code reads as if the padding bit were clear
  (`RtpPacket.AcceptsIff`, `RtpPacket.ZeroCountIsAccepted`, `RtpPacket.ZeroCountIsUnpadded`).
- `rx_pt == 0` means that no type is adopted, but also lets packets of type 0 through
  (`RtpStream.HeardIff`). A sender of yet another type is heard exactly when its frames have 8 bytes or
  more (`RtpNetwork.NetworkTheorem`, `RtpNetwork.UnhearableIsSilent`).
- dialbench/README.md line 112 and the docstring of `cadence_windows` ask for whole 10 ms windows, but
  the code rounds down silently (`Analysis.CadenceExactIff`, `Analysis.CadenceRoundsDown`). The model
  follows the code. The pairing margin is a third of the period before rounding; over accepted
  cadences the pairing of any two recordings is forced, ordered and maximum, except for one window on
  and one off with a period of 30 ms or more (`Analysis.AlwaysBestIff`); there two short recordings
  leave a choice (`Analysis.AmbiguousRecordings`).
- `generate_tx_wav` returns one burst too few exactly when a whole burst fits after the last whole
  period (`Analysis.BurstsReturnedIff`).
- `raise_for_status` can return normally with a mismatching rate in the list: if and only if its line
  was still being handled when the caller looked for a failure, or was listed between that and the
  look for success (`ProbeRates.ReturnedDespiteMismatchIff`). Both happen in every configuration with a
  required rate that can succeed at all (`ProbeRates.EscapesWhileJudged`,
  `ProbeRates.EscapesBetweenReads`).
- An upsampling call whose capacity is no multiple of four can report up to three more samples than it
  returns (`HalfBand.UpCall`).

## Model

| member | source | states |
|---|---|---|
| FixedPoint.ToInt16 | analysis/v90_sip/fixedrc.py:51-53 | the low 16 bits as a signed word: always in range, and the identity on values already in range |
| FixedPoint.ToInt16Congruent | analysis/v90_sip/fixedrc.py:51-53 | of all 16-bit words it is the one that differs from the value by a multiple of 2^16 |
| Polyphase.RatioConverter.constructor | analysis/v90_sip/fixedrc.py:286-299 | a new context holds a silent window and the position `down % up`, plus `up` when `up <= down` |
| Polyphase.RatioConverter.Reset | analysis/v90_sip/fixedrc.py:322-332 | after any run, the context is in every field what a new one is; returns the whole part of the ratio |
| Polyphase.RatioConverter.Wrap | analysis/v90_sip/fixedrc.py:456-461 | the overlapping in-place copy puts the last `len` slots at the front unchanged |
| Polyphase.RatioConverter.Push | analysis/v90_sip/fixedrc.py:449-462 | the 200-slot wrapping buffer always holds exactly the last `len` samples, and its index stays in range |
| Polyphase.RatioConverter.Emit | analysis/v90_sip/fixedrc.py:469-489 | one output is the 16-bit scaled sum of the current branch over the window; the subtraction loop raises the position by `down` |
| Polyphase.RatioConverter.Turn | analysis/v90_sip/fixedrc.py:444-489 | one turn reads the pending samples and produces, or reads what is left and pauses in mid-step |
| Polyphase.RatioConverter.Resample | analysis/v90_sip/fixedrc.py:434-494 | for every input, bank, reachable state and capacity a call computes the closed form `Call`: output j is branch `(position + j*down) % up` on the samples before input `(position + j*down) / up` |
| Polyphase.CountUnique | analysis/v90_sip/fixedrc.py:477-489 | the number of outputs is the only one that leaves the position in the settled range |
| Polyphase.DueNow | analysis/v90_sip/fixedrc.py:444-489 | the incremental phase and the closed form agree on when an output falls due and on its branch |
| PolyphaseLaws.LosslessIff | analysis/v90_sip/fixedrc.py:491-494 | a call reads all its input if and only if its last allowed output is not due before its last input; otherwise how many samples it forgets |
| PolyphaseLaws.LosslessProducesAll | analysis/v90_sip/fixedrc.py:444-494 | a call that reads everything also produces everything owed, even at exact capacity |
| PolyphaseLaws.UnreadLeavesNoTrace | analysis/v90_sip/fixedrc.py:444-494 | what a call does not read leaves no trace in its outputs or its state |
| PolyphaseLaws.CallReadsIff | analysis/v90_sip/fixedrc.py:444-494 | a call is the call on just the samples it has read if and only if it reads all or its last output is on a branch below `min(up, down)` |
| PolyphaseLaws.CallKeepsValid | analysis/v90_sip/fixedrc.py:434-494 | every call, whatever its capacity, keeps the state invariant |
| PolyphaseLaws.WholeSplits | analysis/v90_sip/fixedrc.py:444-492 | resampling x and then y gives the outputs and the final state of resampling x + y, from every reachable state |
| PolyphaseLaws.RunIsWhole | analysis/v90_sip/fixedrc.py:444-492 | every run of calls that loses nothing is one call on the joined input |
| PolyphaseLaws.BlockExact | analysis/v90_sip/fixedrc.py:477-492 | `k*down` inputs give `k*up` outputs, and restore the position, if and only if the state is settled |
| PolyphaseLaws.CallSettlesIff | analysis/v90_sip/fixedrc.py:444-494 | exactly which calls leave a settled state, and the position of one that fills its capacity |
| PolyphaseLaws.PositionSplits | analysis/v90_sip/fixedrc.py:477-489 | restoring the position restores the pending count and the remainder |
| PolyphaseLaws.BranchesOnceIff | analysis/v90_sip/fixedrc.py:469-489 | any `up` consecutive outputs use every branch exactly once if and only if the factors are coprime |
| PolyphaseMeaning.Refinement | analysis/v90_sip/fixedrc.py:434-494 | from a new context, every lossless cutting into calls gives the input zero-stuffed by `up`, convolved with the prototype filter and decimated by `down` |
| Ratios.RatioTable | analysis/v90_sip/fixedrc.py:230-300 | every rational code has, given enough taps, a valid bank, a settled new context and coprime factors |
| Ratios.FactorsFitRates | analysis/v90_sip/fixedrc.py:9-29 | the two factors of every code convert between the rates it is named after, and `up * len` is the length of its table of taps |
| Ratios.NetBlockExact | tools/slmodem_bridge.c:283-291 | 80 network samples always give exactly 96, all of them read |
| Ratios.ModemBlockExact | tools/slmodem_bridge.c:293-303 | 96 modem samples give exactly 80; one sample is lost if and only if one was pending with no remainder, and that realigns the converter |
| Ratios.ModemGivesNothingIff | tools/slmodem_bridge.c:807-808 | an input converts to nothing if and only if it is shorter than the pending count |
| Ratios.AlignedBlocksLoseNothing | tools/slmodem_bridge.c:293-303 | from a new converter no run of 96-to-80 blocks loses a sample |
| Ratios.AfterShortInput | analysis/v90_sip/fixedrc.py:434-494 | from its first position the 9.6-to-8 kHz converter goes by 94 samples to the position that makes padding stop, by 95 to the one that makes a block lose a sample |
| Ratios.ShortBlockThenLoss | tools/slmodem_bridge.c:293-303 | 95 samples and then a full block lose that block's last sample |
| Ratios.FullCallUnsettles | analysis/v90_sip/fixedrc.py:491-492 | one sample at capacity 1 into a new 8-to-9.6 kHz converter leaves an unsettled state |
| HalfBand.NewestPush | analysis/v90_sip/fixedrc.py:352-353 | advancing the circular index and writing is pushing onto the delay line |
| HalfBand.Convolve | analysis/v90_sip/fixedrc.py:60-65 | the loop with modular indices is the filter on the delay line, newest sample first |
| HalfBand.CarryNeverMatters | analysis/v90_sip/fixedrc.py:391-413 | both halves of the packed word are functions of the two filter outputs; the word carried from the sample before reaches no output |
| HalfBand.HalfBandConverter.constructor | analysis/v90_sip/fixedrc.py:215-228 | a new context is silent |
| HalfBand.HalfBandConverter.Reset | analysis/v90_sip/fixedrc.py:310-320 | a reset context is silent |
| HalfBand.HalfBandConverter.DownOne | analysis/v90_sip/fixedrc.py:351-376 | one sample through the cascade; the two counters let every second and every fourth one on |
| HalfBand.HalfBandConverter.Downsample | analysis/v90_sip/fixedrc.py:348-378 | a call folds that step over the input it has room for, its counters starting at zero |
| HalfBand.HalfBandConverter.UpOne | analysis/v90_sip/fixedrc.py:382-426 | one sample gives four, whatever word is carried in |
| HalfBand.HalfBandConverter.Upsample | analysis/v90_sip/fixedrc.py:379-432 | a call folds that step over the groups it has room for, a last group cut short included |
| HalfBand.HalfBandConverter.Resample | analysis/v90_sip/fixedrc.py:340-432 | the rate divider chooses the direction |
| HalfBand.UpCall | analysis/v90_sip/fixedrc.py:402-432 | the reported count is the number of samples returned if and only if the capacity is a multiple of four or suffices; it is never more than three too high |
| HalfBandLaws.RoomForAll | analysis/v90_sip/fixedrc.py:377-378 | with room for its outputs a call uses its whole input |
| HalfBandLaws.CallGivesStart | analysis/v90_sip/fixedrc.py:377-432 | with less room a call gives the start of what it would give with enough, and exactly how many samples |
| HalfBandMeaning.UpRefines | analysis/v90_sip/fixedrc.py:379-430 | the upsampler is: correct the droop, stuff, half-band b1, stuff, half-band b2, scale |
| HalfBandMeaning.DownRefines | analysis/v90_sip/fixedrc.py:348-378 | the downsampler is: half-band b2, every second, half-band b1, every second, correct the droop, scale |
| HalfBandLaws.UpsamplerRefines | analysis/v90_sip/fixedrc.py:379-430 | ... under every cutting into calls |
| HalfBandLaws.DownsamplerRefines | analysis/v90_sip/fixedrc.py:348-378 | ... under every cutting into calls whose lengths are multiples of four |
| HalfBandLaws.CutHarmlessIff | analysis/v90_sip/fixedrc.py:349-350 | exactly which cuts into two calls never change the downsampled signal |
| HalfBandResponse.ImpulseResponses | analysis/v90_sip/fixedrc.py:133-143 | the impulse responses of the three filters, tap by tap |
| HalfBandResponse.Scalings | analysis/v90_sip/fixedrc.py:351-426 | what is stored between stages and sent is the 16-bit word of the value shifted and scaled, with the factors written out |
| HalfBandResponse.DownsampledSteady | analysis/v90_sip/fixedrc.py:348-378 | 48 outputs into any steady 16-bit input the downsampler has settled at the value that halving, the droop gain 16056 / 32768 and the factor 32440 / 8192 give |
| HalfBandResponse.UpsampledSteady | analysis/v90_sip/fixedrc.py:379-430 | the same for the upsampler with 31957 / 8192, on all four phases |
| HalfBandBounds.OddDoubled | analysis/v90_sip/fixedrc.py:393-396 | the odd b1 phase is the droop-corrected sample 21 inputs back, its low bit cleared |
| HalfBandBounds.OddUpsampled | analysis/v90_sip/fixedrc.py:404-426 | every second output is the scaled b2 input of three b2 inputs before |
| HalfBandBounds.TapSums | analysis/v90_sip/fixedrc.py:133-143 | the absolute tap sums of the three tables |
| HalfBandBounds.DownHeadroom | analysis/v90_sip/fixedrc.py:351-376 | every accumulator, partial sums included, and the scaled product fit 32 bits; the first filter's value needs no truncation |
| HalfBandBounds.UpHeadroom | analysis/v90_sip/fixedrc.py:382-426 | the same for the upsampler, the quadrupled accumulator included; the droop corrector's value needs no truncation |
| HalfBandBounds.RunsStayBounded | analysis/v90_sip/fixedrc.py:340-432 | every run on 16-bit samples keeps the bounds the two headroom results start from |
| BridgeModel.SetupFollowsTables | tools/slmodem_bridge.c:250-270 | the bridge's two converters are those of the ratio codes it asks for |
| BridgeReads.SamplesReadBack | tools/slmodem_bridge.c:688-691 | every list of 16-bit samples is read back from its bytes, two a sample, the low one first |
| BridgeReads.EvenReadJoins | tools/slmodem_bridge.c:688-691 | a read of even length gives the samples of its part of the stream |
| BridgeReads.ReadJoinsIff | tools/slmodem_bridge.c:688-691 | and only such a read does, whatever follows |
| BridgeReads.ReadsGiveStream | tools/slmodem_bridge.c:672-692 | reads with no byte after an odd one give the samples of the bytes read |
| BridgeReads.ReadsGiveStreamIff | tools/slmodem_bridge.c:672-692 | reads of given lengths do so for all bytes if and only if no odd one has a byte after it |
| BridgeModel.ToModemKeeps | tools/slmodem_bridge.c:726-735 | the converted block is never empty nor of the wrong length: the exits for both are unreachable |
| BridgeModel.FragmentKeeps | tools/slmodem_bridge.c:762-786 | the modem plays one sample for each it is given, and `update_delay` moves only by what the modem adds |
| BridgeLaws.FragmentsTile | tools/slmodem_bridge.c:762-786 | the fragments rebuild what they were cut from, all but the last exactly `frag` long; what is played is the modem's reply to each, called with the `update_delay` the one before left |
| BridgeLaws.FrameTilesKeptSuffix | tools/slmodem_bridge.c:737-786 | a block hands the modem the converted samples after the dropped ones, so tiled, and nothing else |
| BridgeLaws.PadConserves | tools/slmodem_bridge.c:801-818 | padding keeps the sum of the two delays and, at 8 kHz, sends what it adds and ends with none owed |
| BridgeLaws.FrameConserves | tools/slmodem_bridge.c:694-819 | one block changes the sum of the two delays by what the modem added, and at 8 kHz keeps samples sent in step with blocks and delay |
| BridgeLaws.PadEmits | tools/slmodem_bridge.c:801-818 | at 8 kHz padding sends one sample of silence for each owed |
| BridgeLaws.FrameEmits | tools/slmodem_bridge.c:737-819 | at 8 kHz a block sends what the modem played for the samples kept, then the silence owed, and nothing else |
| BridgeLaws.ReadsDoNotMatter | tools/slmodem_bridge.c:672-702 | a session depends on the samples read, not on how reads cut them |
| BridgeLaws.SessionConserves | tools/slmodem_bridge.c:658-819 | over a whole session the sum of the delays moves only by the modem; at 8 kHz with healthy writes every block of 80 is taken, and samples sent less 80 a block are the change of `g_io_delay` |
| BridgeLaws.PaddingStopsIff | tools/slmodem_bridge.c:801-812 | exactly when padding at 9.6 kHz stops the bridge |
| BridgePhase.PositionMoves | analysis/v90_sip/fixedrc.py:444-494 | each sample read lowers the position by 5 and each output raises it by 6; a conversion loses one sample or none |
| BridgePhase.ConvertsKept | tools/slmodem_bridge.c:293-303 | converting a piece to the network is converting, with room for all, the samples it keeps |
| BridgePhase.SessionLosses | tools/slmodem_bridge.c:658-819 | over every session of a new bridge the samples lost are the last ones of the full blocks of 96 given when the number kept was 5 modulo 6; at 8 kHz none is, and the samples given are those sent; a refused write is the last, sends nothing and stops the bridge |
| BridgePhase.SessionSends | tools/slmodem_bridge.c:658-819 | whatever the modem does, sample n a 9.6 kHz session sends is sample n of the resampling of the samples kept; unless a write is refused there are `(5 * k + 4) / 6` of them for k kept, rounded down |
| BridgePhase.OneDropThenLoss | tools/slmodem_bridge.c:658-819 | a session of a new bridge whose modem once takes one sample off the delay: 96, 95 and 96 samples given, all kept but the last |
| BridgePhase.PaddingCanStop | tools/slmodem_bridge.c:658-819 | a session of a new bridge that padding stops in its second block |
| BridgeSignal.SessionHears | tools/slmodem_bridge.c:672-735 | over every session of a new bridge, whatever modem and writes do: the samples made for the modem are the blocks of 80 taken, at 9.6 kHz sample n of their resampling |
| BridgeSignal.PadGives | tools/slmodem_bridge.c:801-818 | padding gives the network silence: all that is owed, unless it stops the bridge |
| BridgeSignal.FrameGives | tools/slmodem_bridge.c:726-819 | one block at either rate, any modem: a negative `update_delay` takes as many samples off its start, a whole block at most; the fragments tile the rest; the network is given the modem's replies and then the silence owed |
| BridgeSignal.QuietSessionExact | tools/slmodem_bridge.c:658-819 | with a modem that leaves `update_delay` at zero and healthy writes, a 9.6 kHz session loses nothing and sends 80 samples for every 80 read |
| BridgeSignal.QuietSessionSignal | tools/slmodem_bridge.c:658-819 | in such a session sample n the modem is handed is sample n of the resampling of the blocks read, and sample n sent is sample n of the resampling of its replies |
| Bridge.SlmodemBridge.constructor | tools/slmodem_bridge.c:250-270 | a new bridge: empty input buffer, both converters new |
| Bridge.SlmodemBridge.ResampleToModem | tools/slmodem_bridge.c:283-291 | converts a block, or passes it through at 8 kHz |
| Bridge.SlmodemBridge.ResampleToNet | tools/slmodem_bridge.c:293-303 | converts back into at most 80 samples, or passes through |
| Bridge.SlmodemBridge.EmitNetAudio | tools/slmodem_bridge.c:411-437 | an accepted write appends the samples; a refused one stops the bridge |
| Bridge.SlmodemBridge.ProcessFragments | tools/slmodem_bridge.c:762-786 | the fragment loop plays what the recursive cutting gives |
| Bridge.SlmodemBridge.PadOnce | tools/slmodem_bridge.c:801-817 | one piece of padding, and whether the bridge goes on |
| Bridge.SlmodemBridge.PadQueue | tools/slmodem_bridge.c:801-818 | the padding loop, with both of its ways to stop |
| Bridge.SlmodemBridge.ProcessBlock | tools/slmodem_bridge.c:726-799 | one block of 80 does what `Frame` says |
| Bridge.SlmodemBridge.Accumulate | tools/slmodem_bridge.c:688-691 | the samples of a read are appended to what was held; only an odd last byte is discarded |
| Bridge.SlmodemBridge.TakeBlock | tools/slmodem_bridge.c:699-702 | the first 80 samples are taken and the rest shifted down in place |
| Bridge.SlmodemBridge.Turn | tools/slmodem_bridge.c:658-819 | one turn of the loop processes the full blocks of held and read samples and holds the rest |
| RtpPacket.Sender.SendRtp | tools/rtp_bridge.c:102-123 | after every send the packets sent are those of all the payloads given, numbered and stamped from the start, the first marked |
| RtpPacket.HeaderLen | tools/rtp_bridge.c:228-237 | a header found lies within the packet and has at least the fixed twelve bytes |
| RtpPacket.ParseSent | tools/rtp_bridge.c:102-123 | type, sequence number, timestamp and payload of a sent packet are read back |
| RtpPacket.SentIsEncoding | tools/rtp_bridge.c:102-123 | header and payload are the encoding of the packet of the RFC 3550 format with that marker, type, number, time and source, and no other part |
| RtpPacket.StreamIsEncoded | tools/rtp_bridge.c:102-123 | packet k of a sender is the encoding of payload k, numbered k past the first, stamped with the samples before it, and marked if it is the first |
| RtpPacket.HeaderBytes | tools/rtp_bridge.c:102-115 | the twelve header bytes, most significant first |
| RtpPacket.ParseEncoded | tools/rtp_bridge.c:215-244 | the payload of every packet of the RFC 3550 format is read back, whatever contributing sources, extension and padding surround it |
| RtpPacket.DecodedEncodes | tools/rtp_bridge.c:215-244 | every accepted packet without a zero padding count is the encoding of one of the format |
| RtpPacket.AcceptsIff | tools/rtp_bridge.c:215-244 | for all byte strings: a packet of the format is what the parser accepts without a zero padding count |
| RtpPacket.ZeroCountIsAccepted | tools/rtp_bridge.c:239-244 | one packet with a zero padding count that the parser accepts and that is not of the format |
| RtpPacket.ZeroCountIsUnpadded | tools/rtp_bridge.c:239-244 | a zero padding count is read as if the padding bit were clear |
| RtpReceiver.Receiver.Established | tools/rtp_bridge.c:564-576 | establishing a call sets the negotiated type and forgets the adopted one, and nothing else |
| RtpReceiver.Receiver.AcceptRxSequence | tools/rtp_bridge.c:196-207 | accepts a number ahead of the last as signed 16 bits, or the first of all; counts the gap |
| RtpReceiver.Receiver.RtpHandler | tools/rtp_bridge.c:209-338 | one datagram does what `Handle` says, in every branch, and nothing outside a call |
| RtpStream.FedExactlyOnce | tools/rtp_bridge.c:246-296 | every well-formed packet feeds the sequence filter once, whatever branch its type takes; others change nothing |
| RtpStream.RunAccounts | tools/rtp_bridge.c:196-207 | over every run, accepted packets plus reported gaps make up the range from the number of the first well-formed packet to the last accepted, modulo 2^16 |
| RtpStream.AdoptedTypeStays | tools/rtp_bridge.c:259-292 | a nonzero adopted type never changes until the call is established again |
| RtpStream.HeardIff | tools/rtp_bridge.c:246-338 | exactly which packets are heard: their first 4096 payload bytes are appended, each decoded; and exactly when a type is adopted, a drop counted or a type's statistics moved |
| RtpStream.RejectedStillAdopts | tools/rtp_bridge.c:259-296 | a packet the sequence filter refuses is not heard but can still set the adopted type; nothing else changes |
| RtpStream.EstablishForgets | tools/rtp_bridge.c:564-576 | after a new establishment short packets of the type adopted before are control events |
| RtpStream.TallyMeans | tools/rtp_bridge.c:301-316 | the statistics of a type are the number, the least and greatest length and the total of its packets, and the number of timestamp steps other than one frame |
| RtpStream.FilterRightIff | tools/rtp_bridge.c:198-200 | the filter tells newer from older exactly within half the sequence range (section 3.2 of RFC 1982) |
| RtpNetwork.MaximaIncrease | tools/rtp_bridge.c:196-207 | the left-to-right maxima increase strictly and end with the greatest index arrived |
| RtpNetwork.TimestampStep | tools/rtp_bridge.c:312-315 | modulo 2^32 the timestamp steps by one frame exactly when the index steps by one |
| RtpNetwork.NetworkTheorem | tools/rtp_bridge.c:196-338 | for every network, and a type that is negotiated, 0 or adopted: the PCM is the bytes of the frames of the left-to-right maxima, in order, once each and each decoded; accepted plus gaps is the span heard; `ts_unexpected` is the number of gap reports, the lengths those of the frames |
| RtpNetwork.UnhearableIsSilent | tools/rtp_bridge.c:246-258 | from any other sender nothing is heard and nothing adopted |
| RtpNetwork.FaithfulNetwork | tools/rtp_bridge.c:85-338 | without loss and in order, sample i is the decoding of byte i sent, for all of them, and no gap is reported |
| Pacing.Pacer.constructor | tools/rtp_bridge.c:459-461 | a new pacer has sent nothing, its timer set for the first grid point |
| Pacing.Pacer.Tick | tools/rtp_bridge.c:142-149 | the frames sent and their deadlines stay a run of the pacing laws below; a frame goes no earlier than its deadline, and the next one is a packet later at least and not yet past |
| Pacing.DeadlineBrackets | tools/rtp_bridge.c:144-149 | no frame goes before its deadline nor after the next one; deadlines are a packet apart at least |
| Pacing.FramesSpan | tools/rtp_bridge.c:142-161 | any n + 1 consecutive frames span at least `(n - 1) * ptime` |
| Pacing.NoDriftIff | tools/rtp_bridge.c:145-148 | deadlines stay on the grid if and only if no earlier frame was more than one packet late |
| Pacing.PunctualFrames | tools/rtp_bridge.c:142-161 | with timers that fire exactly when due, frame k goes out at `start + (k + 1) * ptime` |
| Detector.ComputeScores | dialbench/analysis.py:80-92 | the running sums give the direct window means: each score is mean on-power less mean off-power |
| Detector.ScoreMoves | dialbench/analysis.py:80-92 | one window louder raises the scores it is on in by its share of the on windows, lowers those it is off in by its share of the off windows, and no other |
| Detector.PickPeaks | dialbench/analysis.py:103-113 | the nested loops find the peaks of the climb-and-skip definition |
| Detector.DetectBursts | dialbench/analysis.py:71-115 | the onsets in milliseconds; none when too short or never above zero |
| Detector.PeaksSpaced | dialbench/analysis.py:103-113 | detected peaks are above the threshold and at least one period apart |
| Detector.PeaksCover | dialbench/analysis.py:103-113 | every window above the threshold is within a period after a peak or on the climb to it |
| Detector.DetectedMeans | dialbench/analysis.py:94-115 | of any recording long enough: nothing is found if and only if no score is positive; peaks score more than a quarter of the greatest, are a period apart, and cover every window that does |
| IdealRecording.DetectsExactly | dialbench/analysis.py:60-115 | on an ideal recording the detector finds the onset of every burst and nothing else |
| Delay.EstimateDelay | dialbench/analysis.py:128-153 | returns the first lag of greatest correlation among those with 50 windows to overlap |
| Delay.FirstBestUnique | dialbench/analysis.py:150-153 | there is only one such lag |
| Delay.EligibleMeans | dialbench/analysis.py:139-143 | a lag is tried if and only if it is within the search and leaves 50 windows of each envelope |
| Delay.OverlapDecides | dialbench/analysis.py:128-153 | only the windows up to the length of the shorter recording decide |
| Delay.BestOfEligible | dialbench/analysis.py:139-152 | for powers the estimate is a lag tried, the smallest that no other beats |
| Delay.CorrelationCounts | dialbench/analysis.py:140-149 | on an ideal pair the correlation at every lag counts the coinciding burst windows |
| Delay.DelayBeats | dialbench/analysis.py:139-152 | no lag correlates better than the delay, and no smaller one as well |
| Delay.EstimateIsDelay | dialbench/analysis.py:128-153 | so the estimate on an ideal pair is the delay |
| Pairing.NearestUnused | dialbench/analysis.py:182-189 | the inner loop finds the first of the nearest unused bursts within the margin, or that there is none |
| Pairing.PairBursts | dialbench/analysis.py:177-197 | the rows are the greedy pairing, and `missed` counts the unpaired |
| Pairing.MissingCounts | dialbench/analysis.py:195-197 | the count is that of the rows without a partner |
| Pairing.DetectedIsSpaced | dialbench/analysis.py:103-115 | the bursts detected in any recording are pairwise a period apart |
| Pairing.AtMostOne | dialbench/analysis.py:177-188 | with a margin of less than half the spacing no two received bursts suit one transmitted burst, and no two transmitted one received |
| Pairing.WiderIsAmbiguous | dialbench/analysis.py:177-188 | once the whole windows of the margin reach half the spacing there are onsets in whole windows to choose between |
| Pairing.PairingForced | dialbench/analysis.py:175-197 | a burst is paired with j if and only if j is within its margin: there is nothing to choose |
| Pairing.PairingInOrder | dialbench/analysis.py:180-194 | no received burst is used twice, and pairs are in order |
| Pairing.PairingMaximum | dialbench/analysis.py:175-197 | no other pairing within the margins leaves fewer bursts missing |
| Pairing.RecordingPairs | dialbench/analysis.py:60-197 | whatever was recorded, the bursts detected are paired so, as long as the whole windows of the margin are less than half their spacing |
| Pairing.AnalysisExact | dialbench/analysis.py:156-219 | on an ideal pair: every burst found on both sides, the delay exact, burst k paired with burst k |
| Analysis.CadenceMeans | dialbench/analysis.py:27-41 | a cadence is refused if and only if burst or silence is shorter than 10 ms; else it has all whole windows that fit in each |
| Analysis.CadenceExactIff | dialbench/analysis.py:27-41 | an accepted cadence is the one asked for if and only if both lengths are whole windows |
| Analysis.CadenceRoundsDown | dialbench/analysis.py:35-36 | 105 ms every 505 ms is analysed as 100 ms every 500 ms |
| Analysis.MarginFitsIff | dialbench/analysis.py:35-36 | over accepted cadences the whole windows of the margin are less than half the spacing, but for one window on and one off with a period of 30 ms or more |
| Analysis.AlwaysBestIff | dialbench/analysis.py:156-197 | exactly for those cadences the pairing of any two recordings is forced, ordered and maximum |
| Analysis.AmbiguousRecordings | dialbench/analysis.py:60-197 | two recordings of 40 ms with one burst sent and two received that suit it |
| Analysis.AnalyzePair | dialbench/analysis.py:156-219 | error exactly for a bad cadence; else the first best lag, the greedy pairing, exit code 2 exactly when a burst is missing, and, but for that cadence, a forced, ordered and maximum pairing |
| Analysis.AnalyzeIdealPair | dialbench/analysis.py:156-219 | on an ideal pair the program reports the delay, pairs all, and exits with 0 |
| Analysis.BurstsReturnedIff | dialbench/signal.py:18-36 | how many whole bursts the buffer holds: the number returned if and only if what is left after the last period is shorter than a burst, else one more |
| Analysis.OneBurstUncounted | dialbench/signal.py:36 | one second of 100 ms bursts every 600 ms holds two and returns one |
| Analysis.GenerateSamples | dialbench/signal.py:9-36 | whatever the lengths, sample i is the tone if and only if it lies in some burst k, else 0; for whole-window lengths if and only if window i / 80 is on in the detector's cadence; and how the number returned is related to the whole bursts in the buffer |
| Analysis.WindowsArePure | dialbench/signal.py:9-15 | with whole-window lengths every 10 ms of the signal is all tone or all silence, in the detector's cadence |
| Responses.Find | dialbench/process.py:125-131 | the first occurrence at or after a position, or that there is none |
| Responses.FoldedIff | dialbench/process.py:119-125 | two texts compare equal if and only if they agree but for the case of ASCII letters |
| Responses.ShortestPrefix | dialbench/process.py:119-134 | a prefix holds command, expected text and prompt, in order and apart, if and only if it reaches the position found |
| Responses.StableUnderAppend | dialbench/process.py:136-155 | more bytes never change a response already found |
| Responses.PiecesCutAlike | dialbench/process.py:184-199 | cutting responses as pieces arrive gives what cutting the whole stream gives |
| Responses.GreedyIsCut | dialbench/process.py:192-199 | the responses taken are complete and, with the rest, make up the stream; the rest holds none |
| Responses.GreedyIsOptimal | dialbench/process.py:184-199 | no choice of disjoint stretches holds more complete responses |
| Probe.AlwaysInvariant | dialbench/process.py:46-242 | the log and data invariant holds under every interleaving of observer, probe and caller |
| Probe.ProbeSafety | dialbench/process.py:77-242 | `raise_for_status` returns only if every transmission followed CONNECT, exactly `count` disjoint complete responses came, no more than transmissions and those within `max_attempts`, and, when a rate is required, one was seen and no mismatch had been handled to the end when the caller looked for a failure |
| Probe.AlwaysGreedy | dialbench/process.py:136-199 | under every interleaving and chunking the responses taken begin the greedy cutting of all bytes received |
| Probe.CountsAllReceived | dialbench/process.py:184-209 | while nothing more is found in what is pending, the probe has counted as many responses as any disjoint choice from the bytes received could hold |
| ProbeOutcome.SucceedsIff | dialbench/process.py:157-242 | under every interleaving the probe has succeeded if and only if it has ended with `count` responses and has not failed; with no required rate, if and only if it has `count` responses |
| ProbeOutcome.EndsForAReason | dialbench/process.py:157-242 | a probe that ends has succeeded, failed or been stopped, and it transmits only once the terminal is known |
| ProbeOutcome.CallDecides | dialbench/process.py:77-81 | a call with nothing between its reads returns normally if and only if the probe has succeeded and no mismatch is noted, and can be made again |
| ProbeOutcome.ReturnsAfterFailures | dialbench/process.py:184-236 | every configuration with `count + k` attempts has a run that returns after k attempts that got nothing, with or without a required rate |
| ProbeOutcome.MismatchIff | dialbench/process.py:57-60 | a rate is a mismatch if and only if one is required and either direction differs from it |
| ProbeOutcome.NotedFailureIsFinal | dialbench/process.py:210-223 | once a mismatch is noted the probe never succeeds, however the run goes on |
| ProbeOutcome.FailureIsFinal | dialbench/process.py:157-242 | an exception, a wait for the terminal or for CONNECT that runs out, a further attempt when none is left, no rate reported or a mismatch noted make the probe fail, and no call after that returns normally |
| ProbeOutcome.StopHalts | dialbench/process.py:157-236 | after a stop there is no further transmission but the one about to be made |
| ProbeRates.FailureNotedIff | dialbench/process.py:53-64 | in every reachable state the failure is noted if and only if some rate in the list, other than one still being judged, is a mismatch |
| ProbeRates.UnnotedIff | dialbench/process.py:57-79 | when the caller finds no failure the list holds a mismatch if and only if the observer is judging one |
| ProbeRates.ListedAtReturnIff | dialbench/process.py:77-81 | for any two reads of a call, the list holds a mismatch at the second if and only if one was being judged at the first or was listed in between |
| ProbeRates.ReadsOfReturn | dialbench/process.py:77-81 | every normal return has those two reads |
| ProbeRates.ReturnedDespiteMismatchIff | dialbench/process.py:57-81 | so, for the latest return of every run, exactly when `raise_for_status` returns although a mismatching rate is listed |
| ProbeRates.EscapesWhileJudged | dialbench/process.py:57-79 | the first escape, in a run from the start, in every configuration that can succeed; handled in time the rate is caught |
| ProbeRates.EscapesBetweenReads | dialbench/process.py:77-81 | the second escape, likewise: the rate is handled to the end before the call returns |
| Framing.BlocksRebuild | tools/pri_call.c:407-448 | fixed-size blocks and a short rest rebuild the stream |
| Framing.BlocksUnique | tools/pri_call.c:407-448 | they are the only way to cut it so |
| Framing.FrameAssembler.OnReadable | tools/rtp_bridge.c:163-179 | a short read is held, a completed frame sent; end of input or an error hangs up |
| Framing.PiecesDoNotMatter | tools/rtp_bridge.c:163-179 | frames depend on the bytes, not on the pieces they arrive in |
| Framing.StagesCompose | dialbench/process.py:258-278 | neither do the frames of a stage fed, in any pieces, by another |
| Framing.Deliver | tools/rtp_bridge.c:181-194 | what has been written is a prefix of the data; all of it when no result makes the writer give up and enough is taken |
| Framing.WhatEachSurvives | tools/rtp_bridge.c:181-194 | which results make each of the three loops give up: write_all survives an interruption, the bridge's loop a full pipe, the pump both |
| Framing.Pump | dialbench/process.py:258-280 | the pump writes its input byte for byte, or a prefix of it when a write fails |
| Framing.BlockWriter.Pump | tools/pri_call.c:408-448 | one call does what `AfterTurn` says: a full block is offered until taken whole, interrupted writes tried again at once |
| Framing.FirstAnswerIs | tools/pri_call.c:430-446 | the answer that counts is the first that is not an interruption |
| Framing.WriterExactIff | tools/pri_call.c:408-448 | whatever reads and channel do, the blocks cleared are those of 160 of the bytes read; and the line carries, in order, one byte made from every two of them if and only if every full block offered was refused, taken for none of its bytes, or taken whole |
| Scrambler.Trn1d | analysis/v90_sip/analyze.py:110-117 | the symbols are +1 and -1, and the bits they stand for descramble to all ones, at every length |
| Scrambler.OutputUnique | analysis/v90_sip/analyze.py:110-117 | there is only one such output |
| Scrambler.FirstSymbols | analysis/v90_sip/analyze.py:110-117 | how every output begins: 18 times +1, 5 times -1, 13 times +1, 5 times -1 |
| Scrambler.AgreementLasts | analysis/v90_sip/analyze.py:113-116 | two runs that agree on 23 consecutive bits agree forever after |
| Scrambler.RepeatsFrom | analysis/v90_sip/analyze.py:110-117 | once 23 consecutive bits of an output come again, the output repeats from there |
| Scrambler.LockUpBefore | analysis/v90_sip/analyze.py:113-116 | the lock-up state is reached only from itself |
| Scrambler.NeverLocksUp | analysis/v90_sip/analyze.py:110-117 | so no 23 consecutive symbols are all +1 |

## Left out

- SIP and SDP, sockets, DAHDI and libpri, the PTY, argument parsing, subprocess spawning and the caller classes: they hand bytes to libraries and processes outside this repository.
- The G.711 codec, `modem_process` and the vendor's binary: foreign code, so the codec and the modem are arbitrary functions.
- The libsamplerate path of the bridge, and `modem_write`, for the same reason.
- Bridge.SlmodemBridge.Turn: does not model the PTY read and the `modem_write` of the same turn, nor the dial command before the first block; should `modem_write` change `update_delay`, the delay laws hold between those calls only.
- The mode-0 coefficient values: a bank is any table of at least `up * len` taps, so their 32-bit headroom is not shown.
- `RcFixed_Create` returning nothing for codes above 0x13, the dispatch on the handle's mode, and the unreached zeros after the twenty entries of the two factor tables: no state depends on them.
- An output capacity of 0, which makes the source index an empty list: every call has room for one sample at least.
- The adjustment of a remainder with bit 15 set: remainders stay below the up factor, so it never applies.
- The Goertzel recurrence, the sine and all floating-point rounding: powers are reals, the ideal recording has one power per burst and none between, and the tone is an arbitrary function.
- Bridge.SlmodemBridge.EmitNetAudio: a refused write adds nothing to the output; the bytes a failing write may have taken are not counted (the loop itself is `Framing.Deliver`).
- Negating an `update_delay` of the least 32-bit integer, and 32-bit overflow of the two delays: both are unbounded integers here.
- RtpPacket.Sender.SendRtp: does not model transmit-interval statistics, which nothing but a log line reads, allocation failure or a failing `udp_send`, nor a marker set again by a second establishment.
- RtpReceiver.Receiver.RtpHandler: does not model a failing stdout or WAV write, nor the wrap-around of the statistics counters.
- RtpNetwork.NetworkTheorem: one sender of fixed-size frames and one call; arrivals lie within 2^15 of the newest packet heard, the range in which the filter is right (`RtpStream.FilterRightIff`).
- Pacing.Pacer.Tick: timers never fire early, and the clock is at least one packet from both ends of its 64-bit range.
- Responses.GreedyIsOptimal, and with it `Probe.CountsAllReceived`: not for three empty texts, which would be complete in no bytes at all.
- Probe: deadlines and intervals are nondeterministic steps; a line that reports CONNECT and a rate at once is two steps.
- WAV headers, CSV and log text, `baresip_play.c`, configuration files and recorded results: formats and data without state of their own.
- The plots, spectra and filter fits of analyze.py: numerical methods over floating point.
- The call-control flags of pri_call: which setup and hangup requests are made follows from libpri events and timers, which are outside the model.
