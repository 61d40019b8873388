# Verified models of siphon-rtp

A Dafny model of the hard parts of siphon-rtp, an RTP media server: its real FFT and resampler, three
adaptive speech codecs, and the datapath that decides where a datagram goes. `dafny verify
dfyconfig.toml` checks everything.

**Real FFT.** `Complex`, `Dft`, `Spectra` and `RealFft` show that the in-place radix-2 loops compute the
quadratic DFT sum for every power of two, that inverse and forward undo each other (with the exact
condition where they do not), and the energy balance. Numbers are exact; the twiddle table is the powers
of a root `omega` with `omega * conj(omega) == 1` and `omega^(n/2) == -1`.

**Resampler.** `Resampler` shows that the streaming polyphase object emits the textbook outputs
(zero-stuff, filter, keep every M-th), all of them and no more, however the input is split.

**Speech codecs.** `G726`, `G722` and the `Gsm*` modules model the fixed-point arithmetic on integers with
explicit wrap and saturation. `I32(x)` demands that `x` fits 32 bits, so a definition that uses it proves
that the source's intermediate cannot overflow; a result of type `Word` proves the same for 16 bits. On top
of that: bounds that hold over runs of any length, how close a quantizer's decoder comes to its input, the
wire formats there and back and as one number, and lock-step of encoder and decoder over every stream, for
G.726 with the exact condition on its packets (`G726Packets`).

What the arithmetic means has modules of its own. `G726Gradient`, `G726Predictor` and `G722Adaptation` say
which way predictors and step sizes move, and where they end up. `G722Qmf` shows that the filter bank gives
every stream back, and follows a sample through the whole codec. `LinearPrediction` shows that the Schur
recursion of GSM solves the normal equations and that the lattice is the optimal error filter; `GsmGain`,
`GsmEmphasis` and `GsmResidual` do the same for the long-term gain, the emphasis and a sub-frame. The
encoder's linear 280-word buffer and the decoder's sliding window are both proved to be one 120-word window,
and it is proved exactly when the rounding synthesis lattice undoes the analysis lattice.

**Datapath.** `Datapath` is the flow, latch and ICE state machine on values, one datagram or control call
per step. `Delivery` says exactly when a datagram is forwarded and where to, and that a call connects;
`IceChecks` what a peer must prove to take over a path; `IcePath` and `LatchGate` prove safety over whole
runs, and `Backend` that the object with its shared maps takes the same steps. `Allocator` interleaves any
number of concurrent allocations and removals at the granularity of single atomic operations, `Allocation`
says what each achieves on its own, and `PortPool` that one caller is never told "exhausted" wrongly.

Where a natural property fails, the model keeps the code, and the condition is exact unless it says otherwise:

- `forward(inverse(X)) == X` holds if and only if the DC and Nyquist bins are real.
- A port range that starts at 0 loses port accounting, because binding port 0 yields another port;
  `Allocator.NeverLeaksIff` says when no run leaks.
- An endpoint that gets ICE credentials delivers only over its nominated or adopted path if and only if it
  had no media latch (`IcePath.PathSafeIff`).
- After a G.726 packet the decoder has the encoder's state if and only if the padding is shorter than a
  codeword; otherwise it decodes the padding as phantom samples and its state differs
  (`G726Packets.PacketKeepsStepIff`, and `StreamInStepIff` for a sequence of packets).
- The GSM synthesis lattice gives a sample back if and only if every clipped sum was preceded, in that
  sample, by a value at the opposite end of the range (`GsmLattice.SampleInverseIff`). Over a frame it also
  keeps the delays equal if and only if what clipping took changes none of them (`FrameInStepIff`).
- At 40 kbit/s the G.726 reconstruction can wrap inside the bounds of a run (`G726Wrap.LoudWraps`). The step
  sizes at which no estimate makes it wrap are exact (`SafeStepIff`), and the codewords that an encoder picks
  never do (`EncodedSampleFits`).
- The words that the GSM long-term predictor subtracts need not correlate with the sub-frame, because rounding
  can turn faint ones around (`GsmGain.RoundingCanFlip`); `PredictionCorrelates` gives the margin that suffices.
- GSM auto-scaling restores a sample to within half of the dropped bits if and only if it is not 32760 or
  more in a frame that was scaled by four bits; there it wraps to -32768 (`GsmAnalysis.RestoreWraps`),
  and a fresh encoder can get there (`GsmFullScale.WrapIsReached`).
- The GSM log-area map is undone exactly except for odd small coefficients and the minimum
  (`GsmLar.UnlarOfLarIff`).
- Packing unpacked bytes gives them back if and only if they carried the magic nibble.

`Arithmetic`, `PowersOfTwo`, `FixedPoint`, `BitStream` and `Wrappers` hold what the others share.

## Model

| member | source | states |
|---|---|---|
| `Fft.RealFft.New` | crates/siphon-rtp-dsp/src/fft.rs:75-100 | builds exactly for powers of two from 4 up to 2^32, with a correct permutation and twiddle table; reports the size when it is too small or no power of two; beyond 2^32 the shift count overflows |
| `Fft.RealFft.ReversalTable` | crates/siphon-rtp-dsp/src/fft.rs:88-92 | reversing a 32-bit word and shifting it down is the bit reversal over `log2 n` bits |
| `PowersOfTwo.ReverseInWord` | crates/siphon-rtp-dsp/src/fft.rs:88-92 | the shifted 32-bit reversal equals the reversal of the low bits, for every width up to 32 |
| `PowersOfTwo.ReverseInvolution` | crates/siphon-rtp-dsp/src/fft.rs:167-173 | bit reversal undoes itself, so swapping each pair once permutes |
| `Fft.RealFft.Permute` | crates/siphon-rtp-dsp/src/fft.rs:167-173 | the swap loop leaves in every slot the sample its reversed index names |
| `Fft.PermutedIsStageZero` | crates/siphon-rtp-dsp/src/fft.rs:167-173 | after the permutation every block of size one is the transform of its strided subsequence |
| `Dft.Decimate` | crates/siphon-rtp-dsp/src/fft.rs:175-202 | a transform of even size is two half-size transforms over the squared root |
| `Dft.Butterfly` | crates/siphon-rtp-dsp/src/fft.rs:181-198 | both halves of a block of size `2h` are the sum and difference of the two half-size transforms, the second one twisted |
| `Fft.RealFft.Block` | crates/siphon-rtp-dsp/src/fft.rs:181-198 | the inner loop applies every butterfly of one block and touches nothing else |
| `Fft.RealFft.Stage` | crates/siphon-rtp-dsp/src/fft.rs:177-200 | one pass combines every pair of neighbouring blocks with the strided twiddles |
| `Fft.StageStep` | crates/siphon-rtp-dsp/src/fft.rs:175-202 | the stage invariant: if all blocks of size `half` are transforms of their subsequences, after the pass all blocks of size `2*half` are |
| `Fft.LastStage` | crates/siphon-rtp-dsp/src/fft.rs:175-202 | when one block spans the buffer, the buffer is the quadratic DFT sum |
| `Fft.RealFft.Transform` | crates/siphon-rtp-dsp/src/fft.rs:164-211 | for every size and every buffer the in-place loops leave the quadratic DFT sum in every bin, or its conjugate-root sum over `n` on the way back |
| `Fft.RealFft.Normalize` | crates/siphon-rtp-dsp/src/fft.rs:204-210 | scales every bin by `1/n` |
| `Fft.RealFft.Forward` | crates/siphon-rtp-dsp/src/fft.rs:128-137 | bins `0..n/2` are the DFT of the zero-filled or cut input, whatever the work buffer held; the rest of the output is untouched |
| `Fft.RealFft.Inverse` | crates/siphon-rtp-dsp/src/fft.rs:143-158 | the samples are the inverse of the Hermitian spectrum that the given bins stand for |
| `Fft.RealFft.FillAndMirror` | crates/siphon-rtp-dsp/src/fft.rs:146-154 | the fill and mirror loops leave the Hermitian spectrum of the given bins in the work buffer |
| `Spectra.Hermitian` | crates/siphon-rtp-dsp/src/fft.rs:151-154 | bins `k` and `n-k` of a real signal are conjugate |
| `Spectra.MirrorOfForward` | crates/siphon-rtp-dsp/src/fft.rs:147-154 | the mirror loop rebuilds the full spectrum from the stored half |
| `Dft.PowersCancel` | crates/siphon-rtp-dsp/src/fft.rs:160-163 | the powers of a non-trivial power of the root sum to zero |
| `Dft.Orthogonality` | crates/siphon-rtp-dsp/src/fft.rs:160-163 | the kernel of a transform and back sums to `n` on the diagonal and to zero off it |
| `Dft.Inversion` | crates/siphon-rtp-dsp/src/fft.rs:160-163 | transforming back under the conjugate root gives every sample times `n` |
| `Spectra.InverseOfForward` | crates/siphon-rtp-dsp/src/fft.rs:139-158 | `inverse(forward(x)) == x` for every real signal of every power-of-two size |
| `Spectra.ForwardOfInverseIff` | crates/siphon-rtp-dsp/src/fft.rs:139-158 | `forward(inverse(X)) == X` if and only if the DC and Nyquist bins are real |
| `Spectra.ForwardOfInverse` | crates/siphon-rtp-dsp/src/fft.rs:139-158 | forward after inverse keeps every inner bin and the real parts of the two outer ones |
| `Fft.RealFft.RoundTrip` | crates/siphon-rtp-dsp/src/fft.rs:128-158 | the two calls on the object give the input back, whatever the buffers held before |
| `Fft.RealFft.BinsRoundTrip` | crates/siphon-rtp-dsp/src/fft.rs:128-158 | the two calls the other way round give the bins back exactly when DC and Nyquist are real |
| `Spectra.Parseval` | crates/siphon-rtp-dsp/src/fft.rs:427-449 | the bins carry `n` times the energy of the samples |
| `Spectra.HalfSpectrumEnergy` | crates/siphon-rtp-dsp/src/fft.rs:427-449 | the same balance read off the stored half spectrum, inner bins counted twice |
| `Resampling.RoundClamp` | crates/siphon-rtp-dsp/src/resample.rs:184-191 | rounds to within a half inside the 16-bit range and clamps outside it |
| `Resampling.Gcd` | crates/siphon-rtp-dsp/src/resample.rs:41-46 | the result divides both rates and every common divisor divides it; 1 for two zeros |
| `Resampling.BuildRows` | crates/siphon-rtp-dsp/src/resample.rs:89-102 | each row holds its branch of the prototype with the taps reversed |
| `Resampling.Resampler.WithTaps` | crates/siphon-rtp-dsp/src/resample.rs:64-115 | rejects a zero rate; otherwise the object holds the reduced ratio, the prototype and its rows, with no input seen |
| `Resampling.FirIsBranch` | crates/siphon-rtp-dsp/src/resample.rs:169-182 | filtering the zero-stuffed signal is the dot product with one polyphase branch |
| `Resampling.ReferenceIsBranch` | crates/siphon-rtp-dsp/src/resample.rs:169-192 | the textbook output (zero-stuff by L, filter, keep every M-th) is branch `nM mod L` at input `nM div L` |
| `Resampling.DotIsBranch` | crates/siphon-rtp-dsp/src/resample.rs:175-183 | the contiguous dot product of history and reversed taps is the branch |
| `Resampling.RowDot` | crates/siphon-rtp-dsp/src/resample.rs:175-183 | a row suffix always has the length of the history it meets, and their dot product is the branch |
| `Resampling.Resampler.Push` | crates/siphon-rtp-dsp/src/resample.rs:161-167 | the history is the last inputs, at most one branch long |
| `Resampling.Resampler.Filter` | crates/siphon-rtp-dsp/src/resample.rs:175-192 | rounds the branch over the history up to the source; zero only for a source before the history |
| `Resampling.Resampler.Emit` | crates/siphon-rtp-dsp/src/resample.rs:141-150 | at the newest input the emitted sample is the textbook output |
| `Resampling.SourceIsNewest` | crates/siphon-rtp-dsp/src/resample.rs:141-150 | an output becomes available exactly when its source is the newest input, so the early return of `filter` is never taken |
| `Resampling.CeilDivMeaning` | crates/siphon-rtp-dsp/src/resample.rs:136-152 | `ceil(NL/M)` is the least number of outputs that covers `N` inputs |
| `Resampling.Resampler.ProcessSample` | crates/siphon-rtp-dsp/src/resample.rs:138-151 | one input emits exactly the outputs that become due, and earlier outputs stay as they are |
| `Resampling.Resampler.Process` | crates/siphon-rtp-dsp/src/resample.rs:136-152 | appends exactly the textbook outputs that have become due, for every rate pair, prototype and input |
| `Resampling.ReferenceCausal` | crates/siphon-rtp-dsp/src/resample.rs:136-152 | an output whose source has arrived does not depend on later input |
| `Resampling.OutputsCausal` | crates/siphon-rtp-dsp/src/resample.rs:136-152 | later input leaves every output already due unchanged |
| `Resampling.Resampler.ProcessChunks` | crates/siphon-rtp-dsp/src/resample.rs:252-268 | any splitting of a stream into calls yields the `ceil(NL/M)` outputs of the whole stream |
| `Resampling.Resampler.Reset` | crates/siphon-rtp-dsp/src/resample.rs:155-159 | the next sample starts a new stream |
| `Datapath.SubnetIsBlock` | crates/siphon-rtp-datapath/src/lib.rs:247-267 | an IPv4 subnet of any prefix, longer ones cut to 32, admits exactly the block of addresses from its masked network on |
| `Datapath.SubnetIsBlock6` | crates/siphon-rtp-datapath/src/lib.rs:247-267 | the same for IPv6 and 128 bits |
| `Datapath.FamiliesApart` | crates/siphon-rtp-datapath/src/lib.rs:247-267 | a subnet never admits a source of the other address family |
| `Delivery.SsrcIff` | crates/siphon-rtp-ebpf-common/src/rewrite.rs:209-229 | the stream key is the big-endian number in bytes 8 to 11 of a whole RTP header, and nothing else has one |
| `Delivery.ForwardedIff` | crates/siphon-rtp-datapath/src/udp.rs:281-372 | under a Forward rule a datagram is sent to a destination if and only if it is media, passes the gates of its endpoint, is not RTCP kept for userspace, the out endpoint is registered, and the destination is its latched source, else the signalled one; with and without ICE |
| `Delivery.RedirectedIff` | crates/siphon-rtp-datapath/src/udp.rs:316-433 | a datagram reaches userspace if and only if a Forward rule keeps it as admitted RTCP, or a Redirect flow receives it and ICE lets its source in; STUN that ICE claims never does |
| `Delivery.LatchAfter` | crates/siphon-rtp-datapath/src/udp.rs:521-537 | after an admitted datagram the latch holds its source, and the key of the stream that opened it |
| `Delivery.ForgottenIff` | crates/siphon-rtp-datapath/src/udp.rs:496-515 | installing a flow forgets a latch if and only if a new Forward rule no longer admits it or points the leg towards it elsewhere, and never one under ICE |
| `Delivery.MediaReachesOtherSide` | crates/siphon-rtp-datapath/src/udp.rs:281-372 | with a rule on each of two endpoints, every media datagram of the two peers, in any interleaving, goes out of the other endpoint to the other side |
| `Delivery.NewCallConnects` | crates/siphon-rtp-datapath/src/udp.rs:281-372 | from a new datapath: two registrations and two rules connect the call both ways |
| `IceChecks.BeforeColonIff` | crates/siphon-rtp-datapath/src/lib.rs:420-423 | a username names the user fragment if and only if it is that fragment, which has no colon, alone or followed by a colon |
| `IceChecks.CheckOnEndpoint` | crates/siphon-rtp-datapath/src/lib.rs:410-441 | a STUN datagram on an ICE endpoint is answered if and only if it is a binding request that names the fragment and is signed with the password, else dropped; the path moves if and only if it also asks for the pair with a priority no lower than the stored one |
| `IceChecks.OnlyProvenChecksMove` | crates/siphon-rtp-datapath/src/udp.rs:911-976 | in every run, a datagram that moves the latch or the priority of an ICE endpoint arrived there, proved its credentials and asked for the pair |
| `IceChecks.SetsPathIff` | crates/siphon-rtp-datapath/src/udp.rs:937-957 | the events that set the path, in terms of raw datagrams |
| `IceChecks.DeliveredOverProvenPath` | crates/siphon-rtp-datapath/src/udp.rs:395-462 | after credentials are given to an endpoint without a latch, every delivered datagram comes from the source of the latest adoption or of the latest check that proved the credentials in force and won on priority |
| `Backend.Inner.constructor` | crates/siphon-rtp-datapath/src/udp.rs:624-656 | no endpoints, flows, latches or credentials |
| `Backend.Inner.UpdateLatch` | crates/siphon-rtp-datapath/src/udp.rs:521-537 | learns, keeps or rejects exactly as the SSRC-consistent verdict says |
| `Backend.Inner.DispatchForward` | crates/siphon-rtp-datapath/src/udp.rs:281-415 | gate, latch update and relay of one datagram under a Forward rule, as one step |
| `Backend.Inner.DispatchDatagram` | crates/siphon-rtp-datapath/src/udp.rs:250-433 | forward, redirect or drop of one datagram, as one step |
| `Backend.Inner.AnswerCheck` | crates/siphon-rtp-datapath/src/udp.rs:911-976 | a valid nominating check moves the path if its priority supersedes |
| `Backend.Inner.ReceiveDatagram` | crates/siphon-rtp-datapath/src/udp.rs:984-1061 | one received datagram is one step |
| `Backend.Inner.ForgetStale` | crates/siphon-rtp-datapath/src/udp.rs:496-515 | drops exactly the latches the new rule no longer supports |
| `Backend.Inner.Install` | crates/siphon-rtp-datapath/src/udp.rs:1123-1132 | installs a flow and forgets stale latches; an unknown endpoint is reported and changes nothing |
| `Backend.Inner.Apply` | crates/siphon-rtp-datapath/src/udp.rs:984-1347 | each call is the step of its event |
| `Backend.Inner.RunEvents` | crates/siphon-rtp-datapath/src/udp.rs:984-1347 | any sequence of calls and datagrams runs the state machine, outcome by outcome; from a new object every latch is admitted by its rule, and every datagram delivered from a guarded endpoint came over its path |
| `IcePath.RunTracks` | crates/siphon-rtp-datapath/src/udp.rs:250-301 | along every run that keeps the credentials, the stored latch and priority are what the events say |
| `IcePath.PrioritiesNeedCredentials` | crates/siphon-rtp-datapath/src/udp.rs:1291-1316 | in every reachable state priorities are stored only for endpoints with credentials |
| `IcePath.IcePathSafety` | crates/siphon-rtp-datapath/src/udp.rs:395-462 | after credentials are given to an endpoint without a latch, every datagram forwarded or redirected from it came from the latest adopted or superseding nominated source; nothing before the first |
| `IcePath.EarlierLatchLeaks` | crates/siphon-rtp-datapath/src/udp.rs:449-462 | on a registered endpoint with an earlier media latch, some run delivers a datagram without any nomination |
| `IcePath.PathSafeIff` | crates/siphon-rtp-datapath/src/udp.rs:395-462 | in every reachable state, a registered endpoint that is given credentials delivers only over its path, in every later run that keeps them, if and only if it had no latch |
| `IcePath.EarlierLatchIsReached` | crates/siphon-rtp-datapath/src/udp.rs:281-300 | such a latch is reached from the initial state by one media datagram through an open gate |
| `IcePath.PathHasLatestSetter` | crates/siphon-rtp-datapath/src/udp.rs:937-957 | the path is always the work of the latest event that set one |
| `IcePath.ForwardOnlyOpensByAdoption` | crates/siphon-rtp-datapath/src/udp.rs:1028-1060 | on a forward-only endpoint the path is always the latest adopted source |
| `IcePath.ForwardOnlyDelivers` | crates/siphon-rtp-datapath/src/udp.rs:1028-1060 | on a forward-only endpoint every delivered datagram came from the latest adopted source |
| `IcePath.GuardedRunIsSafe` | crates/siphon-rtp-datapath/src/udp.rs:395-462 | the path theorem over one whole run from the initial state, wherever in it the credentials are given |
| `IcePath.TrailSelectsHighest` | crates/siphon-rtp-datapath/src/lib.rs:394-396 | the selected source is that of the last nomination with the highest priority |
| `IcePath.SessionSelectsHighest` | crates/siphon-rtp-datapath/src/udp.rs:937-957 | in a session without adoptions the stored priority is the maximum over the nominating checks and the path is the source of the last check that attains it |
| `IcePath.PathWaitsForNomination` | crates/siphon-rtp-datapath/src/udp.rs:937-957 | without a superseding nomination or adoption the path stays |
| `IcePath.RestartKeepsPath` | crates/siphon-rtp-datapath/src/udp.rs:1291-1316 | a restart with a new ufrag clears the priority at once and keeps the path until the new session nominates |
| `LatchGate.LatchAlwaysAdmitted` | crates/siphon-rtp-datapath/src/udp.rs:281-300 | in every reachable state, on an endpoint never steered by ICE, the latched source is one the installed rule admits |
| `LatchGate.ForwardGoesToLatchOrSignalled` | crates/siphon-rtp-datapath/src/udp.rs:340-350 | a forwarded datagram goes to the latched source of the out endpoint, else to the signalled destination |
| `LatchGate.ReAnswerLeavesOldPeer` | crates/siphon-rtp-datapath/src/udp.rs:496-515 | after both calls of a re-answer, in either order and under any interleaving, nothing is forwarded to a replaced source the new gate rejects |
| `LatchGate.LatchMovesOnlyOnItsKey` | crates/siphon-rtp-ebpf-common/src/rewrite.rs:209-229 | once a stream is latched, a new latched source is always that of a datagram with its SSRC, along every run without a steering call, a removal or a new Forward rule that names the endpoint |
| `Allocator.SlotsAlwaysBalance` | crates/siphon-rtp-datapath/src/udp.rs:696-770 | in every interleaving `live` equals registered endpoints plus operations in flight, and registered endpoints never exceed the cap |
| `Allocator.PortsAlwaysBalance` | crates/siphon-rtp-datapath/src/udp.rs:799-842 | for a range above port 0, in every interleaving no port has two holders and the reserved ports are exactly the held ones |
| `Allocator.QuietIsClean` | crates/siphon-rtp-datapath/src/udp.rs:696-770 | when no operation is in flight, every slot and port is accounted for by a registered endpoint |
| `Allocator.WildcardLeaks` | crates/siphon-rtp-datapath/src/udp.rs:1138-1156 | a range that starts at port 0 leaks: after one allocation and the removal of its endpoint nothing is registered, live or in flight, and port 0 is still reserved |
| `Allocator.NoSlotsNoPorts` | crates/siphon-rtp-datapath/src/udp.rs:696-712 | with a cap of zero nothing is ever reserved or registered |
| `Allocator.NeverLeaksIff` | crates/siphon-rtp-datapath/src/udp.rs:1138-1156 | no run leaves a slot or port behind if and only if the range starts above 0 or the cap is zero |
| `PortPool.PortAllocator.SpanCoversWindow` | crates/siphon-rtp-datapath/src/udp.rs:126-144 | a whole span of cursor values names every port of the window |
| `PortPool.PortAllocator.ReserveNext` | crates/siphon-rtp-datapath/src/udp.rs:134-144 | the first unreserved port in cursor order, and none only if the whole window is reserved |
| `PortPool.PortAllocator.ReserveExact` | crates/siphon-rtp-datapath/src/udp.rs:148-153 | succeeds exactly for a free port of the window |
| `PortPool.PortAllocator.Release` | crates/siphon-rtp-datapath/src/udp.rs:156-158 | frees the port |
| `PortPool.PortAllocator.BindInRange` | crates/siphon-rtp-datapath/src/udp.rs:799-819 | binds a free port; exhaustion is reported only if every unreserved port is in use; every failure restores the reserved set |
| `PortPool.BindIffPossible` | crates/siphon-rtp-datapath/src/udp.rs:799-819 | when the only failures are taken ports, the call succeeds if and only if some free port can be bound |
| `Allocation.AllocationAlone` | crates/siphon-rtp-datapath/src/udp.rs:696-842 | an allocation that nothing interferes with, in any state of the pool, registers a free port of the window if and only if there is a slot and a free port, and otherwise leaves nothing behind |
| `Allocation.SpecificAllocationAlone` | crates/siphon-rtp-datapath/src/udp.rs:740-842 | the same for one given port |
| `Allocation.RemovalAlone` | crates/siphon-rtp-datapath/src/udp.rs:1138-1166 | a removal returns its endpoint, port and slot |
| `G726.A2Bounds` | crates/siphon-rtp-codec/src/g726.rs:338-366 | the second pole coefficient stays within 12288 |
| `G726.StepSizeBounds` | crates/siphon-rtp-codec/src/g726.rs:295-308 | the step size stays in 544..5120 |
| `G726.UpdateKeepsOk` | crates/siphon-rtp-codec/src/g726.rs:314-462 | one adaptation keeps every bound: the scale factors, the speed and the pole triangle |
| `G726.CoreKeepsOk` | crates/siphon-rtp-codec/src/g726.rs:545-577 | every bound survives every codeword at every rate, so it holds over runs of any length |
| `G726.ReconstructionLossless` | crates/siphon-rtp-codec/src/g726.rs:105-111 | the antilog exponent stays below 15 and the magnitude mask drops no bit |
| `G726.SampleIsEstimatePlusDifference` | crates/siphon-rtp-codec/src/g726.rs:545-577 | the reconstructed sample is the wrapped estimate plus difference, and unwrapped exactly when that fits 16 bits; below 40 kbit/s it always does, and `dqsez` fits too |
| `G726Wrap.SafeStepIff` | crates/siphon-rtp-codec/src/g726.rs:545-577 | a codeword fits 16 bits next to every 15-bit estimate if and only if its log level plus a quarter of the step is at most 1792 |
| `G726Wrap.SmallStepIsSafe` | crates/siphon-rtp-codec/src/g726.rs:545-577 | below a step of 4908 the reconstructed sample never wraps, whatever the codeword |
| `G726Wrap.LoudWraps` | crates/siphon-rtp-codec/src/g726.rs:545-577 | a state within the bounds and a codeword at 40 kbit/s whose reconstructed sample is 37504 wrapped to -28032 |
| `G726Wrap.EncodedSampleFits` | crates/siphon-rtp-codec/src/g726.rs:501-534 | on the codeword an encoder picks, the reconstructed sample never wraps, at any rate, in any state and for any sample |
| `G726.FloatIsNormalised` | crates/siphon-rtp-codec/src/g726.rs:411-438 | a stored float has a normalised six-bit mantissa and a four-bit exponent and fits its word |
| `G726.QuantizeIsCode` | crates/siphon-rtp-codec/src/g726.rs:184-208 | the quantizer only produces codewords of its rate |
| `G726Predictor.FloatKeepsMagnitude` | crates/siphon-rtp-codec/src/g726.rs:411-438 | a stored float is its magnitude, less at most one part in 33 |
| `G726Predictor.StoredDifference` | crates/siphon-rtp-codec/src/g726.rs:411-425 | a stored difference keeps sign and magnitude |
| `G726Predictor.StoredSample` | crates/siphon-rtp-codec/src/g726.rs:426-438 | so does a stored sample |
| `G726Predictor.FmultIsProduct` | crates/siphon-rtp-codec/src/g726.rs:161-182 | the floating product has the sign of coefficient times signal and is within 67/64 and 32/33 of its magnitude, wherever that fits |
| `G726Predictor.StepBetweenScales` | crates/siphon-rtp-codec/src/g726.rs:295-308 | the step size lies between the slow and the fast scale factor |
| `G726Predictor.StepFollowsSpeed` | crates/siphon-rtp-codec/src/g726.rs:295-308 | and moves towards the fast one as the speed control rises |
| `G726Predictor.StepInterpolates` | crates/siphon-rtp-codec/src/g726.rs:295-308 | at the point that the speed control names, to within one |
| `G726Predictor.LogMeaning` | crates/siphon-rtp-codec/src/g726.rs:184-192 | the logarithm of a difference is whole octaves and a linear fraction of 128 steps |
| `G726Predictor.AntilogMeaning` | crates/siphon-rtp-codec/src/g726.rs:223-232 | the antilogarithm undoes it, up to the bits below one |
| `G726Predictor.SilenceIsLeast` | crates/siphon-rtp-codec/src/g726.rs:411-438 | silence is stored as the least float, and so is the one sample without an opposite |
| `G726Predictor.TapIsNear` | crates/siphon-rtp-codec/src/g726.rs:161-182 | a tap of the predictor is the exact product to within a sixteenth and a constant |
| `G726Predictor.ZerosAreLinear` | crates/siphon-rtp-codec/src/g726.rs:280-286 | the zero predictor is the sum of its exact products, to within a sixteenth of their magnitudes |
| `G726Predictor.PolesAreLinear` | crates/siphon-rtp-codec/src/g726.rs:289-293 | so is the pole predictor |
| `G726Predictor.EstimateIsHalf` | crates/siphon-rtp-codec/src/g726.rs:501-515 | the estimate is half the sum of the two |
| `G726Gradient.StaysNormalised` | crates/siphon-rtp-codec/src/g726.rs:411-438 | stored floats stay normalised, as that linearity asks |
| `G726Gradient.PolesFollowSigns` | crates/siphon-rtp-codec/src/g726.rs:349-396 | each pole leaks and is pushed up where the partial reconstruction has the sign of the one it looks back to, down where it has the other, up to its limit |
| `G726Gradient.PolesMoveBy` | crates/siphon-rtp-codec/src/g726.rs:349-396 | by 192 and 128, inside the triangle |
| `G726Gradient.FirstPoleReachesLimit` | crates/siphon-rtp-codec/src/g726.rs:384-396 | while the partial reconstructions keep one sign the first pole climbs to its limit, while they alternate it falls to the opposite one: within 659 codewords, from any state, at any rate |
| `G726Gradient.ZerosFollowSigns` | crates/siphon-rtp-codec/src/g726.rs:397-410 | each zero moves by the sign of the codeword against that of its stored difference |
| `G726Gradient.StoredSigns` | crates/siphon-rtp-codec/src/g726.rs:411-438 | the stored differences carry the signs of the last six codewords, newest first |
| `G726Gradient.WeightsRise` | crates/siphon-rtp-codec/src/g726.rs:24-60 | levels rise strictly with the codeword, weights and speeds never fall |
| `G726Gradient.TablesMirror` | crates/siphon-rtp-codec/src/g726.rs:24-60 | the sign of a codeword changes neither level nor weight nor speed |
| `G726Gradient.ScalesFollowCode` | crates/siphon-rtp-codec/src/g726.rs:338-342 | the fast scale factor moves a thirty-second of the way to the weight of the codeword, the slow one a sixty-fourth of the way to the fast one |
| `G726Gradient.AveragesFollowCode` | crates/siphon-rtp-codec/src/g726.rs:449-450 | the two averages follow the speed of the codeword |
| `G726Gradient.SpeedFollowsSignal` | crates/siphon-rtp-codec/src/g726.rs:451-462 | the speed control rises while the step is small, in a tone or while the averages disagree, falls otherwise, and jumps on a transition |
| `G726Gradient.TransitionMeaning` | crates/siphon-rtp-codec/src/g726.rs:327-337 | a transition is a tone whose difference passes three quarters of the slow scale read linearly |
| `G726Gradient.TonesAndTransitions` | crates/siphon-rtp-codec/src/g726.rs:327-337 | only a tone can end in a transition, and a tone is a second pole near its lower end |
| `G726.LevelInInterval` | crates/siphon-rtp-codec/src/g726.rs:184-232 | the level a codeword decodes to lies in the decision interval that selected it |
| `BitStream.WordsComeBack` | crates/siphon-rtp-codec/src/g726.rs:589-616 | words packed least significant bit first come back, whatever follows |
| `BitStream.PushWord` | crates/siphon-rtp-codec/src/g726.rs:646-661 | one word goes into the accumulator and every full octet out, no bit lost |
| `BitStream.PullWord` | crates/siphon-rtp-codec/src/g726.rs:601-613 | one word comes out of the accumulator without reading past the payload |
| `G726Codec.Codec.constructor` | crates/siphon-rtp-codec/src/g726.rs:476-487 | the reset state, inside all its bounds |
| `G726Codec.Codec.ZeroPrediction` | crates/siphon-rtp-codec/src/g726.rs:280-286 | the loop computes the zero-predictor sum |
| `G726Codec.Codec.QuantizeDifference` | crates/siphon-rtp-codec/src/g726.rs:184-208 | the threshold search finds the codeword |
| `G726Codec.Codec.Adapt` | crates/siphon-rtp-codec/src/g726.rs:314-462 | the in-place update of all state variables |
| `G726Codec.Codec.EncodeSample` | crates/siphon-rtp-codec/src/g726.rs:501-534 | chooses the codeword; its own reconstruction and the state it leaves are those of a decoder on that codeword |
| `G726Codec.Codec.DecodeCore` | crates/siphon-rtp-codec/src/g726.rs:545-577 | decodes one codeword and adapts |
| `G726Codec.Codec.Encode` | crates/siphon-rtp-codec/src/g726.rs:636-665 | packs the codeword sequence least significant bit first and reconstructs as a decoder would; a short buffer is reported and changes nothing |
| `G726Codec.Codec.Decode` | crates/siphon-rtp-codec/src/g726.rs:589-616 | one sample per whole codeword; a short buffer is reported and changes nothing |
| `G726Codec.UnpackedIsPrefix` | crates/siphon-rtp-codec/src/g726.rs:589-616 | unpacking what was packed gives the codewords back as a prefix |
| `G726Codec.LockStep` | crates/siphon-rtp-codec/src/g726.rs:501-577 | a decoder that reads the packed octets has the codewords of every prefix and outputs the encoder's reconstruction for every sample |
| `G726Codec.ReconstructionAt` | crates/siphon-rtp-codec/src/g726.rs:545-577 | reconstruction `k` is the decoded sample in the state the codewords before it leave |
| `G726Packets.Phantoms` | crates/siphon-rtp-codec/src/g726.rs:589-616 | the samples a decoder finds in the padding: at most three, none exactly when the padding is shorter than a codeword |
| `G726Packets.PaddingRoom` | crates/siphon-rtp-codec/src/g726.rs:589-665 | a decoder counts the encoded samples if and only if the padding is shorter than a codeword |
| `G726Packets.PaddingIsZero` | crates/siphon-rtp-codec/src/g726.rs:646-661 | every codeword read from the padding is zero |
| `G726Packets.UnpackedWithPadding` | crates/siphon-rtp-codec/src/g726.rs:589-665 | a decoder reads the codewords and then one zero codeword per phantom sample |
| `G726Packets.PacketIsNumber` | crates/siphon-rtp-codec/src/g726.rs:646-661 | octets and codewords are the digits of one number, least significant first |
| `G726Packets.ZeroCodeMark` | crates/siphon-rtp-codec/src/g726.rs:411-438 | above 16 kbit/s the newest stored difference tells a zero codeword from every other |
| `G726Packets.NeverEmitsZero` | crates/siphon-rtp-codec/src/g726.rs:184-208 | above 16 kbit/s the encoder never emits a zero codeword |
| `G726Packets.IdleAlwaysMoves` | crates/siphon-rtp-codec/src/g726.rs:314-462 | at 16 kbit/s one to three zero codewords change every state |
| `G726Packets.PhantomsDiverge` | crates/siphon-rtp-codec/src/g726.rs:501-577 | phantom samples always move the decoder away from the encoder |
| `G726Packets.PacketKeepsStepIff` | crates/siphon-rtp-codec/src/g726.rs:589-665 | after a packet the two states are equal if and only if the padding is shorter than a codeword, at every rate, in every state and for every buffer |
| `G726Packets.OneSampleLosesStep` | crates/siphon-rtp-codec/src/g726.rs:589-616 | a packet of one sample loses the common state at 16, 24 and 32 kbit/s, whatever the sample |
| `G726Packets.WholeStaysInStep` | crates/siphon-rtp-codec/src/g726.rs:589-665 | packets without phantom samples keep the states equal after every packet |
| `G726Packets.StreamInStepIff` | crates/siphon-rtp-codec/src/g726.rs:589-665 | encoder and decoder agree after every packet of a stream if and only if no packet has phantom samples |
| `G726Packets.RoundTrip` | crates/siphon-rtp-codec/src/g726.rs:589-665 | the two objects over any buffer: every decoded sample is the encoder's reconstruction, then the phantoms; the states are equal at the end exactly when there are none |
| `G726Packets.Transmit` | crates/siphon-rtp-codec/src/g726.rs:589-665 | the two objects over a stream of such packets end with equal states |
| `G722.Block4` | crates/siphon-rtp-codec/src/g722.rs:134-198 | the predictor update keeps 16-bit histories and the pole triangle, and no 32-bit intermediate overflows |
| `G722.ScaleBounds` | crates/siphon-rtp-codec/src/g722.rs:203-212 | low-band scale factors stay in 32..16384, high-band ones in 8..16384 |
| `G722.LowInterval` | crates/siphon-rtp-codec/src/g722.rs:276-284 | the first decision interval whose edge exceeds the magnitude |
| `G722.LevelsInIntervals` | crates/siphon-rtp-codec/src/g722.rs:34-69 | each fine level lies between the decision levels that select it, and the two sign branches are mirror images |
| `G722.LowDifferenceError` | crates/siphon-rtp-codec/src/g722.rs:274-291 | for every input the decoder's fine difference is within the reach of its decision interval of the encoder's; in the open outermost one that is the distance to the last level |
| `G722.LowSampleTracksInput` | crates/siphon-rtp-codec/src/g722.rs:335-349 | for every input the decoded low-band sample follows the limited input within that reach and whatever the 16-bit difference lost |
| `G722.HighDifferenceError` | crates/siphon-rtp-codec/src/g722.rs:295-307 | the same bound for both intervals of the high band |
| `G722.HighSampleTracksInput` | crates/siphon-rtp-codec/src/g722.rs:350-361 | the same for the decoded high-band sample |
| `G722.LowStep` | crates/siphon-rtp-codec/src/g722.rs:287-291 | the low band stays in its bounds after every code |
| `G722.HighStep` | crates/siphon-rtp-codec/src/g722.rs:303-307 | the high band stays in its bounds after every code |
| `G722.BandsAfter` | crates/siphon-rtp-codec/src/g722.rs:273-361 | both bands stay in their bounds after every code byte |
| `G722.CodeSplits` | crates/siphon-rtp-codec/src/g722.rs:310-338 | the byte splits into the two codes the encoder chose |
| `G722.QmfBounds` | crates/siphon-rtp-codec/src/g722.rs:259-266 | the QMF sums stay far inside 32 bits |
| `G722Qmf.ConstantGoesLow` | crates/siphon-rtp-codec/src/g722.rs:254-268 | a constant line is half of itself in the low band and nothing in the high band |
| `G722Qmf.AlternationGoesHigh` | crates/siphon-rtp-codec/src/g722.rs:254-268 | the fastest alternation is nothing in the low band and half of itself in the high band |
| `G722Qmf.ForwardThenBackward` | crates/siphon-rtp-codec/src/g722.rs:259-264 | the two polyphase filters one after the other, as one filter |
| `G722Qmf.RippleBounded` | crates/siphon-rtp-codec/src/g722.rs:259-264 | that filter is a delay up to a ripple of one part in 413 |
| `G722Qmf.FilterBankReturns` | crates/siphon-rtp-codec/src/g722.rs:254-330 | fed the band samples of the transmit filter, the receive filter gives every stream back 22 samples later, both samples of a pair and in order, to within 86 of 32768 |
| `G722Qmf.TransmitLine` | crates/siphon-rtp-codec/src/g722.rs:254-258 | the transmit line is the last 24 samples of the stream |
| `G722Qmf.ReceiveLine` | crates/siphon-rtp-codec/src/g722.rs:314-322 | the receive line is sum and difference of the last twelve band pairs |
| `G722Qmf.DecodedSpeechReturns` | crates/siphon-rtp-codec/src/g722.rs:254-361 | end to end: if both quantizers stay within an error over the twelve pairs of a sample, the decoded sample is within 86 plus seven times that error of it |
| `G722Adaptation.PolesFollowSigns` | crates/siphon-rtp-codec/src/g722.rs:145-166 | each pole leaks and moves by the sign of the partial signal against the one it looks back to, inside the triangle |
| `G722Adaptation.ZerosFollowSigns` | crates/siphon-rtp-codec/src/g722.rs:168-182 | each zero by the sign of the difference against its stored one |
| `G722Adaptation.FirstPoleReachesLimit` | crates/siphon-rtp-codec/src/g722.rs:159-166 | partial signals of one sign drive the first pole to its limit within 659 samples, alternating ones to the opposite |
| `G722Adaptation.PolesPredict` | crates/siphon-rtp-codec/src/g722.rs:183-188 | the pole prediction is the linear one to within two |
| `G722Adaptation.ZerosPredict` | crates/siphon-rtp-codec/src/g722.rs:189-194 | the zero prediction to within one per tap |
| `G722Adaptation.PredictionOf` | crates/siphon-rtp-codec/src/g722.rs:176-198 | the prediction combines the new coefficients with the new signals |
| `G722Adaptation.LevelsRise` | crates/siphon-rtp-codec/src/g722.rs:53-56 | the thirty-two steps of an octave rise |
| `G722Adaptation.OctaveDoubles` | crates/siphon-rtp-codec/src/g722.rs:203-212 | 2048 more in the log scale factor doubles the step |
| `G722Adaptation.CoarseInsideFine` | crates/siphon-rtp-codec/src/g722.rs:58-69 | the level that adapts the low band lies inside the fine levels that share its bits |
| `G722Adaptation.LouderCodesRaiseMore` | crates/siphon-rtp-codec/src/g722.rs:49-51 | a louder code raises the log scale factor by more |
| `G722Adaptation.LogScaleMoves` | crates/siphon-rtp-codec/src/g722.rs:286-289 | the log scale factor leaks and moves by the weight of the code |
| `G722Adaptation.HighLogScaleMoves` | crates/siphon-rtp-codec/src/g722.rs:303-306 | in the high band the outer code raises it and the inner one lowers it |
| `G722Adaptation.LoudestCodesOpen` | crates/siphon-rtp-codec/src/g722.rs:286-289 | seven of the loudest codes open the step fully from any state |
| `G722Adaptation.QuietestCodesClose` | crates/siphon-rtp-codec/src/g722.rs:286-289 | 308 of the quietest close it |
| `G722Codec.BandState.Adapt` | crates/siphon-rtp-codec/src/g722.rs:134-198 | the in-place predictor update |
| `G722Codec.BandState.ZeroCoefficients` | crates/siphon-rtp-codec/src/g722.rs:168-175 | the six zero coefficients by the loop |
| `G722Codec.BandState.ZeroPrediction` | crates/siphon-rtp-codec/src/g722.rs:189-194 | the zero predictor, saturated only at the end |
| `G722Codec.Codec.constructor` | crates/siphon-rtp-codec/src/g722.rs:228-239 | zeroed bands with scale factors 32 and 8 |
| `G722Codec.Codec.EncodeLow` | crates/siphon-rtp-codec/src/g722.rs:275-291 | quantizes and adapts the low band to the state a decoder reaches on the code |
| `G722Codec.Codec.QuantizeLow` | crates/siphon-rtp-codec/src/g722.rs:275-286 | the threshold search finds the codeword |
| `G722Codec.Codec.EncodeHigh` | crates/siphon-rtp-codec/src/g722.rs:295-307 | quantizes and adapts the high band to the state a decoder reaches on the code |
| `G722Codec.Codec.EncodeSubband` | crates/siphon-rtp-codec/src/g722.rs:273-311 | chooses the byte and leaves the bands a decoder reaches on it |
| `G722Codec.Codec.DecodeLow` | crates/siphon-rtp-codec/src/g722.rs:335-349 | the limited low-band sample, and the band after the code |
| `G722Codec.Codec.DecodeHigh` | crates/siphon-rtp-codec/src/g722.rs:350-361 | the limited high-band sample, and the band after the code |
| `G722Codec.Codec.DecodeSubband` | crates/siphon-rtp-codec/src/g722.rs:335-361 | both limited samples, and the bands after the byte |
| `G722Codec.Codec.Filter` | crates/siphon-rtp-codec/src/g722.rs:259-264 | both polyphase sums of the delay line |
| `G722Codec.Codec.SplitBands` | crates/siphon-rtp-codec/src/g722.rs:259-266 | the two scaled band inputs of the delay line |
| `G722Codec.Codec.EncodePair` | crates/siphon-rtp-codec/src/g722.rs:254-268 | transmit QMF and one code byte |
| `G722Codec.Codec.DecodeByte` | crates/siphon-rtp-codec/src/g722.rs:314-330 | receive QMF and two output samples |
| `G722Codec.Codec.Encode` | crates/siphon-rtp-codec/src/g722.rs:408-420 | one byte per pair; a short buffer is reported and changes nothing |
| `G722Codec.Codec.Decode` | crates/siphon-rtp-codec/src/g722.rs:373-387 | two samples per byte; a short buffer is reported and changes nothing |
| `G722Codec.CodesPrefix` | crates/siphon-rtp-codec/src/g722.rs:416-418 | byte `k` is the code of pair `k` in the state the pairs before it left |
| `G722Codec.LockStep` | crates/siphon-rtp-codec/src/g722.rs:273-361 | for every sample stream the decoder's bands equal the encoder's after every byte |
| `G722Codec.DecodedFollowsInput` | crates/siphon-rtp-codec/src/g722.rs:254-361 | in every run and for every pair, both decoded band samples follow the encoder's own band inputs within the reach of the chosen interval |
| `G722Codec.RoundTrip` | crates/siphon-rtp-codec/src/g722.rs:373-420 | two fresh objects over any buffer end with equal bands |
| `GsmMath.WordProduct` | crates/siphon-rtp-codec/src/gsm_fr.rs:60-78 | only the product of two minima fails to fit after the shift |
| `GsmMath.NormFits` | crates/siphon-rtp-codec/src/gsm_fr.rs:90-103 | the shift brings any non-zero value just below the sign bit and never past it |
| `GsmMath.Div` | crates/siphon-rtp-codec/src/gsm_fr.rs:106-124 | restoring division gives the floor of `num * 2^15 / den`, 32767 for equal operands |
| `GsmMath.Peak` | crates/siphon-rtp-codec/src/gsm_fr.rs:257-263 | the largest magnitude |
| `GsmOffset.Step` | crates/siphon-rtp-codec/src/gsm_fr.rs:231-248 | one sample keeps the offset filter's memory bounded |
| `GsmOffset.StepExact` | crates/siphon-rtp-codec/src/gsm_fr.rs:235-245 | no difference wraps and no sum saturates on a bounded memory |
| `GsmOffset.NeverSaturates` | crates/siphon-rtp-codec/src/gsm_fr.rs:241-247 | the wrapping and saturating step is the exact recursive filter |
| `GsmOffset.StreamNeverSaturates` | crates/siphon-rtp-codec/src/gsm_fr.rs:227-252 | from silence, for every input stream, the 32-bit state is exact at every sample |
| `GsmOffset.Preprocess` | crates/siphon-rtp-codec/src/gsm_fr.rs:227-252 | the loop over a frame |
| `GsmEmphasis.DeemphasisUndoes` | crates/siphon-rtp-codec/src/gsm_fr.rs:244-247 | from states that agree to within seven, de-emphasis agrees with the signal before pre-emphasis to within seven after every sample of every stream whose emphasised sums fit |
| `GsmEmphasis.OutputIsTwice` | crates/siphon-rtp-codec/src/gsm_fr.rs:681-689 | the output is twice that signal, to within 21 |
| `GsmAnalysis.ScaleBitsFit` | crates/siphon-rtp-codec/src/gsm_fr.rs:264-268 | at most four bits are dropped, and the rest of the peak is below 2048 |
| `GsmAnalysis.ScaledRounds` | crates/siphon-rtp-codec/src/gsm_fr.rs:269-274 | scaling rounds to the nearest multiple of the dropped bits |
| `GsmAnalysis.ScaledBelow` | crates/siphon-rtp-codec/src/gsm_fr.rs:269-274 | every scaled sample is within 2048 |
| `GsmAnalysis.RestoreWraps` | crates/siphon-rtp-codec/src/gsm_fr.rs:288-292 | scaling back is within half of the dropped bits if and only if the sample is not at the very top of a full-scale frame, where it wraps |
| `GsmFullScale.WrapIsReached` | crates/siphon-rtp-codec/src/gsm_fr.rs:227-293 | the wrap happens from a fresh encoder: frames at the negative rail, then a sample at the positive one, leave -32768 in its place, whatever follows it in the frame |
| `GsmAnalysis.CorrBounded` | crates/siphon-rtp-codec/src/gsm_fr.rs:278-287 | the nine sums fit 32 bits, doubled too |
| `GsmAnalysis.EnergyDominates` | crates/siphon-rtp-codec/src/gsm_fr.rs:278-287 | no lag correlates more than the energy |
| `GsmAnalysis.Accumulate` | crates/siphon-rtp-codec/src/gsm_fr.rs:275-287 | the triangular double loop computes the nine sums |
| `GsmAnalysis.Autocorrelation` | crates/siphon-rtp-codec/src/gsm_fr.rs:256-293 | the sums of the scaled frame, and what the frame holds afterwards |
| `GsmLar.SumsDominated` | crates/siphon-rtp-codec/src/gsm_fr.rs:300-304 | normalizing by the energy shifts no correlation out of range |
| `GsmLar.SchurStage` | crates/siphon-rtp-codec/src/gsm_fr.rs:325-333 | the in-place row update equals the parallel one |
| `GsmLar.Schur` | crates/siphon-rtp-codec/src/gsm_fr.rs:311-335 | the recursion, ending in zeros when a correlation exceeds its energy |
| `GsmLar.Reflect` | crates/siphon-rtp-codec/src/gsm_fr.rs:295-336 | the eight reflection coefficients |
| `LinearPrediction.ErrorIsOrthogonal` | crates/siphon-rtp-codec/src/gsm_fr.rs:295-336 | on exact numbers, coefficients that cancel the first remaining correlation at every stage leave an error orthogonal to all samples predicted from |
| `LinearPrediction.EnergyShrinks` | crates/siphon-rtp-codec/src/gsm_fr.rs:321-325 | and shrink its energy by the square of each |
| `LinearPrediction.NormalEquations` | crates/siphon-rtp-codec/src/gsm_fr.rs:295-336 | these are the normal equations of the predictor |
| `LinearPrediction.RowsCarryError` | crates/siphon-rtp-codec/src/gsm_fr.rs:311-335 | the two rows of the recursion carry the correlations of the error |
| `LinearPrediction.SchurSolvesNormalEquations` | crates/siphon-rtp-codec/src/gsm_fr.rs:311-335 | so the recursion finds the optimal predictor of every order up to eight |
| `LinearPrediction.LatticeIsFilter` | crates/siphon-rtp-codec/src/gsm_fr.rs:437-451 | and the lattice with its coefficients is that predictor's error filter |
| `LinearPrediction.NormalizingKeepsRatios` | crates/siphon-rtp-codec/src/gsm_fr.rs:300-304 | normalizing scales all nine correlations alike |
| `LinearPrediction.CoefficientCancels` | crates/siphon-rtp-codec/src/gsm_fr.rs:312-320 | the fixed-point coefficient cancels up to its division |
| `LinearPrediction.StageIsRounded` | crates/siphon-rtp-codec/src/gsm_fr.rs:325-333 | a fixed-point stage of the recursion is the exact one, rounded |
| `LinearPrediction.LatticeStageIsRounded` | crates/siphon-rtp-codec/src/gsm_fr.rs:438-451 | and so is a stage of the lattice |
| `GsmLar.Lar` | crates/siphon-rtp-codec/src/gsm_fr.rs:338-350 | the ratio stays within 26620 |
| `GsmLar.UnlarOfLarIff` | crates/siphon-rtp-codec/src/gsm_fr.rs:407-434 | the decoder's map undoes the logarithm exactly, except for odd small coefficients and the minimum, and is off by at most one |
| `GsmLar.LarCode` | crates/siphon-rtp-codec/src/gsm_fr.rs:352-366 | every code fits its width of 6, 6, 5, 5, 4, 4, 3 or 3 bits |
| `GsmLar.DecodedLarIsClose` | crates/siphon-rtp-codec/src/gsm_fr.rs:352-387 | a ratio whose level is in range decodes to within half a quantizer step; one beyond the range gets the last code and falls short of the ratio |
| `GsmLar.LpcAnalysis` | crates/siphon-rtp-codec/src/gsm_fr.rs:368-373 | the codes of a frame, and the frame without its dropped bits |
| `GsmLar.DecodeLars` | crates/siphon-rtp-codec/src/gsm_fr.rs:378-387 | the decoded ratios of a code set |
| `GsmLar.InterpolationWeights` | crates/siphon-rtp-codec/src/gsm_fr.rs:390-405 | the four regions weigh the previous ratio by 3/4, 1/2, 1/4 and 0, rounded down |
| `GsmLar.Interpolate` | crates/siphon-rtp-codec/src/gsm_fr.rs:390-434 | the coefficients of one region |
| `GsmLattice.StageInverseIff` | crates/siphon-rtp-codec/src/gsm_fr.rs:455-462 | a lattice stage is undone if and only if its sum was not clipped |
| `GsmLattice.SynthesisRecovers` | crates/siphon-rtp-codec/src/gsm_fr.rs:437-467 | stage by stage the synthesis recovers the analysis residuals and delays |
| `GsmLattice.SampleInverse` | crates/siphon-rtp-codec/src/gsm_fr.rs:437-467 | one sample there and back, with equal delays afterwards |
| `GsmLattice.SynthesisInvertsAnalysis` | crates/siphon-rtp-codec/src/gsm_fr.rs:437-467 | for all delays, coefficients and samples: when no sum of a frame clips, the rounding synthesis filter gives back every sample and has the analysis delays after each |
| `GsmLattice.SampleInverseIff` | crates/siphon-rtp-codec/src/gsm_fr.rs:437-467 | for all delays, coefficients and samples, a sample comes back if and only if every clipped sum was preceded, in the same sample, by a value at the opposite end of the range |
| `GsmLattice.RecoveredOrder` | crates/siphon-rtp-codec/src/gsm_fr.rs:437-467 | at each stage the synthesis is below the analysis exactly while a clip at the top has met no value at the bottom since, and above it in the mirror case |
| `GsmLattice.RecoveredLacks` | crates/siphon-rtp-codec/src/gsm_fr.rs:455-462 | what the synthesis lacks at each stage, from the amounts that were clipped |
| `GsmLattice.SampleInStepIff` | crates/siphon-rtp-codec/src/gsm_fr.rs:437-467 | sample and next delays both come back if and only if the sample heals and what was lost on the way changes no value that goes into a delay |
| `GsmLattice.FrameInverseIff` | crates/siphon-rtp-codec/src/gsm_fr.rs:437-467 | the samples of a frame come back if and only if each of them does so by that condition, unless one before the last heals and leaves other delays while all before it were kept |
| `GsmLattice.FrameInStepIff` | crates/siphon-rtp-codec/src/gsm_fr.rs:437-467 | for every frame: all samples come back with equal delays after each, if and only if every sample heals and spares its delays |
| `GsmBounce.ClippedCanReturn` | crates/siphon-rtp-codec/src/gsm_fr.rs:437-467 | a sample with a clipped sum that comes back, and leaves equal delays |
| `GsmBounce.HealedCanSpoil` | crates/siphon-rtp-codec/src/gsm_fr.rs:437-467 | two samples that both meet the condition, the second without any clipping: it is lost, because the first left other delays |
| `GsmLattice.AnalyseSample` | crates/siphon-rtp-codec/src/gsm_fr.rs:438-451 | the eight analysis stages as a loop |
| `GsmLattice.SynthesiseSample` | crates/siphon-rtp-codec/src/gsm_fr.rs:456-466 | the eight synthesis stages as a loop |
| `GsmLattice.AnalyseFrame` | crates/siphon-rtp-codec/src/gsm_fr.rs:700-719 | the four coefficient regions of a frame, in place |
| `GsmLattice.SynthesiseFrame` | crates/siphon-rtp-codec/src/gsm_fr.rs:765-787 | the four coefficient regions of a frame |
| `GsmApcm.BlockCode` | crates/siphon-rtp-codec/src/gsm_fr.rs:611-630 | the block maximum code is at most 63 |
| `GsmApcm.BlockBelowCeiling` | crates/siphon-rtp-codec/src/gsm_fr.rs:593-631 | a block maximum lies below the ceiling its code stands for |
| `GsmApcm.BlockCodeMonotone` | crates/siphon-rtp-codec/src/gsm_fr.rs:618-630 | a larger maximum never gets a smaller code |
| `GsmApcm.FindExponent` | crates/siphon-rtp-codec/src/gsm_fr.rs:619-628 | the counting loop finds the octave |
| `GsmApcm.ToExponentAndMantissa` | crates/siphon-rtp-codec/src/gsm_fr.rs:593-609 | the normalizing loop finds exponent and mantissa |
| `GsmApcm.PulseNormalizes` | crates/siphon-rtp-codec/src/gsm_fr.rs:632-636 | a normalized pulse fits 16 bits |
| `GsmApcm.PulseCodeFits` | crates/siphon-rtp-codec/src/gsm_fr.rs:632-639 | every pulse of every block gets a code of 0 to 7 |
| `GsmApcm.PulseErrorBounded` | crates/siphon-rtp-codec/src/gsm_fr.rs:611-653 | every pulse comes back within half a quantizer step, and one for rounding |
| `GsmApcm.QuantizePulses` | crates/siphon-rtp-codec/src/gsm_fr.rs:611-640 | block code and pulse codes of a block |
| `GsmApcm.DecodePulses` | crates/siphon-rtp-codec/src/gsm_fr.rs:642-653 | the decoder's pulses of a block |
| `GsmLongTerm.LtpScaleFits` | crates/siphon-rtp-codec/src/gsm_fr.rs:479-488 | the weights keep nine bits of magnitude and lose none needlessly |
| `GsmLongTerm.BestLag` | crates/siphon-rtp-codec/src/gsm_fr.rs:491-501 | the first lag with the largest positive cross-correlation, else 40 |
| `GsmLongTerm.SearchLag` | crates/siphon-rtp-codec/src/gsm_fr.rs:491-501 | the search loop finds it, in 40..120 |
| `GsmLongTerm.Power` | crates/siphon-rtp-codec/src/gsm_fr.rs:504-509 | the lagged energy fits 32 bits after doubling |
| `GsmLongTerm.GainIndex` | crates/siphon-rtp-codec/src/gsm_fr.rs:519-527 | the first threshold that is not exceeded |
| `GsmLongTerm.ChooseGain` | crates/siphon-rtp-codec/src/gsm_fr.rs:510-528 | the gain code of a correlation and an energy |
| `GsmLongTerm.CalcLtpParams` | crates/siphon-rtp-codec/src/gsm_fr.rs:471-530 | lag and gain of a sub-frame, lag 40..120 and gain 0..3 |
| `GsmGain.LevelsBetweenThresholds` | crates/siphon-rtp-codec/src/gsm_fr.rs:35-36 | the gain levels rise, each between the thresholds that select it |
| `GsmGain.RatioBetweenThresholds` | crates/siphon-rtp-codec/src/gsm_fr.rs:510-528 | correlation over energy lies between the thresholds of its code, up to two parts in 32768 |
| `GsmGain.GainIsClose` | crates/siphon-rtp-codec/src/gsm_fr.rs:503-528 | the decoded gain is within half a step of correlation over energy; no correlation gets the lowest code, more than the energy the highest |
| `GsmGain.GainLowersEnergy` | crates/siphon-rtp-codec/src/gsm_fr.rs:503-528 | for every code but the lowest, subtracting gain times lagged words lowers the energy |
| `GsmGain.ScaledMaxMeaning` | crates/siphon-rtp-codec/src/gsm_fr.rs:502-503 | the scaled correlation is a thirty-second of the true one |
| `GsmGain.WeightsMeaning` | crates/siphon-rtp-codec/src/gsm_fr.rs:486-489 | up to the bits that scaling drops |
| `GsmGain.PowerMeaning` | crates/siphon-rtp-codec/src/gsm_fr.rs:504-509 | the energy, up to the three low bits of every word |
| `GsmGain.CodeMeansCorrelation` | crates/siphon-rtp-codec/src/gsm_fr.rs:491-528 | a code above the lowest means a positive correlation with the lagged words |
| `GsmGain.PredictedWordIsNear` | crates/siphon-rtp-codec/src/gsm_fr.rs:540-545 | a predicted word is gain times lagged word, rounded |
| `GsmGain.PredictionCorrelates` | crates/siphon-rtp-codec/src/gsm_fr.rs:532-545 | the prediction correlates with the sub-frame wherever the lagged words do so beyond what rounding takes |
| `GsmGain.RoundingCanFlip` | crates/siphon-rtp-codec/src/gsm_fr.rs:532-545 | without that margin it need not: a faint sub-frame with code 1 whose prediction correlates negatively |
| `GsmLongTerm.WeightSample` | crates/siphon-rtp-codec/src/gsm_fr.rs:549-570 | the weighting sum never overflows 32 bits |
| `GsmLongTerm.WeightingFilter` | crates/siphon-rtp-codec/src/gsm_fr.rs:549-570 | the filtered block |
| `GsmResidual.WeightingIsConvolution` | crates/siphon-rtp-codec/src/gsm_fr.rs:549-570 | the nine products are a convolution with the eleven-value impulse response |
| `GsmResidual.ResponseIsSymmetric` | crates/siphon-rtp-codec/src/gsm_fr.rs:549-570 | which is symmetric |
| `GsmLongTerm.BestGrid` | crates/siphon-rtp-codec/src/gsm_fr.rs:573-586 | the first grid with the most energy |
| `GsmLongTerm.SelectGrid` | crates/siphon-rtp-codec/src/gsm_fr.rs:572-591 | grid and pulses of a block |
| `GsmLongTerm.PositionGrid` | crates/siphon-rtp-codec/src/gsm_fr.rs:655-662 | the pulses on their grid, zeros elsewhere |
| `GsmLongTerm.SelectedOfPositioned` | crates/siphon-rtp-codec/src/gsm_fr.rs:655-662 | a positioned block holds exactly its pulses on its grid |
| `GsmFrame.UnpackOfPack` | crates/siphon-rtp-codec/src/gsm_fr.rs:793-860 | every frame whose parameters fit survives the wire |
| `GsmFrame.UnpackFits` | crates/siphon-rtp-codec/src/gsm_fr.rs:827-860 | any 33 bytes unpack to parameters that fit |
| `GsmFrame.PackOfUnpackIff` | crates/siphon-rtp-codec/src/gsm_fr.rs:793-860 | packing what was unpacked gives the bytes back if and only if they carried the magic nibble |
| `GsmFrame.LarsRoundTrip` | crates/siphon-rtp-codec/src/gsm_fr.rs:799-803 | the five header bytes |
| `GsmFrame.PulsesRoundTrip` | crates/siphon-rtp-codec/src/gsm_fr.rs:805-823 | the seven bytes of a sub-frame |
| `GsmFrame.LarsOnWire` | crates/siphon-rtp-codec/src/gsm_fr.rs:793-803 | the header is the magic 13 and the eight ratios as one number, most significant first |
| `GsmFrame.PulsesOnWire` | crates/siphon-rtp-codec/src/gsm_fr.rs:804-823 | a sub-frame is lag, gain, grid, block maximum and pulses as one number |
| `GsmStream.SubFrameFor` | crates/siphon-rtp-codec/src/gsm_fr.rs:724-741 | a sub-frame's parameters fit and its lag is one the decoder accepts, for every residual and window |
| `GsmResidual.ReconstructionError` | crates/siphon-rtp-codec/src/gsm_fr.rs:724-741 | what both ends reconstruct of a sub-frame is off by no more than its pulses are from the error they code |
| `GsmResidual.ExcitationOnGrid` | crates/siphon-rtp-codec/src/gsm_fr.rs:655-662 | the excitation is the decoded pulses on the grid and zero elsewhere |
| `GsmResidual.FramesInterpolate` | crates/siphon-rtp-codec/src/gsm_fr.rs:378-405 | a frame is interpolated from the ratios of the frame before to its own |
| `GsmStream.EncodedFrameFits` | crates/siphon-rtp-codec/src/gsm_fr.rs:694-750 | every frame the encoder can produce fits the wire |
| `GsmStream.SameWindow` | crates/siphon-rtp-codec/src/gsm_fr.rs:666-679 | both ends compute the same residual window |
| `GsmStream.FrameKeepsStep` | crates/siphon-rtp-codec/src/gsm_fr.rs:694-771 | one frame keeps window and ratios of both ends equal |
| `GsmStream.PayloadHolds` | crates/siphon-rtp-codec/src/gsm_fr.rs:967-973 | packet `i` is frame `i` |
| `GsmStream.PayloadIsBytes` | crates/siphon-rtp-codec/src/gsm_fr.rs:793-825 | the payload of any stream is bytes |
| `GsmStream.LockStep` | crates/siphon-rtp-codec/src/gsm_fr.rs:694-771 | for every stream, a decoder fed the packed bytes has the encoder's residual window and ratio pair after every frame |
| `GsmCodec.GsmState.constructor` | crates/siphon-rtp-codec/src/gsm_fr.rs:184-200 | the reset state: all zero, last lag 40 |
| `GsmStream.Truncated` | crates/siphon-rtp-codec/src/gsm_fr.rs:686-686 | the output has its three low bits cleared |
| `GsmCodec.FreshDecoder` | crates/siphon-rtp-codec/src/gsm_fr.rs:184-200 | a fresh decoder is in step with a fresh encoder |
| `GsmCodec.GsmState.PredictLongTerm` | crates/siphon-rtp-codec/src/gsm_fr.rs:532-545 | prediction into the buffer and residual out |
| `GsmCodec.GsmState.EncodePulses` | crates/siphon-rtp-codec/src/gsm_fr.rs:731-743 | weighting, grid, quantizer and local decoder |
| `GsmCodec.GsmState.EncodeSubFrame` | crates/siphon-rtp-codec/src/gsm_fr.rs:724-748 | one sub-frame in the linear buffer moves the window on |
| `GsmCodec.GsmState.SubFrameStage` | crates/siphon-rtp-codec/src/gsm_fr.rs:722-749 | four sub-frames in the 280-word buffer and one shift are four moves of the window |
| `GsmCodec.GsmState.ShortTermStage` | crates/siphon-rtp-codec/src/gsm_fr.rs:695-720 | pre-processing, analysis and short-term filter of a frame |
| `GsmCodec.GsmState.EncodeFrame` | crates/siphon-rtp-codec/src/gsm_fr.rs:694-751 | the frame and the new state |
| `GsmCodec.GsmState.SynthesizeLongTerm` | crates/siphon-rtp-codec/src/gsm_fr.rs:666-679 | forty words behind the window, a bad lag replaced by the last good one, then the shift |
| `GsmCodec.GsmState.LongTermStage` | crates/siphon-rtp-codec/src/gsm_fr.rs:754-762 | the residual of a frame, shifting per sub-frame |
| `GsmCodec.GsmState.Postprocess` | crates/siphon-rtp-codec/src/gsm_fr.rs:681-689 | de-emphasis and truncation |
| `GsmCodec.GsmState.DecodeFrame` | crates/siphon-rtp-codec/src/gsm_fr.rs:753-789 | the samples and the new state |
| `GsmCodec.GsmState.Encode` | crates/siphon-rtp-codec/src/gsm_fr.rs:951-975 | whole frames only; both errors leave everything untouched |
| `GsmCodec.GsmState.Decode` | crates/siphon-rtp-codec/src/gsm_fr.rs:911-931 | whole packets only; both errors leave everything untouched |
| `GsmCodec.RoundTrip` | crates/siphon-rtp-codec/src/gsm_fr.rs:911-975 | two fresh objects over any stream of whole frames: the payload of the encoder's run, the decoder's samples for it, and both ends in step |

## Left out

- 32-bit floating point, `sin`, `cos`, the window design and the SIMD dot kernels: reals are exact, twiddles and prototype taps are given.
- FFT sizes above 2^32: the source's shift count overflows there, which stops a checked build and gives an unchecked one a wrong table; `New` has one outcome for it and models no table.
- Sockets, DSCP marking, statistics, activity clocks, queues, observers and TURN relaying: plumbing around the modelled decisions.
- STUN parsing and message authentication: a datagram carries its parsed check, and whether it authenticates is part of it.
- Races inside one `dispatch` or one `install_flow`: each is one step; only the allocator is split into atomic operations.
- `local_addr` failing while an endpoint is removed: the model always finds the port to release.
- Wrap-around of the port cursor, endpoint ids and the resampler's counters: natural numbers.
- `adopt_source` on endpoints without credentials, and a nomination that survives a credential swap through `set_ice_agent`: outside the preconditions of the path theorems.
- Concealment, codec parameters, packet times, the RTP clock and the codec factory: constants and one-line code.
- G.711, L16, Opus, AMR, G.729, comfort noise, spectral gain, SRTP, signalling and the control protocol: not part of this model.
- Conformance to the ITU and ETSI test vectors: the constant tables are those of the source, and no vector is evaluated.
- GsmGain.PredictionCorrelates: one direction; whether rounding turns a correlation around below the margin depends on every single word.
- GsmEmphasis.DeemphasisUndoes: only while no emphasised sum is clipped; a clipped one is lost.
- G722Qmf.DecodedSpeechReturns: takes the error of the quantizers as given; `G722Codec.DecodedFollowsInput` bounds it pair by pair.
- LinearPrediction.SchurSolvesNormalEquations: on exact numbers; the fixed-point recursion is tied to it stage by stage, without a bound for the accumulated rounding.
- GsmLattice.SynthesisInvertsAnalysis: one direction, for frames without clipping; `FrameInStepIff` is the exact form.
- GsmLattice.FrameInverseIff: leaves open the frames in which a sample heals and changes the delays; later samples can then be lost without clipping (`GsmBounce.HealedCanSpoil`). With the delays counted in, `FrameInStepIff` has no such gap.
- GsmCodec.GsmState.ShortTermStage: the frame buffer is a fresh array, and the reflection, ratio and code arrays that the source overwrites in place are sequences.
- GsmLongTerm.CalcLtpParams: reads the 120-word window as a sequence instead of the buffer at an offset; the 64-bit sums are integers.
