# PAICORE runtime: a verified model

This project models the PAICORE runtime in `Lib/runtime` and a few small cores beside it, and proves
what they promise. `dafny verify dfyconfig.toml` checks everything.

The runtime packs tensor elements into 64-bit NoC work frames, sends them in bounded chunks, runs a
reset and synchronization protocol between foreground code and an interrupt handler, and scatters
received frames back into an output tensor.

| file | what it holds |
|---|---|
| Bits | machine words as bounded numbers, shifts, masks and bitwise OR |
| Artifact | validation of shapes and mappings, views, key lookup |
| FrameCodec | work and control frames, addresses, payload widths |
| InputEncoder | resumable row encoding against the one-shot encoding |
| OutputDecoder, VoltageLanes | DATA and VOLTAGE decoding in place, four-lane assembly |
| TensorWindow, Loopback | tensors inside a larger memory; decoding what was encoded returns the tensor, from views and from the artifact |
| FrameHandlers | layout detection, fast handlers against the generic one |
| SessionSpec, Session, SessionHistory | the barrier and every operation as functions; the objects, the interrupt and the device; safety over all call histories |
| SessionIo | sending a row through a workspace |
| SampleRows, SamplePlan, SampleRun | output side, input side and the loop of a sample |
| DataCells, VoltageSample, VoltageWords, EchoSample | what decoding, and a whole sample, leaves in memory, stated on the frames that arrived |
| Runner | deployment and the public sample call |
| RingBuffer, RingThreads | the byte ring buffer, alone and shared by two threads |
| Ecc, Pmp, Counter | check-bit generators, protection entries, torn 64-bit accesses |

How the hardware and the environment appear:

- Memory is one byte array, so input and output are windows of the same memory and may coincide. An
  int32 is its four little-endian bytes.
- The down FIFO is the sequence of frames written to it. The up FIFO is an arbitrary finite sequence of
  frames and errors; when it is exhausted it reads as an error.
- The interrupt may run between any two foreground steps while it is enabled. The handler itself is
  atomic with respect to the foreground, and steps are sequentially consistent.
- A deadline is an arbitrary number of polls. Interrupt registration answers arbitrarily.
- `uint32_t` and `size_t` are 32 bits wide; wrap-around is written out where the code can reach it.

Behaviour that is easy to misread, kept as coded:

- The generic handler refuses a late timestep on any work frame, a fast handler only on frames of its
  own kind. This is the only difference between them: `FastAgreesIff` says so for one frame,
  `FastAgreesThroughoutIff` for streams.
- In layout detection a missing key undoes the deployment, a key of another element does not. The
  undone deployment reports OK: the variable for the failure status still holds the result of session
  initialization. Missing mappings, unsupported timing and a row too wide for `size_t` take the same exit,
  although the header promises RUNTIME_ERROR. `Deploy` states exactly when this happens, `SilentDeployments`
  gives two inputs; the runner is then not deployed, and a sample call on it is refused.
- A DATA view has the dtype of its mapping's first entry. Entries of the same width and another sign pass
  validation and are decoded under the first entry's sign; `ValuesArriveIff` says exactly when every value
  still arrives.
- The batch and incremental decoders check the view before they look at frames, so an unsupported view is
  refused even without any; one frame handed to a handler is refused for the same reason.
- Without a handler the COMPLETE frame takes a receive slot; with one it does not.
- A payload out of range is reported before the buffer-full check, a frame that cannot be built after it.
- Two nonempty regions of which one ends at the top of the address space count as overlapping.
- The comment on `__CTZ` says that it spins on zero; the code returns the register width, and so does
  the model.
- A four-byte PMP region whose protection already has the low mode bit is stored as NAPOT; the
  round trip is proved with exactly this exception, and says what reads back instead.
- The 64-bit counter read is wrong on torn reads and only on those: `ReadHeldIff` gives the condition on the
  counts, `TornTicks` the tick counts at which it can happen, `TornRead` a shortest run.

## Model

| member | source | states |
|---|---|---|
| Loopback.LoopbackRoundTrip | Lib/runtime/frame_codec.c:357-549 | For every representable tensor whose input and output mappings match: decoding the encoded frames of all rows, in any order, with repetitions and among frames of other kinds, returns the tensor on mapped elements and zero elsewhere, although zero elements emit no frame |
| Loopback.BatchLoopback | Lib/runtime/frame_codec.c:510-549 | The same law for the public batch decoder on every buffer it accepts, anywhere in memory and whatever it held: the tensor is what was encoded and no byte outside it changes |
| Loopback.ChunkedLoopback | Lib/runtime/session_io.c:5-59 | The same law for the frames really transmitted, for every workspace capacity of at least one frame |
| Loopback.ArtifactLoopback | Lib/runtime/artifact_reader.cpp:588-661 | The same law from the artifact: for two mappings of a validated thread that describe the same wires, and whose output entries read back under the first entry's dtype, the views handed out encode and decode to the same tensor |
| DataCells.BatchCells | Lib/runtime/frame_codec.c:510-549 | The exact law of the public batch decoder, stated on the frames: for every stream an accepted call on a valid view reports OK, each cell holds the value of the last DATA work frame whose timestep and key are the cell's and whose payload fits an unsigned width, or zero if there was none, and no byte outside the tensor changes |
| VoltageWords.FourFrames | Lib/runtime/frame_codec.c:551-621 | The law on words: four frames with the bytes of an int32, their keys 8k above the element's key, in any order, for an idle slot: the fast and the generic handler take them all and the element holds the number |
| VoltageWords.DecodeSucceedsIff | Lib/runtime/frame_codec.c:632-684 | A VOLTAGE stream on cleared lane state decodes if and only if no element gets a lane twice within a value; otherwise the error is BAD_VALUE |
| EchoSample.EchoedOutcome | Lib/runtime/paicore_runner.c:473-630 | The law on the outcome of a successful sample call, with any row strides and also in place: if the DATA work frames that came back are those that were sent, the output cells hold the caller's original tensor on mapped elements and zero elsewhere, and no other byte changed |
| FrameHandlers.FastAgreesIff | Lib/runtime/paicore_runner.c:40-187 | For every frame, fast and generic handlers agree on memory, lane state and status if and only if the frame is not a late work frame of the other kind; on such a frame the generic handler alone fails |
| FrameHandlers.FastAgreesThroughoutIff | Lib/runtime/paicore_runner.c:103-262 | The exact law over streams: the two paths agree after every frame if and only if every late work frame of the other kind comes after the generic handler has already failed |
| FrameHandlers.FastRefinesGeneric | Lib/runtime/paicore_runner.c:103-262 | Over every frame stream without such frames, the fast path leaves the same memory, lane state and sticky status as the generic path |
| SampleRows.IncrementalEqualsBatch | Lib/runtime/paicore_runner.c:520-628 | A successful compact DATA sample leaves exactly the memory that the batch decoder leaves on the concatenation of all frames of all barriers |
| SampleRows.IncrementalIsClearFirst | Lib/runtime/paicore_runner.c:570-628 | For both output kinds and any stride: clearing each row just before its barrier equals clearing every row first and decoding all frames at once |
| Runner.DataOutcomeIsBatch | Lib/runtime/paicore_runner.c:473-630 | The batch law on the outcome of a successful sample call of a deployed runner |
| DataCells.DataOutcome | Lib/runtime/paicore_runner.c:473-630 | After a successful DATA sample, with any stride and also in place, each cell holds the last value that arrived for it over all barriers, or zero |
| VoltageWords.WordsOutcome | Lib/runtime/paicore_runner.c:473-630 | After a successful VOLTAGE sample each element holds what the lanes that frames carried for it, by their own addresses, assemble to, and none repeated within a value |
| SampleRows.RunSucceedsIff | Lib/runtime/paicore_runner.c:570-628 | The output side of a run, for any frames in its barriers, succeeds if and only if no barrier carried work for a row not yet submitted and the codec takes all frames of all barriers at once |
| DataCells.DataRunIff | Lib/runtime/paicore_runner.c:570-628 | A DATA run succeeds if and only if no barrier carried work for a row not yet submitted |
| VoltageWords.VoltageRunIff | Lib/runtime/paicore_runner.c:570-628 | A VOLTAGE run on cleared lane state succeeds if and only if, besides, no element got a lane twice within a value |
| SamplePlan.InputRowOfRun | Lib/runtime/paicore_runner.c:520-608 | In-place safety: after any barriers with any received frames, the input row read at the next timestep is the row the caller stored, also when both windows share base and stride |
| SampleRun.RunAccepted | Lib/runtime/paicore_runner.c:520-630 | A whole sample, for every hardware stream and deadline: the frames sent are a prefix of reset, per row the one-shot encoding of the caller's original row and a sync, then the completion sync; only output row bytes change; on success all of it was sent, every barrier took exactly its frames and one COMPLETE off the stream, and the memory is the row-by-row decoding of them. On a usable session whose rows encode, it is OK exactly if no barrier faulted the session; on any other session it is refused with nothing sent |
| SamplePlan.SampleTimeline | Lib/runtime/paicore_runner.c:570-628 | The sync payloads a complete sample sends (T ones, then the rest of the pipeline latency) add up to the completion timestep |
| SessionSpec.BarrierOkIff | Lib/runtime/session.c:66-183 | A barrier reports OK if and only if its stream reached a COMPLETE frame before any FIFO error, with room for all it had to store and every handler call successful |
| SessionSpec.BarrierStatusIs | Lib/runtime/session.c:82-183 | Which status a drained barrier reports, for every stream: OVERFLOW exactly if a frame arrives when the buffer is full, HARDWARE_ERROR exactly if an error or the end of the stream comes first, otherwise OK or the handler's status |
| SessionSpec.ResetSends | Lib/runtime/session.c:385-413 | A reset sends one frame with header 13 and payload 0 to the bound thread's root, and no other bit; success ends the epoch, failure faults; on an unusable session or an unroutable root it is refused with nothing sent, and which error is reported |
| SessionSpec.UntilSends | Lib/runtime/session.c:481-510 | A timeline sync sends one frame with header 12 and the distance from the last target to the bound thread's root; otherwise it is refused with nothing sent, and which error is reported |
| Session.Session.WaitRxBarrier | Lib/runtime/session.c:131-183 | With the interrupt possible between any two foreground steps: TIMEOUT only if the handler has not run at all, never when the barrier was already completed; any other status is that of the fully drained stream |
| SessionHistory.HistoryConsistent | Lib/runtime/session.c:246-510 | After every history of calls on any number of sessions: timeline targets strictly increase, the payloads sent since the last reset add up to the completed timesteps, raw and timeline syncs never mix, the frames of the last reset and of every sync since went to the bound thread's root, and exactly the bound session owns the interrupt |
| SessionHistory.FaultIsAbsorbing | Lib/runtime/session.c:191-510 | A faulted session does not change and sends nothing more over any history in which it is not deinitialized |
| RingThreads.EveryInterleaving | Lib/ringbuf.c:41-89 | Under every interleaving of single loads and stores: delivered bytes are a prefix of accepted bytes, their difference is exactly the queue, which never exceeds size minus one, and every FULL, EMPTY and size reported was true when it was decided |
| VoltageSample.VoltageSampleValue | Lib/runtime/paicore_runner.c:473-630 | After a successful VOLTAGE sample, for every element and whatever arrived for it in whatever order: mask and bytes are exactly what its own lane frames leave in a cleared slot, and no lane repeated within a value |
| VoltageSample.ElementValue | Lib/runtime/frame_codec_internal.h:42-72 | What that is as an int32: zero after no frame, the little-endian value of the last four after a multiple of four, otherwise the lanes since then pending in their bytes over zeros |
| Ecc.GeneratedDistance | NMSIS/Core/Include/core_feature_ecc.h:954-1061 | For all 32-bit and all 64-bit words: distinct words and their generated check bits differ in at least four bits |
| Ecc.EqualSyndromes | NMSIS/Core/Include/core_feature_ecc.h:954-1061 | Errors of together at most three bits with equal syndromes are the same error: one-bit errors are uniquely located, and no two-bit error looks clean or like a one-bit error |
| Pmp.EntryRoundTrip | NMSIS/Core/Include/core_feature_pmp.h:384-484 | Set then get returns the stored protection, an order, and the base rounded down to that order. The order is the requested one if and only if it is above 2 or the protection has the low mode bit clear; otherwise it is that of the NAPOT region spelled by the ones at the bottom of base / 4 |
| Counter.ReadHeldIff | NMSIS/Core/Include/core_feature_base.h:1200-1226 | For all counts at the reads: the assembled 64-bit value is one the counter held during the call if and only if the reads are not torn, that is, the counter did not go round to the next turn's block with the low half read in the part it skipped |
| Counter.TornTicks | NMSIS/Core/Include/core_feature_base.h:1200-1226 | The sharp tick bound: torn runs exist for exactly the tick counts above 2^64 - 2^32 and below 2^64 - 1 |
| Artifact.CopyShape | Lib/runtime/artifact_reader.cpp:195-219 | Succeeds if and only if every dimension is positive and the exact product fits 32 bits, and then returns that product, although the guard divides |
| Artifact.ValidateInputMapping | Lib/runtime/artifact_reader.cpp:254-285 | Accepts exactly the mappings whose elements lie in the shape, whose LCN is in range and whose dtype has the declared width; otherwise the first invalid entry decides the error |
| Artifact.ValidateOutputMapping | Lib/runtime/artifact_reader.cpp:293-340 | Accepts exactly the mappings with in-shape elements, strictly increasing keys over the whole list, and a supported kind and width; OUT_OF_RANGE exactly for a bad shape or an element outside it that comes before any key out of order |
| Artifact.ValidateIoMapping | Lib/runtime/artifact_reader.cpp:348-377 | Accepts exactly when every thread and every mapping of it is valid |
| Artifact.GetInputMappingView | Lib/runtime/artifact_reader.cpp:588-618 | The borrowed view: available exactly when the shape fits, with the entries, the exact element count and the width of the mapping |
| Artifact.GetOutputMappingView | Lib/runtime/artifact_reader.cpp:620-661 | The borrowed view: the DATA dtype is that of the first entry, zero without entries; VOLTAGE views are int32 |
| Artifact.ValidatedViews | Lib/runtime/artifact_reader.cpp:254-340 | Validation carries through: every view of an accepted artifact keeps its elements inside its tensor and its lookup keys strictly increasing; when all entries of a DATA mapping agree, the view has their dtype |
| Artifact.OutputMappingFind | Lib/runtime/artifact_reader.cpp:698-721 | The scan returns the first entry with the key |
| Artifact.FindFirst | Lib/runtime/artifact_reader.cpp:698-721 | If an entry is the first with the key, it is the one found |
| Artifact.FindSound | Lib/runtime/artifact_reader.cpp:698-721 | A found entry is in the mapping and has the key; nothing found means no entry has it |
| Artifact.FindExact | Lib/runtime/artifact_reader.cpp:698-721 | On increasing keys the lookup is an exact partial function: an entry is found under its key if and only if it is in the mapping |
| Artifact.DtypeCodes | Lib/runtime/frame_codec.c:52-57 | Exactly the codes 1 to 8 are payload dtypes: widths 1, 2, 4, 8, each unsigned and then signed |
| FrameCodec.SignMagnitudeRoundTrip | Lib/runtime/frame_codec.c:86-98 | Exactly -31..31 encode, into a sign bit and a five-bit magnitude that decode to the same number |
| FrameCodec.RouteCodeRoundTrip | Lib/runtime/frame_codec.c:100-132 | The packed 18-bit code of a routable triple determines the triple, six bits each with xy on top and y at the bottom |
| FrameCodec.PackRouteMeaning | Lib/runtime/frame_codec.c:100-132 | Packing a triple succeeds exactly when each number fits, and ORs to its code at the field offset |
| FrameCodec.FrameDestMeaning | Lib/runtime/frame_codec.c:134-149 | Header, core offset and copy counts land in disjoint fields and nothing else is set |
| FrameCodec.WorkWordRoundTrip | Lib/runtime/frame_codec.c:272-313 | Header, timestamp, six routing fields, axon and payload partition all 64 bits: unpacking a packed word returns every field |
| FrameCodec.BuildWork1Meaning | Lib/runtime/frame_codec.c:272-313 | Building succeeds exactly on entries whose fields fit, so the timestamp-above-255 rejection is unreachable, and the frame carries precisely the entry's fields |
| FrameCodec.WorkFrameInjective | Lib/runtime/frame_codec.c:272-313 | Equal frames come from equal routes, copy counts, axons, payloads and resolved timestamps |
| FrameCodec.AddressMeaning | Lib/runtime/frame_codec_internal.h:18-40 | The receiving side splits the timestamp into timestep and tick and joins the tick with the axon; the key is below 2^16 |
| FrameCodec.AddressInvertsBuild | Lib/runtime/frame_codec_internal.h:18-40 | With the same LCN, the address read from a built frame is the entry's key and the timestep modulo 2^(8-lcn) |
| FrameCodec.ControlFrameMeaning | Lib/runtime/frame_codec.c:157-184 | A control frame is built exactly for 24-bit payloads and routable roots, and is header, root code and payload with no other bit set |
| FrameCodec.PayloadRoundTrip | Lib/runtime/frame_codec.c:208-243 | A value is encoded exactly when it fits the declared width and sign, and decoding returns the byte |
| FrameCodec.DecodedValue | Lib/runtime/frame_codec.c:235-243 | For every payload byte: the decoded value agrees with it in the declared bits and lies in the range of the declared sign |
| FrameCodec.ReadBackIff | Lib/runtime/frame_codec.c:208-243 | Everything that encodes under one dtype reads back under another of its width if and only if they have the same sign or eight bits |
| FrameCodec.EncodedTimestepIsSum | Lib/runtime/frame_codec_internal.h:31-33 | The timestamp is bit 28 of the high half above bits 17 to 23 of the low half |
| FrameCodec.Headers | Lib/runtime/frame_codec.h:67-81 | DATA work is header 8 or 9, VOLTAGE work 10 or 11, COMPLETE 14 |
| InputEncoder.EncodeInputChunk | Lib/runtime/frame_codec.c:358-422 | The loop leaves in cursor and workspace exactly the chunk function of the old cursor, with payload errors before and build errors after the buffer-full check |
| InputEncoder.ChunkOfRow | Lib/runtime/frame_codec.c:372-421 | A full chunk has exactly the capacity and moves the cursor, so BUFFER_FULL without frames cannot happen; together with the rest of the row it is the one-shot encoding. After a payload error the cursor is on the entry at fault, after a build error behind it |
| InputEncoder.ChunkingInvisible | Lib/runtime/session_io.c:18-58 | A successful chunked send is the one-shot encoding; a failed one is a prefix of it in whole chunks, short by at most one chunk |
| InputEncoder.ValidatedVisit | Lib/runtime/frame_codec.c:381-417 | After validation and schedule check an entry can fail only on payload width, axon or routing range; zero elements are skipped |
| InputEncoder.VisitOutcome | Lib/runtime/frame_codec.c:372-418 | For every view, validated or not: which entries are skipped, which become a frame with their own fields and value, and which of the checks refuses the others |
| InputEncoder.ScheduleExact | Lib/runtime/paicore_runner.c:306-313 | The schedule check accepts exactly as many timesteps as an entry's timestamp field holds without wrapping |
| SessionIo.SendInputTimestep | Lib/runtime/session_io.c:5-59 | The frames added to the FIFO and the status are exactly those of the chunked send; it ends because the cursor advances |
| SessionIo.RowTransmission | Lib/runtime/session_io.c:11-58 | On a usable session the send succeeds if and only if the whole row encodes, and then sent exactly its one-shot encoding, otherwise a prefix; on any other session nothing is sent and which error is reported |
| OutputDecoder.EffectsInWindow | Lib/runtime/frame_codec.c:430-477 | Whatever the frame, a decoder writes only inside the caller's window and lane state |
| OutputDecoder.StoreVoltageLane | Lib/runtime/frame_codec_internal.h:42-72 | In place, the lane store equals its value function: duplicate lanes refused, first lane clears, fourth resets the mask |
| OutputDecoder.DecodeIncremental | Lib/runtime/frame_codec.c:632-684 | After the checks, scatters frames in order to the first error, clearing nothing first; refused calls touch nothing |
| OutputDecoder.DecodeOutputFrames | Lib/runtime/frame_codec.c:511-549 | In place, the batch decoder equals its value function, whose law is BatchCells |
| OutputDecoder.BatchCheckMeaning | Lib/runtime/frame_codec.c:521-543 | The overflow-guarded checks accept exactly a consistent stream DATA tensor with a supported dtype that fits the buffer, and which of them refuses any other call |
| OutputDecoder.DecodeAppend | Lib/runtime/frame_codec.c:632-684 | Decoding a concatenation is decoding the parts in turn unless the first fails |
| DataCells.DecodedCell | Lib/runtime/frame_codec.c:430-477 | Into any window that holds the tensor every stream decodes without an error, and each cell ends as the last frame for it says |
| DataCells.RefusedFrame | Lib/runtime/frame_codec.c:454-474 | For any view and window: a DATA frame is refused exactly if it is in time and mapped and its cell lies outside the row or the window |
| DataCells.ValuesArriveIff | Lib/runtime/frame_codec.c:208-243 | The exact condition on the dtypes of a wire of one width: every value that its input entry can send arrives in its own cell if and only if both sides have the same sign or eight bits |
| DataCells.DataFeed | Lib/runtime/paicore_runner.c:205-252 | A DATA handler, fast or generic, takes the frames of a barrier exactly if none it looks at is late |
| VoltageWords.LaneStores | Lib/runtime/frame_codec.c:585-620 | A frame whose key is 8k above an element's key stores its payload as lane k of that element's slot of its timestep |
| VoltageWords.StoreCarries | Lib/runtime/frame_codec.c:585-620 | Every other frame is ignored |
| VoltageWords.VoltageFeed | Lib/runtime/paicore_runner.c:205-252 | A VOLTAGE handler on cleared lane state takes the frames of a barrier exactly if none it looks at is late and no lane repeats within a value |
| VoltageWords.LanesProjected | Lib/runtime/frame_codec.c:551-621 | The slot of an element sees exactly the lanes that frames carry for it |
| VoltageWords.WordHeld | Lib/runtime/frame_codec_internal.h:42-72 | If the last four lanes of an element carry the bytes of an int32, the element is idle and holds it |
| TensorWindow.SameEffect | Lib/runtime/frame_codec.c:430-477 | A DATA frame writes the same cell with the same value wherever the tensor lies and however far apart its rows are |
| TensorWindow.DecodeGathered | Lib/runtime/frame_codec.c:632-684 | Decoding any stream into a window is decoding it into a compact tensor of its own; bytes between and around the rows stay |
| VoltageLanes.StoreLaneRefines | Lib/runtime/frame_codec_internal.h:53-71 | One stored lane keeps the mask describing exactly the filled bytes of a partial slot, others zero; a duplicate changes nothing |
| VoltageLanes.LaneIsWordOr | Lib/runtime/frame_codec_internal.h:58-63 | Storing a lane in its byte is ORing the shifted payload into the 32-bit word |
| VoltageLanes.LanesAssemble | Lib/runtime/frame_codec_internal.h:42-72 | Over any interleaving of slots, each slot ends as if only its own lanes had arrived |
| VoltageLanes.FourLanesComplete | Lib/runtime/frame_codec.c:585-620 | Four distinct lanes in any order, amid any other traffic, leave the little-endian int32 and a clear mask |
| VoltageSample.DecodeIsLaneRun | Lib/runtime/frame_codec.c:551-621 | Decoding VOLTAGE frames without error is running their lanes on non-overlapping slots, each accepted; which lanes these are is LanesProjected |
| VoltageSample.VoltageOutcome | Lib/runtime/paicore_runner.c:473-630 | The element law on the outcome of a successful sample call |
| VoltageSample.AcceptedFours | Lib/runtime/frame_codec_internal.h:55-71 | Accepted lanes come in fours: after a multiple of four the last four were distinct, the slot is idle and holds them |
| VoltageSample.PendingLanes | Lib/runtime/frame_codec_internal.h:55-71 | Fewer than four accepted lanes after a completed value are all pending, and nothing else is |
| Loopback.RowEncodes | Lib/runtime/frame_codec.c:358-422 | A representable row encodes completely, one frame for each nonzero mapped element and none else |
| Loopback.EmittedFrameDecodes | Lib/runtime/frame_codec.c:430-477 | The decoder turns an emitted frame into a write of the element's own value to its own cell |
| Loopback.AgreeingWrites | Lib/runtime/frame_codec.c:511-549 | Frames that are ignored or write one image's values leave that image at the written cells, in any order |
| Loopback.WindowLoopback | Lib/runtime/frame_codec.c:632-684 | The loopback law in any cleared window with any stride |
| FrameHandlers.ConfigureFastLayout | Lib/runtime/paicore_runner.c:60-101 | Fast exactly when all elements are canonical; otherwise the first element that is not decides: missing key fails, present key falls back to generic |
| FrameHandlers.NoOtherKeys | Lib/runtime/paicore_runner.c:71-96 | Pigeonhole: a detected layout has no key but the canonical ones |
| FrameHandlers.CanonicalLookup | Lib/runtime/paicore_runner.c:76-95 | In a detected layout a key resolves exactly to the element whose canonical key it is |
| FrameHandlers.CanonicalKeys | Lib/runtime/paicore_runner.c:80-84 | The canonical keys: the element itself, or for VOLTAGE eight elements a group and 32 keys a group |
| FrameHandlers.CanonicalDetected | Lib/runtime/paicore_runner.c:76-95 | A mapping that lists its elements in order under the canonical keys is detected |
| FrameHandlers.LateMeaning | Lib/runtime/paicore_runner.c:40-58 | Late work is decided by the timestep part of the timestamp |
| FrameHandlers.HandlerInWindow | Lib/runtime/paicore_runner.c:103-187 | Fast handlers write only inside window and lane state, also with 32-bit wrap-around of their indices |
| FrameHandlers.FastDataRefines | Lib/runtime/paicore_runner.c:103-145 | On DATA frames the fast handler has the effect of the mapping lookup |
| FrameHandlers.FastVoltageRefines | Lib/runtime/paicore_runner.c:147-187 | On VOLTAGE frames the fast address arithmetic finds the mapping's element, lane and slot |
| SampleRows.FrameWritesSubmitted | Lib/runtime/paicore_runner.c:109-187 | Every byte a received frame writes lies in an output row already submitted |
| SampleRows.RunRowsStays | Lib/runtime/paicore_runner.c:570-608 | Over a whole run only bytes of submitted rows change: no stride gap, nothing past the last row |
| SampleRows.FeedStays | Lib/runtime/paicore_runner.c:205-252 | One barrier, with any frames, changes only bytes of submitted rows |
| SampleRows.ClearRowCommutes | Lib/runtime/paicore_runner.c:584-585 | Clearing a row commutes with every write into earlier rows |
| SampleRows.AcceptedIsDecode | Lib/runtime/paicore_runner.c:205-252 | A handler call that succeeds did what the codec does without any notion of submitted rows |
| SampleRows.FeedIsDecode | Lib/runtime/paicore_runner.c:205-252 | So does a successful barrier, also over memory whose later rows are already cleared |
| SampleRows.HandleIs | Lib/runtime/paicore_runner.c:205-252 | One handler call, for every frame and layout: late work of its own kind is refused, everything else is the codec's |
| SampleRows.FeedSucceedsIff | Lib/runtime/paicore_runner.c:205-252 | A barrier's frames are all taken exactly if none the handler looks at is late and the codec takes them |
| SamplePlan.RegionFits | Lib/runtime/paicore_runner.c:264-273 | The overflow-free check holds exactly when all rows fit the buffer |
| SamplePlan.OverlapMeaning | Lib/runtime/paicore_runner.c:275-287 | Two regions are reported exactly if neither is empty and one of them ends at the top of memory or an address is shared |
| SamplePlan.ReportedDisjoint | Lib/runtime/paicore_runner.c:280-284 | A pair that is reported although it shares no address |
| SamplePlan.InputRowUntouched | Lib/runtime/paicore_runner.c:514-525 | No byte of input row t is a byte of an output row below t |
| SamplePlan.InputRowSurvives | Lib/runtime/paicore_runner.c:520-608 | Any rewriting confined to output rows below t leaves input row t as it was |
| SamplePlan.TransmissionTotal | Lib/runtime/paicore_runner.c:570-608 | After n timesteps exactly n increments were sent; row frames count nothing |
| EchoSample.TransmissionCarries | Lib/runtime/paicore_runner.c:570-628 | The DATA work frames among all a complete sample sent are exactly the encoded frames of the caller's rows |
| EchoSample.EchoedSample | Lib/runtime/paicore_runner.c:473-630 | The loopback law on the row-by-row decoding of a sample, for any strides |
| EchoSample.TensorAt | Lib/runtime/paicore_runner.c:572-575 | Element e of timestep t is the byte at base + t * stride + e |
| SamplePlan.BarrierServes | Lib/runtime/session.c:531-569 | Whatever a barrier did to the handler's memory is feeding it some frames; on OK exactly those before the COMPLETE frame |
| SampleRun.DecodeBarrier | Lib/runtime/paicore_runner.c:594-605 | One timeline barrier: state, frame sent, memory as fed, stream as delivered |
| SampleRun.CollectRow | Lib/runtime/paicore_runner.c:584-608 | Clear then synchronize one row: on success the row is cleared once and fed with the barrier's frames; on a usable session a failure faults it |
| SampleRun.RunTimestep | Lib/runtime/paicore_runner.c:572-608 | One timestep sends the encoding of the row in memory and one sync; writes stay in rows up to this one; it fails only on a row that does not encode or a barrier that faults the session |
| SampleRun.ResetForSample | Lib/runtime/paicore_runner.c:547-558 | Reset sends one INIT frame and discards its response; on success the session is at timestep zero; a session that cannot start is refused with nothing sent |
| SampleRun.AdvanceStep | Lib/runtime/session.c:481-510 | A step between two targets sends one sync of their difference |
| SampleRun.TransmissionStep | Lib/runtime/paicore_runner.c:572-587 | Because the row survives in place, a timestep sends what the original memory says |
| Runner.ValidateInputSchedule | Lib/runtime/paicore_runner.c:289-317 | OK exactly when ticks and sample length fit each entry's timestamp window; the first offending entry decides the error |
| Runner.VoltageStateCapacity | Lib/runtime/paicore_runner.c:319-328 | Defined exactly when the product is positive and fits 32 bits, and then that product |
| Runner.SupportedTiming | Lib/runtime/paicore_runner.c:376-389 | The guarded timing checks accept exactly consistent stream timings whose completion timestep fits a sync payload |
| Runner.DetectionOutcome | Lib/runtime/paicore_runner.c:77-100 | Layout detection refuses exactly when the first non-canonical element has no entry, and never leaves an unsound layout |
| Runner.CheckedPlan | Lib/runtime/paicore_runner.c:502-541 | The buffer checks of a sample accept exactly the windows usable as a whole, and report BUFFER_TOO_SMALL exactly if rows do not fit their window |
| Runner.StartStore | Lib/runtime/paicore_runner.c:528-541 | A VOLTAGE sample starts with every lane state it uses cleared and the rest as it was; a DATA sample leaves the lane state alone |
| Runner.SampleOutput | Lib/runtime/paicore_runner.c:473-630 | From the caller's memory and any lane state: after OK the output holds what the received frames say |
| Runner.Runner.Prepare | Lib/runtime/paicore_runner.c:368-431 | Geometry is derived exactly for deployable threads. A refusal is reported as OK exactly for missing mappings, unsupported timing, an unmeasurable row, or a missing expected key; otherwise as BUFFER_TOO_SMALL or a schedule error, for their causes |
| Runner.SilentDeployments | Lib/runtime/paicore_runner.c:362-448 | Two threads whose deployment reports OK with nothing bound: one lacks the expected key, one has no timesteps |
| Runner.Runner.Deploy | Lib/runtime/paicore_runner.c:330-449 | OK if and only if every condition holds, or the mappings are refused on one of the exits that leave the OK of session initialization as the reported status; the session is bound and exactly the configuration frames are sent if and only if every condition holds, and otherwise a released session stays released and nothing is sent |
| Runner.Runner.RunSample | Lib/runtime/paicore_runner.c:473-630 | Refused calls touch nothing; which rows and windows a call means, also with strides of zero; a started sample ends as the sample outcome says, and OK exactly if no barrier failed; on OK a DATA output holds the last value of each cell and a VOLTAGE output what each element's lanes assemble to, whatever lane state the call found |
| SessionSpec.DrainWithoutHandler | Lib/runtime/session.c:82-123 | Without a handler the drain ends within capacity + 1 reads of any stream and stores exactly the received prefix in order, COMPLETE included |
| SessionSpec.DrainWithHandler | Lib/runtime/session.c:548-559 | With a handler the drain consumes exactly through the first COMPLETE frame or FIFO error; a stream without one ends as an exhausted FIFO |
| SessionSpec.ReadsUntilStop | Lib/runtime/session.c:548-559 | The exact condition on reads: after n reads of what the hardware delivers, the barrier is completed if and only if one of the n items is a COMPLETE frame or an error, and otherwise all n were read |
| SessionSpec.CalledOnExact | Lib/runtime/session.c:99-106 | The handler is called on exactly the frames up to and including the first it fails on |
| SessionSpec.DrainCalls | Lib/runtime/session.c:82-123 | The calls a barrier really made: of the frames before the stop exactly those up to and including the first failure, all of them if none failed, and memory and status are what these calls leave |
| SessionSpec.StoredStop | Lib/runtime/session.c:107-121 | A handler-free drain is clean exactly when the stream's stop is a COMPLETE frame that fits the buffer |
| Session.DrainStatus | Lib/runtime/session.c:131-183 | A drained barrier never reads as TIMEOUT |
| Session.DecodeContext.HandleFrame | Lib/runtime/paicore_runner.c:205-252 | In place, the installed handler equals its value function |
| Session.Session.ReceiveRxBarrierFrame | Lib/runtime/session.c:82-123 | The fields change as the barrier function says |
| Session.Session.DrainFifo | Lib/runtime/session.c:548-559 | The interrupt loop over the fields equals the drain function; it terminates on every finite stream |
| Session.Session.NocInterrupt | Lib/runtime/session.c:531-569 | Masks the interrupt and drains exactly when the active session has a barrier open |
| Session.Session.StartRxBarrier | Lib/runtime/session.c:66-80 | Opens a fresh barrier with the interrupt enabled |
| Session.Session.RunControlBarrier | Lib/runtime/session.c:192-236 | Sends one frame; any result but OK faults the session; memory and stream are left as the barrier outcome says, also when the interrupt fires before the frame is written |
| Session.Session.Init | Lib/runtime/session.c:246-281 | Binds exactly an unowned platform, a valid thread and a nonempty buffer; a failed registration leaves nothing bound |
| Session.Session.Deinit | Lib/runtime/session.c:283-302 | Never succeeds during an active barrier or for another owner; otherwise clears everything |
| Session.Session.LoadConfig | Lib/runtime/session.c:304-353 | In place, loading the configuration equals its value function, whose law is ConfigSends |
| Session.Session.SendFrames | Lib/runtime/session.c:355-383 | Sends exactly the given frames unless unbound, faulted or inside a barrier |
| Session.Session.ResetModel | Lib/runtime/session.c:385-413 | State, frame and stream after a reset: as the barrier left them if it ran, untouched if it was refused; success returns to an unset mode at timestep zero |
| Session.Session.SyncWaitPayloadImpl | Lib/runtime/session.c:416-457 | State, frame, stream, memory and received count after the shared part of a sync: as the barrier left them if it ran, untouched if it was refused |
| Session.Session.SyncWaitPayload | Lib/runtime/session.c:459-479 | Raw sync: refused in timeline mode, otherwise exact payload and the stored frames, whatever the status |
| Session.Session.SyncWaitUntil | Lib/runtime/session.c:481-529 | Timeline sync: refused on non-increasing targets, otherwise sends the difference; stream and memory are as the barrier left them exactly if it ran |
| SessionSpec.ControlToRoot | Lib/runtime/frame_codec.c:157-184 | A session's control frame exists exactly for a routable root of its bound thread and a 24-bit payload, and goes to that root |
| SessionSpec.SyncSends | Lib/runtime/session.c:416-457 | The shared part of a sync runs exactly on a usable session with a routable root and a 24-bit payload, and sends one frame with header 12 |
| SessionSpec.RawSends | Lib/runtime/session.c:459-479 | A raw sync sends one frame with its payload to the bound thread's root unless the session is on a timeline, and which error is reported otherwise |
| SessionSpec.InitBinds | Lib/runtime/session.c:246-281 | Binding succeeds exactly on a free platform with an existing thread, a nonempty buffer and the interrupt registered; BUSY exactly for an owned platform |
| SessionSpec.DeinitReleases | Lib/runtime/session.c:283-302 | Releasing is refused exactly for another owner or an open barrier, and otherwise nothing stays bound |
| SessionSpec.SendSends | Lib/runtime/session.c:355-383 | Frames go out exactly on a bound session that is neither faulted nor inside a barrier |
| SessionSpec.ConfigSends | Lib/runtime/session.c:304-353 | All configuration words go out as frames, with the high half first in order 0 and second in order 1, or none does |
| SessionHistory.ZeroedConsistent | Lib/runtime/session.c:246-302 | The invariants hold after every history that starts from zeroed sessions |
| SessionHistory.StepKeeps | Lib/runtime/session.c:246-510 | Every call on every session keeps the invariants of all sessions |
| SessionHistory.TimelineExtends | Lib/runtime/session.c:481-510 | A completed timeline sync extends the conserved sum by the payload read from its own frame |
| SessionHistory.SyncFramePayload | Lib/runtime/session.c:416-457 | The frame that was sent goes to the bound thread's root and carries the payload that was asked for |
| SessionHistory.OwnKeeps | Lib/runtime/session.c:246-302 | Binding and releasing keep exactly the bound session as owner |
| SessionHistory.FailedBarrierFaults | Lib/runtime/session.c:191-236 | A barrier that ran leaves its session faulted exactly when it did not report OK |
| RingBuffer.RingBuffer.Init | Lib/ringbuf.c:20-32 | Refuses fewer than two bytes without effect, otherwise an empty queue |
| RingBuffer.RingBuffer.Put | Lib/ringbuf.c:41-57 | FULL exactly at capacity; otherwise the byte is appended |
| RingBuffer.RingBuffer.Get | Lib/ringbuf.c:59-75 | EMPTY exactly when empty; otherwise the oldest byte is returned and removed |
| RingBuffer.RingBuffer.Available | Lib/ringbuf.c:77-89 | Exactly the number of unread bytes |
| RingBuffer.RingBuffer.Reset | Lib/ringbuf.c:34-39 | Empties the queue by moving the consumer's index only |
| RingThreads.ProducerKeeps | Lib/ringbuf.c:41-57 | Each producer step keeps the invariant; only the publishing store changes the queue, appending the byte with room for it |
| RingThreads.ConsumerKeeps | Lib/ringbuf.c:59-89 | Each consumer step keeps the invariant; only the final store changes the queue, removing the byte that was read |
| RingThreads.StepKeeps | Lib/ringbuf.c:41-89 | Every step of either thread is a step of a bounded FIFO queue or leaves it alone |
| RingThreads.UninterruptedGet | Lib/ringbuf.c:59-75 | A get that is not interrupted does what the sequential object does |
| RingThreads.UninterruptedPut | Lib/ringbuf.c:41-57 | A put that is not interrupted does what the sequential object does |
| Ecc.CodeLinear | NMSIS/Core/Include/core_feature_ecc.h:954-1061 | The code of a difference is the difference of the codes |
| Ecc.ColumnWeight | NMSIS/Core/Include/core_feature_ecc.h:954-1061 | Every data bit enters three or five check bits |
| Ecc.ColumnsDiffer | NMSIS/Core/Include/core_feature_ecc.h:954-1061 | No two data bits enter the same set of check bits |
| Ecc.ColumnsIncrease | NMSIS/Core/Include/core_feature_ecc.h:954-1061 | The order of the check bits: data bits are numbered by increasing column, so no two of the generator's rows can be exchanged |
| Ecc.PatternWeight | NMSIS/Core/Include/core_feature_ecc.h:954-1061 | A nonzero difference and its code have at least four ones |
| Ecc.DistanceFour | NMSIS/Core/Include/core_feature_ecc.h:954-1061 | Codewords of distinct data words differ in at least four bits |
| Ecc.CleanIff | NMSIS/Core/Include/core_feature_ecc.h:954-1061 | With fewer than four wrong bits, the syndrome is zero exactly when nothing is wrong |
| Ecc.SyndromeParity | NMSIS/Core/Include/core_feature_ecc.h:954-1061 | The syndrome is odd exactly when the number of wrong bits is |
| Ecc.BitIsShifted | NMSIS/Core/Include/core_feature_ecc.h:957-957 | A bit of the word sequence is what shifting and masking the machine word gives |
| Pmp.CountTrailingZeros | NMSIS/Core/Include/core_compatiable.h:257-271 | The loop counts trailing zeros and returns the register width for zero |
| Pmp.TrailingZerosMeaning | NMSIS/Core/Include/core_compatiable.h:257-271 | The count is n exactly for odd multiples of 2^n |
| Pmp.NapotShape | NMSIS/Core/Include/core_feature_pmp.h:411-418 | The address register of a NAPOT region is its base, a zero, and the run of ones that gives its size |
| Pmp.StoredMode | NMSIS/Core/Include/core_feature_pmp.h:405-409 | Both mode bits are set for NAPOT; a four-byte region keeps a stray low mode bit; all other bits are kept |
| Pmp.OtherBytes | NMSIS/Core/Include/core_feature_pmp.h:407-409 | Inserting a configuration byte leaves every other byte of the CSR unchanged |
| Pmp.InsertedByte | NMSIS/Core/Include/core_feature_pmp.h:251-280 | The inserted configuration byte reads back |
| Pmp.Unit.SetEntry | NMSIS/Core/Include/core_feature_pmp.h:377-426 | Writes the entry's own byte and address and no other; ignores parameters out of range |
| Pmp.Unit.GetEntry | NMSIS/Core/Include/core_feature_pmp.h:438-484 | Returns the region the two registers describe; nothing for an entry out of range |
| Pmp.Unit.SetConfigByte | NMSIS/Core/Include/core_feature_pmp.h:251-280 | Replaces exactly the named entry's byte |
| Pmp.EntryLocation | NMSIS/Core/Include/core_feature_pmp.h:260-280 | With 32-bit registers four entries to a CSR, with 64-bit registers eight to each even CSR, lowest byte first |
| Counter.Timer.Read | NMSIS/Core/Include/core_feature_timer.h:187-208 | The high-low-high read with a conditional second low read, ticking in between, returns a held value if and only if the reads are not torn, and always within the tick bound |
| Counter.ReadIsHeld | NMSIS/Core/Include/core_feature_base.h:1200-1226 | Within 2^64 - 2^32 ticks the value was held; below 2^32 ticks it is exactly the count at the low read that was used |
| Counter.TornRead | NMSIS/Core/Include/core_feature_base.h:1208-1218 | A shortest run that fails, one tick above the bound |
| Counter.Timer.SetLoadValue | NMSIS/Core/Include/core_feature_timer.h:165-176 | The register ends at the value if and only if the low half at the second write plus the ticks to the third carries a multiple of 2^32 times; fewer than 2^32 ticks since the first write never carry |
| Counter.Timer.SetCompareValue | NMSIS/Core/Include/core_feature_timer.h:222-248 | The three-write update ends at the value and never shows anything below both old and new |

## Left out

- FlatBuffers parsing and verification, schema versions, alignment and null-argument checks: the model starts from parsed tables.
- The single-frame public decoders: the batch and incremental decoders contain them.
- `rvrt_paicore_runner_release`: it is `Deinit` and a cleared structure.
- Statistics, cycle profiling, the `timing` output of the profiled sample call, logging and status strings.
- Thread choice: the runner always deploys thread zero and its first mappings, as the code does.
- Real time: how long a timeout lasts is not modelled, only that it may strike at any poll.
- DrainWithHandler: does not say that a drain can go on forever, because every stream here is finite and reads as an error when exhausted; the device driver itself never reports one. `ReadsUntilStop` is exact for every number of reads.
- DrainFifo: terminates for the same reason; on a device that never delivers a COMPLETE frame the real loop keeps reading.
- An exception inside the interrupt handler, nested interrupts, and memory that is not sequentially consistent.
- `rv_ringbuf_reset` running concurrently with the two threads: its synchronization belongs to the caller; only the sequential reset is modelled.
- Several producers or several consumers of one ring buffer.
- `__get_PMPxCFG`: on 64-bit registers it shifts a 32-bit constant by up to 56 bits, which C leaves undefined; reading an entry goes through `GetEntry`, which does not.
- GetEntry: does not cover a NAPOT address register of all ones, because the code then shifts by the register width, which C leaves undefined.
- Locked PMP entries, hardware granularity above four bytes and top-of-range mode: CSRs keep what is written.
- Register accesses themselves, fences, ECLIC, PLIC, cache, `core_feature_spmp.h` (the same logic as PMP), the NICE instructions and the `nn_*` layers.
