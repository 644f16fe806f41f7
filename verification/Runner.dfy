/** The sample runner object: deploying an artifact and running samples through its session. */
module Runner {
  import opened Bits
  import opened Artifact
  import opened FrameCodec
  import opened InputEncoder
  import opened OutputDecoder
  import opened FrameHandlers
  import opened SessionSpec
  import opened Session
  import opened SampleRows
  import opened SamplePlan
  import opened SampleRun
  import opened TensorWindow
  import opened DataCells
  import opened VoltageSample
  import opened VoltageWords

  // ------------------------------------------------------------- schedule check

  /** OK exactly on schedules whose timestamps and ticks fit; the first offending entry decides the error. */
  method ValidateInputSchedule(view: InputView, timesteps: nat) returns (status: SessionStatus)
    ensures status == SessionOk <==> ScheduleAccepts(view, timesteps)
    ensures status != SessionOk && |view.entries| > 0 ==>
              exists i :: 0 <= i < |view.entries| && !EntryFitsSchedule(view.entries[i], timesteps) &&
                (forall k :: 0 <= k < i ==> EntryFitsSchedule(view.entries[k], timesteps)) &&
                status == if view.entries[i].targetLcn <= TARGET_LCN_MAX &&
                             view.entries[i].tickRelative < Pow2(view.entries[i].targetLcn)
                          then SessionScheduleUnsupported else SessionRuntimeError
    ensures |view.entries| == 0 ==> status == SessionRuntimeError
  {
    if |view.entries| == 0 {
      return SessionRuntimeError;
    }
    for i := 0 to |view.entries|
      invariant forall k :: 0 <= k < i ==> EntryFitsSchedule(view.entries[k], timesteps)
    {
      var entry := view.entries[i];
      assert entry in view.entries;
      if entry.targetLcn >= 8 {
        return SessionRuntimeError;
      }
      if entry.tickRelative >= Shl(1, entry.targetLcn) {
        ShlIsProduct(1, entry.targetLcn);
        return SessionRuntimeError;
      }
      ShlIsProduct(1, entry.targetLcn);
      ShlIsProduct(1, 8 - entry.targetLcn);
      if timesteps > Shl(1, 8 - entry.targetLcn) {
        return SessionScheduleUnsupported;
      }
    }
    return SessionOk;
  }

  /** Elements of lane state a VOLTAGE sample needs, unless the product does not fit 32 bits. */
  function VoltageStateCapacity(timesteps: u32, elementCount: u32): (required: Option<u32>)
    ensures required.Some? <==> timesteps > 0 && elementCount > 0 && timesteps * elementCount <= UINT32_MAX
    ensures required.Some? ==> required.value == timesteps * elementCount
  {
    if timesteps == 0 || elementCount == 0 then None
    else
      ProductBound(timesteps, elementCount);
      if timesteps > UINT32_MAX / elementCount then None else Some(timesteps * elementCount)
  }

  // ------------------------------------------------------------- deployment

  /** Timing metadata the runner supports. */
  predicate TimingSupported(t: Timing) {
    && t.timesteps > 0 && t.pipelineLatency > 0 && t.streamEncoding
    && t.timesteps <= UINT32_MAX - t.pipelineLatency + 1
    && t.completionSync == t.pipelineLatency + t.timesteps - 1
    && t.completionSync <= CTRL_PAYLOAD_MAX
  }

  lemma SupportedTiming(t: Timing)
    ensures TimingSupported(t) <==> TimingConsistent(t) && t.streamEncoding && t.completionSync <= 0xFF_FFFF
  {
  }

  /** Views of a validated thread's first mappings. */
  lemma FirstViews(thread: Thread)
    requires ValidThread(thread) && |thread.inputs| > 0 && |thread.outputs| > 0
    ensures ShapeFits(thread.inputs[0].shape) && ShapeFits(thread.outputs[0].shape)
    ensures ValidInputView(InputViewOf(thread.inputs[0])) && InputViewOf(thread.inputs[0]).elementCount > 0
    ensures ValidOutputView(OutputViewOf(thread.outputs[0], thread.targetLcn))
  {
    ValidatedViews([thread], 0, 0, 0);
    ProductPositive(thread.inputs[0].shape);
  }

  ghost predicate HasMappings(thread: Thread) {
    ValidThread(thread) && |thread.inputs| > 0 && |thread.outputs| > 0
  }

  ghost function FirstInput(thread: Thread): (view: InputView)
    requires HasMappings(thread)
    ensures ValidInputView(view) && view.elementCount > 0
  {
    FirstViews(thread);
    InputViewOf(thread.inputs[0])
  }

  ghost function FirstOutput(thread: Thread): (view: OutputView)
    requires HasMappings(thread)
    ensures ValidOutputView(view)
  {
    FirstViews(thread);
    OutputViewOf(thread.outputs[0], thread.targetLcn)
  }

  /** Everything deployment checks about the first thread's first mappings. */
  ghost predicate Deployable(thread: Thread, stateCapacity: nat) {
    && HasMappings(thread)
    && TimingSupported(thread.timing)
    && ScheduleAccepts(FirstInput(thread), thread.timing.timesteps)
    && VoltageFits(FirstOutput(thread), thread.timing, stateCapacity)
    && LayoutDetectable(FirstOutput(thread))
  }

  /** An output whose rows cannot be measured in bytes. */
  predicate RowTooWide(view: OutputView) { view.kind == OUTPUT_VOLTAGE && 4 * view.elementCount > SIZE_MAX }

  predicate VoltageFits(view: OutputView, timing: Timing, stateCapacity: nat) {
    view.kind == OUTPUT_VOLTAGE ==>
      4 * view.elementCount <= SIZE_MAX && timing.timesteps * view.elementCount <= UINT32_MAX &&
      timing.timesteps * view.elementCount <= stateCapacity
  }

  /** Layout detection refuses only a view whose first non-canonical element has no entry at all. */
  ghost predicate LayoutDetectable(view: OutputView) {
    Candidate(view) ==>
      forall e :: 0 <= e < view.elementCount && Lookup(view, e).None? ==> exists k :: 0 <= k < e && !Canonical(view, k)
  }

  /**
   The refusals that are reported as OK. Deployment reuses one variable for the status it fails with;
   session initialization leaves OK in it, and these exits do not set it again.
   */
  ghost predicate SilentRefusal(thread: Thread, stateCapacity: nat) {
    || !HasMappings(thread)
    || !TimingSupported(thread.timing)
    || RowTooWide(FirstOutput(thread))
    || (ScheduleAccepts(FirstInput(thread), thread.timing.timesteps)
        && VoltageFits(FirstOutput(thread), thread.timing, stateCapacity) && !LayoutDetectable(FirstOutput(thread)))
  }

  /** A refused thread is never deployable. */
  lemma RefusalsDisjoint(thread: Thread, stateCapacity: nat)
    ensures SilentRefusal(thread, stateCapacity) ==> !Deployable(thread, stateCapacity)
  {
    hide ScheduleAccepts, LayoutDetectable, ValidThread;
  }

  lemma DetectionOutcome(view: OutputView, status: SessionStatus, layout: Layout)
    requires !Candidate(view) ==> status == SessionOk && layout == GenericLayout
    requires Candidate(view) && AllCanonical(view) ==>
               status == SessionOk && layout == if IsFastData(view) then FastData else FastVoltage
    requires Candidate(view) && !AllCanonical(view) ==>
               exists e :: 0 <= e < view.elementCount && !Canonical(view, e) &&
                 (forall k :: 0 <= k < e ==> Canonical(view, k)) &&
                 layout == GenericLayout &&
                 status == if Lookup(view, e).None? then SessionRuntimeError else SessionOk
    ensures status == SessionOk <==> LayoutDetectable(view)
    ensures LayoutSound(view, layout)
  {
    hide Lookup;
    if Candidate(view) && !AllCanonical(view) {
      var first :| 0 <= first < view.elementCount && !Canonical(view, first) &&
        (forall k :: 0 <= k < first ==> Canonical(view, k)) &&
        status == if Lookup(view, first).None? then SessionRuntimeError else SessionOk;
      forall e | 0 <= e < view.elementCount && Lookup(view, e).None? && Lookup(view, first).Some?
        ensures exists k :: 0 <= k < e && !Canonical(view, k)
      {
        assert !Canonical(view, e);
        assert first < e;
      }
    } else if Candidate(view) {
      forall e | 0 <= e < view.elementCount
        ensures Lookup(view, e).Some?
      {
        assert Canonical(view, e);
      }
    }
  }

  /** Exactly when a deployment succeeds. */
  ghost predicate DeployAccepts(st: SessionState, owner: Owner, parsed: Artifact, capacity: nat, stateCapacity: nat,
                                timeoutMs: nat, registered: bool) {
    && ReachesMappings(st, owner, parsed, capacity, timeoutMs, registered)
    && Deployable(parsed.threads[0], stateCapacity)
    && LoadConfigStep(BoundState(parsed, 0, capacity)).status == SessionOk
  }

  /** Every size of a sample is a size_t. */
  predicate SizesFit(p: Plan, inputCapacity: nat) {
    && inputCapacity <= SIZE_MAX && p.setup.capacity <= SIZE_MAX && p.inputStride <= SIZE_MAX && p.setup.stride <= SIZE_MAX
    && RowBytes(p.setup.view) <= SIZE_MAX
  }

  predicate WindowsFit(p: Plan, inputCapacity: nat)
    requires SizesFit(p, inputCapacity)
  {
    && RegionFits(inputCapacity, InputBytes(p), p.inputStride, p.setup.timesteps)
    && RegionFits(p.setup.capacity, RowBytes(p.setup.view), p.setup.stride, p.setup.timesteps)
  }

  predicate SameOrDisjoint(p: Plan)
    requires p.setup.timesteps > 0
  {
    RegionsOverlap(p.inputBase, RegionSize(p.setup.timesteps, p.inputStride, InputBytes(p)),
                   p.setup.base, RegionSize(p.setup.timesteps, p.setup.stride, RowBytes(p.setup.view))) ==>
      p.inputBase == p.setup.base && p.inputStride == p.setup.stride
  }

  predicate VoltageReady(s: Setup) {
    s.view.kind == OUTPUT_VOLTAGE ==>
      && s.base % 4 == 0 && s.capacity % 4 == 0 && s.stride % 4 == 0
      && s.timesteps * s.view.elementCount <= UINT32_MAX && s.timesteps * s.view.elementCount <= s.stateCount
  }

  /** The first check that refuses a sample's buffers. */
  function SampleCheck(p: Plan, inputCapacity: nat): SessionStatus
    requires SizesFit(p, inputCapacity)
  {
    if !WindowsFit(p, inputCapacity) then SessionBufferTooSmall
    else if !SameOrDisjoint(p) || !VoltageReady(p.setup) then SessionRuntimeError
    else SessionOk
  }

  /** On a deployed runner, the accepted calls are exactly those whose windows are usable as a whole. */
  lemma CheckedPlan(p: Plan, size: nat, inputCapacity: nat)
    requires SizesFit(p, inputCapacity) && p.inputBase + inputCapacity <= size && p.setup.base + p.setup.capacity <= size
    requires ValidOutputView(p.setup.view) && LayoutSound(p.setup.view, p.layout) && p.input.elementCount > 0
    requires 0 < p.setup.timesteps <= p.completion && p.setup.stateCount <= UINT32_MAX
    ensures SampleCheck(p, inputCapacity) == SessionOk <==>
            && Accepted(p, size) && (p.setup.view.kind == OUTPUT_VOLTAGE ==> p.setup.base % 4 == 0)
            && RegionFits(inputCapacity, InputBytes(p), p.inputStride, p.setup.timesteps)
    ensures SampleCheck(p, inputCapacity) == SessionBufferTooSmall <==>
            !RowsInWindow(inputCapacity, InputBytes(p), p.inputStride, p.setup.timesteps) ||
            !RowsInWindow(p.setup.capacity, RowBytes(p.setup.view), p.setup.stride, p.setup.timesteps)
    ensures SampleCheck(p, inputCapacity) in {SessionOk, SessionBufferTooSmall, SessionRuntimeError}
  {
    hide LayoutSound, RegionsOverlap;
  }

  /** Rows a stride apart do not run into each other and the last one ends inside the window. */
  predicate RowsInWindow(capacity: nat, row: nat, stride: nat, rows: nat) {
    row <= stride && (rows - 1) * stride + row <= capacity
  }

  /** A successful compact DATA sample leaves what the batch decoder leaves on everything it received. */
  lemma DataOutcomeIsBatch(p: Plan, timing: Timing, st: SessionState, start: Store, sent: seq<Frame>, rx: seq<RxItem>,
                           barriers: seq<seq<Frame>>, end: Store, sent': seq<Frame>, rx': seq<RxItem>)
    requires Accepted(p, |start.mem|) && Fits(p.setup, start) && TimingSupported(timing)
    requires timing.timesteps == p.setup.timesteps && p.setup.stride == p.setup.view.elementCount
    requires p.setup.view.kind == OUTPUT_DATA && DtypeInfo(p.setup.view.dtype).Some?
    requires SampleOutcome(p, st, start, sent, rx, SessionOk, barriers, end, sent', rx')
    ensures |barriers| > 0 && p.setup.base + p.setup.capacity <= |start.mem|
    ensures Batch(p.setup.view, timing, p.setup.base, p.setup.capacity, start.mem, Concat(barriers[1..])) == (end.mem, CodecOk)
  {
    hide RowsFit, LayoutSound, RegionsOverlap, RunRows, Batch, Concat, FullTransmission, SentPrefix, SameOutsideRows, DeliveredAll;
    SupportedTiming(timing);
    IncrementalEqualsBatch(p.layout, p.setup, timing, start, barriers[1..]);
  }

  /** Memory and lane state as the first barrier finds them: a VOLTAGE sample starts with no lane received. */
  function StartStore(s: Setup, mem: seq<u8>, lanes: seq<u8>): (st: Store)
    ensures st.mem == mem && |st.lanes| == |lanes|
    ensures s.view.kind != OUTPUT_VOLTAGE ==> st.lanes == lanes
    ensures s.view.kind == OUTPUT_VOLTAGE && 0 <= s.timesteps * s.view.elementCount <= |lanes| ==>
              && (forall i :: 0 <= i < s.timesteps * s.view.elementCount ==> st.lanes[i] == 0)
              && (forall i :: s.timesteps * s.view.elementCount <= i < |lanes| ==> st.lanes[i] == lanes[i])
  {
    var needed := StateNeeded(s);
    Store(mem, if s.view.kind == OUTPUT_VOLTAGE && needed <= |lanes| then Zeroed(lanes, 0, needed) else lanes)
  }

  function StateNeeded(s: Setup): nat {
    MulMono(0, s.timesteps, s.view.elementCount);
    s.timesteps * s.view.elementCount
  }

  /**
   What a successful sample leaves in the output, whatever lane state it found: on a DATA runner the last
   value of each cell, on a VOLTAGE runner what the lanes of each element assemble to.
   */
  ghost predicate OutputHolds(s: Setup, end: Store, received: seq<Frame>) {
    && (s.view.kind == OUTPUT_DATA && DtypeInfo(s.view.dtype).Some? ==> HoldsLast(s, end.mem, received))
    && (s.view.kind == OUTPUT_VOLTAGE ==> HoldsWords(s, end, received))
  }

  lemma SampleOutput(p: Plan, st: SessionState, mem: seq<u8>, lanes: seq<u8>, sent: seq<Frame>, rx: seq<RxItem>,
                     status: SessionStatus, barriers: seq<seq<Frame>>, end: Store, sent': seq<Frame>, rx': seq<RxItem>)
    requires Accepted(p, |mem|) && Fits(p.setup, StartStore(p.setup, mem, lanes))
    requires SampleOutcome(p, st, StartStore(p.setup, mem, lanes), sent, rx, status, barriers, end, sent', rx')
    ensures status == SessionOk ==> |barriers| > 0 && OutputHolds(p.setup, end, Concat(barriers[1..]))
  {
    hide LayoutSound, RegionsOverlap, SampleOutcome, HoldsLast, HoldsWords, Concat;
    var start := StartStore(p.setup, mem, lanes);
    if status == SessionOk {
      Barriers(p, st, start, sent, rx, barriers, end, sent', rx');
      if p.setup.view.kind == OUTPUT_VOLTAGE {
        WordsOutcome(p, st, start, sent, rx, barriers, end, sent', rx');
      } else if DtypeInfo(p.setup.view.dtype).Some? {
        DataOutcome(p, st, start, sent, rx, barriers, end, sent', rx');
      }
    }
  }

  lemma Barriers(p: Plan, st: SessionState, start: Store, sent: seq<Frame>, rx: seq<RxItem>,
                 barriers: seq<seq<Frame>>, end: Store, sent': seq<Frame>, rx': seq<RxItem>)
    requires Accepted(p, |start.mem|) && Fits(p.setup, start)
    requires SampleOutcome(p, st, start, sent, rx, SessionOk, barriers, end, sent', rx')
    ensures |barriers| > 0
  {
  }

  /** A stride of zero means compact rows. */
  function Stride(given: nat, row: nat): nat { if given == 0 then row else given }

  lemma LoadConfigRefuses(st: SessionState)
    ensures LoadConfigStep(st).status != SessionOk ==> LoadConfigStep(st).sent == []
    ensures LoadConfigStep(st).state == st
  {
  }

  /** Everything before the first thread's mappings is looked at. */
  ghost predicate ReachesMappings(st: SessionState, owner: Owner, parsed: Artifact, capacity: nat, timeoutMs: nat, registered: bool) {
    && DeinitStep(st, owner).status == SessionOk
    && capacity > 0 && timeoutMs > 0 && registered
    && ValidIoMapping(parsed.threads) && |parsed.threads| > 0
  }

  const ORIGIN: Route := Route(0, 0, 0)

  /** Two uint1 elements under keys 1 and 2; nothing is under the expected key 0. */
  function UnkeyedThread(timing: Timing): Thread {
    Thread(ORIGIN, timing, 0,
           [InputMapping([1], [InputEntry(0, ORIGIN, ORIGIN, 0, 0, 0, 1)], 1)],
           [OutputMapping([2], [OutputEntry(0, 0, 1, 1), OutputEntry(1, 0, 2, 1)], OUTPUT_DATA, 1)])
  }

  lemma UnkeyedIsValid(timing: Timing)
    ensures HasMappings(UnkeyedThread(timing)) && ValidIoMapping([UnkeyedThread(timing)])
    ensures FirstInput(UnkeyedThread(timing)) == InputView([InputEntry(0, ORIGIN, ORIGIN, 0, 0, 0, 1)], 1, 1)
    ensures FirstOutput(UnkeyedThread(timing)) ==
            OutputView([OutputEntry(0, 0, 1, 1), OutputEntry(1, 0, 2, 1)], 2, 1, OUTPUT_DATA, 0)
  {
    var t := UnkeyedThread(timing);
    assert [1 as int][..0] == [] && [2 as int][..0] == [];
    assert Product([1]) == 1 && Product([2]) == 2;
    assert ValidInputMapping(t.inputs[0]) && ValidOutputMapping(t.outputs[0]);
  }

  /** Deployments that report OK with nothing bound: a mapping without the expected key, and no timesteps at all. */
  lemma SilentDeployments()
    ensures SilentRefusal(UnkeyedThread(Timing(1, 1, 1, true)), 0) && SilentRefusal(UnkeyedThread(Timing(0, 1, 0, true)), 0)
    ensures ReachesMappings(ZEROED, Nobody, Artifact([UnkeyedThread(Timing(1, 1, 1, true))], [0, 0], 0), 1, 1, true)
  {
    var timing := Timing(1, 1, 1, true);
    UnkeyedIsValid(timing);
    UnkeyedIsValid(Timing(0, 1, 0, true));
    var view := FirstOutput(UnkeyedThread(timing));
    assert Lookup(view, 0).None?;
  }

  class Runner {
    const session: Session
    var input: InputView
    var output: OutputView
    var timing: Timing
    var lanes: array<u8>
    var frameCapacity: nat
    var inputRowBytes: nat
    var outputRowBytes: nat
    var layout: Layout

    /** What a successful deployment establishes and every sample may rely on. */
    ghost predicate Deployed()
      reads this
    {
      && ValidInputView(input) && ValidOutputView(output) && input.elementCount > 0
      && TimingSupported(timing) && ScheduleAccepts(input, timing.timesteps)
      && LayoutSound(output, layout)
      && inputRowBytes == input.elementCount && outputRowBytes == RowBytes(output) <= SIZE_MAX
      && lanes.Length <= UINT32_MAX
      && (output.kind == OUTPUT_VOLTAGE ==> timing.timesteps * output.elementCount <= lanes.Length)
    }

    ghost predicate Valid()
      reads this, session
    {
      && session.Valid()
      && (session.artifact.Some? ==> Deployed() && 0 < frameCapacity <= session.rxFrames.Length)
    }

    constructor (session: Session, lanes: array<u8>)
      requires session.Valid() && session.artifact.None?
      ensures Valid() && this.session == session
    {
      this.session, this.lanes := session, lanes;
      input, output := InputView([], 0, 0), OutputView([], 0, 0, 0, 0);
      timing, frameCapacity, inputRowBytes, outputRowBytes, layout := Timing(0, 0, 0, false), 0, 0, 0, GenericLayout;
    }

    /**
     Derive geometry and handler from the first thread's first mappings. When they are refused, `status`
     is what deployment reports: it still holds the OK of session initialization unless an exit sets it.
     */
    method Prepare(thread: Thread, voltageState: array<u8>, capacity: nat) returns (ready: bool, status: SessionStatus)
      requires ValidThread(thread) && voltageState.Length <= UINT32_MAX
      modifies this
      ensures ready <==> Deployable(thread, voltageState.Length)
      ensures ready ==>
                && HasMappings(thread) && Deployed() && lanes == voltageState && timing == thread.timing
                && frameCapacity == capacity && input == FirstInput(thread) && output == FirstOutput(thread)
      ensures !ready ==> (status == SessionOk <==> SilentRefusal(thread, voltageState.Length))
      ensures !ready && status != SessionOk ==>
                HasMappings(thread) &&
                if ScheduleAccepts(FirstInput(thread), thread.timing.timesteps) then status == SessionBufferTooSmall
                else status == SessionScheduleUnsupported || status == SessionRuntimeError
      ensures status == SessionScheduleUnsupported ==> |FirstInput(thread).entries| > 0
    {
      hide LayoutSound, AllCanonical, Candidate, Lookup, Canonical, LayoutDetectable, ScheduleAccepts;
      status := SessionOk;
      if |thread.inputs| == 0 || |thread.outputs| == 0 {
        return false, status;
      }
      FirstViews(thread);
      var inputView := GetInputMappingView(thread.inputs[0]);
      var outputView := GetOutputMappingView(thread.outputs[0], thread.targetLcn);
      if inputView.None? || outputView.None? {
        return false, status;
      }
      input, output, timing := inputView.value, outputView.value, thread.timing;
      if !TimingSupported(timing) || input.elementCount == 0 || output.elementCount == 0 || output.targetLcn > 7 {
        return false, status;
      }
      inputRowBytes := input.elementCount;
      if output.kind == OUTPUT_DATA {
        outputRowBytes := output.elementCount;
      } else if output.kind == OUTPUT_VOLTAGE {
        if output.elementCount > SIZE_MAX / 4 {
          return false, status;
        }
        outputRowBytes := output.elementCount * 4;
      } else {
        return false, status;
      }
      var schedule := ValidateInputSchedule(input, timing.timesteps);
      if schedule != SessionOk {
        return false, schedule;
      }
      if output.kind == OUTPUT_VOLTAGE {
        var required := VoltageStateCapacity(timing.timesteps, output.elementCount);
        if required.None? || voltageState.Length < required.value {
          return false, SessionBufferTooSmall;
        }
      }
      var detected;
      detected, layout := ConfigureFastLayout(output);
      DetectionOutcome(output, detected, layout);
      if detected != SessionOk {
        return false, status;
      }
      lanes, frameCapacity := voltageState, capacity;
      ready := true;
    }

    /**
     Bind the session to the artifact, derive the sample geometry, pick a handler and load the static
     configuration. Any failure after binding releases the session again. OK means that the runner is
     deployed, or that its mappings were refused on one of the exits that report OK all the same.
     */
    method Deploy(platform: Platform, noc: Noc, parsed: Artifact, buffer: array<Frame>, capacity: nat,
                  voltageState: array<u8>, timeoutMs: nat, registered: bool)
      returns (status: SessionStatus)
      requires Valid() && capacity <= buffer.Length && voltageState.Length <= UINT32_MAX
      modifies this, session, platform, noc`irqEnabled, noc`sent
      ensures Valid()
      ensures var st, owner := old(session.State()), old(session.Ownership(platform));
              var accepted := DeployAccepts(st, owner, parsed, capacity, voltageState.Length, timeoutMs, registered);
              && (status == SessionOk <==>
                    || accepted
                    || (ReachesMappings(st, owner, parsed, capacity, timeoutMs, registered) &&
                        SilentRefusal(parsed.threads[0], voltageState.Length)))
              && (accepted ==>
                    && session.State() == BoundState(parsed, 0, capacity)
                    && platform.active == session && session.rxFrames == buffer
                    && HasMappings(parsed.threads[0]) && input == FirstInput(parsed.threads[0])
                    && output == FirstOutput(parsed.threads[0])
                    && timing == parsed.threads[0].timing && lanes == voltageState && frameCapacity == capacity
                    && noc.sent == old(noc.sent) + LoadConfigStep(session.State()).sent)
              && (!accepted ==> noc.sent == old(noc.sent))
              && (!accepted && DeinitStep(st, owner).status == SessionOk ==> session.State() == ZEROED && platform.active == null)
              && (DeinitStep(st, owner).status != SessionOk ==>
                    status == SessionBusy && session.State() == st && platform.active == old(platform.active))
    {
      hide Deployable, LoadConfigStep, ValidThread, Deployed, SilentRefusal;
      status := session.Deinit(platform, noc);
      if status != SessionOk {
        return;
      }
      if capacity == 0 || timeoutMs == 0 {
        return SessionRuntimeError;
      }
      var read := ValidateIoMapping(parsed.threads);
      if read != ArtifactOk {
        return SessionRuntimeError;
      }
      status := session.Init(platform, noc, parsed, 0, buffer, capacity, registered);
      if status != SessionOk {
        return;
      }
      assert parsed.threads[0] in parsed.threads;
      RefusalsDisjoint(parsed.threads[0], voltageState.Length);
      var ready;
      ready, status := Prepare(parsed.threads[0], voltageState, capacity);
      if ready {
        LoadConfigRefuses(session.State());
        status := session.LoadConfig(noc);
      }
      if !ready || status != SessionOk {
        var released := session.Deinit(platform, noc);
      }
    }

    /** The sample a call asks for; a stride of zero means compact rows. */
    function PlanOf(inputAddr: nat, inputStride: nat, outputAddr: nat, outputCapacity: nat, outputStride: nat): Plan
      reads this
    {
      var inStride := if inputStride == 0 then inputRowBytes else inputStride;
      var outStride := if outputStride == 0 then outputRowBytes else outputStride;
      Plan(input, inputAddr, inStride,
           Setup(output, timing.timesteps, outputAddr, outputCapacity, outStride, lanes.Length), layout, timing.completionSync)
    }

    /**
     Run one sample. Input and output are windows of one memory and may coincide. Refused calls touch
     nothing; a call that starts ends as SampleOutcome says, whatever the hardware delivers and
     whenever its deadlines strike.
     */
    method RunSample(platform: Platform, noc: Noc, mem: array<u8>, inputAddr: nat, inputCapacity: nat, inputStride: nat,
                     outputAddr: nat, outputCapacity: nat, outputStride: nat)
      returns (status: SessionStatus, ghost barriers: seq<seq<Frame>>)
      requires Valid() && (session.artifact.Some? ==> platform.active == session)
      requires mem != lanes && inputAddr + inputCapacity <= mem.Length && outputAddr + outputCapacity <= mem.Length
      requires inputCapacity <= SIZE_MAX && outputCapacity <= SIZE_MAX && inputStride <= SIZE_MAX && outputStride <= SIZE_MAX
      modifies session, session.rxFrames, noc, mem, lanes
      ensures Valid()
      ensures old(session.artifact).None? ==> status == SessionRuntimeError
      ensures old(session.artifact).Some? ==>
                PlanOf(inputAddr, inputStride, outputAddr, outputCapacity, outputStride) ==
                Plan(input, inputAddr, Stride(inputStride, input.elementCount),
                     Setup(output, timing.timesteps, outputAddr, outputCapacity, Stride(outputStride, RowBytes(output)), lanes.Length),
                     layout, timing.completionSync)
      ensures old(session.artifact).Some? ==>
                SizesFit(PlanOf(inputAddr, inputStride, outputAddr, outputCapacity, outputStride), inputCapacity)
      ensures var p := PlanOf(inputAddr, inputStride, outputAddr, outputCapacity, outputStride);
              if old(session.artifact).None? || SampleCheck(p, inputCapacity) != SessionOk then
                && (old(session.artifact).Some? ==> status == SampleCheck(p, inputCapacity))
                && mem[..] == old(mem[..]) && lanes[..] == old(lanes[..])
                && noc.sent == old(noc.sent) && noc.rx == old(noc.rx) && session.State() == old(session.State())
              else
                var start := StartStore(p.setup, old(mem[..]), old(lanes[..]));
                && Accepted(p, mem.Length) && Fits(p.setup, start)
                && SampleOutcome(p, old(session.State()), start, old(noc.sent), old(noc.rx), status, barriers,
                                 Store(mem[..], lanes[..]), noc.sent, noc.rx)
                && Explained(p, old(session.State()), old(mem[..]), status, session.State())
                && (status == SessionOk ==>
                      && session.State() == Progress(old(session.State()), p.completion)
                      && |barriers| > 0 && OutputHolds(p.setup, Store(mem[..], lanes[..]), Concat(barriers[1..])))
    {
      hide SampleOutcome, Accepted, WindowsFit, SameOrDisjoint, LayoutSound, ScheduleAccepts, ValidInputView, Explained, OutputHolds;
      barriers := [];
      if session.artifact.None? {
        return SessionRuntimeError, [];
      }
      var p := PlanOf(inputAddr, inputStride, outputAddr, outputCapacity, outputStride);
      status := SampleCheck(p, inputCapacity);
      if status != SessionOk {
        return;
      }
      CheckedPlan(p, mem.Length, inputCapacity);
      ghost var before := lanes[..];
      ghost var start := StartStore(p.setup, mem[..], before);
      if output.kind == OUTPUT_VOLTAGE {
        ZeroFill(lanes, 0, timing.timesteps * output.elementCount);
      }
      var context := new DecodeContext(mem, lanes, p.setup, layout);
      assert context.Memory() == start;
      ghost var st, sent, rx := session.State(), noc.sent, noc.rx;
      status, barriers := RunAccepted(session, platform, noc, context, p, frameCapacity);
      SampleOutput(p, st, start.mem, before, sent, rx, status, barriers, context.Memory(), noc.sent, noc.rx);
    }
  }
}
