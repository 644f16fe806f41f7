/**
 The session object, the hardware it drives and its interrupt handler. The foreground is interrupted
 only between its own steps: wherever the NoC interrupt is enabled, MaybeInterrupt may run the handler.
 */
module Session {
  import opened Bits
  import opened Artifact
  import opened FrameCodec
  import opened OutputDecoder
  import opened FrameHandlers
  import opened SessionSpec

  /** The NoC device: what the up FIFO will deliver, what was written down, and the IRQ enable. */
  class Noc {
    var rx: seq<RxItem>
    var sent: seq<Frame>
    var irqEnabled: bool

    constructor (rx: seq<RxItem>)
      ensures this.rx == rx && sent == [] && !irqEnabled
    {
      this.rx, sent, irqEnabled := rx, [], false;
    }

    method WriteFrame(frame: Frame)
      modifies this`sent
      ensures sent == old(sent) + [frame]
    {
      sent := sent + [frame];
    }

    method ReadFrame() returns (item: RxItem)
      modifies this`rx
      ensures if old(rx) == [] then item == FifoError && rx == [] else item == old(rx)[0] && rx == old(rx)[1..]
    {
      if rx == [] {
        return FifoError;
      }
      item, rx := rx[0], rx[1..];
    }
  }

  /** User data of the runner's receive handler: where decoded frames go. */
  class DecodeContext {
    const mem: array<u8>
    const lanes: array<u8>
    const setup: Setup
    const layout: Layout
    var submitted: nat

    constructor (mem: array<u8>, lanes: array<u8>, setup: Setup, layout: Layout)
      ensures this.mem == mem && this.lanes == lanes && this.setup == setup && this.layout == layout && submitted == 0
    {
      this.mem, this.lanes, this.setup, this.layout, submitted := mem, lanes, setup, layout, 0;
    }

    ghost predicate Valid() {
      mem != lanes && setup.stride > 0 && setup.base + setup.capacity <= mem.Length && lanes.Length == setup.stateCount
    }

    function Memory(): (st: Store)
      requires Valid()
      reads mem, lanes
      ensures Fits(setup, st)
    {
      Store(mem[..], lanes[..])
    }

    method HandleFrame(frame: Frame) returns (status: SessionStatus)
      requires Valid()
      modifies mem, lanes
      ensures (Memory(), status) == Handle(layout, setup, submitted, old(Memory()), frame)
    {
      hide HandlerEffect;
      HandlerInWindow(layout, setup, submitted, frame);
      var codec := ApplyEffect(setup, HandlerEffect(layout, setup, submitted, frame), mem, lanes);
      return if codec == CodecOk then SessionOk else SessionRuntimeError;
    }
  }

  /** An installed receive handler with its user data. */
  datatype Handler = NoCallback | DiscardFrames | DecodeInto(context: DecodeContext)

  ghost predicate ValidHandler(h: Handler) {
    h.DecodeInto? ==> h.context.Valid()
  }

  /** The objects a handler may write. */
  function HandlerWrites(h: Handler): set<object> {
    if h.DecodeInto? then {h.context.mem, h.context.lanes} else {}
  }

  function HandlerObjects(h: Handler): set<object> {
    if h.DecodeInto? then {h.context, h.context.mem, h.context.lanes} else {}
  }

  function KindOf(h: Handler): HandlerKind
    reads HandlerObjects(h)
  {
    match h
    case NoCallback => NoHandler
    case DiscardFrames => Discard
    case DecodeInto(c) => Decode(c.layout, c.setup, c.submitted)
  }

  function StoreOf(h: Handler): Store
    requires ValidHandler(h)
    reads HandlerObjects(h)
  {
    if h.DecodeInto? then h.context.Memory() else Store([], [])
  }

  /** The step explains the call: its new state, its status, and what it added to the down FIFO. */
  ghost predicate Took(r: StepResult, state: SessionState, status: SessionStatus, before: seq<Frame>, after: seq<Frame>) {
    state == r.state && status == r.status && after == before + r.sent
  }

  /** Process-wide state: the session the interrupt handler dispatches to. */
  class Platform {
    var active: Session?

    constructor ()
      ensures active == null
    {
      active := null;
    }
  }

  class Session {
    var artifact: Option<Artifact>
    var thread: nat
    var rxFrames: array<Frame>
    var capacity: nat
    var mode: SyncMode
    var completedTimesteps: u32
    var faulted: bool
    // receive barrier
    var active: bool
    var completed: bool
    var overflow: bool
    var hardwareError: bool
    var rxCount: nat
    var handler: Handler
    var handlerStatus: SessionStatus
    ghost var calls: seq<Frame>   // the frames the handler was called on since the barrier opened

    ghost predicate Valid()
      reads this
    {
      rxCount <= capacity <= rxFrames.Length && ValidHandler(handler)
    }

    function State(): SessionState
      reads this
    {
      SessionState(artifact, thread, capacity, mode, completedTimesteps, faulted, active)
    }

    /** The barrier, the pending stream and the handler's memory as one value. */
    ghost function View(noc: Noc): (b: Barrier)
      requires Valid()
      reads this, noc, rxFrames, HandlerObjects(handler)
      ensures ValidBarrier(b)
    {
      Barrier(active, completed, overflow, hardwareError, capacity, rxFrames[..rxCount],
              KindOf(handler), handlerStatus, calls, noc.rx, StoreOf(handler))
    }

    /** Zeroed storage, as a C caller provides it. */
    constructor (buffer: array<Frame>)
      ensures Valid() && State() == ZEROED && rxFrames == buffer && handler == NoCallback
    {
      artifact, thread, rxFrames, capacity := None, 0, buffer, 0;
      mode, completedTimesteps, faulted := ModeUnset, 0, false;
      active, completed, overflow, hardwareError, rxCount := false, false, false, false, 0;
      handler, handlerStatus, calls := NoCallback, SessionOk, [];
    }

    // ------------------------------------------------------ interrupt handler

    /** One handler call. */
    method CallInstalled(noc: Noc, frame: Frame)
      requires Valid() && handler != NoCallback
      modifies this`handlerStatus, this`calls, HandlerWrites(handler)
      ensures Valid()
      ensures var called := CallHandler(KindOf(handler), old(StoreOf(handler)), frame);
              View(noc) == old(View(noc)).(store := called.0, handlerStatus := called.1, calls := old(calls) + [frame])
    {
      hide Handle;
      calls := calls + [frame];
      if handler.DecodeInto? {
        handlerStatus := handler.context.HandleFrame(frame);
      } else {
        handlerStatus := SessionOk;
      }
    }

    method ReceiveRxBarrierFrame(noc: Noc, frame: Frame)
      requires Valid()
      modifies this, rxFrames, HandlerWrites(handler)
      ensures Valid() && State() == old(State()) && rxFrames == old(rxFrames) && handler == old(handler)
      ensures View(noc) == ReceiveFrame(old(View(noc)), frame)
    {
      hide IsComplete, HandlerFits, CallHandler;
      var isComplete := IsComplete(frame);
      if handler != NoCallback && !isComplete {
        if handlerStatus == SessionOk {
          CallInstalled(noc, frame);
        }
        return;
      }
      if handler == NoCallback {
        if rxCount >= capacity {
          overflow, hardwareError, completed := true, true, true;
          return;
        }
        rxFrames[rxCount] := frame;
        rxCount := rxCount + 1;
        assert rxFrames[..rxCount] == old(rxFrames[..rxCount]) + [frame];
      }
      if isComplete {
        completed := true;
      }
    }

    /** The drain loop of paicore_noc_handler. */
    method DrainFifo(noc: Noc)
      requires Valid()
      modifies this, rxFrames, noc`rx, HandlerWrites(handler)
      ensures Valid() && State() == old(State()) && rxFrames == old(rxFrames) && handler == old(handler)
      ensures View(noc) == Drain(old(View(noc)))
    {
      hide ReceiveFrame;
      while !completed
        invariant Valid() && State() == old(State()) && rxFrames == old(rxFrames) && handler == old(handler)
        invariant Drain(View(noc)) == Drain(old(View(noc)))
        decreases |noc.rx|, if completed then 0 else 1
      {
        ghost var before := View(noc);
        var item := noc.ReadFrame();
        if item.FifoError? {
          hardwareError := true;
          completed := true;
        } else {
          ReceiveRxBarrierFrame(noc, item.frame);
        }
        assert View(noc) == IsrStep(before);
      }
    }

    /** The NoC interrupt: dispatch to the active session if it has a barrier open. */
    method NocInterrupt(platform: Platform, noc: Noc)
      requires Valid() && platform.active == this
      modifies this, rxFrames, noc`rx, noc`irqEnabled, HandlerWrites(handler)
      ensures Valid() && State() == old(State()) && rxFrames == old(rxFrames) && handler == old(handler)
      ensures !noc.irqEnabled
      ensures View(noc) == if old(active) then Drain(old(View(noc))) else old(View(noc))
    {
      noc.irqEnabled := false;
      var session := platform.active;
      if session == null || !session.active {
        return;
      }
      session.DrainFifo(noc);
    }

    /** At this point of the foreground the hardware may or may not raise the interrupt. */
    method MaybeInterrupt(platform: Platform, noc: Noc)
      requires Valid() && platform.active == this
      modifies this, rxFrames, noc`rx, noc`irqEnabled, HandlerWrites(handler)
      ensures Valid() && State() == old(State()) && rxFrames == old(rxFrames) && handler == old(handler)
      ensures || (View(noc) == old(View(noc)) && noc.irqEnabled == old(noc.irqEnabled))
              || (old(noc.irqEnabled) && !noc.irqEnabled &&
                  View(noc) == if old(active) then Drain(old(View(noc))) else old(View(noc)))
    {
      var raised: bool := *;
      if raised && noc.irqEnabled {
        NocInterrupt(platform, noc);
      }
    }

    // ------------------------------------------------------------ the barrier

    /** Forget everything about the last barrier. */
    method ClearBarrier()
      modifies this`active, this`completed, this`overflow, this`hardwareError, this`rxCount, this`handler, this`handlerStatus, this`calls
      ensures !active && !completed && !overflow && !hardwareError && rxCount == 0
      ensures handler == NoCallback && handlerStatus == SessionOk && calls == []
    {
      active, completed, overflow, hardwareError, rxCount := false, false, false, false, 0;
      handler, handlerStatus, calls := NoCallback, SessionOk, [];
    }

    method StartRxBarrier(noc: Noc, h: Handler)
      requires Valid() && ValidHandler(h)
      modifies this, noc`irqEnabled
      ensures Valid() && noc.irqEnabled && handler == h && rxFrames == old(rxFrames)
      ensures State() == old(State()).(barrierActive := true)
      ensures View(noc) == FreshBarrier(capacity, KindOf(h), noc.rx, StoreOf(h))
    {
      noc.irqEnabled := false;
      ClearBarrier();
      handler := h;
      active := true;
      noc.irqEnabled := true;
    }

    /** Either the handler has not run yet, or it has drained the barrier and masked the interrupt. */
    ghost predicate Midway(noc: Noc, start: Barrier)
      requires Valid()
      reads this, noc, rxFrames, HandlerObjects(handler)
    {
      ValidBarrier(start) && start.active && !start.completed && start.handlerStatus == SessionOk &&
      ((View(noc) == start && noc.irqEnabled) || (View(noc) == Drain(start) && !noc.irqEnabled))
    }

    /** A foreground step inside the barrier, at which the interrupt may come in. */
    method Interruptible(platform: Platform, noc: Noc, ghost start: Barrier)
      requires Valid() && platform.active == this && Midway(noc, start)
      modifies this, rxFrames, noc`rx, noc`irqEnabled, HandlerWrites(handler)
      ensures Valid() && State() == old(State()) && rxFrames == old(rxFrames) && handler == old(handler)
      ensures Midway(noc, start) && (old(completed) ==> completed)
    {
      hide Drain, KindOf, StoreOf;
      MaybeInterrupt(platform, noc);
    }

    method MaskInterrupt(noc: Noc)
      requires Valid()
      modifies noc`irqEnabled
      ensures !noc.irqEnabled && View(noc) == old(View(noc))
    {
      noc.irqEnabled := false;
    }

    /** Take the barrier away from the interrupt handler. */
    method CloseBarrier(noc: Noc, expired: bool)
      requires Valid()
      modifies this`active, this`hardwareError
      ensures Valid() && State() == old(State()).(barrierActive := false)
      ensures View(noc) == old(View(noc)).(active := false, hardwareError := old(hardwareError) || expired)
    {
      active := false;
      if expired {
        hardwareError := true;
      }
    }

    /**
     Poll until the interrupt handler completes the barrier or the deadline passes. `polls` is the
     number of polls before the clock reaches the limit; every value is possible.
     TIMEOUT is reported only if the barrier was still open when the interrupt was masked.
     */
    method WaitRxBarrier(platform: Platform, noc: Noc, polls: nat, ghost start: Barrier) returns (status: SessionStatus)
      requires Valid() && platform.active == this && Midway(noc, start)
      modifies this, rxFrames, noc`rx, noc`irqEnabled, HandlerWrites(handler)
      ensures Valid() && rxFrames == old(rxFrames) && handler == old(handler)
      ensures State() == old(State()).(barrierActive := false) && !noc.irqEnabled
      ensures status == SessionTimeout ==> View(noc) == start.(active := false, hardwareError := true)
      ensures status != SessionTimeout ==> View(noc) == Drain(start).(active := false)
      ensures status != SessionTimeout ==> status == BarrierStatus(Drain(start))
      ensures old(completed) ==> status != SessionTimeout
    {
      hide Drain, KindOf, StoreOf;
      DrainStatus(start);
      var remaining := polls;
      while !completed
        invariant Valid() && rxFrames == old(rxFrames) && handler == old(handler) && State() == old(State())
        invariant Midway(noc, start)
        invariant old(completed) ==> completed
        decreases remaining
      {
        Interruptible(platform, noc, start);
        if remaining == 0 {
          Interruptible(platform, noc, start);
          MaskInterrupt(noc);
          if completed {
            break;
          }
          CloseBarrier(noc, true);
          return SessionTimeout;
        }
        remaining := remaining - 1;
        Interruptible(platform, noc, start);
      }
      assert View(noc) == Drain(start);
      MaskInterrupt(noc);
      CloseBarrier(noc, false);
      if overflow {
        return SessionOverflow;
      }
      if hardwareError {
        return SessionHardwareError;
      }
      return handlerStatus;
    }

    /** The wait, in terms of what it leaves behind. */
    method AwaitOutcome(platform: Platform, noc: Noc, polls: nat, ghost start: Barrier) returns (status: SessionStatus)
      requires Valid() && platform.active == this && Midway(noc, start) && start.stored == []
      modifies this, rxFrames, noc`rx, noc`irqEnabled, HandlerWrites(handler)
      ensures Valid() && rxFrames == old(rxFrames) && handler == old(handler)
      ensures State() == old(State()).(barrierActive := false) && !noc.irqEnabled
      ensures BarrierOutcome(start, status, noc.rx, StoreOf(handler), rxFrames[..rxCount])
    {
      hide Drain, KindOf, StoreOf;
      status := WaitRxBarrier(platform, noc, polls, start);
    }

    /** A failed barrier detaches its handler and faults the session. */
    method FaultAfter(noc: Noc)
      requires Valid()
      modifies this`active, this`handler, this`faulted, noc`irqEnabled
      ensures Valid() && !noc.irqEnabled && handler == NoCallback
      ensures State() == old(State()).(barrierActive := false, faulted := true)
    {
      noc.irqEnabled := false;
      active := false;
      handler := NoCallback;
      faulted := true;
    }

    /**
     Send one control frame through a completion barrier. The interrupt may fire before the frame is
     even written. Any result but OK faults the session.
     */
    method RunControlBarrier(platform: Platform, noc: Noc, control: Frame, h: Handler, polls: nat) returns (status: SessionStatus)
      requires Valid() && ValidHandler(h) && platform.active == this
      modifies this, rxFrames, noc, HandlerWrites(h)
      ensures Valid() && rxFrames == old(rxFrames) && !noc.irqEnabled
      ensures Took(AfterBarrier(old(State()), control, status), State(), status, old(noc.sent), noc.sent)
      ensures BarrierOutcome(FreshBarrier(capacity, KindOf(h), old(noc.rx), old(StoreOf(h))), status,
                             noc.rx, StoreOf(h), rxFrames[..rxCount])
    {
      hide Drain, BarrierOutcome;
      StartRxBarrier(noc, h);
      ghost var start := View(noc);
      Interruptible(platform, noc, start);
      noc.WriteFrame(control);
      status := AwaitOutcome(platform, noc, polls, start);
      if status != SessionOk {
        FaultAfter(noc);
      }
    }

    // ------------------------------------------------------------- operations

    /** Who owns the interrupt, from this session's point of view. */
    function Ownership(platform: Platform): Owner
      reads platform
    {
      if platform.active == null then Nobody else if platform.active == this then Me else Someone
    }

    /** `registered` is the platform's answer to the interrupt registration. */
    method Init(platform: Platform, noc: Noc, artifact: Artifact, thread: nat, buffer: array<Frame>, capacity: nat, registered: bool)
      returns (status: SessionStatus)
      requires Valid() && capacity <= buffer.Length
      modifies this, platform, noc`irqEnabled
      ensures Valid()
      ensures OwnResult(State(), Ownership(platform), status) ==
              InitStep(old(State()), old(Ownership(platform)), artifact, thread, capacity, registered)
      ensures status == SessionOk ==> platform.active == this && rxFrames == buffer && !noc.irqEnabled
      ensures old(platform.active) != null ==> platform.active == old(platform.active)
    {
      if capacity == 0 {
        return SessionRuntimeError;
      }
      if platform.active != null {
        return SessionBusy;
      }
      if thread >= |artifact.threads| {
        return SessionRuntimeError;
      }
      Clear();
      this.artifact, this.thread, rxFrames, this.capacity := Some(artifact), thread, buffer, capacity;
      noc.irqEnabled := false;
      platform.active := this;
      if !registered {
        platform.active := null;
        Clear();
        return SessionRuntimeError;
      }
      return SessionOk;
    }

    method ClearBinding()
      modifies this`artifact, this`thread, this`capacity, this`mode, this`completedTimesteps, this`faulted
      ensures artifact == None && thread == 0 && capacity == 0 && mode == ModeUnset && completedTimesteps == 0 && !faulted
    {
      artifact, thread, capacity := None, 0, 0;
      mode, completedTimesteps, faulted := ModeUnset, 0, false;
    }

    method Clear()
      modifies this
      ensures Valid() && State() == ZEROED && rxFrames == old(rxFrames) && rxCount == 0 && handler == NoCallback
    {
      ClearBinding();
      ClearBarrier();
    }

    method Deinit(platform: Platform, noc: Noc) returns (status: SessionStatus)
      requires Valid()
      modifies this, platform, noc`irqEnabled
      ensures Valid() && rxFrames == old(rxFrames)
      ensures OwnResult(State(), Ownership(platform), status) == DeinitStep(old(State()), old(Ownership(platform)))
      ensures status == SessionOk ==> !noc.irqEnabled
      ensures status != SessionOk ==> noc.irqEnabled == old(noc.irqEnabled) && platform.active == old(platform.active)
    {
      if platform.active != null && platform.active != this {
        return SessionBusy;
      }
      if platform.active == this && active {
        return SessionBusy;
      }
      noc.irqEnabled := false;
      if platform.active == this {
        platform.active := null;
      }
      Clear();
      return SessionOk;
    }

    method LoadConfig(noc: Noc) returns (status: SessionStatus)
      requires Valid()
      modifies noc`sent, noc`irqEnabled
      ensures noc.irqEnabled == old(noc.irqEnabled)
      ensures Took(LoadConfigStep(old(State())), State(), status, old(noc.sent), noc.sent)
    {
      if artifact.None? {
        return SessionRuntimeError;
      }
      if faulted {
        return SessionFaulted;
      }
      if active {
        return SessionRuntimeError;
      }
      var words, order := artifact.value.configWords, artifact.value.wordOrder;
      if |words| == 0 || |words| % 2 != 0 {
        return SessionRuntimeError;
      }
      var irqWasEnabled := noc.irqEnabled;
      noc.irqEnabled := false;
      var i := 0;
      while i < |words| / 2
        invariant 0 <= i <= |words| / 2
        invariant i > 0 ==> order == 0 || order == 1
        invariant noc.sent == old(noc.sent) + ConfigFrames(words, order, i)
      {
        var (read, frame) := ConfigFrameWords(words, order, i);
        if read != ArtifactOk {
          noc.irqEnabled := irqWasEnabled;
          return SessionRuntimeError;
        }
        noc.WriteFrame(Frame(frame.high, frame.low));
        i := i + 1;
        assert ConfigFrames(words, order, i) == ConfigFrames(words, order, i - 1) + [Frame(frame.high, frame.low)];
      }
      noc.irqEnabled := irqWasEnabled;
      return SessionOk;
    }

    method SendFrames(noc: Noc, frames: array<Frame>, count: nat) returns (status: SessionStatus)
      requires Valid() && count <= frames.Length
      modifies noc`sent, noc`irqEnabled
      ensures noc.irqEnabled == old(noc.irqEnabled)
      ensures Took(SendStep(old(State()), frames[..count]), State(), status, old(noc.sent), noc.sent)
    {
      if artifact.None? {
        return SessionRuntimeError;
      }
      if faulted {
        return SessionFaulted;
      }
      if active {
        return SessionRuntimeError;
      }
      var irqWasEnabled := noc.irqEnabled;
      noc.irqEnabled := false;
      for i := 0 to count
        invariant noc.sent == old(noc.sent) + frames[..i]
      {
        noc.WriteFrame(frames[i]);
        assert frames[..i + 1] == frames[..i] + [frames[i]];
      }
      noc.irqEnabled := irqWasEnabled;
      return SessionOk;
    }

    method BuildControl(header: nat, payload: nat) returns (r: BuildResult)
      requires header < 16
      ensures r == ControlFrame(State(), header, payload)
    {
      if payload > CTRL_PAYLOAD_MAX {
        return Failed(CodecBadValue);
      }
      if artifact.None? || thread >= |artifact.value.threads| {
        return Failed(CodecOutOfRange);
      }
      return BuildControlFrame(artifact.value.threads[thread].root, header, payload);
    }

    /** A call that ran no barrier left the stream and the handler's memory alone; otherwise both are as the barrier left them. */
    ghost predicate Left(noc: Noc, runs: bool, start: Barrier, h: Handler, status: SessionStatus, count: nat)
      requires Valid() && ValidHandler(h) && ValidBarrier(start)
      reads this, noc, rxFrames, HandlerObjects(h)
    {
      if runs then !noc.irqEnabled && count == rxCount && BarrierOutcome(start, status, noc.rx, StoreOf(h), rxFrames[..rxCount])
      else status != SessionOk && count == 0 && noc.rx == start.rx && StoreOf(h) == start.store
    }

    method ResetModel(platform: Platform, noc: Noc, polls: nat) returns (status: SessionStatus)
      requires Valid() && (artifact.Some? ==> platform.active == this)
      modifies this, rxFrames, noc
      ensures Valid() && rxFrames == old(rxFrames)
      ensures Took(ResetStep(old(State()), status), State(), status, old(noc.sent), noc.sent)
      ensures Left(noc, Ready(old(State())) && Rooted(old(State())),
                   FreshBarrier(old(capacity), Discard, old(noc.rx), Store([], [])), DiscardFrames, status,
                   if Ready(old(State())) && Rooted(old(State())) then rxCount else 0)
    {
      hide BuildControlFrame, BarrierOutcome, Drain, Rooted;
      ControlToRoot(State(), HDR_INIT, 0);
      if artifact.None? || capacity == 0 {
        return SessionRuntimeError;
      }
      if faulted {
        return SessionFaulted;
      }
      if active {
        return SessionRuntimeError;
      }
      var built := BuildControl(HDR_INIT, 0);
      if built.Failed? {
        return SessionRuntimeError;
      }
      status := RunControlBarrier(platform, noc, built.frame, DiscardFrames, polls);
      if status == SessionOk {
        mode, completedTimesteps := ModeUnset, 0;
      }
    }

    method SyncWaitPayloadImpl(platform: Platform, noc: Noc, payload: nat, h: Handler, polls: nat)
      returns (status: SessionStatus, count: nat)
      requires Valid() && ValidHandler(h) && (artifact.Some? ==> platform.active == this)
      modifies this, rxFrames, noc, HandlerWrites(h)
      ensures Valid() && rxFrames == old(rxFrames)
      ensures Took(SyncPayloadStep(old(State()), payload, status), State(), status, old(noc.sent), noc.sent)
      ensures Left(noc, SyncRuns(old(State()), payload),
                   FreshBarrier(old(capacity), KindOf(h), old(noc.rx), old(StoreOf(h))), h, status, count)
    {
      hide Drain, BuildControlFrame, BarrierOutcome;
      count := 0;
      if artifact.None? || capacity == 0 {
        return SessionRuntimeError, 0;
      }
      if faulted {
        return SessionFaulted, 0;
      }
      if active {
        return SessionRuntimeError, 0;
      }
      var built := BuildControl(HDR_SYNC, payload);
      if built.Failed? {
        return SessionRuntimeError, 0;
      }
      status := RunControlBarrier(platform, noc, built.frame, h, polls);
      count := rxCount;
    }

    /** Exact raw payload; the received frames are rxFrames[..count]. */
    method SyncWaitPayload(platform: Platform, noc: Noc, payload: u32, polls: nat) returns (status: SessionStatus, count: nat)
      requires Valid() && (artifact.Some? ==> platform.active == this)
      modifies this, rxFrames, noc
      ensures Valid() && rxFrames == old(rxFrames) && count <= rxFrames.Length
      ensures Took(SyncRawStep(old(State()), payload, status), State(), status, old(noc.sent), noc.sent)
      ensures Left(noc, old(mode) != ModeTimeline && SyncRuns(old(State()), payload),
                   FreshBarrier(old(capacity), NoHandler, old(noc.rx), Store([], [])), NoCallback, status, count)
    {
      hide Drain, BuildControlFrame, BarrierOutcome, ControlFrame;
      if faulted {
        return SessionFaulted, 0;
      }
      if mode == ModeTimeline {
        return SessionSyncModeError, 0;
      }
      status, count := SyncWaitPayloadImpl(platform, noc, payload, NoCallback, polls);
      if status == SessionOk {
        mode := ModeRawPayload;
      }
    }

    /** Cumulative timeline target, with or without a receive handler. */
    method SyncWaitUntil(platform: Platform, noc: Noc, target: u32, h: Handler, polls: nat)
      returns (status: SessionStatus, count: nat)
      requires Valid() && ValidHandler(h) && (artifact.Some? ==> platform.active == this)
      modifies this, rxFrames, noc, HandlerWrites(h)
      ensures Valid() && rxFrames == old(rxFrames)
      ensures Took(SyncUntilStep(old(State()), target, status), State(), status, old(noc.sent), noc.sent)
      ensures Left(noc, UntilRuns(old(State()), target),
                   FreshBarrier(old(capacity), KindOf(h), old(noc.rx), old(StoreOf(h))), h, status, count)
    {
      hide Drain, BuildControlFrame, BarrierOutcome, SyncPayloadStep, ControlFrame;
      if faulted {
        return SessionFaulted, 0;
      }
      if TimelineRefuses(State(), target) {
        return SessionSyncModeError, 0;
      }
      var payload := if mode == ModeTimeline then target - completedTimesteps else target;
      status, count := SyncWaitPayloadImpl(platform, noc, payload, h, polls);
      if status == SessionOk {
        mode := ModeTimeline;
        completedTimesteps := target;
      }
    }
  }

  /** A completed barrier never reads as a timeout. */
  lemma {:induction false} DrainStatus(b: Barrier)
    requires ValidBarrier(b) && (b.handlerStatus == SessionOk || b.handlerStatus == SessionRuntimeError)
    ensures BarrierStatus(Drain(b)) != SessionTimeout
    ensures Drain(b).handlerStatus == SessionOk || Drain(b).handlerStatus == SessionRuntimeError
    decreases |b.rx|, if b.completed then 0 else 1
  {
    hide CallHandler, IsComplete, HandlerFits;
    if !b.completed {
      DrainStatus(IsrStep(b));
    }
  }
}
