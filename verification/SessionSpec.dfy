/**
 The session protocol on values: one receive barrier as the interrupt handler drives it, and one
 step of each session operation. The classes in module Session are proved against these functions.
 */
module SessionSpec {
  import opened Bits
  import opened Artifact
  import opened FrameCodec
  import opened OutputDecoder
  import opened FrameHandlers

  // ------------------------------------------------------------- one barrier

  /** What a read of the up FIFO yields. A FIFO that has nothing more to deliver reads as an error. */
  datatype RxItem = Arrived(frame: Frame) | FifoError

  datatype HandlerKind = NoHandler | Discard | Decode(layout: Layout, setup: Setup, submitted: nat)

  /** A receive barrier together with the hardware stream and the memory its handler may write. */
  datatype Barrier = Barrier(
    active: bool, completed: bool, overflow: bool, hardwareError: bool,
    capacity: nat, stored: seq<Frame>,
    handler: HandlerKind, handlerStatus: SessionStatus,
    calls: seq<Frame>,               // every frame the handler has been called on
    rx: seq<RxItem>, store: Store)

  ghost predicate HandlerFits(h: HandlerKind, st: Store) {
    h.Decode? ==> h.setup.stride > 0 && Fits(h.setup, st)
  }

  ghost predicate ValidBarrier(b: Barrier) {
    |b.stored| <= b.capacity && HandlerFits(b.handler, b.store)
  }

  function CallHandler(h: HandlerKind, st: Store, frame: Frame): (r: (Store, SessionStatus))
    requires HandlerFits(h, st)
    ensures HandlerFits(h, r.0) && (r.1 == SessionOk || r.1 == SessionRuntimeError)
    ensures |r.0.mem| == |st.mem| && |r.0.lanes| == |st.lanes|
  {
    match h
    case Decode(layout, setup, submitted) => Handle(layout, setup, submitted, st, frame)
    case _ => (st, SessionOk)
  }

  function ReceiveFrame(b: Barrier, frame: Frame): (r: Barrier)
    requires ValidBarrier(b)
    ensures ValidBarrier(r) && r.rx == b.rx
  {
    if b.handler != NoHandler && !IsComplete(frame) then
      if b.handlerStatus != SessionOk then b
      else
        var called := CallHandler(b.handler, b.store, frame);
        b.(store := called.0, handlerStatus := called.1, calls := b.calls + [frame])
    else if b.handler == NoHandler && |b.stored| >= b.capacity then
      b.(overflow := true, hardwareError := true, completed := true)
    else
      var kept := if b.handler == NoHandler then b.(stored := b.stored + [frame]) else b;
      if IsComplete(frame) then kept.(completed := true) else kept
  }

  /** One iteration of the interrupt handler's loop. */
  function IsrStep(b: Barrier): (r: Barrier)
    requires ValidBarrier(b)
    ensures ValidBarrier(r)
    ensures |r.rx| < |b.rx| || (b.rx == r.rx == [] && r.completed)
  {
    if b.rx == [] then b.(hardwareError := true, completed := true)
    else
      var rest := b.(rx := b.rx[1..]);
      match b.rx[0]
      case FifoError => rest.(hardwareError := true, completed := true)
      case Arrived(frame) => ReceiveFrame(rest, frame)
  }

  /** The interrupt handler's loop: read until the barrier is completed. */
  function Drain(b: Barrier): (r: Barrier)
    requires ValidBarrier(b)
    ensures ValidBarrier(r) && r.completed
    ensures r.active == b.active && r.capacity == b.capacity && r.handler == b.handler
    decreases |b.rx|, if b.completed then 0 else 1
  {
    if b.completed then b else Drain(IsrStep(b))
  }

  function FreshBarrier(capacity: nat, handler: HandlerKind, rx: seq<RxItem>, store: Store): Barrier {
    Barrier(true, false, false, false, capacity, [], handler, SessionOk, [], rx, store)
  }

  /** What the foreground reports for a completed barrier. */
  function BarrierStatus(b: Barrier): SessionStatus {
    if b.overflow then SessionOverflow
    else if b.hardwareError then SessionHardwareError
    else b.handlerStatus
  }

  // -------------------------------------------------------- drain, in closed form

  predicate IsStop(item: RxItem) { item.FifoError? || IsComplete(item.frame) }

  /** Position of the first COMPLETE frame or FIFO error; the stream's length when there is none. */
  function StopIndex(rx: seq<RxItem>): (k: nat)
    ensures k <= |rx|
    ensures forall i :: 0 <= i < k ==> !IsStop(rx[i])
    ensures k < |rx| ==> IsStop(rx[k])
  {
    if rx == [] || IsStop(rx[0]) then 0 else StopIndex(rx[1..]) + 1
  }

  /** The frames of an error-free stretch of the stream. */
  function FramesOf(rx: seq<RxItem>): (frames: seq<Frame>)
    requires forall i :: 0 <= i < |rx| ==> rx[i].Arrived?
    ensures |frames| == |rx| && forall i :: 0 <= i < |rx| ==> frames[i] == rx[i].frame
  {
    seq(|rx|, i requires 0 <= i < |rx| => rx[i].frame)
  }

  /** Calling a handler on frames in turn until the first failure. */
  function FeedHandler(h: HandlerKind, st: Store, frames: seq<Frame>): (r: (Store, SessionStatus))
    requires HandlerFits(h, st)
    ensures HandlerFits(h, r.0) && (r.1 == SessionOk || r.1 == SessionRuntimeError)
    ensures |r.0.mem| == |st.mem| && |r.0.lanes| == |st.lanes|
  {
    match h
    case Decode(layout, setup, submitted) => Feed(layout, setup, submitted, st, frames)
    case _ => (st, SessionOk)
  }

  lemma FeedHandlerStep(h: HandlerKind, st: Store, frames: seq<Frame>)
    requires HandlerFits(h, st)
    ensures FeedHandler(h, st, frames) ==
            if frames == [] then (st, SessionOk)
            else
              var next := CallHandler(h, st, frames[0]);
              if next.1 != SessionOk then next else FeedHandler(h, next.0, frames[1..])
  {
    hide Handle;
  }

  /** The frames a handler is called on: a prefix that ends with the first frame it fails on. */
  function CalledOn(h: HandlerKind, st: Store, frames: seq<Frame>): (calls: seq<Frame>)
    requires HandlerFits(h, st)
    ensures calls <= frames
    decreases |frames|
  {
    if frames == [] then []
    else
      var next := CallHandler(h, st, frames[0]);
      if next.1 != SessionOk then [frames[0]] else [frames[0]] + CalledOn(h, next.0, frames[1..])
  }

  lemma {:induction false} CalledOnExact(h: HandlerKind, st: Store, frames: seq<Frame>)
    requires HandlerFits(h, st)
    ensures var calls := CalledOn(h, st, frames);
            && FeedHandler(h, st, frames) == FeedHandler(h, st, calls)
            && (FeedHandler(h, st, frames).1 == SessionOk ==> calls == frames)
            && (FeedHandler(h, st, frames).1 != SessionOk ==>
                  |calls| > 0 && FeedHandler(h, st, calls[..|calls| - 1]).1 == SessionOk)
    decreases |frames|
  {
    hide FeedHandler, CallHandler;
    FeedHandlerStep(h, st, frames);
    FeedHandlerStep(h, st, CalledOn(h, st, frames));
    if frames != [] {
      var next, calls := CallHandler(h, st, frames[0]), CalledOn(h, st, frames);
      var front := calls[..|calls| - 1];
      FeedHandlerStep(h, st, front);
      if next.1 == SessionOk {
        CalledOnExact(h, next.0, frames[1..]);
        var rest := CalledOn(h, next.0, frames[1..]);
        assert calls[0] == frames[0] && calls[1..] == rest;
        if |rest| > 0 {
          assert front[0] == frames[0] && front[1..] == rest[..|rest| - 1];
        }
      }
    }
  }

  lemma CalledOnStep(h: HandlerKind, st: Store, frames: seq<Frame>)
    requires HandlerFits(h, st) && frames != []
    ensures var next := CallHandler(h, st, frames[0]);
            CalledOn(h, st, frames) == [frames[0]] + if next.1 != SessionOk then [] else CalledOn(h, next.0, frames[1..])
  {
  }

  /** The handler's part of a drain over these frames: after a failure nothing is called any more. */
  function Fed(b: Barrier, frames: seq<Frame>): Barrier
    requires ValidBarrier(b)
  {
    if b.handlerStatus != SessionOk then b
    else
      var fed := FeedHandler(b.handler, b.store, frames);
      b.(store := fed.0, handlerStatus := fed.1, calls := b.calls + CalledOn(b.handler, b.store, frames))
  }

  /** The whole drain in closed form. */
  function Served(b: Barrier): Barrier
    requires ValidBarrier(b)
  {
    var k := StopIndex(b.rx);
    Fed(b, FramesOf(b.rx[..k])).(
      completed := true, rx := b.rx[if k < |b.rx| then k + 1 else k..],
      hardwareError := b.hardwareError || k == |b.rx| || b.rx[k].FifoError?)
  }

  /** One more frame at the front is one more call at the front. */
  lemma FedStep(b: Barrier, frames: seq<Frame>)
    requires ValidBarrier(b) && frames != []
    ensures var called := CallHandler(b.handler, b.store, frames[0]);
            Fed(b, frames) == if b.handlerStatus != SessionOk then b
                              else Fed(b.(store := called.0, handlerStatus := called.1, calls := b.calls + [frames[0]]), frames[1..])
  {
    hide CallHandler, FeedHandler, CalledOn, HandlerFits;
    if b.handlerStatus == SessionOk {
      FeedHandlerStep(b.handler, b.store, frames);
      CalledOnStep(b.handler, b.store, frames);
      var called := CallHandler(b.handler, b.store, frames[0]);
      Associate(b.calls, [frames[0]], if called.1 == SessionOk then CalledOn(b.handler, called.0, frames[1..]) else []);
    }
  }

  lemma ServedAtStop(b: Barrier)
    requires ValidBarrier(b) && b.handler != NoHandler && !b.completed
    requires b.rx == [] || IsStop(b.rx[0])
    ensures IsrStep(b) == Served(b)
  {
    hide CallHandler, IsComplete, HandlerFits, FeedHandler;
    FeedHandlerStep(b.handler, b.store, []);
    assert StopIndex(b.rx) == 0 && FramesOf(b.rx[..0]) == [];
    if b.rx != [] && b.rx[0].Arrived? {
      assert b.rx[1..] == Served(b).rx;
    }
  }

  /** The stream plays no part in it. */
  lemma FedFrame(b: Barrier, frames: seq<Frame>, rx: seq<RxItem>)
    requires ValidBarrier(b)
    ensures Fed(b.(rx := rx), frames) == Fed(b, frames).(rx := rx)
    ensures b.handlerStatus != SessionOk ==> Fed(b, frames) == b
    ensures Fed(b, frames).hardwareError == b.hardwareError
  {
    hide FeedHandler, CalledOn, HandlerFits;
  }

  lemma ServedStep(b: Barrier)
    requires ValidBarrier(b) && b.handler != NoHandler && !b.completed
    requires b.rx != [] && !IsStop(b.rx[0])
    ensures !IsrStep(b).completed && IsrStep(b).handler == b.handler && Served(IsrStep(b)) == Served(b)
  {
    hide CallHandler, IsComplete, HandlerFits, FeedHandler, CalledOn, Fed;
    var k, next := StopIndex(b.rx), IsrStep(b);
    assert StopIndex(next.rx) == k - 1;
    assert b.rx[..k][1..] == next.rx[..k - 1];
    var frames := FramesOf(b.rx[..k]);
    assert frames[0] == b.rx[0].frame && frames[1..] == FramesOf(next.rx[..k - 1]);
    FedStep(b, frames);
    FedFrame(next.(rx := b.rx), frames[1..], next.rx);
    FedFrame(b, frames, b.rx);
    if k < |b.rx| {
      assert next.rx[k..] == b.rx[k + 1..];
    } else {
      assert next.rx[k - 1..] == b.rx[k..];
    }
  }

  lemma Associate(a: seq<Frame>, b: seq<Frame>, c: seq<Frame>)
    ensures (a + b) + c == a + (b + c)
  {
  }

  /**
   With a handler installed, the drain consumes the stream exactly through the first COMPLETE frame
   or FIFO error, and the handler sees exactly the frames before it, sticky after its first failure.
   */
  lemma {:induction false} DrainWithHandler(b: Barrier)
    requires ValidBarrier(b) && b.handler != NoHandler && !b.completed
    ensures Drain(b) == Served(b)
    decreases |b.rx|
  {
    hide CallHandler, IsComplete, HandlerFits, Served, IsrStep;
    if b.rx == [] || IsStop(b.rx[0]) {
      ServedAtStop(b);
      assert Drain(b) == Drain(IsrStep(b));
      assert Served(b).completed by {
        ServedCompletes(b);
      }
    } else {
      ServedStep(b);
      DrainWithHandler(IsrStep(b));
    }
  }

  /**
   The frames the handler was really called on during a barrier: of those before the stop, exactly the
   ones up to and including the first it fails on. Every call but the last succeeded, and if none
   failed they are all of them.
   */
  lemma DrainCalls(capacity: nat, handler: HandlerKind, rx: seq<RxItem>, store: Store)
    requires HandlerFits(handler, store) && handler != NoHandler
    ensures var d, frames := Drain(FreshBarrier(capacity, handler, rx, store)), FramesOf(rx[..StopIndex(rx)]);
            && d.calls == CalledOn(handler, store, frames) && d.calls <= frames
            && (d.store, d.handlerStatus) == FeedHandler(handler, store, d.calls)
            && (d.handlerStatus == SessionOk ==> d.calls == frames)
            && (d.handlerStatus != SessionOk ==>
                  |d.calls| > 0 && FeedHandler(handler, store, d.calls[..|d.calls| - 1]).1 == SessionOk)
  {
    hide IsComplete, HandlerFits, CallHandler, Drain, FeedHandler, CalledOn;
    var frames := FramesOf(rx[..StopIndex(rx)]);
    DrainWithHandler(FreshBarrier(capacity, handler, rx, store));
    CalledOnExact(handler, store, frames);
    assert [] + CalledOn(handler, store, frames) == CalledOn(handler, store, frames);
  }

  lemma ServedCompletes(b: Barrier)
    requires ValidBarrier(b)
    ensures Served(b).completed
  {
  }

  /** At most n iterations of the interrupt handler's loop. */
  function IsrSteps(b: Barrier, n: nat): (r: Barrier)
    requires ValidBarrier(b)
    ensures ValidBarrier(r)
    decreases n
  {
    if n == 0 || b.completed then b else IsrSteps(IsrStep(b), n - 1)
  }

  /**
   With a handler installed, n reads of what the hardware delivers complete the barrier exactly when
   one of the n items is a COMPLETE frame or an error; otherwise all n were read and the loop goes on.
   So it ends on exactly the streams that contain a stop, however long they are.
   */
  lemma {:induction false} ReadsUntilStop(b: Barrier, n: nat)
    requires ValidBarrier(b) && b.handler != NoHandler && !b.completed && n <= |b.rx|
    ensures IsrSteps(b, n).completed <==> exists i :: 0 <= i < n && IsStop(b.rx[i])
    ensures !IsrSteps(b, n).completed ==> IsrSteps(b, n).rx == b.rx[n..]
    ensures IsrSteps(b, n).completed ==> IsrSteps(b, n) == Drain(b)
    decreases n
  {
    hide CallHandler, IsComplete, HandlerFits;
    if n > 0 {
      var next := IsrStep(b);
      assert next.rx == b.rx[1..];
      if IsStop(b.rx[0]) {
        assert next.completed && IsrSteps(b, n) == next;
      } else {
        ReadsUntilStop(next, n - 1);
        assert b.rx[n..] == next.rx[n - 1..];
        if i :| 0 <= i < n && IsStop(b.rx[i]) {
          assert IsStop(next.rx[i - 1]);
        }
        if j :| 0 <= j < n - 1 && IsStop(next.rx[j]) {
          assert IsStop(b.rx[j + 1]);
        }
      }
    }
  }

  /** A drain that stored n more frames: the received prefix, and how it ended. */
  ghost predicate Collected(b: Barrier, d: Barrier, n: nat) {
    && |d.stored| == |b.stored| + n && n <= |b.rx| && |d.stored| <= b.capacity
    && b.stored <= d.stored
    && |b.rx| - |d.rx| <= n + 1
    && d.store == b.store && d.handlerStatus == SessionOk && d.calls == b.calls
    && (forall i :: 0 <= i < n ==> b.rx[i] == Arrived(d.stored[|b.stored| + i]))
    && (forall i :: 0 <= i < n - 1 ==> !IsStop(b.rx[i]))
    && (d.hardwareError && n > 0 ==> !IsStop(b.rx[n - 1]))
    && (d.overflow ==> d.hardwareError && |d.stored| == b.capacity && n < |b.rx| && b.rx[n].Arrived?)
    && (d.hardwareError ==> d.overflow || n == |b.rx| || b.rx[n].FifoError?)
    && (!d.hardwareError ==> n > 0 && IsStop(b.rx[n - 1]) && d.rx == b.rx[n..])
  }

  lemma CollectedStep(b: Barrier, d: Barrier, n: nat)
    requires ValidBarrier(b) && b.handler == NoHandler && !b.completed
    requires !b.overflow && !b.hardwareError && b.handlerStatus == SessionOk
    requires !IsrStep(b).completed && Collected(IsrStep(b), d, n)
    ensures Collected(b, d, n + 1)
  {
    hide IsComplete, HandlerFits, CallHandler;
    var next := IsrStep(b);
    assert next.rx == b.rx[1..] && next.stored == b.stored + [b.rx[0].frame];
    assert d.stored[|b.stored|] == next.stored[|b.stored|];
    forall i | 0 <= i < n + 1
      ensures b.rx[i] == Arrived(d.stored[|b.stored| + i])
    {
      if i > 0 {
        assert next.rx[i - 1] == Arrived(d.stored[|next.stored| + (i - 1)]);
      }
    }
    forall i | 0 <= i < n
      ensures !IsStop(b.rx[i])
    {
      if i > 0 {
        assert !IsStop(next.rx[i - 1]);
      }
    }
    if n > 0 {
      assert next.rx[n - 1] == b.rx[n];
    }
    assert b.rx[n + 1..] == next.rx[n..];
  }

  lemma CollectedAtEnd(b: Barrier)
    requires ValidBarrier(b) && b.handler == NoHandler && !b.completed
    requires !b.overflow && !b.hardwareError && b.handlerStatus == SessionOk
    requires IsrStep(b).completed
    ensures Collected(b, IsrStep(b), |IsrStep(b).stored| - |b.stored|)
    ensures |IsrStep(b).stored| >= |b.stored|
  {
    hide IsComplete, HandlerFits, CallHandler;
  }

  /**
   Without a handler the drain ends within capacity + 1 reads for every stream, and stores exactly
   the received prefix in order, the COMPLETE frame included.
   */
  lemma {:induction false} DrainWithoutHandler(b: Barrier)
    requires ValidBarrier(b) && b.handler == NoHandler && !b.completed
    requires !b.overflow && !b.hardwareError && b.handlerStatus == SessionOk
    ensures |b.stored| <= |Drain(b).stored| && Collected(b, Drain(b), |Drain(b).stored| - |b.stored|)
    ensures |b.rx| - |Drain(b).rx| <= b.capacity - |b.stored| + 1
    decreases |b.rx|
  {
    hide IsComplete, HandlerFits, CallHandler, Collected;
    var next := IsrStep(b);
    if next.completed {
      CollectedAtEnd(b);
      assert Drain(next) == next;
    } else {
      DrainWithoutHandler(next);
      CollectedStep(b, Drain(next), |Drain(next).stored| - |next.stored|);
    }
    CollectedReads(b, Drain(b), |Drain(b).stored| - |b.stored|);
  }

  lemma CollectedReads(b: Barrier, d: Barrier, n: nat)
    requires Collected(b, d, n)
    ensures |b.rx| - |d.rx| <= b.capacity - |b.stored| + 1
  {
  }

  /** What a barrier on this stream reports once it is drained. */
  function StatusOf(capacity: nat, handler: HandlerKind, rx: seq<RxItem>, store: Store): SessionStatus
    requires HandlerFits(handler, store)
  {
    BarrierStatus(Drain(FreshBarrier(capacity, handler, rx, store)))
  }

  /**
   Which status a drained barrier reports, for every stream. Without a handler the buffer decides first:
   OVERFLOW if a frame arrives when it is full. With one, an error before the COMPLETE frame is a
   hardware error even if the handler has failed as well.
   */
  lemma BarrierStatusIs(capacity: nat, handler: HandlerKind, rx: seq<RxItem>, store: Store)
    requires HandlerFits(handler, store)
    ensures var status, k := StatusOf(capacity, handler, rx, store), StopIndex(rx);
            if handler == NoHandler then
              status == if k < |rx| && k < capacity && rx[k].Arrived? then SessionOk
                        else if capacity < |rx| && capacity <= k && rx[capacity].Arrived? then SessionOverflow
                        else SessionHardwareError
            else
              status == if k == |rx| || rx[k].FifoError? then SessionHardwareError
                        else if handler == Discard then SessionOk
                        else FeedHandler(handler, store, FramesOf(rx[..k])).1
  {
    hide IsComplete, HandlerFits, CallHandler, Drain, FeedHandler, Collected, Served, CalledOn, BarrierStatus, StopIndex;
    DiscardTakesAll(handler, store, FramesOf(rx[..StopIndex(rx)]));
    var b := FreshBarrier(capacity, handler, rx, store);
    if handler == NoHandler {
      DrainWithoutHandler(b);
      StoredStop(b, Drain(b), |Drain(b).stored|);
    } else {
      DrainWithHandler(b);
      ServedStatus(b);
    }
  }

  /**
   A barrier reports OK iff its stream reached a COMPLETE frame with no FIFO error before it, enough
   buffer for everything received, and every handler call successful.
   */
  lemma BarrierOkIff(capacity: nat, handler: HandlerKind, rx: seq<RxItem>, store: Store)
    requires HandlerFits(handler, store)
    ensures var k := StopIndex(rx);
            StatusOf(capacity, handler, rx, store) == SessionOk <==>
            && k < |rx| && rx[k].Arrived?
            && (handler == NoHandler ==> k < capacity)
            && (handler != NoHandler ==> FeedHandler(handler, store, FramesOf(rx[..k])).1 == SessionOk)
  {
    hide StatusOf, FeedHandler, HandlerFits, StopIndex, FramesOf, Drain, IsComplete;
    DiscardTakesAll(handler, store, FramesOf(rx[..StopIndex(rx)]));
    BarrierStatusIs(capacity, handler, rx, store);
  }

  /** The handler of a reset takes whatever arrives and changes nothing. */
  lemma DiscardTakesAll(handler: HandlerKind, store: Store, frames: seq<Frame>)
    requires HandlerFits(handler, store)
    ensures handler == Discard ==> FeedHandler(handler, store, frames) == (store, SessionOk)
  {
  }

  lemma ServedStatus(b: Barrier)
    requires ValidBarrier(b) && !b.overflow && !b.hardwareError && b.handlerStatus == SessionOk
    ensures var k := StopIndex(b.rx);
            BarrierStatus(Served(b)) == if k == |b.rx| || b.rx[k].FifoError? then SessionHardwareError
                                        else FeedHandler(b.handler, b.store, FramesOf(b.rx[..k])).1
  {
    hide IsComplete, HandlerFits, FeedHandler, CalledOn;
  }

  /** A handler-free drain is clean iff the stream's stop is a COMPLETE frame that fits the buffer. */
  lemma StoredStop(b: Barrier, d: Barrier, n: nat)
    requires b.stored == [] && Collected(b, d, n)
    ensures var k := StopIndex(b.rx);
            && (!d.hardwareError <==> k < |b.rx| && b.rx[k].Arrived? && k < b.capacity)
            && (d.overflow <==> b.capacity < |b.rx| && b.capacity <= k && b.rx[b.capacity].Arrived?)
            && (BarrierStatus(d) == if d.overflow then SessionOverflow else if d.hardwareError then SessionHardwareError else SessionOk)
  {
    hide IsComplete;
    var k := StopIndex(b.rx);
    if !d.hardwareError {
      assert k == n - 1;
      assert b.rx[n - 1] == Arrived(d.stored[n - 1]);
    }
  }

  // ------------------------------------------------------ one session operation

  datatype SyncMode = ModeUnset | ModeRawPayload | ModeTimeline

  datatype SessionState = SessionState(
    artifact: Option<Artifact>, thread: nat, capacity: nat,
    mode: SyncMode, completed: u32, faulted: bool, barrierActive: bool)

  const ZEROED: SessionState := SessionState(None, 0, 0, ModeUnset, 0, false, false)

  /** New state, reported status, and the frames the call put on the down FIFO. */
  datatype StepResult = StepResult(state: SessionState, status: SessionStatus, sent: seq<Frame>)

  function Refuse(st: SessionState, status: SessionStatus): StepResult { StepResult(st, status, []) }

  function BoundState(artifact: Artifact, thread: nat, capacity: nat): SessionState {
    SessionState(Some(artifact), thread, capacity, ModeUnset, 0, false, false)
  }

  function ControlFrame(st: SessionState, header: nat, payload: nat): BuildResult
    requires header < 16
  {
    if payload > CTRL_PAYLOAD_MAX then Failed(CodecBadValue)
    else if st.artifact.None? || st.thread >= |st.artifact.value.threads| then Failed(CodecOutOfRange)
    else BuildControlFrame(st.artifact.value.threads[st.thread].root, header, payload)
  }

  /** A control barrier that ended with the given status. Any failure faults the session. */
  function AfterBarrier(st: SessionState, frame: Frame, outcome: SessionStatus): StepResult {
    StepResult(st.(barrierActive := false, faulted := st.faulted || outcome != SessionOk), outcome, [frame])
  }

  function ResetStep(st: SessionState, outcome: SessionStatus): StepResult {
    if st.artifact.None? || st.capacity == 0 then Refuse(st, SessionRuntimeError)
    else if st.faulted then Refuse(st, SessionFaulted)
    else if st.barrierActive then Refuse(st, SessionRuntimeError)
    else
      match ControlFrame(st, HDR_INIT, 0)
      case Failed(_) => Refuse(st, SessionRuntimeError)
      case Built(frame) =>
        var r := AfterBarrier(st, frame, outcome);
        if outcome == SessionOk then r.(state := r.state.(mode := ModeUnset, completed := 0)) else r
  }

  /** The part shared by raw and timeline synchronization. */
  function SyncPayloadStep(st: SessionState, payload: nat, outcome: SessionStatus): StepResult {
    if st.artifact.None? || st.capacity == 0 then Refuse(st, SessionRuntimeError)
    else if st.faulted then Refuse(st, SessionFaulted)
    else if st.barrierActive then Refuse(st, SessionRuntimeError)
    else
      match ControlFrame(st, HDR_SYNC, payload)
      case Failed(_) => Refuse(st, SessionRuntimeError)
      case Built(frame) => AfterBarrier(st, frame, outcome)
  }

  /** Whether a synchronization got as far as running its barrier. */
  predicate SyncRuns(st: SessionState, payload: nat) {
    st.artifact.Some? && st.capacity != 0 && !st.faulted && !st.barrierActive && ControlFrame(st, HDR_SYNC, payload).Built?
  }

  function SyncRawStep(st: SessionState, payload: u32, outcome: SessionStatus): StepResult {
    if st.faulted then Refuse(st, SessionFaulted)
    else if st.mode == ModeTimeline then Refuse(st, SessionSyncModeError)
    else
      var r := SyncPayloadStep(st, payload, outcome);
      if r.status == SessionOk then r.(state := r.state.(mode := ModeRawPayload)) else r
  }

  predicate TimelineRefuses(st: SessionState, target: u32) {
    st.mode == ModeRawPayload || (st.mode == ModeTimeline && target <= st.completed)
  }

  /** The hardware counts increments, so the payload is the distance from the last target. */
  function TimelinePayload(st: SessionState, target: u32): nat
    requires !TimelineRefuses(st, target)
  {
    if st.mode == ModeTimeline then target - st.completed else target
  }

  predicate UntilRuns(st: SessionState, target: u32) {
    !TimelineRefuses(st, target) && SyncRuns(st, TimelinePayload(st, target))
  }

  function SyncUntilStep(st: SessionState, target: u32, outcome: SessionStatus): StepResult {
    if st.faulted then Refuse(st, SessionFaulted)
    else if TimelineRefuses(st, target) then Refuse(st, SessionSyncModeError)
    else
      var r := SyncPayloadStep(st, TimelinePayload(st, target), outcome);
      if r.status == SessionOk then r.(state := r.state.(mode := ModeTimeline, completed := target)) else r
  }

  function SendStep(st: SessionState, frames: seq<Frame>): StepResult {
    if st.artifact.None? then Refuse(st, SessionRuntimeError)
    else if st.faulted then Refuse(st, SessionFaulted)
    else if st.barrierActive then Refuse(st, SessionRuntimeError)
    else StepResult(st, SessionOk, frames)
  }

  /** Configuration frames in canonical order; an unknown word order stops at its first frame. */
  function ConfigFrames(words: seq<u32>, wordOrder: u32, count: nat): (frames: seq<Frame>)
    requires 2 * count <= |words|
    ensures |frames| == count
  {
    seq(count, i requires 0 <= i < count =>
      Frame(words[if wordOrder == 0 then 2 * i else 2 * i + 1], words[if wordOrder == 0 then 2 * i + 1 else 2 * i]))
  }

  function LoadConfigStep(st: SessionState): StepResult {
    if st.artifact.None? then Refuse(st, SessionRuntimeError)
    else if st.faulted then Refuse(st, SessionFaulted)
    else if st.barrierActive then Refuse(st, SessionRuntimeError)
    else
      var words, order := st.artifact.value.configWords, st.artifact.value.wordOrder;
      if |words| == 0 || |words| % 2 != 0 || (order != 0 && order != 1) then Refuse(st, SessionRuntimeError)
      else StepResult(st, SessionOk, ConfigFrames(words, order, |words| / 2))
  }

  // ------------------------------------------------- what the operations send

  /** A bound session that can run a barrier. */
  predicate Ready(st: SessionState) { st.artifact.Some? && st.capacity != 0 && !st.faulted && !st.barrierActive }

  predicate Bound(st: SessionState) { st.artifact.Some? && st.thread < |st.artifact.value.threads| }

  /** Where the bound thread's control frames go. */
  function RootOf(st: SessionState): Route
    requires Bound(st)
  {
    st.artifact.value.threads[st.thread].root
  }

  predicate Rooted(st: SessionState) { Bound(st) && Routable(RootOf(st)) }

  /** The frame is addressed to the bound thread's root and carries this header and payload, and no other bit. */
  ghost predicate ToRoot(st: SessionState, frame: Frame, header: nat, payload: nat) {
    && Rooted(st)
    && WordOf(frame) == header * 0x1000_0000_0000_0000 + RouteCode(RootOf(st)) * 0x400_0000_0000 + payload
    && RouteOfCode(WordOf(frame) / 0x400_0000_0000 % 0x4_0000) == (RootOf(st).xy, RootOf(st).x, RootOf(st).y)
    && ControlHeader(frame) == header && ControlPayload(frame) == payload
  }

  /** A control frame exists exactly for a routable root and a 24-bit payload, and goes to that root. */
  lemma ControlToRoot(st: SessionState, header: nat, payload: nat)
    requires header < 16
    ensures ControlFrame(st, header, payload).Built? <==> Rooted(st) && payload <= 0xFF_FFFF
    ensures ControlFrame(st, header, payload).Built? ==> ToRoot(st, ControlFrame(st, header, payload).frame, header, payload)
  {
    hide BuildControlFrame, ControlPayload, ControlHeader, RouteCode, RouteOfCode, WordOf;
    if Bound(st) {
      ControlFrameMeaning(RootOf(st), header, payload);
    }
  }

  /** A reset sends one INIT frame to the thread's root, or is refused with nothing sent; a failed one faults the session. */
  lemma ResetSends(st: SessionState, outcome: SessionStatus)
    ensures var r := ResetStep(st, outcome);
            if Ready(st) && Rooted(st)
            then |r.sent| == 1 && ToRoot(st, r.sent[0], 13, 0) && r.status == outcome &&
                 r.state == if outcome == SessionOk then st.(mode := ModeUnset, completed := 0) else st.(faulted := true)
            else r == Refuse(st, if st.artifact.Some? && st.capacity != 0 && st.faulted then SessionFaulted else SessionRuntimeError)
  {
    hide ControlFrame, ToRoot, Rooted;
    ControlToRoot(st, HDR_INIT, 0);
  }

  /** The shared part of a sync: one SYNC frame to the root with exactly this payload, or nothing at all. */
  lemma SyncSends(st: SessionState, payload: nat, outcome: SessionStatus)
    ensures SyncRuns(st, payload) <==> Ready(st) && Rooted(st) && payload <= 0xFF_FFFF
    ensures var r := SyncPayloadStep(st, payload, outcome);
            if SyncRuns(st, payload)
            then |r.sent| == 1 && ToRoot(st, r.sent[0], 12, payload) && r.status == outcome &&
                 r.state == if outcome == SessionOk then st else st.(faulted := true)
            else r == Refuse(st, if st.artifact.Some? && st.capacity != 0 && st.faulted then SessionFaulted else SessionRuntimeError)
  {
    hide ControlFrame, ToRoot, Rooted;
    ControlToRoot(st, HDR_SYNC, payload);
  }

  /** A raw sync sends its payload, unless the session is on a timeline. */
  lemma RawSends(st: SessionState, payload: u32, outcome: SessionStatus)
    ensures var r := SyncRawStep(st, payload, outcome);
            if st.mode != ModeTimeline && Ready(st) && Rooted(st) && payload <= 0xFF_FFFF
            then |r.sent| == 1 && ToRoot(st, r.sent[0], 12, payload) && r.status == outcome &&
                 r.state == if outcome == SessionOk then st.(mode := ModeRawPayload) else st.(faulted := true)
            else r == Refuse(st, if st.faulted then SessionFaulted
                                 else if st.mode == ModeTimeline then SessionSyncModeError else SessionRuntimeError)
  {
    hide SyncPayloadStep, ToRoot, Rooted, SyncRuns;
    SyncSends(st, payload, outcome);
  }

  /** Timesteps already on the timeline. */
  function Reached(st: SessionState): nat { if st.mode == ModeTimeline then st.completed else 0 }

  /** A timeline sync sends the distance from the last target, unless that target is not ahead. */
  lemma UntilSends(st: SessionState, target: u32, outcome: SessionStatus)
    ensures var r, increment := SyncUntilStep(st, target, outcome), target - Reached(st);
            if st.mode == ModeRawPayload || (st.mode == ModeTimeline && increment <= 0)
            then r == Refuse(st, if st.faulted then SessionFaulted else SessionSyncModeError)
            else if Ready(st) && Rooted(st) && increment <= 0xFF_FFFF
            then |r.sent| == 1 && ToRoot(st, r.sent[0], 12, increment) && r.status == outcome &&
                 r.state == if outcome == SessionOk then st.(mode := ModeTimeline, completed := target) else st.(faulted := true)
            else r == Refuse(st, if st.faulted then SessionFaulted else SessionRuntimeError)
  {
    hide SyncPayloadStep, ToRoot, Rooted, SyncRuns;
    if !TimelineRefuses(st, target) {
      SyncSends(st, TimelinePayload(st, target), outcome);
    }
  }

  // ------------------------------------------------------------- ownership

  /** Who the interrupt handler dispatches to, as seen from one session. */
  datatype Owner = Nobody | Me | Someone

  datatype OwnResult = OwnResult(state: SessionState, owner: Owner, status: SessionStatus)

  function InitStep(st: SessionState, owner: Owner, artifact: Artifact, thread: nat, capacity: nat, registered: bool): OwnResult {
    if capacity == 0 then OwnResult(st, owner, SessionRuntimeError)
    else if owner != Nobody then OwnResult(st, owner, SessionBusy)
    else if thread >= |artifact.threads| then OwnResult(st, owner, SessionRuntimeError)
    else if !registered then OwnResult(ZEROED, Nobody, SessionRuntimeError)
    else OwnResult(BoundState(artifact, thread, capacity), Me, SessionOk)
  }

  function DeinitStep(st: SessionState, owner: Owner): OwnResult {
    if owner == Someone || (owner == Me && st.barrierActive) then OwnResult(st, owner, SessionBusy)
    else OwnResult(ZEROED, Nobody, SessionOk)
  }

  /** Binding needs a free platform, an existing thread, a nonempty buffer and the interrupt; each refusal says which. */
  lemma InitBinds(st: SessionState, owner: Owner, artifact: Artifact, thread: nat, capacity: nat, registered: bool)
    ensures var r := InitStep(st, owner, artifact, thread, capacity, registered);
            && (r.status == SessionOk <==> owner == Nobody && capacity > 0 && thread < |artifact.threads| && registered)
            && (r.status == SessionBusy <==> owner != Nobody && capacity > 0)
            && (r.status == SessionOk || r.status == SessionBusy || r.status == SessionRuntimeError)
            && (r.status == SessionOk ==>
                  && r.owner == Me && Bound(r.state) && Ready(r.state) && r.state.mode == ModeUnset && r.state.completed == 0
                  && r.state.artifact.value == artifact && r.state.thread == thread && r.state.capacity == capacity)
            && (r.status != SessionOk ==> r.owner == owner)
            && (r.status != SessionOk && r.state != st ==>
                  r.state.artifact.None? && owner == Nobody && capacity > 0 && thread < |artifact.threads| && !registered)
  {
  }

  /** Releasing needs a platform that no other session owns and no open barrier of its own; then nothing is left bound. */
  lemma DeinitReleases(st: SessionState, owner: Owner)
    ensures var r := DeinitStep(st, owner);
            if owner == Someone || (owner == Me && st.barrierActive)
            then r == OwnResult(st, owner, SessionBusy)
            else r.status == SessionOk && r.owner == Nobody && r.state.artifact.None? && r.state.capacity == 0 &&
                 r.state.mode == ModeUnset && r.state.completed == 0 && !r.state.faulted && !r.state.barrierActive
  {
  }

  /** Why a usable-looking call on the down FIFO is refused. */
  function Refusal(st: SessionState): SessionStatus {
    if st.artifact.Some? && st.faulted then SessionFaulted else SessionRuntimeError
  }

  /** Frames go out exactly on a bound session that is neither faulted nor inside a barrier. */
  lemma SendSends(st: SessionState, frames: seq<Frame>)
    ensures SendStep(st, frames) ==
            if st.artifact.Some? && !st.faulted && !st.barrierActive then StepResult(st, SessionOk, frames)
            else Refuse(st, Refusal(st))
  {
  }

  /** Frame i is made of words 2i and 2i + 1, the high half first in order 0 and second in order 1. */
  ghost predicate Configures(frames: seq<Frame>, words: seq<u32>, order: u32) {
    |words| == 2 * |frames| && forall i :: 0 <= i < |frames| ==>
      frames[i] == if order == 0 then Frame(words[2 * i], words[2 * i + 1]) else Frame(words[2 * i + 1], words[2 * i])
  }

  /** All configuration words go out as frames, or none does. */
  lemma ConfigSends(st: SessionState)
    ensures var r := LoadConfigStep(st);
            if st.artifact.Some? && !st.faulted && !st.barrierActive &&
               |st.artifact.value.configWords| > 0 && |st.artifact.value.configWords| % 2 == 0 && st.artifact.value.wordOrder <= 1
            then r.status == SessionOk && r.state == st && Configures(r.sent, st.artifact.value.configWords, st.artifact.value.wordOrder)
            else r == Refuse(st, Refusal(st))
  {
  }

  /** How a barrier may leave the stream, the handler's memory and the receive buffer. */
  ghost predicate BarrierOutcome(start: Barrier, status: SessionStatus, rx: seq<RxItem>, store: Store, stored: seq<Frame>)
    requires ValidBarrier(start)
  {
    if status == SessionTimeout then rx == start.rx && store == start.store && stored == []
    else
      var d := Drain(start);
      status == BarrierStatus(d) && rx == d.rx && store == d.store && stored == d.stored
  }
}
