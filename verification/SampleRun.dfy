/**
 One sample, driven through a session step by step: reset, then per timestep send, clear and
 synchronize, then the completion barrier. What the whole loop did is stated on values.
 */
module SampleRun {
  import opened Bits
  import opened Artifact
  import opened FrameCodec
  import opened InputEncoder
  import opened OutputDecoder
  import opened FrameHandlers
  import opened SessionSpec
  import opened Session
  import opened SessionIo
  import opened SampleRows
  import opened SamplePlan

  // ------------------------------------------------------------- one timestep

  /** Frames on the down FIFO grew from before to now, by a prefix of the given frames. */
  ghost predicate SentPrefix(before: seq<Frame>, now: seq<Frame>, frames: seq<Frame>) {
    before <= now <= before + frames
  }

  /** State of a deployed session after n timesteps of a sample. */
  function Progress(st: SessionState, n: u32): SessionState {
    st.(mode := if n == 0 then ModeUnset else ModeTimeline, completed := n, faulted := false, barrierActive := false)
  }

  /** A session on which a sample can start. */
  predicate Startable(st: SessionState) { Ready(st) && Rooted(st) }

  /** A sync from timestep n can be sent. */
  predicate Reachable(st: SessionState, n: u32, target: u32) {
    st.artifact.Some? && st.capacity != 0 && Rooted(st) && target - n <= 0xFF_FFFF
  }

  /** One timeline barrier that feeds the decode context. */
  method DecodeBarrier(session: Session, platform: Platform, noc: Noc, context: DecodeContext, target: u32)
    returns (status: SessionStatus, ghost frames: seq<Frame>)
    requires session.Valid() && context.Valid()
    requires session.artifact.Some? ==> platform.active == session
    modifies session, session.rxFrames, noc, context.mem, context.lanes
    ensures session.Valid() && session.rxFrames == old(session.rxFrames)
    ensures Took(SyncUntilStep(old(session.State()), target, status), session.State(), status, old(noc.sent), noc.sent)
    ensures var fed := Feed(context.layout, context.setup, context.submitted, old(context.Memory()), frames);
            fed.0 == context.Memory() && (status == SessionOk ==> fed.1 == SessionOk)
    ensures status == SessionOk ==> Delivered(old(noc.rx), frames, noc.rx)
  {
    hide BarrierOutcome, Delivered, SyncUntilStep, UntilRuns, Drain, Took, CallHandler;
    var polls: nat :| polls >= 0;
    var h := DecodeInto(context);
    ghost var rx, st, capacity := noc.rx, context.Memory(), session.capacity;
    ghost var runs := UntilRuns(session.State(), target);
    var count;
    status, count := session.SyncWaitUntil(platform, noc, target, h, polls);
    ghost var kind := KindOf(h);
    if !runs {
      frames := [];
      NothingFed(kind, st);
    } else {
      frames := BarrierServes(capacity, kind, rx, st, status, noc.rx, StoreOf(h), session.rxFrames[..session.rxCount]);
    }
  }

  /** A timeline step from n to target sends one sync of their difference. */
  lemma AdvanceStep(st: SessionState, n: u32, target: u32, outcome: SessionStatus)
    requires n < target
    ensures var r := SyncUntilStep(Progress(st, n), target, outcome);
            && r.sent <= Control(st, HDR_SYNC, target - n)
            && (r.status == SessionOk ==> r.sent == Control(st, HDR_SYNC, target - n) && r.state == Progress(st, target))
            && (r.status != SessionOk && Reachable(st, n, target) ==> r.state.faulted)
  {
    hide BuildControlFrame;
    ControlToRoot(st, HDR_SYNC, target - n);
  }

  lemma JoinPrefix(start: seq<Frame>, first: seq<Frame>, mid: seq<Frame>, now: seq<Frame>, second: seq<Frame>)
    requires mid == start + first && SentPrefix(mid, now, second)
    ensures SentPrefix(start, now, first + second)
    ensures now == mid + second ==> now == start + (first + second)
  {
    assert (start + first) + second == start + (first + second);
  }

  lemma ShorterPrefix(start: seq<Frame>, now: seq<Frame>, first: seq<Frame>, longer: seq<Frame>)
    requires SentPrefix(start, now, first) && first <= longer
    ensures SentPrefix(start, now, longer)
  {
    assert start + first <= start + longer;
  }

  lemma TookPrefix(r: StepResult, state: SessionState, status: SessionStatus, before: seq<Frame>, after: seq<Frame>, limit: seq<Frame>)
    requires Took(r, state, status, before, after) && r.sent <= limit
    ensures SentPrefix(before, after, limit) && state == r.state && status == r.status
    ensures r.sent == limit ==> after == before + limit
  {
  }

  lemma ChainSame(s: Setup, n: nat, a: seq<u8>, b: seq<u8>, c: seq<u8>)
    requires SameOutsideRows(s, n, a, b) && SameOutsideRows(s, n, b, c)
    ensures SameOutsideRows(s, n, a, c)
  {
  }

  /** What timestep t puts on the down FIFO. */
  function TimestepFrames(p: Plan, st: SessionState, mem: seq<u8>, t: nat): seq<Frame>
    requires Accepted(p, |mem|) && t < p.setup.timesteps
  {
    EncodeRow(p.input, t, RowAt(p, mem, t), 0).frames + Control(st, HDR_SYNC, 1)
  }

  /** Clear output row t and run its barrier. */
  method CollectRow(session: Session, platform: Platform, noc: Noc, context: DecodeContext, t: u32, ghost st: SessionState)
    returns (status: SessionStatus, ghost frames: seq<Frame>)
    requires session.Valid() && context.Valid() && platform.active == session
    requires RowsFit(context.setup) && LayoutSound(context.setup.view, context.layout)
    requires t < context.setup.timesteps && t < UINT32_MAX && session.State() == Progress(st, t)
    modifies session, session.rxFrames, noc, context`submitted, context.mem, context.lanes
    ensures session.Valid() && session.rxFrames == old(session.rxFrames)
    ensures SentPrefix(old(noc.sent), noc.sent, Control(st, HDR_SYNC, 1))
    ensures SameOutsideRows(context.setup, t + 1, old(context.mem[..]), context.mem[..])
    ensures context.submitted == t + 1
    ensures status != SessionOk && Reachable(st, t, t + 1) ==> session.faulted
    ensures status == SessionOk ==>
              && session.State() == Progress(st, t + 1)
              && noc.sent == old(noc.sent) + Control(st, HDR_SYNC, 1)
              && Delivered(old(noc.rx), frames, noc.rx)
              && Feed(context.layout, context.setup, t + 1, ClearRow(context.setup, old(context.Memory()), t), frames) ==
                 (context.Memory(), SessionOk)
  {
    hide Delivered, SyncUntilStep, Feed, Control, InRows, ClearRow, RowsFit, LayoutSound, SentPrefix, Took, SameOutsideRows, Reachable;
    var s := context.setup;
    ghost var before, start, sync := context.Memory(), noc.sent, Control(st, HDR_SYNC, 1);
    ClearRowIs(s, before, t);
    ClearStays(s, before, t);
    ZeroFill(context.mem, s.base + t * s.stride, RowBytes(s.view));
    context.submitted := t + 1;
    ghost var cleared := context.Memory();
    status, frames := DecodeBarrier(session, platform, noc, context, t + 1);
    AdvanceStep(st, t, t + 1, status);
    TookPrefix(SyncUntilStep(Progress(st, t), t + 1, status), session.State(), status, start, noc.sent, sync);
    FeedStays(context.layout, s, t + 1, cleared, frames);
    ChainSame(s, t + 1, before.mem, cleared.mem, context.mem[..]);
  }

  /** The caller's row t encodes without an error. */
  predicate RowEncoded(p: Plan, mem: seq<u8>, t: nat)
    requires Accepted(p, |mem|) && t < p.setup.timesteps
  {
    EncodeRow(p.input, t, RowAt(p, mem, t), 0).status == CodecDone
  }

  ghost predicate RowsEncoded(p: Plan, mem: seq<u8>, n: nat)
    requires Accepted(p, |mem|) && n <= p.setup.timesteps
  {
    forall t :: 0 <= t < n ==> RowEncoded(p, mem, t)
  }

  /**
   Encode and send row t, clear output row t, and synchronize. The row is cleared only after it has
   been sent, because in place it is the same memory.
   */
  method RunTimestep(session: Session, platform: Platform, noc: Noc, context: DecodeContext, p: Plan,
                     frameCapacity: nat, t: u32, ghost st: SessionState)
    returns (status: SessionStatus, ghost frames: seq<Frame>)
    requires session.Valid() && context.Valid() && platform.active == session
    requires p.setup == context.setup && p.layout == context.layout && Accepted(p, context.mem.Length)
    requires t < p.setup.timesteps && p.setup.timesteps <= UINT32_MAX
    requires 0 < frameCapacity <= session.rxFrames.Length
    requires session.State() == Progress(st, t) && st.artifact.Some?
    modifies session, session.rxFrames, noc, context`submitted, context.mem, context.lanes
    ensures session.Valid() && session.rxFrames == old(session.rxFrames) && context.Valid()
    ensures SentPrefix(old(noc.sent), noc.sent, TimestepFrames(p, st, old(context.mem[..]), t))
    ensures SameOutsideRows(p.setup, t + 1, old(context.mem[..]), context.mem[..])
    ensures status == SessionOk ==> context.submitted == t + 1
    ensures status == SessionOk ==> RowEncoded(p, old(context.mem[..]), t)
    ensures status != SessionOk && Reachable(st, t, t + 1) && RowEncoded(p, old(context.mem[..]), t) ==> session.faulted
    ensures status == SessionOk ==>
              && session.State() == Progress(st, t + 1)
              && noc.sent == old(noc.sent) + TimestepFrames(p, st, old(context.mem[..]), t)
              && Delivered(old(noc.rx), frames, noc.rx)
              && Feed(p.layout, p.setup, t + 1, ClearRow(p.setup, old(context.Memory()), t), frames) ==
                 (context.Memory(), SessionOk)
  {
    hide Delivered, SyncUntilStep, Feed, SendRowStep, EncodeRow, Control, InRows, ClearRow, RowsFit, LayoutSound, RegionsOverlap;
    hide SentPrefix, Took, SameOutsideRows, Reachable;
    ghost var start, before := noc.sent, context.Memory();
    ghost var row, sync := EncodeRow(p.input, t, RowAt(p, before.mem, t), 0).frames, Control(st, HDR_SYNC, 1);
    RowInMemory(p, context.mem.Length, t);
    ghost var sending := SendRowStep(session.State(), p.input, t, RowAt(p, before.mem, t), frameCapacity);
    RowTransmission(session.State(), p.input, t, RowAt(p, before.mem, t), frameCapacity);
    status := SendInputTimestep(session, noc, p.input, t, context.mem, RowStart(p, t), InputBytes(p),
                                session.rxFrames, frameCapacity);
    TookPrefix(sending, session.State(), status, start, noc.sent, row);
    if status != SessionOk {
      ShorterPrefix(start, noc.sent, row, row + sync);
      NothingChanged(p.setup, t + 1, before.mem);
      frames := [];
      return;
    }
    ghost var mid := noc.sent;
    status, frames := CollectRow(session, platform, noc, context, t, st);
    JoinPrefix(start, row, mid, noc.sent, sync);
  }

  // ------------------------------------------------------------- the sample loop

  /** Another timestep's barrier extends the run. */
  lemma RunRowsStep(layout: Layout, s: Setup, st: Store, received: seq<seq<Frame>>, frames: seq<Frame>)
    requires RowsFit(s) && Fits(s, st) && RunRows(layout, s, st, received).1 == SessionOk
    ensures var before, n := RunRows(layout, s, st, received).0, |received|;
            RunRows(layout, s, st, received + [frames]) ==
            if n < s.timesteps then Feed(layout, s, n + 1, ClearRow(s, before, n), frames)
            else Feed(layout, s, s.timesteps, before, frames)
  {
    hide Feed, ClearRow, RowsFit;
    assert (received + [frames])[..|received|] == received;
  }

  /** Because row t survives in place, timestep t sends what the original memory says. */
  lemma TransmissionStep(p: Plan, st: SessionState, original: seq<u8>, start: Store, received: seq<seq<Frame>>)
    requires Accepted(p, |original|) && Fits(p.setup, start) && start.mem == original && |received| < p.setup.timesteps
    ensures var now := RunRows(p.layout, p.setup, start, received).0.mem;
            Transmission(p, st, original, |received| + 1) ==
            Transmission(p, st, original, |received|) + TimestepFrames(p, st, now, |received|)
  {
    hide RunRows, EncodeRow, Control, RowsFit, LayoutSound, RegionsOverlap;
    InputRowOfRun(p, start, received);
    var t := |received|;
    var row, sync := EncodeRow(p.input, t, RowAt(p, original, t), 0).frames, Control(st, HDR_SYNC, 1);
    assert (Transmission(p, st, original, t) + row) + sync == Transmission(p, st, original, t) + (row + sync);
  }

  lemma ResetAdvance(st: SessionState, outcome: SessionStatus)
    ensures var r := ResetStep(st, outcome);
            && r.sent <= Control(st, HDR_INIT, 0)
            && (r.status == SessionOk ==> r.sent == Control(st, HDR_INIT, 0) && r.state == Progress(st, 0) && Startable(st))
            && (r.status != SessionOk && Startable(st) ==> r.state.faulted)
            && (!Startable(st) ==> r == Refuse(st, if st.artifact.Some? && st.capacity != 0 && st.faulted then SessionFaulted
                                                   else SessionRuntimeError))
  {
    hide BuildControlFrame;
    ResetSends(st, outcome);
    ControlToRoot(st, HDR_INIT, 0);
  }

  /** A sample on such a session is refused before anything is sent. */
  predicate NotStarted(st: SessionState, now: SessionState, status: SessionStatus) {
    now == st && status == if st.artifact.Some? && st.capacity != 0 && st.faulted then SessionFaulted else SessionRuntimeError
  }

  lemma TookNothing(r: StepResult, st: SessionState, refusal: SessionStatus, state: SessionState, status: SessionStatus,
                    before: seq<Frame>, after: seq<Frame>)
    requires Took(r, state, status, before, after) && r == Refuse(st, refusal)
    ensures state == st && status == refusal && after == before
  {
    assert before + [] == before;
  }

  /** Reset the model through a barrier that discards whatever arrives. */
  method ResetForSample(session: Session, platform: Platform, noc: Noc) returns (status: SessionStatus, ghost frames: seq<Frame>)
    requires session.Valid() && (session.artifact.Some? ==> platform.active == session)
    modifies session, session.rxFrames, noc
    ensures session.Valid() && session.rxFrames == old(session.rxFrames)
    ensures SentPrefix(old(noc.sent), noc.sent, Control(old(session.State()), HDR_INIT, 0))
    ensures status == SessionOk ==>
              && session.State() == Progress(old(session.State()), 0) && Startable(old(session.State()))
              && noc.sent == old(noc.sent) + Control(old(session.State()), HDR_INIT, 0)
              && Delivered(old(noc.rx), frames, noc.rx)
    ensures status != SessionOk && Startable(old(session.State())) ==> session.faulted
    ensures !Startable(old(session.State())) ==>
              NotStarted(old(session.State()), session.State(), status) && noc.sent == old(noc.sent) && noc.rx == old(noc.rx)
  {
    hide BarrierOutcome, Delivered, ResetStep, SentPrefix, Took, Control, Rooted;
    ghost var st, start, rx, capacity := session.State(), noc.sent, noc.rx, session.capacity;
    var polls: nat :| polls >= 0;
    status := session.ResetModel(platform, noc, polls);
    ResetAdvance(st, status);
    TookPrefix(ResetStep(st, status), session.State(), status, start, noc.sent, Control(st, HDR_INIT, 0));
    frames := [];
    if !Startable(st) {
      TookNothing(ResetStep(st, status), st, status, session.State(), status, start, noc.sent);
    }
    if status == SessionOk {
      frames := BarrierServes(capacity, Discard, rx, Store([], []), status, noc.rx, Store([], []),
                              session.rxFrames[..session.rxCount]);
    }
  }

  /** How a sample that was started has ended, in terms of the memory and streams it started from. */
  ghost predicate SampleOutcome(p: Plan, st: SessionState, start: Store, sent: seq<Frame>, rx: seq<RxItem>,
                                status: SessionStatus, barriers: seq<seq<Frame>>,
                                end: Store, sent': seq<Frame>, rx': seq<RxItem>)
    requires Accepted(p, |start.mem|) && Fits(p.setup, start)
  {
    && SentPrefix(sent, sent', FullTransmission(p, st, start.mem))
    && SameOutsideRows(p.setup, p.setup.timesteps, start.mem, end.mem)
    && (status == SessionOk ==>
          && sent' == sent + FullTransmission(p, st, start.mem)
          && DeliveredAll(rx, barriers, rx')
          && |barriers| == 1 + p.setup.timesteps + (if p.completion > p.setup.timesteps then 1 else 0)
          && RunRows(p.layout, p.setup, start, barriers[1..]) == (end, SessionOk))
  }

  /** Between two timesteps of a sample that has gone well so far. */
  ghost predicate SampleInvariant(p: Plan, st: SessionState, start: Store, sent: seq<Frame>, rx: seq<RxItem>, t: nat,
                                  barriers: seq<seq<Frame>>, now: Store, sent': seq<Frame>, rx': seq<RxItem>)
    requires Accepted(p, |start.mem|) && Fits(p.setup, start)
  {
    && t <= p.setup.timesteps && |barriers| == t + 1
    && sent' == sent + Transmission(p, st, start.mem, t)
    && DeliveredAll(rx, barriers, rx')
    && RunRows(p.layout, p.setup, start, barriers[1..]) == (now, SessionOk)
  }

  lemma SampleBegins(p: Plan, st: SessionState, start: Store, sent: seq<Frame>, rx: seq<RxItem>,
                     frames: seq<Frame>, sent': seq<Frame>, rx': seq<RxItem>)
    requires Accepted(p, |start.mem|) && Fits(p.setup, start)
    requires sent' == sent + Control(st, HDR_INIT, 0) && Delivered(rx, frames, rx')
    ensures SampleInvariant(p, st, start, sent, rx, 0, [frames], start, sent', rx')
  {
    hide RowsFit, LayoutSound, RegionsOverlap, Control, Delivered, RunRows;
    DeliveredShape(rx, frames, rx');
    assert [frames][1..] == [];
    assert DeliveredAll(rx', [], rx');
    assert RunRows(p.layout, p.setup, start, []) == (start, SessionOk) by {
      NothingReceived(p.layout, p.setup, start);
    }
  }

  lemma NothingReceived(layout: Layout, s: Setup, st: Store)
    requires RowsFit(s) && Fits(s, st)
    ensures RunRows(layout, s, st, []) == (st, SessionOk)
  {
  }

  lemma AcceptedTimes(p: Plan, size: nat)
    requires Accepted(p, size)
    ensures 0 < p.setup.timesteps <= p.completion
  {
  }

  lemma SampleFailsAtReset(p: Plan, st: SessionState, start: Store, sent: seq<Frame>, rx: seq<RxItem>,
                           status: SessionStatus, sent': seq<Frame>, rx': seq<RxItem>)
    requires Accepted(p, |start.mem|) && Fits(p.setup, start) && status != SessionOk
    requires SentPrefix(sent, sent', Control(st, HDR_INIT, 0))
    ensures SampleOutcome(p, st, start, sent, rx, status, [], start, sent', rx')
  {
    hide Accepted, Control, SentPrefix;
    TransmissionGrows(p, st, start.mem, 0, p.setup.timesteps);
    ShorterPrefix(sent, sent', Control(st, HDR_INIT, 0), FullTransmission(p, st, start.mem));
  }

  lemma SampleStep(p: Plan, st: SessionState, start: Store, sent: seq<Frame>, rx: seq<RxItem>, t: nat,
                   barriers: seq<seq<Frame>>, now: Store, sent': seq<Frame>, rx': seq<RxItem>,
                   frames: seq<Frame>, next: Store, sent'': seq<Frame>, rx'': seq<RxItem>)
    requires Accepted(p, |start.mem|) && Fits(p.setup, start) && t < p.setup.timesteps
    requires SampleInvariant(p, st, start, sent, rx, t, barriers, now, sent', rx') && Fits(p.setup, now) && |now.mem| == |start.mem|
    requires sent'' == sent' + TimestepFrames(p, st, now.mem, t) && Delivered(rx', frames, rx'')
    requires Feed(p.layout, p.setup, t + 1, ClearRow(p.setup, now, t), frames) == (next, SessionOk)
    ensures SampleInvariant(p, st, start, sent, rx, t + 1, barriers + [frames], next, sent'', rx'')
  {
    hide RowsFit, LayoutSound, RegionsOverlap, Control, EncodeRow, RunRows, Feed, ClearRow, Transmission, Delivered, DeliveredAll;
    TransmissionStep(p, st, start.mem, start, barriers[1..]);
    JoinPrefix(sent, Transmission(p, st, start.mem, t), sent', sent'', TimestepFrames(p, st, now.mem, t));
    DeliveredOneMore(rx, barriers, rx', frames, rx'');
    RunRowsStep(p.layout, p.setup, start, barriers[1..], frames);
    assert (barriers + [frames])[1..] == barriers[1..] + [frames];
  }

  lemma SampleStepFails(p: Plan, st: SessionState, start: Store, sent: seq<Frame>, rx: seq<RxItem>, t: nat,
                        barriers: seq<seq<Frame>>, now: Store, sent': seq<Frame>, rx': seq<RxItem>,
                        status: SessionStatus, next: Store, sent'': seq<Frame>, rx'': seq<RxItem>)
    requires Accepted(p, |start.mem|) && Fits(p.setup, start) && t < p.setup.timesteps && status != SessionOk
    requires SampleInvariant(p, st, start, sent, rx, t, barriers, now, sent', rx') && Fits(p.setup, now) && |now.mem| == |start.mem|
    requires SentPrefix(sent', sent'', TimestepFrames(p, st, now.mem, t)) && SameOutsideRows(p.setup, t + 1, now.mem, next.mem)
    ensures SampleOutcome(p, st, start, sent, rx, status, barriers, next, sent'', rx'')
  {
    hide RowsFit, LayoutSound, RegionsOverlap, Control, EncodeRow, RunRows, Transmission, Delivered, DeliveredAll, SentPrefix,
         SameOutsideRows;
    TransmissionStep(p, st, start.mem, start, barriers[1..]);
    JoinPrefix(sent, Transmission(p, st, start.mem, t), sent', sent'', TimestepFrames(p, st, now.mem, t));
    TransmissionGrows(p, st, start.mem, t + 1, p.setup.timesteps);
    ShorterPrefix(sent, sent'', Transmission(p, st, start.mem, t + 1), FullTransmission(p, st, start.mem));
    RunRowsStays(p.layout, p.setup, start, barriers[1..]);
    WidenRows(p.setup, t, p.setup.timesteps, start.mem, now.mem);
    WidenRows(p.setup, t + 1, p.setup.timesteps, now.mem, next.mem);
    ChainSame(p.setup, p.setup.timesteps, start.mem, now.mem, next.mem);
  }

  /** No latency left: the last timestep's barrier was the last. */
  lemma SampleEnds(p: Plan, st: SessionState, start: Store, sent: seq<Frame>, rx: seq<RxItem>,
                   barriers: seq<seq<Frame>>, now: Store, sent': seq<Frame>, rx': seq<RxItem>)
    requires Accepted(p, |start.mem|) && Fits(p.setup, start) && p.completion <= p.setup.timesteps
    requires SampleInvariant(p, st, start, sent, rx, p.setup.timesteps, barriers, now, sent', rx')
    ensures SampleOutcome(p, st, start, sent, rx, SessionOk, barriers, now, sent', rx')
  {
    hide RowsFit, LayoutSound, RegionsOverlap, RunRows, Transmission, DeliveredAll;
    assert Transmission(p, st, start.mem, p.setup.timesteps) + [] == Transmission(p, st, start.mem, p.setup.timesteps);
    RunRowsStays(p.layout, p.setup, start, barriers[1..]);
  }

  /** The completion barrier collects what the pipeline still holds. */
  lemma SampleCompletes(p: Plan, st: SessionState, start: Store, sent: seq<Frame>, rx: seq<RxItem>,
                        barriers: seq<seq<Frame>>, now: Store, sent': seq<Frame>, rx': seq<RxItem>,
                        status: SessionStatus, frames: seq<Frame>, end: Store, sent'': seq<Frame>, rx'': seq<RxItem>)
    requires Accepted(p, |start.mem|) && Fits(p.setup, start) && p.completion > p.setup.timesteps
    requires SampleInvariant(p, st, start, sent, rx, p.setup.timesteps, barriers, now, sent', rx')
    requires Fits(p.setup, now) && |now.mem| == |start.mem|
    requires var last := Control(st, HDR_SYNC, p.completion - p.setup.timesteps);
             SentPrefix(sent', sent'', last) && (status == SessionOk ==> sent'' == sent' + last)
    requires Feed(p.layout, p.setup, p.setup.timesteps, now, frames).0 == end
    requires status == SessionOk ==>
               Feed(p.layout, p.setup, p.setup.timesteps, now, frames).1 == SessionOk && Delivered(rx', frames, rx'')
    ensures SampleOutcome(p, st, start, sent, rx, status, barriers + [frames], end, sent'', rx'')
  {
    hide RowsFit, LayoutSound, RegionsOverlap, Control, RunRows, Feed, Transmission, Delivered, DeliveredAll, SentPrefix, SameOutsideRows;
    var n := p.setup.timesteps;
    JoinPrefix(sent, Transmission(p, st, start.mem, n), sent', sent'', Control(st, HDR_SYNC, p.completion - n));
    RunRowsStays(p.layout, p.setup, start, barriers[1..]);
    FeedStays(p.layout, p.setup, n, now, frames);
    ChainSame(p.setup, n, start.mem, now.mem, end.mem);
    if status == SessionOk {
      DeliveredOneMore(rx, barriers, rx', frames, rx'');
      RunRowsStep(p.layout, p.setup, start, barriers[1..], frames);
      assert (barriers + [frames])[1..] == barriers[1..] + [frames];
    }
  }

  /** Row t is encoded from the memory of its timestep, which still holds the caller's row. */
  lemma RowsEncodedStep(p: Plan, st: SessionState, start: Store, sent: seq<Frame>, rx: seq<RxItem>, t: nat,
                        barriers: seq<seq<Frame>>, now: Store, sent': seq<Frame>, rx': seq<RxItem>)
    requires Accepted(p, |start.mem|) && Fits(p.setup, start) && t < p.setup.timesteps && |now.mem| == |start.mem|
    requires SampleInvariant(p, st, start, sent, rx, t, barriers, now, sent', rx')
    ensures RowEncoded(p, now.mem, t) <==> RowEncoded(p, start.mem, t)
  {
    hide RowsFit, LayoutSound, RegionsOverlap, Control, EncodeRow, RunRows, Transmission, DeliveredAll;
    InputRowOfRun(p, start, barriers[1..]);
  }

  lemma StartableReaches(st: SessionState, n: u32, target: u32)
    requires Startable(st)
    ensures st.artifact.Some?
    ensures target - n <= 0xFF_FFFF ==> Reachable(st, n, target)
  {
  }

  /** How a sample that was started may end: OK exactly if no barrier failed, given that all rows encode. */
  ghost predicate Explained(p: Plan, st: SessionState, mem: seq<u8>, status: SessionStatus, now: SessionState)
    requires Accepted(p, |mem|)
  {
    && (status == SessionOk ==> Startable(st) && RowsEncoded(p, mem, p.setup.timesteps) && !now.faulted)
    && (status != SessionOk && Startable(st) && RowsEncoded(p, mem, p.setup.timesteps) && p.completion <= 0xFF_FFFF ==> now.faulted)
    && (!Startable(st) ==> NotStarted(st, now, status))
  }

  /** Run a sample whose buffers have been accepted. */
  method RunAccepted(session: Session, platform: Platform, noc: Noc, context: DecodeContext, p: Plan, frameCapacity: nat)
    returns (status: SessionStatus, ghost barriers: seq<seq<Frame>>)
    requires session.Valid() && context.Valid() && (session.artifact.Some? ==> platform.active == session)
    requires p.setup == context.setup && p.layout == context.layout && Accepted(p, context.mem.Length)
    requires p.setup.timesteps <= UINT32_MAX && 0 < frameCapacity <= session.rxFrames.Length
    modifies session, session.rxFrames, noc, context`submitted, context.mem, context.lanes
    ensures session.Valid() && session.rxFrames == old(session.rxFrames)
    ensures status == SessionOk ==> session.State() == Progress(old(session.State()), p.completion)
    ensures Explained(p, old(session.State()), old(context.mem[..]), status, session.State())
    ensures !Startable(old(session.State())) ==> noc.sent == old(noc.sent) && noc.rx == old(noc.rx)
    ensures SampleOutcome(p, old(session.State()), old(context.Memory()), old(noc.sent), old(noc.rx), status, barriers,
                          context.Memory(), noc.sent, noc.rx)
  {
    hide Delivered, SyncUntilStep, Feed, SentPrefix, Took, Control, TimestepFrames, Accepted, SameOutsideRows, SampleInvariant,
         SampleOutcome, Startable, RowEncoded;
    ghost var st, start, sent, rx := session.State(), context.Memory(), noc.sent, noc.rx;
    ghost var frames;
    AcceptedTimes(p, context.mem.Length);
    status, frames := ResetForSample(session, platform, noc);
    if status != SessionOk {
      barriers := [];
      SampleFailsAtReset(p, st, start, sent, rx, status, noc.sent, noc.rx);
      return;
    }
    barriers := [frames];
    StartableReaches(st, 0, p.completion);
    SampleBegins(p, st, start, sent, rx, frames, noc.sent, noc.rx);
    for t := 0 to p.setup.timesteps
      invariant session.Valid() && context.Valid() && platform.active == session && session.rxFrames == old(session.rxFrames)
      invariant status == SessionOk && session.State() == Progress(st, t) && st.artifact.Some?
      invariant Startable(st) && RowsEncoded(p, start.mem, t)
      invariant |barriers| == t + 1 && (t > 0 ==> context.submitted == t)
      invariant SampleInvariant(p, st, start, sent, rx, t, barriers, context.Memory(), noc.sent, noc.rx)
    {
      ghost var now, sent', rx' := context.Memory(), noc.sent, noc.rx;
      RowsEncodedStep(p, st, start, sent, rx, t, barriers, now, sent', rx');
      StartableReaches(st, t, t + 1);
      status, frames := RunTimestep(session, platform, noc, context, p, frameCapacity, t, st);
      if status != SessionOk {
        SampleStepFails(p, st, start, sent, rx, t, barriers, now, sent', rx', status, context.Memory(), noc.sent, noc.rx);
        return;
      }
      SampleStep(p, st, start, sent, rx, t, barriers, now, sent', rx', frames, context.Memory(), noc.sent, noc.rx);
      barriers := barriers + [frames];
    }
    if p.completion > p.setup.timesteps {
      ghost var now, sent', rx' := context.Memory(), noc.sent, noc.rx;
      status, frames := DecodeBarrier(session, platform, noc, context, p.completion);
      StartableReaches(st, p.setup.timesteps, p.completion);
      AdvanceStep(st, p.setup.timesteps, p.completion, status);
      TookPrefix(SyncUntilStep(Progress(st, p.setup.timesteps), p.completion, status), session.State(), status,
                 sent', noc.sent, Control(st, HDR_SYNC, p.completion - p.setup.timesteps));
      SampleCompletes(p, st, start, sent, rx, barriers, now, sent', rx', status, frames, context.Memory(), noc.sent, noc.rx);
      barriers := barriers + [frames];
    } else {
      SampleEnds(p, st, start, sent, rx, barriers, context.Memory(), noc.sent, noc.rx);
    }
  }
}
