/** Safety of the session API over every history of calls on any number of zeroed sessions. */
module SessionHistory {
  import opened Bits
  import opened Artifact
  import opened FrameCodec
  import opened FrameHandlers
  import opened SessionSpec

  /** One API call; `outcome` is what the environment makes of the barrier, if one runs. */
  datatype Call =
    | CallInit(artifact: Artifact, thread: nat, capacity: nat, registered: bool)
    | CallDeinit
    | CallLoadConfig
    | CallSend(frames: seq<Frame>)
    | CallReset(outcome: SessionStatus)
    | CallRaw(payload: u32, outcome: SessionStatus)
    | CallUntil(target: u32, outcome: SessionStatus)

  /** A synchronization that succeeded, with the frame that was sent for it. */
  datatype Sync = RawSync(frame: Frame) | TimelineSync(target: nat, frame: Frame)

  /**
   A session together with what it did since it was bound or last reset: the INIT frame of that reset,
   if there was one, and the synchronizations since. And all it ever sent.
   */
  datatype Account = Account(state: SessionState, opening: seq<Frame>, epoch: seq<Sync>, sent: seq<Frame>)

  datatype World = World(sessions: seq<Account>, active: Option<nat>)

  function OwnerFor(w: World, id: nat): Owner {
    if w.active == None then Nobody else if w.active == Some(id) then Me else Someone
  }

  /** The synchronization a call completes, if any. */
  function Completed(r: StepResult, call: Call): seq<Sync> {
    if r.status != SessionOk || r.sent == [] then []
    else
      match call
      case CallRaw(_, _) => [RawSync(r.sent[0])]
      case CallUntil(target, _) => [TimelineSync(target, r.sent[0])]
      case _ => []
  }

  function Operate(st: SessionState, call: Call): StepResult
    requires !call.CallInit? && !call.CallDeinit?
  {
    match call
    case CallLoadConfig => LoadConfigStep(st)
    case CallSend(frames) => SendStep(st, frames)
    case CallReset(outcome) => ResetStep(st, outcome)
    case CallRaw(payload, outcome) => SyncRawStep(st, payload, outcome)
    case CallUntil(target, outcome) => SyncUntilStep(st, target, outcome)
  }

  function Own(st: SessionState, owner: Owner, call: Call): OwnResult
    requires call.CallInit? || call.CallDeinit?
  {
    match call
    case CallInit(artifact, thread, capacity, registered) => InitStep(st, owner, artifact, thread, capacity, registered)
    case CallDeinit => DeinitStep(st, owner)
  }

  /** The account after a call on a bound or unbound session; a successful reset opens a new epoch. */
  function Operated(a: Account, call: Call): Account
    requires !call.CallInit? && !call.CallDeinit?
  {
    var r := Operate(a.state, call);
    if call.CallReset? && r.status == SessionOk then Account(r.state, r.sent, [], a.sent + r.sent)
    else Account(r.state, a.opening, a.epoch + Completed(r, call), a.sent + r.sent)
  }

  /** The account after binding or releasing. */
  function Owned(a: Account, state: SessionState): Account {
    if state == a.state then a else Account(state, [], [], a.sent)
  }

  function Step(w: World, id: nat, call: Call): (r: World)
    requires id < |w.sessions|
    ensures |r.sessions| == |w.sessions|
  {
    var a := w.sessions[id];
    if call.CallInit? || call.CallDeinit? then
      var r := Own(a.state, OwnerFor(w, id), call);
      var active := match r.owner case Nobody => None case Me => Some(id) case Someone => w.active;
      World(w.sessions[id := Owned(a, r.state)], active)
    else w.(sessions := w.sessions[id := Operated(a, call)])
  }

  datatype Event = Event(id: nat, call: Call)

  function Run(w: World, history: seq<Event>): (r: World)
    requires forall e :: e in history ==> e.id < |w.sessions|
    ensures |r.sessions| == |w.sessions|
    decreases |history|
  {
    if history == [] then w else Run(Step(w, history[0].id, history[0].call), history[1..])
  }

  function Zeroed(count: nat): World {
    World(seq(count, _ => Account(ZEROED, [], [], [])), None)
  }

  // -------------------------------------------------------------- invariants

  function PayloadSum(epoch: seq<Sync>): nat {
    if epoch == [] then 0 else PayloadSum(epoch[..|epoch| - 1]) + ControlPayload(epoch[|epoch| - 1].frame)
  }

  ghost predicate TargetsIncrease(epoch: seq<Sync>) {
    && (forall i :: 0 <= i < |epoch| ==> epoch[i].TimelineSync?)
    && (forall i, j :: 0 <= i < j < |epoch| ==> epoch[i].target < epoch[j].target)
  }

  /** The reset that opened the epoch went to the bound thread's root, and so did every synchronization. */
  ghost predicate Routed(a: Account) {
    && |a.opening| <= 1
    && (forall f :: f in a.opening ==> ToRoot(a.state, f, 13, 0))
    && (forall s :: s in a.epoch ==> ToRoot(a.state, s.frame, 12, ControlPayload(s.frame)))
  }

  /**
   Timeline conservation for one session: the modes never mix within an epoch, timeline targets
   strictly increase, and the payloads that were really sent add up to the recorded target.
   */
  ghost predicate EpochConsistent(a: Account) {
    match a.state.mode
    case ModeUnset => a.epoch == [] && a.state.completed == 0
    case ModeRawPayload => forall s :: s in a.epoch ==> s.RawSync?
    case ModeTimeline =>
      && TargetsIncrease(a.epoch) && |a.epoch| > 0
      && a.epoch[|a.epoch| - 1].target == a.state.completed
      && PayloadSum(a.epoch) == a.state.completed
  }

  ghost predicate SessionConsistent(a: Account, owns: bool) {
    && (a.state.artifact.Some? <==> owns)
    && (a.state.artifact.None? ==> a.state == ZEROED)
    && !a.state.barrierActive
    && EpochConsistent(a) && Routed(a)
  }

  ghost predicate Consistent(w: World) {
    && (w.active.Some? ==> w.active.value < |w.sessions|)
    && forall id :: 0 <= id < |w.sessions| ==> SessionConsistent(w.sessions[id], w.active == Some(id))
  }

  /** A sync that succeeded sent one SYNC frame to the thread's root, with the payload that was asked for. */
  lemma SyncFramePayload(st: SessionState, payload: nat, outcome: SessionStatus)
    ensures var r := SyncPayloadStep(st, payload, outcome);
            r.status == SessionOk ==> |r.sent| == 1 && ToRoot(st, r.sent[0], 12, payload) && outcome == SessionOk &&
                                      r.state == st.(barrierActive := false)
    ensures var r := SyncPayloadStep(st, payload, outcome);
            r.state == st || r.state == st.(barrierActive := false, faulted := true) || r.state == st.(barrierActive := false)
  {
    hide ControlFrame, ToRoot;
    SyncSends(st, payload, outcome);
  }

  /** The root belongs to the binding, not to how far the session has come. */
  lemma SameRoot(st: SessionState, next: SessionState, f: Frame, header: nat, payload: nat)
    requires ToRoot(st, f, header, payload) && next.artifact == st.artifact && next.thread == st.thread
    ensures ToRoot(next, f, header, payload)
  {
  }

  lemma RoutedFrame(a: Account, next: Account)
    requires Routed(a) && next.opening == a.opening && next.state.artifact == a.state.artifact && next.state.thread == a.state.thread
    requires a.epoch <= next.epoch && |next.epoch| <= |a.epoch| + 1
    requires |next.epoch| > |a.epoch| ==>
               var f := next.epoch[|a.epoch|].frame; ToRoot(a.state, f, 12, ControlPayload(f))
    ensures Routed(next)
  {
    hide ToRoot, ControlPayload;
    forall f | f in next.opening
      ensures ToRoot(next.state, f, 13, 0)
    {
      SameRoot(a.state, next.state, f, 13, 0);
    }
    forall s | s in next.epoch
      ensures ToRoot(next.state, s.frame, 12, ControlPayload(s.frame))
    {
      var i :| 0 <= i < |next.epoch| && next.epoch[i] == s;
      assert i < |a.epoch| ==> a.epoch[i] == s;
      SameRoot(a.state, next.state, s.frame, 12, ControlPayload(s.frame));
    }
  }

  lemma OperateKeeps(a: Account, call: Call, owns: bool)
    requires SessionConsistent(a, owns) && !call.CallInit? && !call.CallDeinit?
    ensures SessionConsistent(Operated(a, call), owns)
  {
    hide ControlFrame, ControlPayload, ToRoot, Routed;
    assert a.epoch + [] == a.epoch && a.sent + [] == a.sent;
    match call
    case CallLoadConfig => RoutedFrame(a, Operated(a, call));
    case CallSend(_) => RoutedFrame(a, Operated(a, call));
    case CallReset(outcome) => ResetKeeps(a, outcome, owns);
    case CallRaw(payload, outcome) => RawKeeps(a, payload, outcome, owns);
    case CallUntil(target, outcome) => UntilKeeps(a, target, outcome, owns);
  }

  lemma ResetKeeps(a: Account, outcome: SessionStatus, owns: bool)
    requires SessionConsistent(a, owns)
    ensures SessionConsistent(Operated(a, CallReset(outcome)), owns)
  {
    hide ControlFrame, ControlPayload, ToRoot, Rooted;
    var r, next := ResetStep(a.state, outcome), Operated(a, CallReset(outcome));
    ResetSends(a.state, outcome);
    assert a.epoch + [] == a.epoch;
    if r.status == SessionOk {
      SameRoot(a.state, next.state, r.sent[0], 13, 0);
    } else {
      RoutedFrame(a, next);
      EpochFrame(a, next);
    }
  }

  lemma RawKeeps(a: Account, payload: u32, outcome: SessionStatus, owns: bool)
    requires SessionConsistent(a, owns)
    ensures SessionConsistent(Operated(a, CallRaw(payload, outcome)), owns)
  {
    hide SyncPayloadStep, ControlPayload, ToRoot, Routed;
    SyncFramePayload(a.state, payload, outcome);
    UnboundRefuses(a.state, payload, outcome);
    assert a.epoch + [] == a.epoch;
    var r := SyncRawStep(a.state, payload, outcome);
    if r.status == SessionOk {
      PayloadRead(a.state, r.sent[0], payload);
    }
    RoutedFrame(a, Operated(a, CallRaw(payload, outcome)));
  }

  lemma PayloadRead(st: SessionState, f: Frame, payload: nat)
    requires ToRoot(st, f, 12, payload)
    ensures ControlPayload(f) == payload
  {
  }

  /** A completed timeline step extends a consistent epoch. */
  lemma TimelineExtends(a: Account, target: u32, frame: Frame, next: Account)
    requires EpochConsistent(a) && !TimelineRefuses(a.state, target)
    requires ToRoot(a.state, frame, 12, TimelinePayload(a.state, target))
    requires next.state.mode == ModeTimeline && next.state.completed == target
    requires next.epoch == a.epoch + [TimelineSync(target, frame)]
    ensures EpochConsistent(next)
  {
    hide ControlPayload, ToRoot;
    PayloadRead(a.state, frame, TimelinePayload(a.state, target));
    assert next.epoch[..|a.epoch|] == a.epoch;
    assert PayloadSum(next.epoch) == PayloadSum(a.epoch) + ControlPayload(frame);
  }

  lemma EpochFrame(a: Account, next: Account)
    requires EpochConsistent(a) && next.epoch == a.epoch
    requires next.state.mode == a.state.mode && next.state.completed == a.state.completed
    ensures EpochConsistent(next)
  {
  }

  lemma UntilKeeps(a: Account, target: u32, outcome: SessionStatus, owns: bool)
    requires SessionConsistent(a, owns)
    ensures SessionConsistent(Operated(a, CallUntil(target, outcome)), owns)
  {
    hide SyncPayloadStep, ControlPayload, EpochConsistent, ToRoot, Routed;
    var r, next := SyncUntilStep(a.state, target, outcome), Operated(a, CallUntil(target, outcome));
    if !a.state.faulted && !TimelineRefuses(a.state, target) {
      SyncFramePayload(a.state, TimelinePayload(a.state, target), outcome);
      UnboundRefuses(a.state, TimelinePayload(a.state, target), outcome);
    }
    if r.status == SessionOk {
      TimelineExtends(a, target, r.sent[0], next);
      PayloadRead(a.state, r.sent[0], TimelinePayload(a.state, target));
    } else {
      EpochFrame(a, next);
    }
    RoutedFrame(a, next);
  }

  lemma UnboundRefuses(st: SessionState, payload: nat, outcome: SessionStatus)
    ensures st.artifact.None? ==> SyncPayloadStep(st, payload, outcome) == Refuse(st, SessionRuntimeError)
  {
  }

  lemma StepKeeps(w: World, id: nat, call: Call)
    requires Consistent(w) && id < |w.sessions|
    ensures Consistent(Step(w, id, call))
  {
    hide Operate, EpochConsistent;
    var next, a := Step(w, id, call), w.sessions[id];
    assert SessionConsistent(a, w.active == Some(id));
    if call.CallInit? || call.CallDeinit? {
      OwnKeeps(a, OwnerFor(w, id), call);
      forall k | 0 <= k < |w.sessions|
        ensures SessionConsistent(next.sessions[k], next.active == Some(k))
      {
        assert SessionConsistent(w.sessions[k], w.active == Some(k));
      }
    } else {
      OperateKeeps(a, call, w.active == Some(id));
    }
  }

  /** Binding and releasing: exactly the bound session owns the interrupt, and the rest is untouched. */
  lemma OwnKeeps(a: Account, owner: Owner, call: Call)
    requires SessionConsistent(a, owner == Me) && (call.CallInit? || call.CallDeinit?)
    ensures var r := Own(a.state, owner, call);
            && SessionConsistent(Owned(a, r.state), r.owner == Me)
            && (owner == Someone ==> r.owner == Someone && r.state == a.state && r.status != SessionOk)
            && (owner != Someone ==> r.owner != Someone)
  {
  }

  /** Timeline conservation and exclusive ownership hold after every history of API calls. */
  lemma {:induction false} HistoryConsistent(w: World, history: seq<Event>)
    requires Consistent(w) && forall e :: e in history ==> e.id < |w.sessions|
    ensures Consistent(Run(w, history))
    decreases |history|
  {
    hide Step, Consistent;
    if history != [] {
      assert history[0] in history;
      StepKeeps(w, history[0].id, history[0].call);
      HistoryConsistent(Step(w, history[0].id, history[0].call), history[1..]);
    }
  }

  lemma ZeroedConsistent(count: nat, history: seq<Event>)
    requires forall e :: e in history ==> e.id < count
    ensures Consistent(Run(Zeroed(count), history))
  {
    HistoryConsistent(Zeroed(count), history);
  }

  // ------------------------------------------------------- faults are absorbing

  lemma FaultedStep(w: World, id: nat, call: Call, victim: nat)
    requires id < |w.sessions| && victim < |w.sessions| && w.sessions[victim].state.faulted
    requires Consistent(w)
    requires !(id == victim && call.CallDeinit?)
    ensures Step(w, id, call).sessions[victim] == w.sessions[victim]
  {
    assert SessionConsistent(w.sessions[victim], w.active == Some(victim));
    assert w.sessions[victim].sent + [] == w.sessions[victim].sent;
    assert w.sessions[victim].epoch + [] == w.sessions[victim].epoch;
  }

  /**
   A faulted session is inert: over any history in which it is not deinitialized, its state does not
   change and not one further frame reaches the FIFO through it.
   */
  lemma {:induction false} FaultIsAbsorbing(w: World, history: seq<Event>, victim: nat)
    requires Consistent(w) && victim < |w.sessions| && w.sessions[victim].state.faulted
    requires forall e :: e in history ==> e.id < |w.sessions| && !(e.id == victim && e.call.CallDeinit?)
    ensures Run(w, history).sessions[victim] == w.sessions[victim]
    decreases |history|
  {
    hide Step, Consistent;
    if history != [] {
      assert history[0] in history;
      StepKeeps(w, history[0].id, history[0].call);
      FaultedStep(w, history[0].id, history[0].call, victim);
      FaultIsAbsorbing(Step(w, history[0].id, history[0].call), history[1..], victim);
    }
  }

  /** Every barrier that ran and did not report OK leaves its session faulted. */
  lemma FailedBarrierFaults(st: SessionState, call: Call)
    requires call.CallReset? || call.CallRaw? || call.CallUntil?
    ensures var r := Operate(st, call);
            r.sent != [] ==> r.status == call.outcome && (r.status != SessionOk <==> r.state.faulted)
  {
    hide BuildControlFrame;
  }
}
