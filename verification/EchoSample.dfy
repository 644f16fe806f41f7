/**
 The loopback law for a whole sample: a device that returns the work frames it was sent leaves the
 tensor in the output window, with any stride, also when that window is the input window.
 */
module EchoSample {
  import opened Bits
  import opened Artifact
  import opened FrameCodec
  import opened InputEncoder
  import opened OutputDecoder
  import opened FrameHandlers
  import opened Loopback
  import opened SessionSpec
  import opened SampleRows
  import opened SamplePlan
  import opened SampleRun
  import opened TensorWindow

  /** The caller's tensor, row by row. */
  function InputTensor(p: Plan, mem: seq<u8>): (tensor: seq<seq<u8>>)
    requires Accepted(p, |mem|)
    ensures |tensor| == p.setup.timesteps
    ensures forall t :: 0 <= t < |tensor| ==> tensor[t] == RowAt(p, mem, t) && |tensor[t]| == InputBytes(p)
  {
    seq(p.setup.timesteps, t requires 0 <= t < p.setup.timesteps => RowAt(p, mem, t))
  }

  /** Element e of timestep t is the byte at its place in the caller's window. */
  lemma TensorAt(p: Plan, mem: seq<u8>, t: nat, e: nat)
    requires Accepted(p, |mem|) && t < p.setup.timesteps && e < p.input.elementCount
    ensures 0 <= p.inputBase + t * p.inputStride + e < |mem|
    ensures InputTensor(p, mem)[t][e] == mem[p.inputBase + t * p.inputStride + e]
  {
    RowInMemory(p, |mem|, t);
  }

  lemma NothingLeftToClear(s: Setup, st: Store)
    requires RowsFit(s) && Fits(s, st)
    ensures ClearFrom(s, st, s.timesteps) == st
  {
  }

  /** DATA windows do not depend on the lane state. */
  lemma WithoutLanes(s: Setup, mem: seq<u8>)
    requires DataWindow(s) && s.base + s.capacity <= |mem|
    ensures var s' := s.(stateCount := 0);
            DataWindow(s') && Gathered(s', mem) == Gathered(s, mem) && TensorBytes(s') == TensorBytes(s)
  {
    forall k | 0 <= k < TensorBytes(s)
      ensures CellByte(s.(stateCount := 0), mem, k) == CellByte(s, mem, k)
    {
    }
  }

  lemma ClearedTensor(s: Setup, st: Store)
    requires DataWindow(s) && Fits(s, st)
    ensures Gathered(s, ClearFrom(s, st, 0).mem) == Zeros(TensorBytes(s))
  {
    hide RowsFit, ClearFrom, CellByte, TensorBytes;
    forall k | 0 <= k < TensorBytes(s)
      ensures CellByte(s, ClearFrom(s, st, 0).mem, k) == 0
    {
      ClearedCell(s, st, 0, k);
    }
  }

  /** Decoding into the cleared rows of a sample, in the terms of the loopback law. */
  lemma EchoDecodes(iv: InputView, s: Setup, start: Store, tensor: seq<seq<u8>>, frames: seq<Frame>)
    requires DataWindow(s) && Fits(s, start) && s.timesteps == |tensor|
    requires ValidInputView(iv) && Matched(iv, s.view) && ScheduleAccepts(iv, |tensor|)
    requires WellShaped(iv, tensor) && Representable(iv, tensor) && CarriesTensor(iv, tensor, frames)
    ensures iv.elementCount > 0
    ensures Gathered(s, DecodeAll(s, true, ClearFrom(s, start, 0), frames).0.mem) == Expected(iv, tensor)
  {
    hide RowsFit, DecodeAll, Representable, CarriesTensor, Expected, ScheduleAccepts, Gathered, ClearFrom;
    var s', cleared := s.(stateCount := 0), ClearFrom(s, start, 0);
    WindowFields(s);
    ClearedTensor(s, start);
    WithoutLanes(s, cleared.mem);
    DataIgnoresLanes(s, cleared, frames);
    WindowLoopback(iv, s', tensor, Store(cleared.mem, []), frames);
    WithoutLanes(s, DecodeAll(s, true, cleared, frames).0.mem);
  }

  /**
   If the DATA work frames received over all barriers of a successful sample are the encoded frames of
   the caller's rows, in any order and possibly repeated, the output cells end up holding the caller's
   tensor on mapped elements and zero elsewhere. The windows may coincide, the rows may be apart.
   */
  lemma EchoedSample(p: Plan, start: Store, received: seq<seq<Frame>>)
    requires Accepted(p, |start.mem|) && Fits(p.setup, start) && DataWindow(p.setup)
    requires ValidInputView(p.input) && ScheduleAccepts(p.input, p.setup.timesteps) && Matched(p.input, p.setup.view)
    requires Representable(p.input, InputTensor(p, start.mem))
    requires |received| >= p.setup.timesteps && RunRows(p.layout, p.setup, start, received).1 == SessionOk
    requires CarriesTensor(p.input, InputTensor(p, start.mem), Concat(received))
    ensures p.input.elementCount > 0
    ensures Gathered(p.setup, RunRows(p.layout, p.setup, start, received).0.mem) == Expected(p.input, InputTensor(p, start.mem))
  {
    hide RowsFit, LayoutSound, RunRows, DecodeAll, Representable, CarriesTensor, Matched, Expected, ScheduleAccepts, ValidInputView,
         RegionsOverlap, Gathered, ClearFrom, Concat;
    IncrementalIsClearFirst(p.layout, p.setup, start, received);
    NothingLeftToClear(p.setup, RunRows(p.layout, p.setup, start, received).0);
    EchoDecodes(p.input, p.setup, start, InputTensor(p, start.mem), Concat(received));
  }

  // ------------------------------------------------------------- what was sent

  /** INIT and SYNC frames are no work frames. */
  lemma ControlIsNoWork(st: SessionState, header: nat, payload: nat)
    requires header == HDR_INIT || header == HDR_SYNC
    ensures forall f :: f in Control(st, header, payload) ==> !IsDataWork(f)
  {
    hide BuildControlFrame, ControlPayload, WorkKind;
    if ControlFrame(st, header, payload).Built? {
      ControlFrameMeaning(st.artifact.value.threads[st.thread].root, header, payload);
      HeaderIsNoWork(ControlFrame(st, header, payload).frame);
    }
  }

  lemma HeaderIsNoWork(frame: Frame)
    requires ControlHeader(frame) == HDR_INIT || ControlHeader(frame) == HDR_SYNC
    ensures !IsWork(frame)
  {
  }

  /** The DATA work frames of the first n timesteps are the encoded frames of their rows. */
  lemma {:induction false} SentWork(p: Plan, st: SessionState, mem: seq<u8>, n: nat, f: Frame)
    requires Accepted(p, |mem|) && n <= p.setup.timesteps && IsDataWork(f)
    ensures f in Transmission(p, st, mem, n) <==>
            exists t :: 0 <= t < n && f in EncodeRow(p.input, t, InputTensor(p, mem)[t], 0).frames
  {
    hide Accepted, EncodeRow, Control, IsDataWork, RowAt;
    if n == 0 {
      ControlIsNoWork(st, HDR_INIT, 0);
    } else {
      SentWork(p, st, mem, n - 1, f);
      ControlIsNoWork(st, HDR_SYNC, 1);
    }
  }

  /** The work frames among what a complete sample sent carry the caller's tensor. */
  lemma TransmissionCarries(p: Plan, st: SessionState, mem: seq<u8>)
    requires Accepted(p, |mem|)
    ensures CarriesTensor(p.input, InputTensor(p, mem), FullTransmission(p, st, mem))
  {
    hide Accepted, EncodeRow, Control, IsDataWork, InputTensor, Transmission;
    var n := p.setup.timesteps;
    if p.completion > n {
      ControlIsNoWork(st, HDR_SYNC, p.completion - n);
    }
    forall f | IsDataWork(f)
      ensures f in FullTransmission(p, st, mem) <==>
              exists t :: 0 <= t < n && f in EncodeRow(p.input, t, InputTensor(p, mem)[t], 0).frames
    {
      SentWork(p, st, mem, n, f);
    }
  }

  /** Over all barriers the device returned exactly the DATA work frames it was sent. */
  ghost predicate Echoed(sent: seq<Frame>, received: seq<Frame>) {
    forall f :: IsDataWork(f) ==> (f in received <==> f in sent)
  }

  /**
   The law on the outcome of a successful sample call: if what came back is what was sent, the output
   cells hold the caller's tensor on mapped elements and zero elsewhere, and no other byte changed.
   */
  lemma EchoedOutcome(p: Plan, st: SessionState, start: Store, sent: seq<Frame>, rx: seq<RxItem>,
                      barriers: seq<seq<Frame>>, end: Store, sent': seq<Frame>, rx': seq<RxItem>)
    requires Accepted(p, |start.mem|) && Fits(p.setup, start) && DataWindow(p.setup)
    requires ValidInputView(p.input) && ScheduleAccepts(p.input, p.setup.timesteps) && Matched(p.input, p.setup.view)
    requires Representable(p.input, InputTensor(p, start.mem))
    requires SampleOutcome(p, st, start, sent, rx, SessionOk, barriers, end, sent', rx')
    requires |barriers| > 0 && sent <= sent' && Echoed(sent'[|sent|..], Concat(barriers[1..]))
    ensures p.input.elementCount > 0 && p.setup.base + p.setup.capacity <= |end.mem|
    ensures Gathered(p.setup, end.mem) == Expected(p.input, InputTensor(p, start.mem))
    ensures SameOutsideRows(p.setup, p.setup.timesteps, start.mem, end.mem)
  {
    hide RowsFit, LayoutSound, RunRows, Representable, Matched, Expected, ScheduleAccepts, ValidInputView, RegionsOverlap, Gathered,
         Concat, InputTensor, FullTransmission, IsDataWork, EncodeRow, SameOutsideRows, DeliveredAll, SentPrefix;
    TransmissionCarries(p, st, start.mem);
    assert sent'[|sent|..] == FullTransmission(p, st, start.mem);
    EchoedSample(p, start, barriers[1..]);
  }
}
