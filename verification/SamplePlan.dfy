/**
 What one sample promises as a whole: which frames go out, which memory the input rows are read from,
 and how the received stream divides into barriers.
 */
module SamplePlan {
  import opened Bits
  import opened Artifact
  import opened FrameCodec
  import opened InputEncoder
  import opened OutputDecoder
  import opened FrameHandlers
  import opened SessionSpec
  import opened SampleRows

  /** Input window, output window and completion target of a sample. Both windows are in one memory. */
  datatype Plan = Plan(input: InputView, inputBase: nat, inputStride: nat, setup: Setup, layout: Layout, completion: u32)

  // ------------------------------------------------------------- sample regions

  function RegionFits(total: nat, row: nat, stride: nat, timesteps: nat): (fits: bool)
    requires total <= SIZE_MAX && row <= SIZE_MAX && stride <= SIZE_MAX
    ensures fits <==> row > 0 && stride >= row && timesteps > 0 && (timesteps - 1) * stride + row <= total
  {
    if row == 0 || stride < row || timesteps == 0 then false
    else
      AtMostQuotient(timesteps - 1, stride, SIZE_MAX - row);
      timesteps - 1 <= (SIZE_MAX - row) / stride && (timesteps - 1) * stride + row <= total
  }

  const UINTPTR_MAX: nat := 0xFFFF_FFFF

  /** A region that ends at the very top of the address space counts as overlapping everything. */
  predicate RegionsOverlap(left: nat, leftSize: nat, right: nat, rightSize: nat) {
    if leftSize == 0 || rightSize == 0 || left > UINTPTR_MAX - leftSize || right > UINTPTR_MAX - rightSize
    then leftSize != 0 && rightSize != 0
    else left < right + rightSize && right < left + leftSize
  }

  predicate InRegion(a: nat, start: nat, size: nat) { start <= a < start + size }

  /** A region has bytes, and they end above what a pointer plus a size can express. */
  predicate AtTop(start: nat, size: nat) { start + size > UINTPTR_MAX }

  /** Two regions are reported exactly if neither is empty and one is at the top of memory or an address is shared. */
  lemma OverlapMeaning(left: nat, leftSize: nat, right: nat, rightSize: nat)
    ensures RegionsOverlap(left, leftSize, right, rightSize) <==>
            && leftSize > 0 && rightSize > 0
            && (AtTop(left, leftSize) || AtTop(right, rightSize) ||
                exists a :: InRegion(a, left, leftSize) && InRegion(a, right, rightSize))
  {
    var a := if left < right then right else left;
    if leftSize > 0 && rightSize > 0 && left < right + rightSize && right < left + leftSize {
      assert InRegion(a, left, leftSize) && InRegion(a, right, rightSize);
    }
  }

  /** The report is not always an overlap: the last four bytes of memory share no address with the first four. */
  lemma ReportedDisjoint()
    ensures RegionsOverlap(UINTPTR_MAX - 3, 4, 0, 4)
    ensures forall a :: !(InRegion(a, UINTPTR_MAX - 3, 4) && InRegion(a, 0, 4))
  {
  }

  // ------------------------------------------------------------- accepted plans

  function InputBytes(p: Plan): nat { p.input.elementCount }

  function RegionSize(timesteps: nat, stride: nat, row: nat): nat
    requires timesteps > 0
  {
    MulMono(0, timesteps - 1, stride);
    (timesteps - 1) * stride + row
  }

  /** The two windows of an accepted sample lie in memory, and are the same rows or disjoint. */
  ghost predicate Accepted(p: Plan, size: nat) {
    && RowsFit(p.setup) && LayoutSound(p.setup.view, p.layout)
    && p.setup.base + p.setup.capacity <= size
    && 0 < InputBytes(p) <= p.inputStride
    && p.inputBase + RegionSize(p.setup.timesteps, p.inputStride, InputBytes(p)) <= size
    && (RegionsOverlap(p.inputBase, RegionSize(p.setup.timesteps, p.inputStride, InputBytes(p)),
                       p.setup.base, RegionSize(p.setup.timesteps, p.setup.stride, RowBytes(p.setup.view))) ==>
          p.inputBase == p.setup.base && p.inputStride == p.setup.stride)
    && p.completion >= p.setup.timesteps
  }

  function RowStart(p: Plan, t: nat): nat {
    MulMono(0, t, p.inputStride);
    p.inputBase + t * p.inputStride
  }

  lemma RowInMemory(p: Plan, size: nat, t: nat)
    requires Accepted(p, size) && t < p.setup.timesteps
    ensures RowStart(p, t) + InputBytes(p) <= p.inputBase + RegionSize(p.setup.timesteps, p.inputStride, InputBytes(p)) <= size
  {
    MulMono(t, p.setup.timesteps - 1, p.inputStride);
  }

  function RowAt(p: Plan, mem: seq<u8>, t: nat): (row: seq<u8>)
    requires Accepted(p, |mem|) && t < p.setup.timesteps
    ensures |row| == InputBytes(p)
  {
    RowInMemory(p, |mem|, t);
    mem[RowStart(p, t)..RowStart(p, t) + InputBytes(p)]
  }

  /** No byte of input row t is a byte of an output row below t, even when the windows coincide. */
  lemma InputRowUntouched(p: Plan, size: nat, t: nat, a: nat)
    requires Accepted(p, size) && t < p.setup.timesteps
    requires RowStart(p, t) <= a < RowStart(p, t) + InputBytes(p)
    ensures !InRows(p.setup, t, a)
  {
    hide RowsFit, LayoutSound, InRows, RegionsOverlap, InRegion, RegionSize;
    if InRows(p.setup, t, a) {
      RowsBelow(p.setup, t, a);
      SharedAddress(p, size, t, a);
      SharedIsReported(a, p.inputBase, RegionSize(p.setup.timesteps, p.inputStride, InputBytes(p)),
                       p.setup.base, RegionSize(p.setup.timesteps, p.setup.stride, RowBytes(p.setup.view)));
    }
  }

  lemma SharedIsReported(a: nat, left: nat, leftSize: nat, right: nat, rightSize: nat)
    requires InRegion(a, left, leftSize) && InRegion(a, right, rightSize)
    ensures RegionsOverlap(left, leftSize, right, rightSize)
  {
    OverlapMeaning(left, leftSize, right, rightSize);
  }

  lemma SharedAddress(p: Plan, size: nat, t: nat, a: nat)
    requires Accepted(p, size) && t < p.setup.timesteps
    requires RowStart(p, t) <= a < RowStart(p, t) + InputBytes(p)
    requires p.setup.base <= a < p.setup.base + t * p.setup.stride
    ensures InRegion(a, p.inputBase, RegionSize(p.setup.timesteps, p.inputStride, InputBytes(p)))
    ensures InRegion(a, p.setup.base, RegionSize(p.setup.timesteps, p.setup.stride, RowBytes(p.setup.view)))
  {
    hide RowsFit, LayoutSound, RegionsOverlap;
    RowInMemory(p, size, t);
    MulMono(0, t, p.inputStride);
    MulMono(t, p.setup.timesteps - 1, p.setup.stride);
  }

  /**
   In-place safety. However the memory below row t has been rewritten by the output side, the row the
   encoder reads at timestep t is the row the caller put there.
   */
  lemma InputRowSurvives(p: Plan, before: seq<u8>, after: seq<u8>, t: nat)
    requires Accepted(p, |before|) && t < p.setup.timesteps && SameOutsideRows(p.setup, t, before, after)
    ensures RowAt(p, after, t) == RowAt(p, before, t)
  {
    hide Accepted, InRows;
    RowInMemory(p, |before|, t);
    forall a | RowStart(p, t) <= a < RowStart(p, t) + InputBytes(p)
      ensures after[a] == before[a]
    {
      InputRowUntouched(p, |before|, t, a);
    }
  }

  /** The same over a whole run, for every hardware frame stream. */
  lemma InputRowOfRun(p: Plan, st: Store, received: seq<seq<Frame>>)
    requires Accepted(p, |st.mem|) && Fits(p.setup, st) && |received| < p.setup.timesteps
    ensures RowAt(p, RunRows(p.layout, p.setup, st, received).0.mem, |received|) == RowAt(p, st.mem, |received|)
  {
    RunRowsStays(p.layout, p.setup, st, received);
    InputRowSurvives(p, st.mem, RunRows(p.layout, p.setup, st, received).0.mem, |received|);
  }

  // ------------------------------------------------------------- transmitted frames

  /** The control frame a session sends for a payload; nothing when it cannot be built. */
  function Control(st: SessionState, header: nat, payload: nat): seq<Frame>
    requires header < 16
  {
    match ControlFrame(st, header, payload)
    case Built(frame) => [frame]
    case Failed(_) => []
  }

  /** Reset, then for each timestep the one-shot encoding of the caller's row and a sync of one. */
  function Transmission(p: Plan, st: SessionState, mem: seq<u8>, n: nat): seq<Frame>
    requires Accepted(p, |mem|) && n <= p.setup.timesteps
  {
    if n == 0 then Control(st, HDR_INIT, 0)
    else Transmission(p, st, mem, n - 1) + EncodeRow(p.input, n - 1, RowAt(p, mem, n - 1), 0).frames + Control(st, HDR_SYNC, 1)
  }

  /** The whole sample: a last sync covers the pipeline latency, if there is any left. */
  function FullTransmission(p: Plan, st: SessionState, mem: seq<u8>): seq<Frame>
    requires Accepted(p, |mem|)
  {
    Transmission(p, st, mem, p.setup.timesteps) +
    if p.completion > p.setup.timesteps then Control(st, HDR_SYNC, p.completion - p.setup.timesteps) else []
  }

  lemma {:induction false} TransmissionGrows(p: Plan, st: SessionState, mem: seq<u8>, n: nat, m: nat)
    requires Accepted(p, |mem|) && n <= m <= p.setup.timesteps
    ensures Transmission(p, st, mem, n) <= Transmission(p, st, mem, m)
    decreases m
  {
    hide Accepted, EncodeRow, Control;
    if n < m {
      TransmissionGrows(p, st, mem, n, m - 1);
      assert Transmission(p, st, mem, m - 1) <= Transmission(p, st, mem, m);
    }
  }

  predicate IsSync(frame: Frame) { ControlHeader(frame) == HDR_SYNC }

  /** Increments the device counts while it receives these frames. */
  function SyncTotal(frames: seq<Frame>): nat {
    if frames == [] then 0
    else SyncTotal(frames[..|frames| - 1]) +
         if IsSync(frames[|frames| - 1]) then ControlPayload(frames[|frames| - 1]) else 0
  }

  lemma {:induction false} SyncTotalAppend(left: seq<Frame>, right: seq<Frame>)
    ensures SyncTotal(left + right) == SyncTotal(left) + SyncTotal(right)
    decreases |right|
  {
    hide IsSync, ControlPayload;
    if right == [] {
      assert left + right == left;
    } else {
      var n := |right| - 1;
      SyncTotalAppend(left, right[..n]);
      assert (left + right)[..|left + right| - 1] == left + right[..n];
    }
  }

  lemma WorkIsNoSync(frame: Frame)
    ensures IsWork(frame) ==> !IsSync(frame)
  {
  }

  /** Row frames are work frames, which the device does not count. */
  lemma {:induction false} RowAddsNothing(view: InputView, t: nat, row: seq<u8>, index: nat)
    requires index <= |view.entries|
    ensures forall f :: f in EncodeRow(view, t, row, index).frames ==> !IsSync(f)
    decreases |view.entries| - index
  {
    hide BuildWork1Frame, EncodePayload, IsSync, IsWork;
    if index < |view.entries| {
      var v := VisitEntry(view, t, row, index);
      if v.Skip? || v.Emit? {
        RowAddsNothing(view, t, row, index + 1);
      }
      if v.Emit? {
        EmittedIsWork(view, t, row, index);
        WorkIsNoSync(v.frame);
      }
    }
  }

  lemma EmittedIsWork(view: InputView, t: nat, row: seq<u8>, index: nat)
    requires index < |view.entries| && VisitEntry(view, t, row, index).Emit?
    ensures IsWork(VisitEntry(view, t, row, index).frame)
  {
    hide BuildWork1Frame, EncodePayload, IsWork;
    var entry := view.entries[index];
    DtypeWidths(entry.dtype);
    var payload := EncodePayload(row[entry.elemIdx], DtypeInfo(entry.dtype).value).value;
    BuildWork1Meaning(entry, t, payload);
    KindsPartition(VisitEntry(view, t, row, index).frame);
  }

  lemma {:induction false} NoSyncTotal(frames: seq<Frame>)
    requires forall f :: f in frames ==> !IsSync(f)
    ensures SyncTotal(frames) == 0
  {
    hide IsSync, ControlPayload;
    if frames != [] {
      NoSyncTotal(frames[..|frames| - 1]);
    }
  }

  lemma ControlTotal(st: SessionState, header: nat, payload: nat)
    requires header < 16 && ControlFrame(st, header, payload).Built?
    ensures SyncTotal(Control(st, header, payload)) == if header == HDR_SYNC then payload else 0
  {
    hide BuildControlFrame, ControlPayload, ControlHeader;
    ControlFrameMeaning(st.artifact.value.threads[st.thread].root, header, payload);
    var frame := ControlFrame(st, header, payload).frame;
    assert [frame][..0] == [] && SyncTotal([]) == 0;
  }

  lemma {:induction false} TransmissionTotal(p: Plan, st: SessionState, mem: seq<u8>, n: nat)
    requires Accepted(p, |mem|) && n <= p.setup.timesteps
    requires ControlFrame(st, HDR_INIT, 0).Built? && ControlFrame(st, HDR_SYNC, 1).Built?
    ensures SyncTotal(Transmission(p, st, mem, n)) == n
  {
    hide Accepted, EncodeRow, ControlFrame, Control, SyncTotal;
    if n == 0 {
      ControlTotal(st, HDR_INIT, 0);
    } else {
      TransmissionTotal(p, st, mem, n - 1);
      var row := EncodeRow(p.input, n - 1, RowAt(p, mem, n - 1), 0).frames;
      RowAddsNothing(p.input, n - 1, RowAt(p, mem, n - 1), 0);
      NoSyncTotal(row);
      ControlTotal(st, HDR_SYNC, 1);
      SyncTotalAppend(Transmission(p, st, mem, n - 1), row);
      SyncTotalAppend(Transmission(p, st, mem, n - 1) + row, Control(st, HDR_SYNC, 1));
    }
  }

  /** The increments a complete sample sends add up to its completion timestep. */
  lemma SampleTimeline(p: Plan, st: SessionState, mem: seq<u8>)
    requires Accepted(p, |mem|) && p.completion <= CTRL_PAYLOAD_MAX && ControlFrame(st, HDR_INIT, 0).Built?
    ensures SyncTotal(FullTransmission(p, st, mem)) == p.completion
  {
    hide RowsFit, LayoutSound, RegionsOverlap, EncodeRow, BuildControlFrame, Control, SyncTotal;
    var root := st.artifact.value.threads[st.thread].root;
    ControlFrameMeaning(root, HDR_INIT, 0);
    ControlFrameMeaning(root, HDR_SYNC, 1);
    TransmissionTotal(p, st, mem, p.setup.timesteps);
    var last := p.completion - p.setup.timesteps;
    if last > 0 {
      ControlFrameMeaning(root, HDR_SYNC, last);
      ControlTotal(st, HDR_SYNC, last);
      SyncTotalAppend(Transmission(p, st, mem, p.setup.timesteps), Control(st, HDR_SYNC, last));
    } else {
      assert Transmission(p, st, mem, p.setup.timesteps) + [] == Transmission(p, st, mem, p.setup.timesteps);
    }
  }

  // ------------------------------------------------------------- received frames

  /** A barrier took these frames and one COMPLETE frame off the stream, and left the rest. */
  ghost predicate Delivered(rx: seq<RxItem>, frames: seq<Frame>, rest: seq<RxItem>) {
    && |frames| < |rx| && rest == rx[|frames| + 1..]
    && (forall i :: 0 <= i < |frames| ==> rx[i] == Arrived(frames[i]) && !IsComplete(frames[i]))
    && rx[|frames|].Arrived? && IsComplete(rx[|frames|].frame)
  }

  /** Consecutive barriers on one stream. */
  ghost predicate DeliveredAll(rx: seq<RxItem>, barriers: seq<seq<Frame>>, rest: seq<RxItem>)
    decreases |barriers|
  {
    if barriers == [] then rest == rx
    else |barriers[0]| < |rx| && Delivered(rx, barriers[0], rx[|barriers[0]| + 1..]) &&
         DeliveredAll(rx[|barriers[0]| + 1..], barriers[1..], rest)
  }

  lemma {:induction false} DeliveredOneMore(rx: seq<RxItem>, barriers: seq<seq<Frame>>, mid: seq<RxItem>,
                                            frames: seq<Frame>, rest: seq<RxItem>)
    requires DeliveredAll(rx, barriers, mid) && Delivered(mid, frames, rest)
    ensures DeliveredAll(rx, barriers + [frames], rest)
    decreases |barriers|
  {
    hide Delivered;
    if barriers == [] {
      assert barriers + [frames] == [frames] && [frames][1..] == [];
      assert rest == rx[|frames| + 1..] && |frames| < |rx| by {
        DeliveredShape(mid, frames, rest);
      }
    } else {
      DeliveredOneMore(rx[|barriers[0]| + 1..], barriers[1..], mid, frames, rest);
      assert (barriers + [frames])[0] == barriers[0] && (barriers + [frames])[1..] == barriers[1..] + [frames];
    }
  }

  lemma DeliveredShape(rx: seq<RxItem>, frames: seq<Frame>, rest: seq<RxItem>)
    requires Delivered(rx, frames, rest)
    ensures |frames| < |rx| && rest == rx[|frames| + 1..]
  {
  }

  /** What a barrier with a handler did to the handler's memory, as frames fed to the handler. */
  lemma BarrierServes(capacity: nat, h: HandlerKind, rx: seq<RxItem>, st: Store,
                      status: SessionStatus, rest: seq<RxItem>, after: Store, stored: seq<Frame>)
    returns (frames: seq<Frame>)
    requires h != NoHandler && HandlerFits(h, st)
    requires BarrierOutcome(FreshBarrier(capacity, h, rx, st), status, rest, after, stored)
    ensures FeedHandler(h, st, frames).0 == after
    ensures status == SessionOk ==> FeedHandler(h, st, frames).1 == SessionOk && Delivered(rx, frames, rest)
  {
    hide IsComplete, CallHandler, HandlerFits, Drain;
    if status == SessionTimeout {
      frames := [];
      NothingFed(h, st);
    } else {
      DrainWithHandler(FreshBarrier(capacity, h, rx, st));
      frames := FramesOf(rx[..StopIndex(rx)]);
    }
  }

  lemma NothingFed(h: HandlerKind, st: Store)
    requires HandlerFits(h, st)
    ensures FeedHandler(h, st, []) == (st, SessionOk)
  {
  }
}
