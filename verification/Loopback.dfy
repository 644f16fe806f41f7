/** The loopback law: decoding what was encoded returns the tensor, in any frame order. */
module Loopback {
  import opened Bits
  import opened Artifact
  import opened FrameCodec
  import opened InputEncoder
  import opened OutputDecoder
  import opened FrameHandlers
  import opened SampleRows
  import opened TensorWindow

  /** Input and output sides describe the same wires: key, target LCN, element and payload dtype agree. */
  ghost predicate Matched(iv: InputView, ov: OutputView) {
    && iv.elementCount == ov.elementCount
    && forall e :: e in iv.entries ==> MatchedEntry(e, ov)
  }

  ghost predicate MatchedEntry(e: InputEntry, ov: OutputView) {
    && e.targetLcn == ov.targetLcn
    && Interchangeable(e.dtype, ov.dtype)
    && exists o :: o in ov.entries && o.axonBitIdx == EntryKey(e) && o.elemIdx == e.elemIdx
  }

  ghost predicate Mapped(iv: InputView, elem: nat) {
    exists e :: e in iv.entries && e.elemIdx == elem
  }

  ghost predicate WellShaped(iv: InputView, tensor: seq<seq<u8>>) {
    forall t :: 0 <= t < |tensor| ==> |tensor[t]| == iv.elementCount
  }

  /** Every mapped element fits its payload width, and every route and axon fits a frame. */
  ghost predicate Representable(iv: InputView, tensor: seq<seq<u8>>)
    requires ValidInputView(iv) && WellShaped(iv, tensor)
  {
    && (forall e :: e in iv.entries ==> e.addrAxon <= 0x1FF && Routable(e.coreOffset) && Routable(e.copyCount))
    && (forall t, e :: 0 <= t < |tensor| && e in iv.entries ==> ElementFits(e, tensor[t]))
  }

  ghost predicate ElementFits(e: InputEntry, row: seq<u8>) {
    e.elemIdx < |row| && DtypeInfo(e.dtype).Some? && 1 <= DtypeInfo(e.dtype).value.bits <= 8 &&
    EncodePayload(row[e.elemIdx], DtypeInfo(e.dtype).value).Some?
  }

  /** The tensor as the decoder should see it: unmapped elements read as zero. */
  ghost function Expected(iv: InputView, tensor: seq<seq<u8>>): (out: seq<u8>)
    requires WellShaped(iv, tensor) && iv.elementCount > 0
    ensures |out| == |tensor| * iv.elementCount
  {
    var n: nat := iv.elementCount;
    seq(|tensor| * n, k requires 0 <= k < |tensor| * n =>
      RowMajor(k, |tensor|, n);
      if Mapped(iv, k % n) then tensor[k / n][k % n] else 0)
  }

  lemma SplitCell(k: nat, rows: nat, n: nat) returns (row: nat, elem: nat)
    requires n > 0 && k < rows * n
    ensures row < rows && elem < n && k == row * n + elem
  {
    RowMajor(k, rows, n);
    row, elem := k / n, k % n;
  }

  lemma CellInverse(row: nat, elem: nat, rows: nat, n: nat)
    requires elem < n && row < rows
    ensures row * n + elem < rows * n
    ensures (row * n + elem) / n == row && (row * n + elem) % n == elem
  {
    DivMod(row * n + elem, n, row, elem);
    MulMono(row + 1, rows, n);
    assert (row + 1) * n == row * n + n;
  }

  // ----------------------------------------------------------- encoding side

  /** On a representable row, visiting an entry skips a zero and emits a nonzero element. */
  lemma RepresentableVisit(iv: InputView, timesteps: nat, t: nat, row: seq<u8>, index: nat)
    requires ValidInputView(iv) && ScheduleAccepts(iv, timesteps) && |row| == iv.elementCount && index < |iv.entries|
    requires forall e :: e in iv.entries ==> e.addrAxon <= 0x1FF && Routable(e.coreOffset) && Routable(e.copyCount)
    requires forall e :: e in iv.entries ==> e.elemIdx < |row| && ElementFits(e, row)
    ensures iv.entries[index].elemIdx < |row|
    ensures if row[iv.entries[index].elemIdx] == 0 then VisitEntry(iv, t, row, index).Skip?
            else VisitEntry(iv, t, row, index).Emit?
  {
    hide VisitEntry, EncodePayload;
    assert iv.entries[index] in iv.entries;
    ValidatedVisit(iv, timesteps, t, row, index);
  }

  /** A representable row encodes completely: one frame per visit of a nonzero mapped element. */
  lemma {:induction false} RowEncodes(iv: InputView, timesteps: nat, t: nat, row: seq<u8>, index: nat)
    requires ValidInputView(iv) && ScheduleAccepts(iv, timesteps) && |row| == iv.elementCount && index <= |iv.entries|
    requires forall e :: e in iv.entries ==> e.addrAxon <= 0x1FF && Routable(e.coreOffset) && Routable(e.copyCount)
    requires forall e :: e in iv.entries ==> e.elemIdx < |row| && ElementFits(e, row)
    ensures var o := EncodeRow(iv, t, row, index);
            && o.status == CodecDone
            && (forall f :: f in o.frames ==> exists i :: index <= i < |iv.entries| && VisitEntry(iv, t, row, i) == Emit(f))
            && (forall i :: index <= i < |iv.entries| && VisitEntry(iv, t, row, i).Emit? ==>
                  VisitEntry(iv, t, row, i).frame in o.frames)
    decreases |iv.entries| - index
  {
    hide VisitEntry, ElementFits, ScheduleAccepts, ValidInputView;
    if index < |iv.entries| {
      RepresentableVisit(iv, timesteps, t, row, index);
      RowEncodes(iv, timesteps, t, row, index + 1);
    }
  }

  /** The decoder's reading of one emitted frame is a write of the element's own value to its own cell. */
  lemma EmittedFrameDecodes(iv: InputView, ov: OutputView, tensor: seq<seq<u8>>, t: nat, i: nat, frame: Frame)
    requires ValidInputView(iv) && ValidOutputView(ov) && Matched(iv, ov) && ov.kind == OUTPUT_DATA
    requires WellShaped(iv, tensor) && t < |tensor| && ScheduleAccepts(iv, |tensor|)
    requires |tensor| * ov.elementCount <= SIZE_MAX
    requires i < |iv.entries| && VisitEntry(iv, t, tensor[t], i) == Emit(frame)
    ensures var s := CompactSetup(ov, |tensor|);
            var elem := iv.entries[i].elemIdx;
            elem < ov.elementCount &&
            FrameEffect(s, false, frame) == PutByte(Cell(t, s.stride, elem), tensor[t][elem])
  {
    hide BuildWork1Frame, Pow2, Shl, BitOr, EncodedTimestep, DecodePayload, EncodePayload, IsDataWork, VisitEntry, OutputFrameAddress,
         RouteCode, Find, WordOf, LowBits, ResolvedTimestep;
    var entry, n := iv.entries[i], ov.elementCount;
    assert entry in iv.entries && MatchedEntry(entry, ov);
    ValidatedVisit(iv, |tensor|, t, tensor[t], i);
    var d := DtypeInfo(entry.dtype).value;
    var payload := EncodePayload(tensor[t][entry.elemIdx], d).value;
    PayloadRoundTrip(tensor[t][entry.elemIdx], d);
    AddressInvertsBuild(entry, t, payload);
    FittingTimestep(entry, t, |tensor|);
    BuildWork1Meaning(entry, t, payload);
    FramePayload(frame);
    ReadBack(tensor[t][entry.elemIdx], d, DtypeInfo(ov.dtype).value);
    var o :| o in ov.entries && o.axonBitIdx == EntryKey(entry) && o.elemIdx == entry.elemIdx;
    FindExact(ov.entries, o);
    CellInverse(t, entry.elemIdx, |tensor|, n);
    AtMostQuotient(t, n, SIZE_MAX - entry.elemIdx);
  }

  lemma FramePayload(frame: Frame)
    ensures UnpackWork(frame).payload == frame.low % 0x100
  {
  }

  lemma FittingTimestep(entry: InputEntry, t: nat, timesteps: nat)
    requires EntryFitsSchedule(entry, timesteps) && t < timesteps
    ensures LowBits(t, 8 - entry.targetLcn) == t
  {
    DivMod(t, Pow2(8 - entry.targetLcn), 0, t);
  }

  function Zeros(count: nat): (z: seq<u8>)
    ensures |z| == count && forall i :: 0 <= i < count ==> z[i] == 0
  {
    seq(count, _ => 0)
  }

  // ----------------------------------------------------------- decoding side

  /** Frames that are ignored or agree with one target image leave that image, whatever their order. */
  lemma {:induction false} AgreeingWrites(s: Setup, st: Store, frames: seq<Frame>, target: seq<u8>)
    requires s.base == 0 && s.capacity == |st.mem| == |target| && s.stateCount == 0 && st.lanes == []
    requires forall f :: f in frames ==> FrameEffect(s, false, f) == Ignore || WritesTarget(s, f, target)
    ensures var r := DecodeAll(s, false, st, frames);
            && r.1 == CodecOk && r.0.lanes == [] && |r.0.mem| == |target|
            && forall k :: 0 <= k < |target| ==>
                 r.0.mem[k] == if exists f :: f in frames && FrameEffect(s, false, f) == PutByte(k, target[k])
                               then target[k] else st.mem[k]
    decreases |frames|
  {
    if frames != [] {
      hide FrameEffect;
      var f := frames[0];
      assert f in frames;
      if FrameEffect(s, false, f) == Ignore {
        AgreeingWrites(s, st, frames[1..], target);
      } else {
        var k :| 0 <= k < |target| && FrameEffect(s, false, f) == PutByte(k, target[k]);
        AgreeingWrites(s, Apply(s, st, FrameEffect(s, false, f)).0, frames[1..], target);
      }
      assert forall g :: g in frames <==> g == f || g in frames[1..];
    }
  }

  ghost predicate WritesTarget(s: Setup, f: Frame, target: seq<u8>) {
    exists k :: 0 <= k < |target| && FrameEffect(s, false, f) == PutByte(k, target[k])
  }

  /** Among the given frames, the DATA work frames are the encoded frames of all rows, up to order and repetition. */
  ghost predicate CarriesTensor(iv: InputView, tensor: seq<seq<u8>>, frames: seq<Frame>) {
    forall f :: IsDataWork(f) ==> (f in frames <==> exists t :: 0 <= t < |tensor| && f in EncodeRow(iv, t, tensor[t], 0).frames)
  }

  /** A mapping that matches a nonempty input has a payload dtype. */
  lemma MatchedDtype(iv: InputView, ov: OutputView, timesteps: nat)
    requires ValidOutputView(ov) && Matched(iv, ov) && ov.kind == OUTPUT_DATA && ScheduleAccepts(iv, timesteps)
    ensures DtypeInfo(ov.dtype).Some? && iv.elementCount == ov.elementCount > 0
  {
    hide EntryFitsSchedule;
    assert iv.entries[0] in iv.entries && MatchedEntry(iv.entries[0], ov);
  }

  /** A DATA decoder ignores everything but DATA work frames. */
  lemma OnlyDataCounts(s: Setup, frame: Frame)
    requires s.view.kind == OUTPUT_DATA && DtypeInfo(s.view.dtype).Some?
    ensures !IsDataWork(frame) ==> FrameEffect(s, false, frame) == Ignore
  {
    hide IsDataWork, DataEffect;
  }

  /**
   The loopback law. Encode every row of a representable tensor; deliver the frames in any order, even
   with repetitions and among frames of other kinds; decode them. The result is the tensor on mapped
   elements and zero elsewhere, although zero elements never became frames.
   */
  lemma LoopbackRoundTrip(iv: InputView, ov: OutputView, tensor: seq<seq<u8>>, frames: seq<Frame>)
    requires ValidInputView(iv) && ValidOutputView(ov) && Matched(iv, ov) && ov.kind == OUTPUT_DATA
    requires WellShaped(iv, tensor) && ScheduleAccepts(iv, |tensor|) && Representable(iv, tensor)
    requires |tensor| * ov.elementCount <= SIZE_MAX
    requires CarriesTensor(iv, tensor, frames)
    ensures var s := CompactSetup(ov, |tensor|);
            DecodeAll(s, false, Store(Zeros(s.capacity), []), frames) ==
            (Store(Expected(iv, tensor), []), CodecOk)
  {
    hide FrameEffect, EncodeRow, VisitEntry, DecodeAll, ScheduleAccepts, Expected, IsDataWork, Matched;
    MatchedDtype(iv, ov, |tensor|);
    var s, target := CompactSetup(ov, |tensor|), Expected(iv, tensor);
    forall f | f in frames
      ensures FrameEffect(s, false, f) == Ignore || WritesTarget(s, f, target)
    {
      OnlyDataCounts(s, f);
      if IsDataWork(f) {
        EncodedFrameWrites(iv, ov, tensor, f);
      }
    }
    var zeros := Store(Zeros(s.capacity), []);
    AgreeingWrites(s, zeros, frames, target);
    forall k | 0 <= k < |target| && target[k] != 0
      ensures exists f :: f in frames && FrameEffect(s, false, f) == PutByte(k, target[k])
    {
      var f := NonzeroCellIsSent(iv, ov, tensor, k);
      OnlyDataCounts(s, f);
    }
    assert DecodeAll(s, false, zeros, frames).0.mem == target;
  }

  lemma ExpectedAt(iv: InputView, tensor: seq<seq<u8>>, t: nat, elem: nat)
    requires WellShaped(iv, tensor) && t < |tensor| && elem < iv.elementCount
    ensures t * iv.elementCount + elem < |Expected(iv, tensor)|
    ensures Expected(iv, tensor)[t * iv.elementCount + elem] == if Mapped(iv, elem) then tensor[t][elem] else 0
  {
    CellInverse(t, elem, |tensor|, iv.elementCount);
  }

  /** Every transmitted frame writes the expected value of some cell. */
  lemma EncodedFrameWrites(iv: InputView, ov: OutputView, tensor: seq<seq<u8>>, f: Frame)
    requires ValidInputView(iv) && ValidOutputView(ov) && Matched(iv, ov) && ov.kind == OUTPUT_DATA
    requires WellShaped(iv, tensor) && ScheduleAccepts(iv, |tensor|) && Representable(iv, tensor)
    requires |tensor| * ov.elementCount <= SIZE_MAX
    requires exists t :: 0 <= t < |tensor| && f in EncodeRow(iv, t, tensor[t], 0).frames
    ensures WritesTarget(CompactSetup(ov, |tensor|), f, Expected(iv, tensor))
  {
    hide FrameEffect, EncodeRow, VisitEntry, ScheduleAccepts, Expected;
    var t :| 0 <= t < |tensor| && f in EncodeRow(iv, t, tensor[t], 0).frames;
    RowEncodes(iv, |tensor|, t, tensor[t], 0);
    var i :| 0 <= i < |iv.entries| && VisitEntry(iv, t, tensor[t], i) == Emit(f);
    EmittedFrameDecodes(iv, ov, tensor, t, i, f);
    assert iv.entries[i] in iv.entries && Mapped(iv, iv.entries[i].elemIdx);
    ExpectedAt(iv, tensor, t, iv.entries[i].elemIdx);
  }

  /** Every cell that should be nonzero is written by a transmitted frame. */
  lemma NonzeroCellIsSent(iv: InputView, ov: OutputView, tensor: seq<seq<u8>>, k: nat) returns (f: Frame)
    requires ValidInputView(iv) && ValidOutputView(ov) && Matched(iv, ov) && ov.kind == OUTPUT_DATA
    requires WellShaped(iv, tensor) && ScheduleAccepts(iv, |tensor|) && Representable(iv, tensor)
    requires |tensor| * ov.elementCount <= SIZE_MAX
    requires k < |Expected(iv, tensor)| && Expected(iv, tensor)[k] != 0
    ensures exists t :: 0 <= t < |tensor| && f in EncodeRow(iv, t, tensor[t], 0).frames
    ensures FrameEffect(CompactSetup(ov, |tensor|), false, f) == PutByte(k, Expected(iv, tensor)[k])
  {
    hide FrameEffect, EncodeRow, VisitEntry, ScheduleAccepts, Expected;
    var n: nat := iv.elementCount;
    var t, elem := SplitCell(k, |tensor|, n);
    ExpectedAt(iv, tensor, t, elem);
    var e :| e in iv.entries && e.elemIdx == elem;
    var i :| 0 <= i < |iv.entries| && iv.entries[i] == e;
    RowEncodes(iv, |tensor|, t, tensor[t], 0);
    RepresentableVisit(iv, |tensor|, t, tensor[t], i);
    f := VisitEntry(iv, t, tensor[t], i).frame;
    EmittedFrameDecodes(iv, ov, tensor, t, i, f);
  }

  /** The law in any cleared window, with any stride: the cells hold the tensor, and nothing else changes. */
  lemma WindowLoopback(iv: InputView, s: Setup, tensor: seq<seq<u8>>, st: Store, frames: seq<Frame>)
    requires DataWindow(s) && Fits(s, st) && s.timesteps == |tensor|
    requires ValidInputView(iv) && Matched(iv, s.view) && ScheduleAccepts(iv, |tensor|)
    requires WellShaped(iv, tensor) && Representable(iv, tensor) && CarriesTensor(iv, tensor, frames)
    requires Gathered(s, st.mem) == Zeros(TensorBytes(s))
    ensures var r := DecodeAll(s, false, st, frames);
            && r.1 == CodecOk && Gathered(s, r.0.mem) == Expected(iv, tensor)
            && SameOutsideRows(s, s.timesteps, st.mem, r.0.mem)
  {
    hide RowsFit, DecodeAll, Representable, CarriesTensor, Matched, Expected, ScheduleAccepts, Gathered, SameOutsideRows, CompactSetup;
    WindowView(s);
    SizeOfTensor(s);
    LoopbackRoundTrip(iv, s.view, tensor, frames);
    DecodeGathered(s, st, frames);
  }

  lemma WindowView(s: Setup)
    requires RowsFit(s)
    ensures ValidOutputView(s.view)
  {
  }

  /**
   The same law for the public batch decoder on any buffer large enough, anywhere in memory and
   whatever it held: the tensor is what was encoded, and no byte outside it changes.
   */
  lemma BatchLoopback(iv: InputView, ov: OutputView, timing: Timing, tensor: seq<seq<u8>>,
                      base: nat, size: nat, mem: seq<u8>, frames: seq<Frame>)
    requires ValidInputView(iv) && ValidOutputView(ov) && Matched(iv, ov) && ov.kind == OUTPUT_DATA
    requires WellShaped(iv, tensor) && ScheduleAccepts(iv, |tensor|) && Representable(iv, tensor)
    requires CarriesTensor(iv, tensor, frames)
    requires timing.timesteps == |tensor| && base + size <= |mem| && size <= SIZE_MAX
    requires BatchCheck(ov, timing, size) == CodecOk
    ensures 0 <= |tensor| * ov.elementCount <= size
    ensures var r, bytes := Batch(ov, timing, base, size, mem, frames), |tensor| * ov.elementCount;
            && r.1 == CodecOk && |r.0| == |mem| && r.0[base..base + bytes] == Expected(iv, tensor)
            && forall a :: 0 <= a < |mem| && !(base <= a < base + bytes) ==> r.0[a] == mem[a]
  {
    hide RowsFit, DecodeAll, Representable, CarriesTensor, Matched, Expected, ScheduleAccepts, BatchCheck, TensorBytes;
    var s := BatchSetup(ov, timing, base, size);
    BatchWindow(ov, timing, base, size);
    var bytes: nat := |tensor| * ov.elementCount;
    var cleared := Zeroed(mem, base, bytes);
    CompactGather(s, cleared);
    assert Gathered(s, cleared) == Zeros(bytes);
    WindowLoopback(iv, s, tensor, Store(cleared, []), frames);
    var end := DecodeAll(s, false, Store(cleared, []), frames).0.mem;
    CompactGather(s, end);
    forall a | 0 <= a < |mem| && !(base <= a < base + bytes)
      ensures end[a] == mem[a]
    {
      if InRows(s, s.timesteps, a) {
        RowsBelow(s, s.timesteps, a);
      }
    }
  }

  // -------------------------------------------------- from the artifact

  /** Two mappings of an artifact describe the same wires. */
  ghost predicate SameWires(im: InputMapping, om: OutputMapping, targetLcn: u32) {
    && ShapeFits(im.shape) && ShapeFits(om.shape) && NumElements(im.shape) == NumElements(om.shape)
    && om.kind == OUTPUT_DATA
    && forall e :: e in im.entries ==>
         e.targetLcn == targetLcn &&
         exists o :: o in om.entries && o.axonBitIdx == EntryKey(e) && o.elemIdx == e.elemIdx && o.dtype == e.dtype
  }

  /** A view has one dtype, that of the mapping's first entry; every entry must be readable under it. */
  ghost predicate OneDtype(om: OutputMapping) {
    forall o :: o in om.entries ==> Interchangeable(o.dtype, om.entries[0].dtype)
  }

  /** Views of mappings that describe the same wires match. */
  lemma MappingsMatch(im: InputMapping, om: OutputMapping, targetLcn: u32)
    requires SameWires(im, om, targetLcn) && OneDtype(om)
    ensures Matched(InputViewOf(im), OutputViewOf(om, targetLcn))
  {
    var ov := OutputViewOf(om, targetLcn);
    forall e | e in im.entries
      ensures MatchedEntry(e, ov)
    {
      var o :| o in om.entries && o.axonBitIdx == EntryKey(e) && o.elemIdx == e.elemIdx && o.dtype == e.dtype;
      assert o in ov.entries;
    }
  }

  /**
   The law from the artifact: for two mappings of a validated thread that describe the same wires, the
   views handed out encode and decode to the same tensor.
   */
  lemma ArtifactLoopback(thread: Thread, i: nat, o: nat, tensor: seq<seq<u8>>, frames: seq<Frame>)
    requires ValidThread(thread) && i < |thread.inputs| && o < |thread.outputs|
    requires SameWires(thread.inputs[i], thread.outputs[o], thread.targetLcn) && OneDtype(thread.outputs[o])
    ensures ValidInputView(InputViewOf(thread.inputs[i])) && InputViewOf(thread.inputs[i]).elementCount > 0
    ensures var iv, ov := InputViewOf(thread.inputs[i]), OutputViewOf(thread.outputs[o], thread.targetLcn);
            WellShaped(iv, tensor) && ScheduleAccepts(iv, |tensor|) && Representable(iv, tensor) &&
            |tensor| * ov.elementCount <= SIZE_MAX && CarriesTensor(iv, tensor, frames) ==>
              DecodeAll(CompactSetup(ov, |tensor|), false, Store(Zeros(CompactSetup(ov, |tensor|).capacity), []), frames) ==
              (Store(Expected(iv, tensor), []), CodecOk)
  {
    hide Matched, OneDtype, DecodeAll, Expected, ScheduleAccepts, Representable, CarriesTensor, ValidInputView, ValidOutputView;
    ValidatedViews([thread], 0, i, o);
    ProductPositive(thread.inputs[i].shape);
    MappingsMatch(thread.inputs[i], thread.outputs[o], thread.targetLcn);
    var iv, ov := InputViewOf(thread.inputs[i]), OutputViewOf(thread.outputs[o], thread.targetLcn);
    if WellShaped(iv, tensor) && ScheduleAccepts(iv, |tensor|) && Representable(iv, tensor) &&
       |tensor| * ov.elementCount <= SIZE_MAX && CarriesTensor(iv, tensor, frames) {
      LoopbackRoundTrip(iv, ov, tensor, frames);
    }
  }

  // -------------------------------------------------- any chunking, any capacity

  /** The frames sent for rows 0..t when every row is sent with the given workspace capacity. */
  function SentRows(iv: InputView, tensor: seq<seq<u8>>, t: nat, capacity: nat): seq<Frame>
    requires t <= |tensor| && capacity > 0
  {
    if t == 0 then []
    else SentRows(iv, tensor, t - 1, capacity) + SendChunks(iv, t - 1, tensor[t - 1], 0, capacity).frames
  }

  lemma {:induction false} SentRowsContent(iv: InputView, timesteps: nat, tensor: seq<seq<u8>>, t: nat, capacity: nat)
    requires ValidInputView(iv) && WellShaped(iv, tensor) && ScheduleAccepts(iv, timesteps) && Representable(iv, tensor)
    requires t <= |tensor| && capacity > 0
    ensures forall f :: f in SentRows(iv, tensor, t, capacity) <==>
                        exists r :: 0 <= r < t && f in EncodeRow(iv, r, tensor[r], 0).frames
  {
    hide EncodeRow, SendChunks, VisitEntry, ScheduleAccepts, ElementFits;
    if t > 0 {
      SentRowsContent(iv, timesteps, tensor, t - 1, capacity);
      RowEncodes(iv, timesteps, t - 1, tensor[t - 1], 0);
      ChunkingInvisible(iv, t - 1, tensor[t - 1], 0, capacity);
    }
  }

  /** The law for a real transmission: chunked through any workspace, received in order. */
  lemma ChunkedLoopback(iv: InputView, ov: OutputView, tensor: seq<seq<u8>>, capacity: nat)
    requires ValidInputView(iv) && ValidOutputView(ov) && Matched(iv, ov) && ov.kind == OUTPUT_DATA
    requires WellShaped(iv, tensor) && ScheduleAccepts(iv, |tensor|) && Representable(iv, tensor)
    requires |tensor| * ov.elementCount <= SIZE_MAX && capacity > 0
    ensures var s := CompactSetup(ov, |tensor|);
            DecodeAll(s, false, Store(Zeros(s.capacity), []), SentRows(iv, tensor, |tensor|, capacity)) ==
            (Store(Expected(iv, tensor), []), CodecOk)
  {
    SentRowsContent(iv, |tensor|, tensor, |tensor|, capacity);
    LoopbackRoundTrip(iv, ov, tensor, SentRows(iv, tensor, |tensor|, capacity));
  }
}
