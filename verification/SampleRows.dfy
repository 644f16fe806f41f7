/**
 The output side of a sample on values: each row is cleared once, right before the barrier that may
 first write it. Decoding incrementally like this is proved equal to clearing first and decoding the
 concatenation of everything received.
 */
module SampleRows {
  import opened Bits
  import opened Artifact
  import opened FrameCodec
  import opened OutputDecoder
  import opened FrameHandlers

  /** Address a belongs to the bytes of output row r. */
  predicate InRow(s: Setup, r: nat, a: int) {
    0 <= a - (s.base + r * s.stride) < RowBytes(s.view)
  }

  /** Address a belongs to one of the first n output rows; gaps between rows belong to none. */
  ghost predicate InRows(s: Setup, n: nat, a: int) {
    exists r :: 0 <= r < n && InRow(s, r, a)
  }

  ghost predicate SameOutsideRows(s: Setup, n: nat, before: seq<u8>, after: seq<u8>) {
    |before| == |after| && forall a :: 0 <= a < |before| && !InRows(s, n, a) ==> after[a] == before[a]
  }

  lemma RowFits(s: Setup, r: nat)
    requires RowsFit(s) && r < s.timesteps
    ensures 0 <= r * s.stride && r * s.stride + RowBytes(s.view) <= s.capacity && RowBytes(s.view) > 0
    ensures (r + 1) * s.stride == r * s.stride + s.stride
  {
    MulMono(r, s.timesteps - 1, s.stride);
    MulMono(0, r, s.stride);
  }

  /** Every address of the first n rows lies below row n. */
  lemma RowsBelow(s: Setup, n: nat, a: int)
    requires RowsFit(s) && InRows(s, n, a)
    ensures s.base <= a < s.base + n * s.stride
  {
    var r :| 0 <= r < n && InRow(s, r, a);
    MulMono(r + 1, n, s.stride);
    MulMono(0, r, s.stride);
    assert (r + 1) * s.stride == r * s.stride + s.stride;
  }

  function ClearRow(s: Setup, st: Store, r: nat): (c: Store)
    requires RowsFit(s) && Fits(s, st) && r < s.timesteps
    ensures Fits(s, c) && |c.mem| == |st.mem|
  {
    RowFits(s, r);
    st.(mem := Zeroed(st.mem, s.base + r * s.stride, RowBytes(s.view)))
  }

  lemma ClearRowIs(s: Setup, st: Store, r: nat)
    requires RowsFit(s) && Fits(s, st) && r < s.timesteps
    ensures 0 <= r * s.stride && s.base + r * s.stride + RowBytes(s.view) <= |st.mem|
    ensures ClearRow(s, st, r) == Store(Zeroed(st.mem, s.base + r * s.stride, RowBytes(s.view)), st.lanes)
  {
    RowFits(s, r);
  }

  /**
   The output side of the barriers received so far. Barrier n belongs to timestep n and clears that
   row first; a barrier after the last timestep only collects.
   */
  function RunRows(layout: Layout, s: Setup, st: Store, received: seq<seq<Frame>>): (r: (Store, SessionStatus))
    requires RowsFit(s) && Fits(s, st)
    ensures Fits(s, r.0) && |r.0.mem| == |st.mem|
    decreases |received|
  {
    if received == [] then (st, SessionOk)
    else
      var n := |received| - 1;
      var before := RunRows(layout, s, st, received[..n]);
      if before.1 != SessionOk then before
      else if n < s.timesteps then Feed(layout, s, n + 1, ClearRow(s, before.0, n), received[n])
      else Feed(layout, s, s.timesteps, before.0, received[n])
  }

  // ------------------------------------------------- frames write only submitted rows

  ghost predicate WordInRows(s: Setup, n: nat, at: int) {
    InRows(s, n, at) && InRows(s, n, at + 1) && InRows(s, n, at + 2) && InRows(s, n, at + 3)
  }

  /** Everything an effect writes lies in one of the first n rows. */
  ghost predicate WritesRows(s: Setup, n: nat, e: Effect) {
    match e
    case PutByte(index, _) => InRows(s, n, s.base + index)
    case PutLane(slot, _, _, _) => WordInRows(s, n, s.base + 4 * slot)
    case _ => true
  }

  lemma FrameWritesSubmitted(layout: Layout, s: Setup, submitted: nat, frame: Frame)
    requires RowsFit(s) && LayoutSound(s.view, layout) && submitted <= s.timesteps
    ensures WritesRows(s, submitted, HandlerEffect(layout, s, submitted, frame))
  {
    hide Pow2, BitOr, EncodedTimestep, OutputFrameAddress, Find, HandlerEffect, IsDataWork, IsVoltageWork, RowsFit, LayoutSound;
    Strided(s);
    if OtherKind(layout, frame) {
      OtherKindIgnored(layout, s, submitted, frame);
    } else {
      FastDataRefinesIf(layout, s, submitted, frame);
      GenericWritesSubmitted(s, submitted, frame);
    }
  }

  lemma OtherKindIgnored(layout: Layout, s: Setup, submitted: nat, frame: Frame)
    requires s.stride > 0 && OtherKind(layout, frame)
    ensures HandlerEffect(layout, s, submitted, frame) == Ignore
  {
    hide OutputFrameAddress;
    KindsPartition(frame);
  }

  lemma GenericWritesSubmitted(s: Setup, submitted: nat, frame: Frame)
    requires RowsFit(s) && submitted <= s.timesteps
    ensures WritesRows(s, submitted, HandlerEffect(GenericLayout, s, submitted, frame))
  {
    hide OutputFrameAddress, DataEffect, VoltageEffect, IsDataWork, IsVoltageWork;
    KindsPartition(frame);
    if s.view.kind == OUTPUT_DATA && DtypeInfo(s.view.dtype).Some? {
      DtypeWidths(s.view.dtype);
      DataCell(s, DtypeInfo(s.view.dtype).value, frame);
    } else {
      VoltageCell(s, frame);
      var e := HandlerEffect(GenericLayout, s, submitted, frame);
      if e.PutLane? {
        assert e == VoltageEffect(s, frame);
        assert IsWork(frame) by {
          LaneNeedsVoltage(s, frame);
        }
      }
    }
  }

  lemma LaneNeedsVoltage(s: Setup, frame: Frame)
    ensures VoltageEffect(s, frame).PutLane? ==> IsVoltageWork(frame)
  {
    hide OutputFrameAddress;
  }

  /** A decoded DATA byte lies in the row of its own timestep. */
  lemma DataCell(s: Setup, d: Dtype, frame: Frame)
    requires RowsFit(s) && s.view.kind == OUTPUT_DATA && 1 <= d.bits <= 8
    ensures var e, address := DataEffect(s, d, frame), OutputFrameAddress(s.view.targetLcn, frame);
            && !e.PutLane?
            && (e.PutByte? ==> address.Some? && InRow(s, address.value.timestep, s.base + e.index))
  {
    hide OutputFrameAddress, Find, DecodePayload, Pow2;
    var e := DataEffect(s, d, frame);
    if e.PutByte? {
      FindSound(s.view.entries, OutputFrameAddress(s.view.targetLcn, frame).value.axonBitIdx);
    }
  }

  /** So does a decoded VOLTAGE word. */
  lemma VoltageCell(s: Setup, frame: Frame)
    requires RowsFit(s)
    ensures var e, address := VoltageEffect(s, frame), OutputFrameAddress(s.view.targetLcn, frame);
            && !e.PutByte?
            && (e.PutLane? ==> address.Some? && WordInRow(s, address.value.timestep, s.base + 4 * e.slot))
  {
    hide OutputFrameAddress, Find, IsVoltageWork, LaneBase, Cell, WordInRow;
    var e := VoltageEffect(s, frame);
    if e.PutLane? {
      var address := OutputFrameAddress(s.view.targetLcn, frame).value;
      var key := LaneBase(address.axonBitIdx);
      FindSound(s.view.entries, key);
      ElementWord(s, address.timestep, Find(s.view.entries, key).value.elemIdx, e.slot);
    }
  }

  predicate WordInRow(s: Setup, r: nat, at: int) {
    InRow(s, r, at) && InRow(s, r, at + 1) && InRow(s, r, at + 2) && InRow(s, r, at + 3)
  }

  lemma ElementWord(s: Setup, row: nat, elem: nat, slot: nat)
    requires s.stride % 4 == 0 && s.view.kind == OUTPUT_VOLTAGE && elem < s.view.elementCount
    requires slot == Cell(row, s.stride / 4, elem)
    ensures WordInRow(s, row, s.base + 4 * slot)
  {
    WordCell(row, s.stride, elem);
  }

  lemma WordCell(row: nat, stride: nat, elem: nat)
    requires stride % 4 == 0
    ensures 4 * Cell(row, stride / 4, elem) == row * stride + 4 * elem
  {
    assert row * stride == 4 * (row * (stride / 4));
  }

  lemma ApplyStays(s: Setup, n: nat, st: Store, e: Effect)
    requires Fits(s, st) && InWindow(s, e) && WritesRows(s, n, e)
    ensures SameOutsideRows(s, n, st.mem, Apply(s, st, e).0.mem)
  {
    hide InRows, OrBytes, HasLane, LaneBit;
    if e.PutLane? {
      var at := s.base + 4 * e.slot;
      assert WordInRows(s, n, at);
    }
  }

  /** Whatever the hardware delivers, a barrier writes only bytes of rows already submitted. */
  lemma {:induction false} FeedStays(layout: Layout, s: Setup, submitted: nat, st: Store, frames: seq<Frame>)
    requires RowsFit(s) && Fits(s, st) && LayoutSound(s.view, layout) && submitted <= s.timesteps
    ensures SameOutsideRows(s, submitted, st.mem, Feed(layout, s, submitted, st, frames).0.mem)
    decreases |frames|
  {
    hide HandlerEffect, Apply, LayoutSound, InRows, WritesRows;
    if frames != [] {
      HandlerInWindow(layout, s, submitted, frames[0]);
      FrameWritesSubmitted(layout, s, submitted, frames[0]);
      ApplyStays(s, submitted, st, HandlerEffect(layout, s, submitted, frames[0]));
      FeedStays(layout, s, submitted, Handle(layout, s, submitted, st, frames[0]).0, frames[1..]);
    }
  }

  lemma ClearStays(s: Setup, st: Store, r: nat)
    requires RowsFit(s) && Fits(s, st) && r < s.timesteps
    ensures SameOutsideRows(s, r + 1, st.mem, ClearRow(s, st, r).mem)
  {
    RowFits(s, r);
    forall a | 0 <= a < |st.mem| && !InRows(s, r + 1, a)
      ensures ClearRow(s, st, r).mem[a] == st.mem[a]
    {
      assert !InRow(s, r, a);
    }
  }

  lemma NothingChanged(s: Setup, n: nat, mem: seq<u8>)
    ensures SameOutsideRows(s, n, mem, mem)
  {
  }

  lemma WidenRows(s: Setup, n: nat, m: nat, before: seq<u8>, after: seq<u8>)
    requires SameOutsideRows(s, n, before, after) && n <= m
    ensures SameOutsideRows(s, m, before, after)
  {
    forall a | 0 <= a < |before| && !InRows(s, m, a)
      ensures after[a] == before[a]
    {
      assert !InRows(s, n, a);
    }
  }

  function Least(a: nat, b: nat): nat { if a <= b then a else b }

  /** Over a whole run, only bytes of submitted rows ever change: never a gap, never past the last row. */
  lemma {:induction false} RunRowsStays(layout: Layout, s: Setup, st: Store, received: seq<seq<Frame>>)
    requires RowsFit(s) && Fits(s, st) && LayoutSound(s.view, layout)
    ensures SameOutsideRows(s, Least(|received|, s.timesteps), st.mem, RunRows(layout, s, st, received).0.mem)
    decreases |received|
  {
    hide RowsFit, LayoutSound, InRows, Feed, ClearRow;
    if received != [] {
      var n := |received| - 1;
      RunRowsStays(layout, s, st, received[..n]);
      var before := RunRows(layout, s, st, received[..n]);
      var now := Least(n + 1, s.timesteps);
      WidenRows(s, Least(n, s.timesteps), now, st.mem, before.0.mem);
      if before.1 == SessionOk {
        if n < s.timesteps {
          ClearStays(s, before.0, n);
          FeedStays(layout, s, n + 1, ClearRow(s, before.0, n), received[n]);
        } else {
          FeedStays(layout, s, s.timesteps, before.0, received[n]);
        }
      }
    }
  }

  // ---------------------------------------------------------- clear-first equivalence

  /** Clear rows k and up. */
  function ClearFrom(s: Setup, st: Store, k: nat): (c: Store)
    requires RowsFit(s) && Fits(s, st) && k <= s.timesteps
    ensures Fits(s, c) && |c.mem| == |st.mem|
    decreases s.timesteps - k
  {
    if k == s.timesteps then st else ClearFrom(s, ClearRow(s, st, k), k + 1)
  }

  /** Clearing a row commutes with writes into earlier rows. */
  lemma ClearRowCommutes(s: Setup, st: Store, k: nat, e: Effect)
    requires RowsFit(s) && Fits(s, st) && k < s.timesteps && InWindow(s, e) && WritesRows(s, k, e)
    ensures Apply(s, ClearRow(s, st, k), e) == (ClearRow(s, Apply(s, st, e).0, k), Apply(s, st, e).1)
  {
    hide InRows, OrBytes, HasLane, LaneBit, RowsFit, ClearRow, Zeroed, StoreLane;
    var n, from := RowBytes(s.view), s.base + Bytes(k, s.stride);
    ClearRowIs(s, st, k);
    ClearRowIs(s, Apply(s, st, e).0, k);
    match e
    case PutByte(index, value) =>
      RowsBelow(s, k, s.base + index);
      ByteBelow(st.mem, s.base + index, value, from, n);
    case PutLane(slot, state, lane, payload) =>
      var at := s.base + 4 * slot;
      assert WordInRows(s, k, at);
      RowsBelow(s, k, at);
      RowsBelow(s, k, at + 3);
      StoreLaneBelow(st, at, state, lane, payload, from, n);
    case _ =>
  }

  lemma ByteBelow(mem: seq<u8>, at: nat, value: u8, from: nat, count: nat)
    requires at < from && from + count <= |mem|
    ensures Zeroed(mem, from, count)[at := value] == Zeroed(mem[at := value], from, count)
  {
  }

  lemma StoreLaneBelow(st: Store, at: nat, state: nat, lane: nat, payload: u8, from: nat, count: nat)
    requires at + 4 <= from && from + count <= |st.mem| && state < |st.lanes| && lane < 4
    ensures var r := StoreLane(st, at, state, lane, payload);
            StoreLane(st.(mem := Zeroed(st.mem, from, count)), at, state, lane, payload) ==
            (r.0.(mem := Zeroed(r.0.mem, from, count)), r.1)
  {
    hide OrBytes, HasLane, LaneBit;
    var r, z := StoreLane(st, at, state, lane, payload), StoreLane(st.(mem := Zeroed(st.mem, from, count)), at, state, lane, payload);
    assert z.0.mem == Zeroed(r.0.mem, from, count);
  }

  lemma {:induction false} ClearFromCommutes(s: Setup, st: Store, n: nat, k: nat, e: Effect)
    requires RowsFit(s) && Fits(s, st) && n <= k <= s.timesteps && InWindow(s, e) && WritesRows(s, n, e)
    ensures Apply(s, ClearFrom(s, st, k), e) == (ClearFrom(s, Apply(s, st, e).0, k), Apply(s, st, e).1)
    decreases s.timesteps - k
  {
    hide Apply, RowsFit, ClearRow;
    if k < s.timesteps {
      WidenWrites(s, n, k, e);
      ClearRowCommutes(s, st, k, e);
      ClearFromCommutes(s, ClearRow(s, st, k), n, k + 1, e);
    }
  }

  lemma WidenWrites(s: Setup, n: nat, m: nat, e: Effect)
    requires WritesRows(s, n, e) && n <= m
    ensures WritesRows(s, m, e)
  {
  }

  /** A call that succeeds does what the generic codec does, with no notion of submitted rows. */
  lemma AcceptedIsDecode(layout: Layout, s: Setup, submitted: nat, st: Store, frame: Frame)
    requires RowsFit(s) && Fits(s, st) && LayoutSound(s.view, layout) && submitted <= s.timesteps
    requires Handle(layout, s, submitted, st, frame).1 == SessionOk
    ensures InWindow(s, FrameEffect(s, true, frame))
    ensures Apply(s, st, FrameEffect(s, true, frame)) == (Handle(layout, s, submitted, st, frame).0, CodecOk)
  {
    hide OutputFrameAddress, Find, IsDataWork, IsVoltageWork, Apply, InWindow, RowsFit;
    Strided(s);
    EffectsInWindow(s, true, frame);
    KindsPartition(frame);
    HandlerInWindow(layout, s, submitted, frame);
    if OtherKind(layout, frame) {
      OtherKindIgnored(layout, s, submitted, frame);
      OtherKindIgnoredByCodec(layout, s, frame);
    } else {
      FastDataRefinesIf(layout, s, submitted, frame);
      HandlerInWindow(GenericLayout, s, submitted, frame);
      RejectFails(s, st, CodecOutOfRange);
    }
  }

  lemma RejectFails(s: Setup, st: Store, error: CodecStatus)
    requires Fits(s, st)
    ensures Apply(s, st, Reject(error)) == (st, error)
    ensures Apply(s, st, Ignore) == (st, CodecOk)
  {
  }

  lemma OtherKindIgnoredByCodec(layout: Layout, s: Setup, frame: Frame)
    requires RowsFit(s) && LayoutSound(s.view, layout) && OtherKind(layout, frame)
    ensures FrameEffect(s, true, frame) == Ignore
  {
    hide OutputFrameAddress, Find;
    KindsPartition(frame);
  }

  /** A successful barrier over cleared later rows: clearing commutes, and the codec agrees. */
  lemma {:induction false} FeedIsDecode(layout: Layout, s: Setup, submitted: nat, k: nat, st: Store, frames: seq<Frame>)
    requires RowsFit(s) && Fits(s, st) && LayoutSound(s.view, layout) && submitted <= k <= s.timesteps
    requires Feed(layout, s, submitted, st, frames).1 == SessionOk
    ensures DecodeAll(s, true, ClearFrom(s, st, k), frames) ==
            (ClearFrom(s, Feed(layout, s, submitted, st, frames).0, k), CodecOk)
    decreases |frames|
  {
    hide FrameEffect, Apply, RowsFit, LayoutSound, ClearFrom, WritesRows, Handle, InWindow;
    Strided(s);
    if frames != [] {
      var next := Handle(layout, s, submitted, st, frames[0]);
      AcceptedIsDecode(layout, s, submitted, st, frames[0]);
      AcceptedWrites(layout, s, submitted, st, frames[0]);
      EffectsInWindow(s, true, frames[0]);
      ClearFromCommutes(s, st, submitted, k, FrameEffect(s, true, frames[0]));
      FeedIsDecode(layout, s, submitted, k, next.0, frames[1..]);
    }
  }

  /** One handler call, whatever the layout: late work of its own kind is refused, the rest is the codec's. */
  lemma HandleIs(layout: Layout, s: Setup, submitted: nat, st: Store, frame: Frame)
    requires RowsFit(s) && Fits(s, st) && LayoutSound(s.view, layout) && submitted <= s.timesteps
    ensures InWindow(s, FrameEffect(s, true, frame))
    ensures var r := Apply(s, st, FrameEffect(s, true, frame));
            Handle(layout, s, submitted, st, frame) ==
            if LateWork(s.view, submitted, frame) && !OtherKind(layout, frame) then (st, SessionRuntimeError)
            else (r.0, if r.1 == CodecOk then SessionOk else SessionRuntimeError)
  {
    hide OutputFrameAddress, Find, IsDataWork, IsVoltageWork, Apply, InWindow, RowsFit;
    Strided(s);
    EffectsInWindow(s, true, frame);
    KindsPartition(frame);
    HandlerInWindow(layout, s, submitted, frame);
    HandlerInWindow(GenericLayout, s, submitted, frame);
    RejectFails(s, st, CodecOutOfRange);
    if OtherKind(layout, frame) {
      OtherKindIgnored(layout, s, submitted, frame);
      OtherKindIgnoredByCodec(layout, s, frame);
    } else {
      FastDataRefinesIf(layout, s, submitted, frame);
    }
  }

  /** A barrier's frames are all taken exactly if none is late work of the handler's kind and the codec takes them. */
  lemma {:induction false} FeedSucceedsIff(layout: Layout, s: Setup, submitted: nat, st: Store, frames: seq<Frame>)
    requires RowsFit(s) && Fits(s, st) && LayoutSound(s.view, layout) && submitted <= s.timesteps
    ensures Feed(layout, s, submitted, st, frames).1 == SessionOk <==>
            && (forall f :: f in frames && LateWork(s.view, submitted, f) ==> OtherKind(layout, f))
            && DecodeAll(s, true, st, frames).1 == CodecOk
    ensures Feed(layout, s, submitted, st, frames).1 == SessionOk ==>
              Feed(layout, s, submitted, st, frames).0 == DecodeAll(s, true, st, frames).0
    decreases |frames|
  {
    hide FrameEffect, Apply, RowsFit, LayoutSound, Handle, InWindow, LateWork, OtherKind;
    Strided(s);
    if frames != [] {
      assert frames[0] in frames && forall f :: f in frames <==> f == frames[0] || f in frames[1..];
      HandleIs(layout, s, submitted, st, frames[0]);
      EffectsInWindow(s, true, frames[0]);
      var next := Handle(layout, s, submitted, st, frames[0]);
      if next.1 == SessionOk {
        FeedSucceedsIff(layout, s, submitted, next.0, frames[1..]);
      }
    }
  }

  /** The work frames a handler refuses when they are late: those of its own kind, and for the generic handler both kinds. */
  predicate Refusable(layout: Layout, frame: Frame) {
    (IsDataWork(frame) && layout != FastVoltage) || (IsVoltageWork(frame) && layout != FastData)
  }

  /** No frame the handler looks at is for a timestep that has not been submitted. */
  ghost predicate InTime(layout: Layout, view: OutputView, submitted: nat, frames: seq<Frame>) {
    forall f :: f in frames && Refusable(layout, f) ==> Shr(EncodedTimestep(f), view.targetLcn) < submitted
  }

  lemma InTimeMeaning(layout: Layout, view: OutputView, submitted: nat, frames: seq<Frame>)
    requires view.targetLcn <= TARGET_LCN_MAX
    ensures InTime(layout, view, submitted, frames) <==>
            forall f :: f in frames && LateWork(view, submitted, f) ==> OtherKind(layout, f)
  {
    hide EncodedTimestep, Shr, IsWork, WorkKind, LateWork;
    forall f | f in frames
      ensures (LateWork(view, submitted, f) ==> OtherKind(layout, f)) <==>
              (Refusable(layout, f) ==> Shr(EncodedTimestep(f), view.targetLcn) < submitted)
    {
      LateMeaning(view, submitted, f);
      KindsPartition(f);
    }
  }

  lemma AcceptedWrites(layout: Layout, s: Setup, submitted: nat, st: Store, frame: Frame)
    requires RowsFit(s) && Fits(s, st) && LayoutSound(s.view, layout) && submitted <= s.timesteps
    requires Handle(layout, s, submitted, st, frame).1 == SessionOk
    ensures WritesRows(s, submitted, FrameEffect(s, true, frame))
  {
    hide OutputFrameAddress, Find, IsDataWork, IsVoltageWork, RowsFit, InRows, Apply, FrameEffect, LayoutSound, InWindow;
    Strided(s);
    if OtherKind(layout, frame) {
      OtherKindIgnoredByCodec(layout, s, frame);
    } else {
      FastDataRefinesIf(layout, s, submitted, frame);
      GenericWritesSubmitted(s, submitted, frame);
      HandlerInWindow(layout, s, submitted, frame);
      HandlerInWindow(GenericLayout, s, submitted, frame);
      RejectFails(s, st, CodecOutOfRange);
    }
  }

  function Concat(received: seq<seq<Frame>>): seq<Frame> {
    if received == [] then [] else Concat(received[..|received| - 1]) + received[|received| - 1]
  }

  /**
   Clearing each row just in time equals clearing every row first and decoding all the frames of all
   barriers in one go: no row is cleared twice, and none is cleared after a frame could have written it.
   */
  lemma {:induction false} IncrementalIsClearFirst(layout: Layout, s: Setup, st: Store, received: seq<seq<Frame>>)
    requires RowsFit(s) && Fits(s, st) && LayoutSound(s.view, layout)
    requires RunRows(layout, s, st, received).1 == SessionOk
    ensures DecodeAll(s, true, ClearFrom(s, st, 0), Concat(received)) ==
            (ClearFrom(s, RunRows(layout, s, st, received).0, Least(|received|, s.timesteps)), CodecOk)
    decreases |received|
  {
    hide RowsFit, LayoutSound, Feed, ClearRow, DecodeAll;
    if received != [] {
      var n := |received| - 1;
      var before := RunRows(layout, s, st, received[..n]).0;
      IncrementalIsClearFirst(layout, s, st, received[..n]);
      DecodeAppend(s, true, ClearFrom(s, st, 0), Concat(received[..n]), received[n]);
      if n < s.timesteps {
        FeedIsDecode(layout, s, n + 1, n + 1, ClearRow(s, before, n), received[n]);
      } else {
        FeedIsDecode(layout, s, s.timesteps, s.timesteps, before, received[n]);
      }
    } else {
      NothingDecoded(s, ClearFrom(s, st, 0));
    }
  }

  // ---------------------------------------------------------- when a run succeeds

  /** What a frame does to the lane state, and whether it fails, does not depend on the memory. */
  lemma LanesDecide(s: Setup, a: Store, b: Store, e: Effect)
    requires Fits(s, a) && Fits(s, b) && a.lanes == b.lanes && InWindow(s, e)
    ensures Apply(s, a, e).1 == Apply(s, b, e).1 && Apply(s, a, e).0.lanes == Apply(s, b, e).0.lanes
  {
    hide OrBytes, HasLane, LaneBit;
  }

  lemma {:induction false} StatusByLanes(s: Setup, a: Store, b: Store, frames: seq<Frame>)
    requires Fits(s, a) && Fits(s, b) && a.lanes == b.lanes
    ensures var x, y := DecodeAll(s, true, a, frames), DecodeAll(s, true, b, frames);
            x.1 == y.1 && x.0.lanes == y.0.lanes
    decreases |frames|
  {
    hide FrameEffect, Apply, InWindow;
    if frames != [] {
      var e := FrameEffect(s, true, frames[0]);
      EffectsInWindow(s, true, frames[0]);
      LanesDecide(s, a, b, e);
      if Apply(s, a, e).1 == CodecOk {
        StatusByLanes(s, Apply(s, a, e).0, Apply(s, b, e).0, frames[1..]);
      }
    }
  }

  /** Barrier n may carry work of the rows submitted by then, and of no later row. */
  ghost predicate RunInTime(layout: Layout, s: Setup, received: seq<seq<Frame>>) {
    forall n :: 0 <= n < |received| ==> InTime(layout, s.view, Least(n + 1, s.timesteps), received[n])
  }

  lemma InTimeOneMore(layout: Layout, s: Setup, received: seq<seq<Frame>>)
    requires |received| > 0
    ensures var n := |received| - 1;
            RunInTime(layout, s, received) <==>
            RunInTime(layout, s, received[..n]) && InTime(layout, s.view, Least(n + 1, s.timesteps), received[n])
  {
    hide InTime, Least;
    var n := |received| - 1;
    assert forall k :: 0 <= k < n ==> received[..n][k] == received[k];
  }

  /**
   The output side of a run succeeds exactly if no barrier carried work for a row that was not yet
   submitted and the codec takes all frames of all barriers at once.
   */
  lemma {:induction false} RunSucceedsIff(layout: Layout, s: Setup, st: Store, received: seq<seq<Frame>>)
    requires RowsFit(s) && Fits(s, st) && LayoutSound(s.view, layout)
    ensures var r, all := RunRows(layout, s, st, received), DecodeAll(s, true, st, Concat(received));
            && (r.1 == SessionOk <==> RunInTime(layout, s, received) && all.1 == CodecOk)
            && (r.1 == SessionOk ==> r.0.lanes == all.0.lanes)
    decreases |received|
  {
    hide RowsFit, LayoutSound, Feed, ClearRow, DecodeAll, RunInTime, InTime, LateWork, OtherKind;
    if received == [] {
      NothingDecoded(s, st);
      assert RunInTime(layout, s, received) by {
        NoBarriers(layout, s);
      }
    } else {
      var n := |received| - 1;
      RunSucceedsIff(layout, s, st, received[..n]);
      InTimeOneMore(layout, s, received);
      DecodeAppend(s, true, st, Concat(received[..n]), received[n]);
      var before, front := RunRows(layout, s, st, received[..n]), DecodeAll(s, true, st, Concat(received[..n])).0;
      if before.1 == SessionOk {
        var now, submitted := if n < s.timesteps then ClearRow(s, before.0, n) else before.0, Least(n + 1, s.timesteps);
        if n < s.timesteps {
          ClearRowIs(s, before.0, n);
        }
        FeedSucceedsIff(layout, s, submitted, now, received[n]);
        InTimeOf(layout, s, submitted, received[n]);
        StatusByLanes(s, now, front, received[n]);
      }
    }
  }

  lemma NoBarriers(layout: Layout, s: Setup)
    ensures RunInTime(layout, s, [])
  {
  }

  lemma InTimeOf(layout: Layout, s: Setup, submitted: nat, frames: seq<Frame>)
    requires RowsFit(s)
    ensures InTime(layout, s.view, submitted, frames) <==>
            forall f :: f in frames && LateWork(s.view, submitted, f) ==> OtherKind(layout, f)
  {
    hide InTime, LateWork, OtherKind;
    InTimeMeaning(layout, s.view, submitted, frames);
  }

  lemma NothingDecoded(s: Setup, st: Store)
    requires Fits(s, st)
    ensures DecodeAll(s, true, st, []) == (st, CodecOk)
  {
  }

  // -------------------------------------------------------------- equality with the batch decoder

  function Bytes(rows: nat, stride: nat): (n: nat)
    ensures n == rows * stride
  {
    MulMono(0, rows, stride);
    rows * stride
  }

  /** With compact rows, clearing row by row is one clear of the rest of the tensor. */
  lemma {:induction false} CompactClear(s: Setup, st: Store, k: nat)
    requires RowsFit(s) && Fits(s, st) && k <= s.timesteps && s.view.kind == OUTPUT_DATA && s.stride == s.view.elementCount
    ensures s.base + Bytes(k, s.stride) + Bytes(s.timesteps - k, s.stride) <= |st.mem|
    ensures ClearFrom(s, st, k) == st.(mem := Zeroed(st.mem, s.base + Bytes(k, s.stride), Bytes(s.timesteps - k, s.stride)))
    decreases s.timesteps - k
  {
    hide RowsFit, ClearRow, Bytes, Zeroed;
    CompactRows(s, k);
    if k < s.timesteps {
      CompactClear(s, ClearRow(s, st, k), k + 1);
      CompactRow(s, st, k);
      ZeroedTwice(st.mem, s.base + Bytes(k, s.stride), s.stride, Bytes(s.timesteps - (k + 1), s.stride));
    } else {
      ZeroedNothing(st.mem, s.base + Bytes(k, s.stride));
    }
  }

  lemma ZeroedNothing(mem: seq<u8>, from: nat)
    requires from <= |mem|
    ensures Zeroed(mem, from, 0) == mem
  {
  }

  lemma CompactRows(s: Setup, k: nat)
    requires RowsFit(s) && k <= s.timesteps && s.view.kind == OUTPUT_DATA && s.stride == s.view.elementCount
    ensures Bytes(k, s.stride) + Bytes(s.timesteps - k, s.stride) <= s.capacity
    ensures k < s.timesteps ==> Bytes(s.timesteps - k, s.stride) == s.stride + Bytes(s.timesteps - (k + 1), s.stride)
    ensures k < s.timesteps ==> Bytes(k + 1, s.stride) == Bytes(k, s.stride) + s.stride
    ensures Bytes(0, s.stride) == 0
  {
    var n, t := s.stride, s.timesteps;
    assert k * n + (t - k) * n == t * n == (t - 1) * n + n;
  }

  lemma CompactRow(s: Setup, st: Store, k: nat)
    requires RowsFit(s) && Fits(s, st) && k < s.timesteps && s.view.kind == OUTPUT_DATA && s.stride == s.view.elementCount
    ensures s.base + Bytes(k, s.stride) + s.stride <= |st.mem|
    ensures ClearRow(s, st, k) == st.(mem := Zeroed(st.mem, s.base + Bytes(k, s.stride), s.stride))
  {
    RowFits(s, k);
  }

  lemma ZeroedTwice(mem: seq<u8>, from: nat, first: nat, second: nat)
    requires from + first + second <= |mem|
    ensures Zeroed(Zeroed(mem, from, first), from + first, second) == Zeroed(mem, from, first + second)
  {
  }

  /** DATA decoding ignores the lane state. */
  lemma {:induction false} DataIgnoresLanes(s: Setup, st: Store, frames: seq<Frame>)
    requires Fits(s, st) && s.view.kind == OUTPUT_DATA
    ensures var r, plain := DecodeAll(s, true, st, frames), DecodeAll(s.(stateCount := 0), false, Store(st.mem, []), frames);
            r.0.mem == plain.0.mem && r.1 == plain.1
    decreases |frames|
  {
    hide OutputFrameAddress, Find, DecodePayload, IsDataWork, Cell;
    if frames != [] {
      EffectsInWindow(s, true, frames[0]);
      var next := Apply(s, st, FrameEffect(s, true, frames[0]));
      if next.1 == CodecOk {
        DataIgnoresLanes(s, next.0, frames[1..]);
      }
    }
  }

  /**
   Incremental equals batch. A successful DATA sample with compact rows leaves exactly the memory that
   the batch decoder leaves when it is given all frames of all barriers at once.
   */
  lemma IncrementalEqualsBatch(layout: Layout, s: Setup, timing: Timing, st: Store, received: seq<seq<Frame>>)
    requires RowsFit(s) && Fits(s, st) && LayoutSound(s.view, layout)
    requires s.view.kind == OUTPUT_DATA && s.stride == s.view.elementCount && DtypeInfo(s.view.dtype).Some?
    requires timing.timesteps == s.timesteps && TimingConsistent(timing) && timing.streamEncoding
    requires |received| >= s.timesteps && RunRows(layout, s, st, received).1 == SessionOk
    ensures Batch(s.view, timing, s.base, s.capacity, st.mem, Concat(received)) ==
            (RunRows(layout, s, st, received).0.mem, CodecOk)
  {
    hide DecodeAll, RunRows, LayoutSound;
    IncrementalIsClearFirst(layout, s, st, received);
    CompactClear(s, st, 0);
    DataIgnoresLanes(s, ClearFrom(s, st, 0), Concat(received));
    BatchAccepts(s, timing);
  }

  lemma BatchAccepts(s: Setup, timing: Timing)
    requires RowsFit(s) && s.view.kind == OUTPUT_DATA && s.stride == s.view.elementCount && DtypeInfo(s.view.dtype).Some?
    requires timing.timesteps == s.timesteps && TimingConsistent(timing) && timing.streamEncoding
    ensures BatchCheck(s.view, timing, s.capacity) == CodecOk
  {
    var n, t := s.view.elementCount as nat, s.timesteps;
    assert (t - 1) * n + n == t * n;
    AtMostQuotient(n, t, SIZE_MAX);
  }
}
