/**
 Scattering received work frames into an output tensor. A tensor lives in a window of one byte
 memory; an int32 VOLTAGE slot is its four little-endian bytes.
 */
module OutputDecoder {
  import opened Bits
  import opened Artifact
  import opened FrameCodec

  /** Where and how a sample is decoded: the window is mem[base..base + capacity]. */
  datatype Setup = Setup(view: OutputView, timesteps: nat, base: nat, capacity: nat, stride: nat, stateCount: nat)

  /** The bytes a decoder may touch: the memory and one received-lane mask per VOLTAGE element. */
  datatype Store = Store(mem: seq<u8>, lanes: seq<u8>)

  /** What one frame does. Offsets are relative to the window. */
  datatype Effect =
    | Ignore
    | Reject(error: CodecStatus)
    | PutByte(index: nat, value: u8)
    | PutLane(slot: nat, state: nat, lane: nat, payload: u8)

  predicate Fits(s: Setup, st: Store) {
    s.base + s.capacity <= |st.mem| && |st.lanes| == s.stateCount
  }

  // ------------------------------------------------------------ DATA frames

  function DataEffect(s: Setup, d: Dtype, frame: Frame): Effect
    requires 1 <= d.bits <= 8
  {
    var address := OutputFrameAddress(s.view.targetLcn, frame);
    if address.None? then Reject(CodecUnsupported)
    else if address.value.timestep >= s.timesteps then Ignore
    else
      var found := Find(s.view.entries, address.value.axonBitIdx);
      if found.None? then Ignore
      else
        var timestep, elem := address.value.timestep, found.value.elemIdx;
        if s.stride == 0 || elem >= s.stride || timestep > (SIZE_MAX - elem) / s.stride then Reject(CodecOutOfRange)
        else
          var payload := frame.low % 0x100;
          if !d.signed && payload >= Pow2(d.bits) then Ignore
          else
            var index := Cell(timestep, s.stride, elem);
            if index >= s.capacity then Reject(CodecOutOfRange)
            else PutByte(index, DecodePayload(payload, d))
  }

  /** Row-major position of an element. */
  function Cell(row: nat, stride: nat, elem: nat): (index: nat)
    ensures index == row * stride + elem
  {
    MulMono(0, row, stride);
    row * stride + elem
  }

  // --------------------------------------------------------- VOLTAGE frames

  function VoltageEffect(s: Setup, frame: Frame): Effect {
    if !IsVoltageWork(frame) then Ignore
    else if s.view.kind != OUTPUT_VOLTAGE || s.view.dtype != DTYPE_VOLTAGE_INT32 then Reject(CodecUnsupported)
    else
      var address := OutputFrameAddress(s.view.targetLcn, frame);
      if address.None? then Reject(CodecUnsupported)
      else
        var axon, timestep := address.value.axonBitIdx, address.value.timestep;
        var lane := axon / 8 % 4;
        var found := Find(s.view.entries, LaneBase(axon));
        if found.None? || timestep >= s.timesteps then Ignore
        else
          var elem, strideElements := found.value.elemIdx, s.stride / 4;
          if s.view.elementCount == 0 || strideElements == 0 || elem >= strideElements ||
             timestep > (SIZE_MAX - elem) / strideElements || timestep > (SIZE_MAX - elem) / s.view.elementCount
          then Reject(CodecOutOfRange)
          else
            var slot, state := Cell(timestep, strideElements, elem), Cell(timestep, s.view.elementCount, elem);
            if slot >= s.capacity / 4 || state >= s.stateCount then Reject(CodecOutOfRange)
            else PutLane(slot, state, lane, frame.low % 0x100)
  }

  /** The key of lane zero of the element an axon address belongs to. */
  function LaneBase(axon: nat): nat { axon - axon / 8 % 4 * 8 }

  /** Effect of one frame under rvrt_decode_output_frames_incremental. */
  function FrameEffect(s: Setup, hasState: bool, frame: Frame): Effect {
    if s.view.kind == OUTPUT_DATA then
      if DtypeInfo(s.view.dtype).None? then Reject(CodecUnsupported)
      else if !IsDataWork(frame) then Ignore
      else
        DtypeWidths(s.view.dtype);
        DataEffect(s, DtypeInfo(s.view.dtype).value, frame)
    else if s.view.kind != OUTPUT_VOLTAGE || s.capacity % 4 != 0 || s.stride % 4 != 0 || !hasState then Reject(CodecUnsupported)
    else VoltageEffect(s, frame)
  }

  // ---------------------------------------------------------------- storing

  predicate HasLane(mask: u8, lane: nat) { Shr(mask, lane) % 2 == 1 }

  const COMPLETE_MASK: nat := 15

  /**
   Store one 8-bit lane of a slot whose first byte is mem[at]. The first lane of a value clears the
   slot; the fourth resets the mask. OR-ing payload << 8 * lane into a little-endian int32 is OR-ing
   the payload into byte `lane`.
   */
  function StoreLane(st: Store, at: nat, state: nat, lane: nat, payload: u8): (r: (Store, CodecStatus))
    requires at + 4 <= |st.mem| && state < |st.lanes| && lane < 4
    ensures |r.0.mem| == |st.mem| && |r.0.lanes| == |st.lanes|
  {
    var mask := st.lanes[state];
    if HasLane(mask, lane) then (st, CodecBadValue)
    else
      var mem := if mask == 0 then st.mem[at := 0][at + 1 := 0][at + 2 := 0][at + 3 := 0] else st.mem;
      var mask' := OrBytes(mask, LaneBit(lane));
      (Store(mem[at + lane := OrBytes(mem[at + lane], payload)],
             st.lanes[state := if mask' == COMPLETE_MASK then 0 else mask']), CodecOk)
  }

  function LaneBit(lane: nat): u8
    requires lane < 4
  {
    SmallPowers();
    Pow2Mono(lane, 3);
    Pow2(lane)
  }

  function OrBytes(a: u8, b: u8): u8 {
    SmallPowers();
    OrBound(a, b, 8);
    BitOr(a, b)
  }

  /** The offsets an effect names are inside the window. */
  ghost predicate InWindow(s: Setup, e: Effect) {
    match e
    case PutByte(index, _) => index < s.capacity
    case PutLane(slot, state, lane, _) => slot < s.capacity / 4 && state < s.stateCount && lane < 4
    case _ => true
  }

  function Apply(s: Setup, st: Store, e: Effect): (r: (Store, CodecStatus))
    requires Fits(s, st) && InWindow(s, e)
    ensures Fits(s, r.0) && |r.0.mem| == |st.mem|
  {
    match e
    case Ignore => (st, CodecOk)
    case Reject(error) => (st, error)
    case PutByte(index, value) => (st.(mem := st.mem[s.base + index := value]), CodecOk)
    case PutLane(slot, state, lane, payload) => StoreLane(st, s.base + 4 * slot, state, lane, payload)
  }

  lemma EffectsInWindow(s: Setup, hasState: bool, frame: Frame)
    ensures InWindow(s, FrameEffect(s, hasState, frame))
    ensures FrameEffect(s, hasState, frame) != Reject(CodecOk)
  {
    hide OutputFrameAddress, Find, DecodePayload, IsDataWork, IsVoltageWork;
  }

  /** Decode frames in order up to the first error. */
  function DecodeAll(s: Setup, hasState: bool, st: Store, frames: seq<Frame>): (r: (Store, CodecStatus))
    requires Fits(s, st)
    ensures Fits(s, r.0) && |r.0.mem| == |st.mem|
    decreases |frames|
  {
    if frames == [] then (st, CodecOk)
    else
      EffectsInWindow(s, hasState, frames[0]);
      var next := Apply(s, st, FrameEffect(s, hasState, frames[0]));
      if next.1 != CodecOk then next else DecodeAll(s, hasState, next.0, frames[1..])
  }

  lemma {:induction false} DecodeAppend(s: Setup, hasState: bool, st: Store, left: seq<Frame>, right: seq<Frame>)
    requires Fits(s, st)
    ensures var l := DecodeAll(s, hasState, st, left);
            DecodeAll(s, hasState, st, left + right) ==
            if l.1 == CodecOk then DecodeAll(s, hasState, l.0, right) else l
    decreases |left|
  {
    if left == [] {
      assert left + right == right;
    } else {
      EffectsInWindow(s, hasState, left[0]);
      assert (left + right)[0] == left[0] && (left + right)[1..] == left[1..] + right;
      var next := Apply(s, st, FrameEffect(s, hasState, left[0]));
      if next.1 == CodecOk {
        DecodeAppend(s, hasState, next.0, left[1..], right);
      }
    }
  }

  // ------------------------------------------------------ imperative decoders

  method StoreVoltageLane(mem: array<u8>, at: nat, lanes: array<u8>, state: nat, lane: nat, payload: u8)
    returns (status: CodecStatus)
    requires mem != lanes && at + 4 <= mem.Length && state < lanes.Length && lane < 4
    modifies mem, lanes
    ensures (Store(mem[..], lanes[..]), status) ==
            StoreLane(Store(old(mem[..]), old(lanes[..])), at, state, lane, payload)
  {
    hide OrBytes, HasLane, LaneBit;
    if HasLane(lanes[state], lane) {
      return CodecBadValue;
    }
    ghost var before, masks := mem[..], lanes[..];
    if lanes[state] == 0 {
      mem[at], mem[at + 1], mem[at + 2], mem[at + 3] := 0, 0, 0, 0;
    }
    ghost var cleared := if masks[state] == 0 then before[at := 0][at + 1 := 0][at + 2 := 0][at + 3 := 0] else before;
    assert mem[..] == cleared;
    mem[at + lane] := OrBytes(mem[at + lane], payload);
    assert mem[..] == cleared[at + lane := OrBytes(cleared[at + lane], payload)];
    lanes[state] := OrBytes(lanes[state], LaneBit(lane));
    if lanes[state] == COMPLETE_MASK {
      lanes[state] := 0;
    }
    assert lanes[..] == masks[state := lanes[state]];
    return CodecOk;
  }

  method ApplyEffect(s: Setup, e: Effect, mem: array<u8>, lanes: array<u8>) returns (status: CodecStatus)
    requires mem != lanes && s.base + s.capacity <= mem.Length && lanes.Length == s.stateCount
    requires InWindow(s, e)
    modifies mem, lanes
    ensures (Store(mem[..], lanes[..]), status) == Apply(s, Store(old(mem[..]), old(lanes[..])), e)
  {
    match e
    case Ignore => return CodecOk;
    case Reject(error) => return error;
    case PutByte(index, value) =>
      mem[s.base + index] := value;
      return CodecOk;
    case PutLane(slot, state, lane, payload) =>
      status := StoreVoltageLane(mem, s.base + 4 * slot, lanes, state, lane, payload);
  }

  /** What the incremental decoder checks before it looks at any frame. */
  function IncrementalCheck(s: Setup): CodecStatus {
    if s.timesteps == 0 then CodecNullArgument
    else if s.view.kind == OUTPUT_DATA then if DtypeInfo(s.view.dtype).None? then CodecUnsupported else CodecOk
    else if s.view.kind != OUTPUT_VOLTAGE || s.capacity % 4 != 0 || s.stride % 4 != 0 then CodecUnsupported
    else CodecOk
  }

  /** The check only matters for a call without frames: it refuses what every single frame would be refused for. */
  lemma CheckedEffect(s: Setup, frame: Frame)
    requires s.timesteps > 0 && IncrementalCheck(s) != CodecOk
    ensures FrameEffect(s, true, frame) == Reject(IncrementalCheck(s))
  {
  }

  /** Private runner support: scatter frames without clearing anything first. */
  method DecodeIncremental(s: Setup, frames: seq<Frame>, mem: array<u8>, lanes: array<u8>) returns (status: CodecStatus)
    requires mem != lanes && s.base + s.capacity <= mem.Length && lanes.Length == s.stateCount
    modifies mem, lanes
    ensures IncrementalCheck(s) == CodecOk ==>
              (Store(mem[..], lanes[..]), status) == DecodeAll(s, true, Store(old(mem[..]), old(lanes[..])), frames)
    ensures IncrementalCheck(s) != CodecOk ==>
              status == IncrementalCheck(s) && mem[..] == old(mem[..]) && lanes[..] == old(lanes[..])
  {
    hide FrameEffect, Apply;
    status := IncrementalCheck(s);
    if status != CodecOk {
      return;
    }
    ghost var start := Store(mem[..], lanes[..]);
    for i := 0 to |frames|
      invariant DecodeAll(s, true, start, frames) == DecodeAll(s, true, Store(mem[..], lanes[..]), frames[i..])
    {
      EffectsInWindow(s, true, frames[i]);
      assert frames[i..][1..] == frames[i + 1..];
      status := ApplyEffect(s, FrameEffect(s, true, frames[i]), mem, lanes);
      if status != CodecOk {
        return;
      }
    }
    return CodecOk;
  }

  method ZeroFill(mem: array<u8>, from: nat, count: nat)
    requires from + count <= mem.Length
    modifies mem
    ensures mem[..] == Zeroed(old(mem[..]), from, count)
  {
    ghost var before := mem[..];
    for i := 0 to count
      invariant forall k :: 0 <= k < mem.Length ==> mem[k] == if from <= k < from + i then 0 else before[k]
    {
      mem[from + i] := 0;
    }
    assert mem[..] == Zeroed(before, from, count);
  }

  function Zeroed(mem: seq<u8>, from: nat, count: nat): (r: seq<u8>)
    requires from + count <= |mem|
    ensures |r| == |mem|
    ensures forall k :: 0 <= k < |mem| ==> r[k] == if from <= k < from + count then 0 else mem[k]
  {
    mem[..from] + seq(count, _ => 0) + mem[from + count..]
  }

  // ------------------------------------------------------------- batch decode

  ghost predicate TimingConsistent(t: Timing) {
    && t.timesteps > 0 && t.pipelineLatency > 0
    && t.completionSync == t.pipelineLatency + t.timesteps - 1
  }

  /** What the batch decoder requires before it touches the output; the first failure is reported. */
  function BatchCheck(view: OutputView, timing: Timing, size: nat): CodecStatus {
    if view.kind != OUTPUT_DATA || !timing.streamEncoding then CodecUnsupported
    else if timing.timesteps == 0 || timing.pipelineLatency == 0 ||
            timing.timesteps > UINT32_MAX - timing.pipelineLatency + 1 ||
            timing.completionSync != timing.pipelineLatency + timing.timesteps - 1 then CodecBadValue
    else if view.elementCount == 0 || view.elementCount > SIZE_MAX / timing.timesteps then CodecOutOfRange
    else if DtypeInfo(view.dtype).None? then CodecUnsupported
    else if size < timing.timesteps * view.elementCount then CodecOutOfRange
    else CodecOk
  }

  /**
   The checks, each written to avoid overflow, accept exactly a consistent stream DATA tensor that fits;
   and which of them refuses a call, in exact arithmetic.
   */
  lemma BatchCheckMeaning(view: OutputView, timing: Timing, size: nat)
    requires size <= SIZE_MAX
    ensures BatchCheck(view, timing, size) == CodecOk <==>
            && view.kind == OUTPUT_DATA && DtypeInfo(view.dtype).Some? && timing.streamEncoding && TimingConsistent(timing)
            && 0 < timing.timesteps * view.elementCount <= size
    ensures var status, bytes := BatchCheck(view, timing, size), timing.timesteps * view.elementCount;
            if view.kind != OUTPUT_DATA || !timing.streamEncoding then status == CodecUnsupported
            else if !TimingConsistent(timing) then status == CodecBadValue
            else if bytes == 0 || bytes > SIZE_MAX then status == CodecOutOfRange
            else if DtypeInfo(view.dtype).None? then status == CodecUnsupported
            else bytes > size ==> status == CodecOutOfRange
  {
    var t, n: nat := timing.timesteps, view.elementCount;
    if t > 0 {
      AtMostQuotient(n, t, SIZE_MAX);
      if n > 0 {
        MulMono(1, n, t);
      }
    }
  }

  function BatchSetup(view: OutputView, timing: Timing, base: nat, size: nat): Setup {
    Setup(view, timing.timesteps, base, size, view.elementCount, 0)
  }

  /** Clear the tensor, then decode every frame. */
  function Batch(view: OutputView, timing: Timing, base: nat, size: nat, mem: seq<u8>, frames: seq<Frame>): (seq<u8>, CodecStatus)
    requires base + size <= |mem|
  {
    var check := BatchCheck(view, timing, size);
    if check != CodecOk then (mem, check)
    else
      var cleared := Zeroed(mem, base, timing.timesteps * view.elementCount);
      var r := DecodeAll(BatchSetup(view, timing, base, size), false, Store(cleared, []), frames);
      (r.0.mem, r.1)
  }

  method DecodeOutputFrames(view: OutputView, timing: Timing, frames: seq<Frame>, mem: array<u8>, base: nat, size: nat)
    returns (status: CodecStatus)
    requires base + size <= mem.Length
    modifies mem
    ensures (mem[..], status) == Batch(view, timing, base, size, old(mem[..]), frames)
    ensures BatchCheck(view, timing, size) != CodecOk ==> mem[..] == old(mem[..]) && status == BatchCheck(view, timing, size)
  {
    hide FrameEffect, Apply;
    status := BatchCheck(view, timing, size);
    if status != CodecOk {
      return;
    }
    var s := BatchSetup(view, timing, base, size);
    ZeroFill(mem, base, timing.timesteps * view.elementCount);
    ghost var start := mem[..];
    for i := 0 to |frames|
      invariant DecodeAll(s, false, Store(start, []), frames) == DecodeAll(s, false, Store(mem[..], []), frames[i..])
    {
      EffectsInWindow(s, false, frames[i]);
      assert frames[i..][1..] == frames[i + 1..];
      var e := FrameEffect(s, false, frames[i]);
      NoLanes(s, Store(mem[..], []), e);
      match e
      case Ignore =>
      case Reject(error) => return error;
      case PutByte(index, value) => mem[base + index] := value;
      case PutLane(_, _, _, _) => assert false;
    }
    return CodecOk;
  }

  lemma NoLanes(s: Setup, st: Store, e: Effect)
    requires Fits(s, st) && InWindow(s, e) && s.stateCount == 0
    ensures !e.PutLane?
    ensures Apply(s, st, e) ==
            match e
            case Ignore => (st, CodecOk)
            case Reject(error) => (st, error)
            case PutByte(index, value) => (st.(mem := st.mem[s.base + index := value]), CodecOk)
            case PutLane(_, _, _, _) => (st, CodecOk)
  {
  }
}
