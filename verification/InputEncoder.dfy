/** Resumable encoding of one input row into work frames. */
module InputEncoder {
  import opened Bits
  import opened Artifact
  import opened FrameCodec

  /** What one mapping entry contributes to the frame stream of a row. */
  datatype Visit =
    | Skip                            // zero element: no frame
    | Emit(frame: Frame)
    | Early(error: CodecStatus)       // detected before the buffer-full check
    | Late(error: CodecStatus)        // detected after the buffer-full check

  function VisitEntry(view: InputView, timestep: nat, row: seq<u8>, index: nat): Visit
    requires index < |view.entries|
  {
    var entry := view.entries[index];
    var info := DtypeInfo(entry.dtype);
    DtypeWidths(entry.dtype);
    if info.None? || info.value.bits != view.bitWidth then Early(CodecUnsupported)
    else if entry.elemIdx >= |row| then Early(CodecOutOfRange)
    else
      var payload := EncodePayload(row[entry.elemIdx], info.value);
      if payload.None? then Early(CodecBadValue)
      else if payload.value == 0 then Skip
      else
        match BuildWork1Frame(entry, timestep, payload.value)
        case Built(frame) => Emit(frame)
        case Failed(status) => Late(status)
  }

  /** The simple form: build the frames of the nonzero entries in order, up to the first error. */
  datatype OneShot = OneShot(frames: seq<Frame>, status: CodecStatus, late: bool)

  function EncodeRow(view: InputView, timestep: nat, row: seq<u8>, index: nat): OneShot
    requires index <= |view.entries|
    decreases |view.entries| - index
  {
    if index == |view.entries| then OneShot([], CodecDone, false)
    else
      match VisitEntry(view, timestep, row, index)
      case Skip => EncodeRow(view, timestep, row, index + 1)
      case Emit(frame) =>
        var rest := EncodeRow(view, timestep, row, index + 1);
        rest.(frames := [frame] + rest.frames)
      case Early(error) => OneShot([], error, false)
      case Late(error) => OneShot([], error, true)
  }

  /** The bounded form: stop with BUFFER_FULL at the first frame that does not fit. */
  datatype Chunk = Chunk(status: CodecStatus, next: nat, frames: seq<Frame>)

  function EncodeChunk(view: InputView, timestep: nat, row: seq<u8>, index: nat, room: nat): (c: Chunk)
    requires index <= |view.entries|
    ensures index <= c.next <= |view.entries| && |c.frames| <= room
    decreases |view.entries| - index
  {
    if index == |view.entries| then Chunk(CodecDone, index, [])
    else
      match VisitEntry(view, timestep, row, index)
      case Skip => EncodeChunk(view, timestep, row, index + 1, room)
      case Early(error) => Chunk(error, index, [])
      case Late(error) =>
        if room == 0 then Chunk(CodecBufferFull, index, []) else Chunk(error, index + 1, [])
      case Emit(frame) =>
        if room == 0 then Chunk(CodecBufferFull, index, [])
        else
          var rest := EncodeChunk(view, timestep, row, index + 1, room - 1);
          rest.(frames := [frame] + rest.frames)
  }

  class InputCursor {
    var entryIndex: nat
    var timestep: nat

    constructor (timestep: nat)
      ensures entryIndex == 0 && this.timestep == timestep
    {
      entryIndex, this.timestep := 0, timestep;
    }
  }

  /**
   Fill the caller's workspace with the next chunk of the row stored at mem[base..base + size].
   A payload-range error is reported even when the workspace is already full; a frame-build error
   is reported only once there is room for the frame.
   */
  method EncodeInputChunk(view: InputView, cursor: InputCursor, mem: array<u8>, base: nat, size: nat,
                          frames: array<Frame>, capacity: nat)
    returns (status: CodecStatus, frameCount: nat)
    requires base + size <= mem.Length
    requires capacity <= frames.Length
    requires cursor.entryIndex <= |view.entries|
    modifies cursor`entryIndex, frames
    ensures frameCount <= capacity && cursor.entryIndex <= |view.entries|
    ensures capacity == 0 ==> status == CodecBadValue && frameCount == 0 && cursor.entryIndex == old(cursor.entryIndex)
    ensures capacity > 0 ==>
              EncodeChunk(view, cursor.timestep, old(mem[base..base + size]), old(cursor.entryIndex), capacity) ==
              Chunk(status, cursor.entryIndex, frames[..frameCount])
  {
    hide BuildWork1Frame, EncodePayload, DtypeInfo, EncodeChunk;
    frameCount := 0;
    if capacity == 0 {
      return CodecBadValue, 0;
    }
    ghost var row, start, ts := mem[base..base + size], cursor.entryIndex, cursor.timestep;
    while cursor.entryIndex < |view.entries|
      invariant start <= cursor.entryIndex <= |view.entries| && frameCount <= capacity
      invariant EncodeChunk(view, ts, row, start, capacity) ==
                Resume(frames[..frameCount], view, ts, row, cursor.entryIndex, capacity - frameCount)
      decreases |view.entries| - cursor.entryIndex
    {
      ResumeStep(frames[..frameCount], view, ts, row, cursor.entryIndex, capacity - frameCount);
      var entry := view.entries[cursor.entryIndex];
      var info := DtypeInfo(entry.dtype);
      if info.None? || info.value.bits != view.bitWidth {
        return CodecUnsupported, frameCount;
      }
      if entry.elemIdx >= size {
        return CodecOutOfRange, frameCount;
      }
      DtypeWidths(entry.dtype);
      var payload := EncodePayload(mem[base + entry.elemIdx], info.value);
      if payload.None? {
        return CodecBadValue, frameCount;
      }
      cursor.entryIndex := cursor.entryIndex + 1;
      if payload.value == 0 {
        continue;
      }
      if frameCount >= capacity {
        cursor.entryIndex := cursor.entryIndex - 1;
        return CodecBufferFull, frameCount;
      }
      var built := BuildWork1Frame(entry, cursor.timestep, payload.value);
      if built.Failed? {
        return built.status, frameCount;
      }
      frames[frameCount] := built.frame;
      frameCount := frameCount + 1;
      assert frames[..frameCount] == frames[..frameCount - 1] + [built.frame];
    }
    ResumeStep(frames[..frameCount], view, ts, row, cursor.entryIndex, capacity - frameCount);
    return CodecDone, frameCount;
  }

  /** The chunk that results from having stored some frames and going on from an entry. */
  ghost function Resume(stored: seq<Frame>, view: InputView, timestep: nat, row: seq<u8>, index: nat, room: nat): Chunk
    requires index <= |view.entries|
  {
    var rest := EncodeChunk(view, timestep, row, index, room);
    rest.(frames := stored + rest.frames)
  }

  lemma ResumeStep(stored: seq<Frame>, view: InputView, timestep: nat, row: seq<u8>, index: nat, room: nat)
    requires index <= |view.entries|
    ensures Resume(stored, view, timestep, row, index, room) ==
            if index == |view.entries| then Chunk(CodecDone, index, stored)
            else
              match VisitEntry(view, timestep, row, index)
              case Skip => Resume(stored, view, timestep, row, index + 1, room)
              case Early(error) => Chunk(error, index, stored)
              case Late(error) => if room == 0 then Chunk(CodecBufferFull, index, stored) else Chunk(error, index + 1, stored)
              case Emit(frame) =>
                if room == 0 then Chunk(CodecBufferFull, index, stored)
                else Resume(stored + [frame], view, timestep, row, index + 1, room - 1)
  {
    hide VisitEntry;
    if index < |view.entries| && room > 0 && VisitEntry(view, timestep, row, index).Emit? {
      var frame := VisitEntry(view, timestep, row, index).frame;
      var rest := EncodeChunk(view, timestep, row, index + 1, room - 1);
      assert stored + ([frame] + rest.frames) == (stored + [frame]) + rest.frames;
    }
  }

  /** The element value an entry reads, in the entry's dtype. */
  function ElementNumber(raw: u8, d: Dtype): int { if d.signed then SignedByte(raw) else raw }

  /** Values of a dtype. */
  predicate InRange(value: int, d: Dtype)
    requires d.bits >= 1
  {
    if d.signed then 0 <= value + Pow2(d.bits - 1) < Pow2(d.bits) else 0 <= value < Pow2(d.bits)
  }

  /** Which of the six outcomes a visit has, for every view, validated or not; the first failing check decides. */
  lemma VisitOutcome(view: InputView, timestep: nat, row: seq<u8>, index: nat)
    requires index < |view.entries|
    ensures var e := view.entries[index];
            var info, v := DtypeInfo(e.dtype), VisitEntry(view, timestep, row, index);
            if info.None? || info.value.bits != view.bitWidth then v == Early(CodecUnsupported)
            else if e.elemIdx >= |row| then v == Early(CodecOutOfRange)
            else
              1 <= info.value.bits &&
              var value := ElementNumber(row[e.elemIdx], info.value);
              if !InRange(value, info.value) then v == Early(CodecBadValue)
              else if value == 0 then v == Skip
              else if !BuildableEntry(e) then v == Late(CodecBadValue)
              else
                v.Emit? && IsDataWork(v.frame) && DecodePayload(v.frame.low % 0x100, info.value) == row[e.elemIdx] &&
                exists p: u8 :: UnpackWork(v.frame) == FieldsOf(e, timestep, p)
  {
    hide BuildWork1Frame, EncodePayload, Pow2, DecodePayload, IsDataWork, BitOr, Shl, EncodedTimestep, RouteCode;
    var e := view.entries[index];
    var info := DtypeInfo(e.dtype);
    DtypeWidths(e.dtype);
    if info.Some? && info.value.bits == view.bitWidth && e.elemIdx < |row| {
      PayloadRoundTrip(row[e.elemIdx], info.value);
      var payload := EncodePayload(row[e.elemIdx], info.value);
      if payload.Some? {
        BuildWork1Meaning(e, timestep, payload.value);
      }
    }
  }

  // ------------------------------------------------------------ chunk algebra

  /** One chunk against the one-shot encoding, for every outcome of the chunk. */
  lemma {:induction false} ChunkOfRow(view: InputView, timestep: nat, row: seq<u8>, index: nat, room: nat)
    requires index <= |view.entries|
    ensures var c, o := EncodeChunk(view, timestep, row, index, room), EncodeRow(view, timestep, row, index);
            if c.status == CodecBufferFull then
              && |c.frames| == room
              && c.next < |view.entries|
              && (room > 0 ==> c.next > index)
              && (VisitEntry(view, timestep, row, c.next).Emit? || VisitEntry(view, timestep, row, c.next).Late?)
              && var rest := EncodeRow(view, timestep, row, c.next);
              && o == OneShot(c.frames + rest.frames, rest.status, rest.late)
            else
              && o.frames == c.frames && o.status == c.status
              && (o.late ==> |c.frames| < room)
              && (c.status == CodecDone ==> c.next == |view.entries| && !o.late)
              && (c.status != CodecDone && !o.late ==>
                    c.next < |view.entries| && VisitEntry(view, timestep, row, c.next) == Early(c.status))
              && (o.late ==> c.next > index && VisitEntry(view, timestep, row, c.next - 1) == Late(c.status))
    decreases |view.entries| - index
  {
    hide VisitEntry;
    if index < |view.entries| {
      match VisitEntry(view, timestep, row, index)
      case Skip => ChunkOfRow(view, timestep, row, index + 1, room);
      case Emit(frame) =>
        if room > 0 {
          ChunkOfRow(view, timestep, row, index + 1, room - 1);
          var c := EncodeChunk(view, timestep, row, index + 1, room - 1);
          if c.status == CodecBufferFull {
            var rest := EncodeRow(view, timestep, row, c.next);
            assert [frame] + (c.frames + rest.frames) == ([frame] + c.frames) + rest.frames;
          }
        }
      case Early(_) => BuildStatuses(view, timestep, row, index);
      case Late(_) => BuildStatuses(view, timestep, row, index);
    }
  }

  lemma BuildStatuses(view: InputView, timestep: nat, row: seq<u8>, index: nat)
    requires index < |view.entries|
    ensures match VisitEntry(view, timestep, row, index)
            case Early(e) => e != CodecDone && e != CodecBufferFull
            case Late(e) => e != CodecDone && e != CodecBufferFull
            case _ => true
  {
  }

  /** The frames that reach the FIFO when a row is sent chunk by chunk, and whether the send succeeds. */
  datatype Sent = Sent(frames: seq<Frame>, ok: bool)

  function SendChunks(view: InputView, timestep: nat, row: seq<u8>, index: nat, capacity: nat): Sent
    requires index <= |view.entries| && capacity > 0
    decreases |view.entries| - index
  {
    var c := EncodeChunk(view, timestep, row, index, capacity);
    ChunkOfRow(view, timestep, row, index, capacity);
    if c.status == CodecDone then Sent(c.frames, true)
    else if c.status == CodecBufferFull then
      var rest := SendChunks(view, timestep, row, c.next, capacity);
      Sent(c.frames + rest.frames, rest.ok)
    else Sent([], false)
  }

  /**
   Chunking is invisible. A successful send transmits exactly the one-shot encoding, whatever the
   workspace capacity. A failed send transmits a prefix of it in whole chunks: every chunk before
   the one in which the error surfaced, where a payload error also discards a full pending chunk.
   */
  lemma {:induction false} ChunkingInvisible(view: InputView, timestep: nat, row: seq<u8>, index: nat, capacity: nat)
    requires index <= |view.entries| && capacity > 0
    ensures var s, o := SendChunks(view, timestep, row, index, capacity), EncodeRow(view, timestep, row, index);
            && (s.ok <==> o.status == CodecDone)
            && s.frames <= o.frames
            && (s.ok ==> s.frames == o.frames)
            && (!s.ok ==>
                  && |s.frames| % capacity == 0
                  && |o.frames| <= |s.frames| + capacity
                  && (o.late ==> |o.frames| < |s.frames| + capacity)
                  && (!o.late && |o.frames| > 0 ==> |s.frames| < |o.frames|))
    decreases |view.entries| - index
  {
    hide VisitEntry, EncodeChunk, EncodeRow;
    var c := EncodeChunk(view, timestep, row, index, capacity);
    ChunkOfRow(view, timestep, row, index, capacity);
    if c.status == CodecBufferFull {
      PendingFrame(view, timestep, row, c.next);
      ChunkingInvisible(view, timestep, row, c.next, capacity);
      var rest := SendChunks(view, timestep, row, c.next, capacity);
      if !rest.ok {
        NextMultiple(|rest.frames|, capacity);
      }
    }
  }

  lemma PendingFrame(view: InputView, timestep: nat, row: seq<u8>, index: nat)
    requires index < |view.entries|
    requires VisitEntry(view, timestep, row, index).Emit? || VisitEntry(view, timestep, row, index).Late?
    ensures EncodeRow(view, timestep, row, index).late || |EncodeRow(view, timestep, row, index).frames| > 0
  {
    hide VisitEntry;
  }

  lemma NextMultiple(n: nat, m: nat)
    requires m > 0 && n % m == 0
    ensures (m + n) % m == 0
  {
    DivMod(m + n, m, 1 + n / m, 0);
  }

  // ----------------------------------------------- what validation leaves to fail

  ghost predicate ScheduleAccepts(view: InputView, timesteps: nat) {
    && |view.entries| > 0
    && forall e :: e in view.entries ==> EntryFitsSchedule(e, timesteps)
  }

  ghost predicate EntryFitsSchedule(e: InputEntry, timesteps: nat) {
    e.targetLcn <= TARGET_LCN_MAX && e.tickRelative < Pow2(e.targetLcn) && timesteps <= Pow2(8 - e.targetLcn)
  }

  /** A timestep that the timestamp field of an entry can hold without wrapping. */
  predicate Survives(e: InputEntry, t: nat)
    requires e.targetLcn <= TARGET_LCN_MAX
  {
    LowBits(t, 8 - e.targetLcn) == t
  }

  /** The schedule check is exact: it accepts as many timesteps as all survive in the frames of the entry. */
  lemma ScheduleExact(e: InputEntry, timesteps: nat)
    requires e.targetLcn <= TARGET_LCN_MAX && e.tickRelative < Pow2(e.targetLcn)
    ensures EntryFitsSchedule(e, timesteps) <==> forall t: nat :: t < timesteps ==> Survives(e, t)
  {
    hide Pow2;
    var p := Pow2(8 - e.targetLcn);
    if timesteps <= p {
      forall t: nat | t < timesteps
        ensures Survives(e, t)
      {
        DivMod(t, p, 0, t);
      }
    } else {
      DivMod(p, p, 1, 0);
      assert !Survives(e, p);
    }
  }

  /**
   After the artifact is validated and the schedule accepted, an entry can only be refused because
   its element does not fit the payload width, or its axon address or route does not fit the frame.
   */
  lemma ValidatedVisit(view: InputView, timesteps: nat, timestep: nat, row: seq<u8>, index: nat)
    requires ValidInputView(view) && ScheduleAccepts(view, timesteps)
    requires |row| == view.elementCount && index < |view.entries|
    ensures var entry := view.entries[index];
            DtypeInfo(entry.dtype).Some? && 1 <= DtypeInfo(entry.dtype).value.bits <= 8 && entry.elemIdx < |row| &&
            var payload := EncodePayload(row[entry.elemIdx], DtypeInfo(entry.dtype).value);
            match VisitEntry(view, timestep, row, index)
            case Skip => row[entry.elemIdx] == 0
            case Emit(frame) =>
              row[entry.elemIdx] != 0 && payload.Some? && BuildableEntry(entry) &&
              BuildWork1Frame(entry, timestep, payload.value) == Built(frame)
            case Early(error) => error == CodecBadValue && payload.None?
            case Late(error) =>
              error == CodecBadValue &&
              !(entry.addrAxon <= 0x1FF && Routable(entry.coreOffset) && Routable(entry.copyCount))
  {
    hide BuildWork1Frame, EncodePayload, Pow2;
    var entry := view.entries[index];
    assert entry in view.entries;
    DtypeWidths(entry.dtype);
    PayloadRoundTrip(row[entry.elemIdx], DtypeInfo(entry.dtype).value);
    var payload := EncodePayload(row[entry.elemIdx], DtypeInfo(entry.dtype).value);
    if payload.Some? {
      BuildWork1Meaning(entry, timestep, payload.value);
    }
  }
}
