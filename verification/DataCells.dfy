/**
 What DATA decoding leaves in each cell, stated on the frames that arrived: the last frame for a cell
 decides its byte. Late timesteps, unmapped keys, payloads too wide for an unsigned dtype and frames
 of other kinds leave no trace.
 */
module DataCells {
  import opened Bits
  import opened Artifact
  import opened FrameCodec
  import opened OutputDecoder
  import opened FrameHandlers
  import opened SessionSpec
  import opened SampleRows
  import opened SamplePlan
  import opened SampleRun
  import opened TensorWindow

  /** A DATA work frame for element e of timestep t, by its own address and payload. */
  ghost predicate Hits(view: OutputView, t: nat, e: nat, f: Frame)
    requires DtypeInfo(view.dtype).Some?
  {
    var d := DtypeInfo(view.dtype).value;
    && IsDataWork(f)
    && (exists o :: o in view.entries && o.elemIdx == e && OutputFrameAddress(view.targetLcn, f) == Some(Address(t, o.axonBitIdx)))
    && (d.signed || f.low % 0x100 < Pow2(d.bits))
  }

  /** The element value in a frame's payload. */
  function Carried(view: OutputView, f: Frame): u8
    requires DtypeInfo(view.dtype).Some?
  {
    DtypeWidths(view.dtype);
    DecodePayload(f.low % 0x100, DtypeInfo(view.dtype).value)
  }

  /** The value of the last of these frames that is for the cell; what was there before if none is. */
  ghost function LastByte(view: OutputView, t: nat, e: nat, frames: seq<Frame>, before: u8): u8
    requires DtypeInfo(view.dtype).Some?
  {
    if frames == [] then before
    else
      var f := frames[|frames| - 1];
      if Hits(view, t, e, f) then Carried(view, f) else LastByte(view, t, e, frames[..|frames| - 1], before)
  }

  // ------------------------------------------------------------- one frame

  /** A frame for a cell of the sample writes its value there. */
  lemma HitWrites(s: Setup, hasState: bool, f: Frame, t: nat, e: nat)
    requires DataWindow(s) && t < s.timesteps && e < s.view.elementCount && Hits(s.view, t, e, f)
    ensures FrameEffect(s, hasState, f) == PutByte(Cell(t, s.stride, e), Carried(s.view, f))
  {
    hide OutputFrameAddress, Find, DecodePayload, IsDataWork, Cell, RowsFit, CellAt, TensorBytes, Pow2;
    var o :| o in s.view.entries && o.elemIdx == e && OutputFrameAddress(s.view.targetLcn, f) == Some(Address(t, o.axonBitIdx));
    WindowFields(s);
    KeysOf(s);
    FindExact(s.view.entries, o);
    CellEffect(s, t, e);
  }

  lemma KeysOf(s: Setup)
    requires RowsFit(s)
    ensures KeysIncrease(s.view.entries) && s.view.targetLcn <= TARGET_LCN_MAX
  {
  }

  /** Every other frame is ignored; in particular none is refused. */
  lemma WriteHits(s: Setup, hasState: bool, f: Frame) returns (t: nat, e: nat)
    requires DataWindow(s)
    ensures FrameEffect(s, hasState, f) == Ignore || (t < s.timesteps && e < s.view.elementCount && Hits(s.view, t, e, f))
  {
    hide OutputFrameAddress, Find, DecodePayload, IsDataWork, Cell, RowsFit, CellAt, TensorBytes, Pow2;
    t, e := 0, 0;
    WindowFields(s);
    KeysOf(s);
    var address := OutputFrameAddress(s.view.targetLcn, f);
    Addressed(s.view.targetLcn, f);
    FindSound(s.view.entries, address.value.axonBitIdx);
    var found := Find(s.view.entries, address.value.axonBitIdx);
    if found.Some? && address.value.timestep < s.timesteps {
      t, e := address.value.timestep, found.value.elemIdx;
      assert found.value in s.view.entries;
      CellEffect(s, t, e);
    }
  }

  lemma Addressed(targetLcn: nat, f: Frame)
    requires targetLcn <= TARGET_LCN_MAX
    ensures OutputFrameAddress(targetLcn, f).Some?
  {
  }

  /** Cells of different elements or timesteps are different bytes. */
  lemma SameCellOnce(s: Setup, t: nat, e: nat, t': nat, e': nat)
    requires s.stride > 0 && e < s.stride && e' < s.stride && Cell(t, s.stride, e) == Cell(t', s.stride, e')
    ensures t == t' && e == e'
  {
    DivMod(Cell(t, s.stride, e), s.stride, t, e);
    DivMod(Cell(t, s.stride, e), s.stride, t', e');
  }

  /** Address of a cell. */
  function At(s: Setup, t: nat, e: nat): nat { s.base + Cell(t, s.stride, e) }

  lemma AtInWindow(s: Setup, t: nat, e: nat)
    requires DataWindow(s) && t < s.timesteps && e < s.view.elementCount
    ensures At(s, t, e) < s.base + s.capacity
  {
    hide RowsFit, CellAt, TensorBytes;
    WindowFields(s);
    CellEffect(s, t, e);
  }

  /** One frame sets the byte of a cell it is for, and no other. */
  lemma FrameSetsCell(s: Setup, hasState: bool, st: Store, f: Frame, t: nat, e: nat)
    requires DataWindow(s) && Fits(s, st) && t < s.timesteps && e < s.view.elementCount
    ensures InWindow(s, FrameEffect(s, hasState, f)) && At(s, t, e) < |st.mem|
    ensures var r := Apply(s, st, FrameEffect(s, hasState, f));
            r.1 == CodecOk && r.0.mem[At(s, t, e)] == if Hits(s.view, t, e, f) then Carried(s.view, f) else st.mem[At(s, t, e)]
  {
    hide RowsFit, FrameEffect, Hits, Carried, Cell;
    WindowFields(s);
    EffectsInWindow(s, hasState, f);
    AtInWindow(s, t, e);
    if Hits(s.view, t, e, f) {
      HitWrites(s, hasState, f, t, e);
    } else {
      var t', e' := WriteHits(s, hasState, f);
      if FrameEffect(s, hasState, f) != Ignore {
        HitWrites(s, hasState, f, t', e');
        if At(s, t', e') == At(s, t, e) {
          SameCellOnce(s, t, e, t', e');
        }
      }
    }
  }

  // ------------------------------------------------------------- any stream

  /**
   The exact law of DATA decoding. Into any window that holds the tensor, every stream decodes without
   an error, and each cell ends as the last frame for it says.
   */
  lemma {:induction false} DecodedCell(s: Setup, hasState: bool, st: Store, frames: seq<Frame>, t: nat, e: nat)
    requires DataWindow(s) && Fits(s, st) && t < s.timesteps && e < s.view.elementCount
    ensures At(s, t, e) < |st.mem|
    ensures var r := DecodeAll(s, hasState, st, frames);
            r.1 == CodecOk && r.0.mem[At(s, t, e)] == LastByte(s.view, t, e, frames, st.mem[At(s, t, e)])
    decreases |frames|
  {
    hide DataWindow, FrameEffect, Hits, Carried, At, Apply, InWindow;
    AtInWindow(s, t, e);
    if frames != [] {
      var n := |frames| - 1;
      DecodedCell(s, hasState, st, frames[..n], t, e);
      assert frames == frames[..n] + [frames[n]];
      DecodeAppend(s, hasState, st, frames[..n], [frames[n]]);
      var before := DecodeAll(s, hasState, st, frames[..n]).0;
      FrameSetsCell(s, hasState, before, frames[n], t, e);
      DecodeOne(s, hasState, before, frames[n]);
    }
  }

  lemma DecodeOne(s: Setup, hasState: bool, st: Store, f: Frame)
    requires Fits(s, st)
    ensures InWindow(s, FrameEffect(s, hasState, f))
    ensures DecodeAll(s, hasState, st, [f]) == Apply(s, st, FrameEffect(s, hasState, f))
  {
    hide FrameEffect, Apply, InWindow;
    EffectsInWindow(s, hasState, f);
    var next := Apply(s, st, FrameEffect(s, hasState, f));
    assert [f][0] == f && [f][1..] == [];
    assert DecodeAll(s, hasState, next.0, []) == (next.0, CodecOk);
  }

  /** An empty mapping of unknown dtype accepts no stream but the empty one. */
  lemma NoDtypeNoFrames(s: Setup, hasState: bool, st: Store, frames: seq<Frame>)
    requires Fits(s, st) && s.view.kind == OUTPUT_DATA && DtypeInfo(s.view.dtype).None?
    ensures DecodeAll(s, hasState, st, frames) == (st, if frames == [] then CodecOk else CodecUnsupported)
  {
  }

  /** Every cell of the tensor holds the last value that arrived for it, and zero if none did. */
  ghost predicate HoldsLast(s: Setup, mem: seq<u8>, frames: seq<Frame>)
    requires DtypeInfo(s.view.dtype).Some?
  {
    forall t: nat, e: nat :: t < s.timesteps && e < s.view.elementCount ==>
      At(s, t, e) < |mem| && mem[At(s, t, e)] == LastByte(s.view, t, e, frames, 0)
  }

  lemma ZeroedCell(s: Setup, mem: seq<u8>, from: nat, count: nat, t: nat, e: nat)
    requires from + count <= |mem| && from <= At(s, t, e) < from + count
    ensures Zeroed(mem, from, count)[At(s, t, e)] == 0
  {
  }

  /**
   The public batch decoder: an accepted call on a valid view reports OK for every stream, leaves the
   last value of each cell, and changes no byte outside the tensor.
   */
  lemma BatchCells(view: OutputView, timing: Timing, base: nat, size: nat, mem: seq<u8>, frames: seq<Frame>)
    requires ValidOutputView(view) && base + size <= |mem| && size <= SIZE_MAX
    requires BatchCheck(view, timing, size) == CodecOk
    ensures DtypeInfo(view.dtype).Some? && 0 <= timing.timesteps * view.elementCount <= size
    ensures var r, bytes := Batch(view, timing, base, size, mem, frames), timing.timesteps * view.elementCount;
            && r.1 == CodecOk && |r.0| == |mem|
            && HoldsLast(BatchSetup(view, timing, base, size), r.0, frames)
            && forall a :: 0 <= a < |mem| && !(base <= a < base + bytes) ==> r.0[a] == mem[a]
  {
    hide DecodeAll, LastByte, At, TensorBytes, BatchCheck;
    var s := BatchSetup(view, timing, base, size);
    BatchWindow(view, timing, base, size);
    var bytes: nat := timing.timesteps * view.elementCount;
    var cleared := Store(Zeroed(mem, base, bytes), []);
    var end := DecodeAll(s, false, cleared, frames);
    BatchStays(s, cleared, frames, bytes);
    forall t: nat, e: nat | t < s.timesteps && e < view.elementCount
      ensures At(s, t, e) < |mem| && end.1 == CodecOk && end.0.mem[At(s, t, e)] == LastByte(view, t, e, frames, 0)
    {
      DecodedCell(s, false, cleared, frames, t, e);
      CompactCell(s, t, e);
      ZeroedCell(s, mem, base, bytes, t, e);
    }
    assert end.1 == CodecOk by {
      FirstCell(s);
      DecodedCell(s, false, cleared, frames, 0, 0);
    }
  }

  lemma FirstCell(s: Setup)
    requires DataWindow(s)
    ensures 0 < s.timesteps && 0 < s.view.elementCount
  {
  }

  lemma CompactCell(s: Setup, t: nat, e: nat)
    requires DataWindow(s) && s.stride == s.view.elementCount && t < s.timesteps && e < s.view.elementCount
    ensures s.base <= At(s, t, e) < s.base + TensorBytes(s)
  {
    hide RowsFit;
    CellEffect(s, t, e);
  }

  /** Outside the tensor nothing changes. */
  lemma BatchStays(s: Setup, st: Store, frames: seq<Frame>, bytes: nat)
    requires DataWindow(s) && Fits(s, st) && s.stride == s.view.elementCount && bytes == TensorBytes(s)
    ensures var r := DecodeAll(s, false, st, frames).0.mem;
            |r| == |st.mem| && forall a :: 0 <= a < |r| && !(s.base <= a < s.base + bytes) ==> r[a] == st.mem[a]
  {
    hide RowsFit, DecodeAll;
    DecodeGathered(s, st, frames);
    forall a | 0 <= a < |st.mem| && !(s.base <= a < s.base + bytes)
      ensures DecodeAll(s, false, st, frames).0.mem[a] == st.mem[a]
    {
      if InRows(s, s.timesteps, a) {
        RowsBelow(s, s.timesteps, a);
      }
    }
  }

  // ------------------------------------------------------------- one barrier

  /**
   A DATA handler, fast or generic, takes a stream exactly if no frame is late, and then every cell has
   the last value that came for it.
   */
  lemma DataFeed(layout: Layout, s: Setup, submitted: nat, st: Store, frames: seq<Frame>, t: nat, e: nat)
    requires DataWindow(s) && Fits(s, st) && LayoutSound(s.view, layout) && submitted <= s.timesteps
    requires t < s.timesteps && e < s.view.elementCount
    ensures At(s, t, e) < |st.mem|
    ensures var r := Feed(layout, s, submitted, st, frames);
            && (r.1 == SessionOk <==> InTime(layout, s.view, submitted, frames))
            && (r.1 == SessionOk ==> r.0.mem[At(s, t, e)] == LastByte(s.view, t, e, frames, st.mem[At(s, t, e)]))
  {
    hide RowsFit, Feed, DecodeAll, LayoutSound, InTime, LateWork, OtherKind, LastByte, At;
    KeysOf(s);
    FeedSucceedsIff(layout, s, submitted, st, frames);
    InTimeMeaning(layout, s.view, submitted, frames);
    DecodedCell(s, true, st, frames, t, e);
  }

  // ------------------------------------------------------------- a whole sample

  lemma ClearedAt(s: Setup, st: Store, t: nat, e: nat)
    requires DataWindow(s) && Fits(s, st) && t < s.timesteps && e < s.view.elementCount
    ensures At(s, t, e) < |st.mem| && ClearFrom(s, st, 0).mem[At(s, t, e)] == 0
  {
    hide RowsFit, ClearFrom, CellAt, TensorBytes;
    WindowFields(s);
    CellEffect(s, t, e);
    ClearedCell(s, st, 0, Cell(t, s.view.elementCount, e));
  }

  /** A successful DATA sample, with any stride and also in place: the law over all frames of all barriers. */
  lemma SampleCells(layout: Layout, s: Setup, st: Store, received: seq<seq<Frame>>)
    requires DataWindow(s) && Fits(s, st) && LayoutSound(s.view, layout)
    requires |received| >= s.timesteps && RunRows(layout, s, st, received).1 == SessionOk
    ensures HoldsLast(s, RunRows(layout, s, st, received).0.mem, Concat(received))
  {
    hide RowsFit, RunRows, DecodeAll, LayoutSound, ClearFrom, LastByte, At, Concat;
    IncrementalIsClearFirst(layout, s, st, received);
    ClearedAll(s, RunRows(layout, s, st, received).0);
    forall t: nat, e: nat | t < s.timesteps && e < s.view.elementCount
      ensures At(s, t, e) < |st.mem| &&
              RunRows(layout, s, st, received).0.mem[At(s, t, e)] == LastByte(s.view, t, e, Concat(received), 0)
    {
      DecodedCell(s, true, ClearFrom(s, st, 0), Concat(received), t, e);
      ClearedAt(s, st, t, e);
    }
  }

  /** A DATA run succeeds exactly if no barrier carried work for a row that was not yet submitted. */
  lemma DataRunIff(layout: Layout, s: Setup, st: Store, received: seq<seq<Frame>>)
    requires DataWindow(s) && Fits(s, st) && LayoutSound(s.view, layout)
    ensures RunRows(layout, s, st, received).1 == SessionOk <==> RunInTime(layout, s, received)
  {
    hide RowsFit, RunRows, DecodeAll, LayoutSound, Concat, RunInTime, At, LastByte;
    RunSucceedsIff(layout, s, st, received);
    WindowFields(s);
    DecodedCell(s, true, st, Concat(received), 0, 0);
  }

  lemma ClearedAll(s: Setup, st: Store)
    requires RowsFit(s) && Fits(s, st)
    ensures ClearFrom(s, st, s.timesteps) == st
  {
  }

  /** The law on the outcome of a successful sample call. */
  lemma DataOutcome(p: Plan, st: SessionState, start: Store, sent: seq<Frame>, rx: seq<RxItem>,
                    barriers: seq<seq<Frame>>, end: Store, sent': seq<Frame>, rx': seq<RxItem>)
    requires Accepted(p, |start.mem|) && Fits(p.setup, start) && DataWindow(p.setup)
    requires SampleOutcome(p, st, start, sent, rx, SessionOk, barriers, end, sent', rx')
    ensures |barriers| > 0 && HoldsLast(p.setup, end.mem, Concat(barriers[1..]))
  {
    hide RowsFit, LayoutSound, RegionsOverlap, RunRows, Concat, FullTransmission, SentPrefix, SameOutsideRows, DeliveredAll, HoldsLast;
    SampleCells(p.layout, p.setup, start, barriers[1..]);
  }

  // ------------------------------------------------------------- refusals

  /** Any view and any window: the one error a DATA frame can cause, and exactly when it does. */
  lemma RefusedFrame(s: Setup, hasState: bool, f: Frame)
    requires s.view.kind == OUTPUT_DATA && DtypeInfo(s.view.dtype).Some? && s.view.targetLcn <= TARGET_LCN_MAX
    ensures var w, a, d := FrameEffect(s, hasState, f), OutputFrameAddress(s.view.targetLcn, f), DtypeInfo(s.view.dtype).value;
            && a.Some? && !w.PutLane?
            && var o := Find(s.view.entries, a.value.axonBitIdx);
               w.Reject? <==>
                 && IsDataWork(f) && a.value.timestep < s.timesteps && o.Some?
                 && (o.value.elemIdx >= s.stride
                     || Cell(a.value.timestep, s.stride, o.value.elemIdx) > SIZE_MAX
                     || ((d.signed || f.low % 0x100 < Pow2(d.bits)) &&
                         Cell(a.value.timestep, s.stride, o.value.elemIdx) >= s.capacity))
    ensures FrameEffect(s, hasState, f).Reject? ==> FrameEffect(s, hasState, f) == Reject(CodecOutOfRange)
  {
    hide OutputFrameAddress, DecodePayload, IsDataWork, Pow2, Find;
    Addressed(s.view.targetLcn, f);
    var address := OutputFrameAddress(s.view.targetLcn, f).value;
    var o := Find(s.view.entries, address.axonBitIdx);
    if o.Some? && s.stride > 0 {
      AtMostQuotient(address.timestep, s.stride, SIZE_MAX - o.value.elemIdx);
    }
  }

  // ------------------------------------------------------------- dtypes on both sides

  /** Sent by this entry at timestep t, the value is written to the entry's own cell, if it can be sent at all. */
  predicate ValueArrives(e: InputEntry, s: Setup, t: nat, raw: u8)
    requires BuildableEntry(e) && DtypeInfo(e.dtype).Some?
  {
    DtypeWidths(e.dtype);
    var p := EncodePayload(raw, DtypeInfo(e.dtype).value);
    if p.None? then true
    else
      BuildWork1Meaning(e, t, p.value);
      FrameEffect(s, false, BuildWork1Frame(e, t, p.value).frame) == PutByte(Cell(t, s.stride, e.elemIdx), raw)
  }

  /** The wire of an input entry ends at its own element of the window. */
  ghost predicate Wired(e: InputEntry, s: Setup, t: nat) {
    && BuildableEntry(e) && e.targetLcn == s.view.targetLcn && LowBits(t, 8 - e.targetLcn) == t
    && exists o :: o in s.view.entries && o.axonBitIdx == EntryKey(e) && o.elemIdx == e.elemIdx
  }

  lemma WiredFrame(e: InputEntry, s: Setup, t: nat, p: u8)
    requires DataWindow(s) && t < s.timesteps && Wired(e, s, t)
    ensures BuildWork1Frame(e, t, p).Built? && e.elemIdx < s.view.elementCount
    ensures var f, d := BuildWork1Frame(e, t, p).frame, DtypeInfo(s.view.dtype).value;
            f.low % 0x100 == p && (d.signed || p < Pow2(d.bits) ==> Hits(s.view, t, e.elemIdx, f))
  {
    hide RowsFit, BitOr, Pow2, Shl, EncodedTimestep, RouteCode, OutputFrameAddress, BuildWork1Frame, IsDataWork;
    WindowFields(s);
    BuildWork1Meaning(e, t, p);
    AddressInvertsBuild(e, t, p);
  }

  /**
   The exact condition on the two dtypes of a wire of one width: every value that can be sent arrives if
   and only if both sides have the same sign or eight bits.
   */
  lemma ValuesArriveIff(e: InputEntry, s: Setup, t: nat)
    requires DataWindow(s) && t < s.timesteps && Wired(e, s, t)
    requires DtypeInfo(e.dtype).Some? && DtypeInfo(e.dtype).value.bits == DtypeInfo(s.view.dtype).value.bits
    ensures (forall raw: u8 :: ValueArrives(e, s, t, raw)) <==> Interchangeable(e.dtype, s.view.dtype)
  {
    hide RowsFit, BuildWork1Frame, Hits, EncodePayload, DecodePayload, FrameEffect, Cell, Pow2, ReadsBack, Interchangeable;
    var d, v := DtypeInfo(e.dtype).value, DtypeInfo(s.view.dtype).value;
    ReadBackIff(e.dtype, s.view.dtype);
    forall raw: u8
      ensures ValueArrives(e, s, t, raw) <==> ReadsBack(raw, d, v)
    {
      ArrivesAsRead(e, s, t, raw);
    }
  }

  lemma ArrivesAsRead(e: InputEntry, s: Setup, t: nat, raw: u8)
    requires DataWindow(s) && t < s.timesteps && Wired(e, s, t)
    requires DtypeInfo(e.dtype).Some? && DtypeInfo(e.dtype).value.bits == DtypeInfo(s.view.dtype).value.bits
    ensures 1 <= DtypeInfo(e.dtype).value.bits <= 8
    ensures ValueArrives(e, s, t, raw) <==> ReadsBack(raw, DtypeInfo(e.dtype).value, DtypeInfo(s.view.dtype).value)
  {
    hide RowsFit, BuildWork1Frame, Hits, EncodePayload, DecodePayload, FrameEffect, Cell, Pow2;
    DtypeWidths(e.dtype);
    var d := DtypeInfo(e.dtype).value;
    PayloadRoundTrip(raw, d);
    var p := EncodePayload(raw, d);
    if p.Some? {
      WiredFrame(e, s, t, p.value);
      HitWrites(s, false, BuildWork1Frame(e, t, p.value).frame, t, e.elemIdx);
    }
  }
}
