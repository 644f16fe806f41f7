/** What a VOLTAGE sample leaves in each output element, in terms of the lane frames that arrived for it. */
module VoltageSample {
  import opened Bits
  import opened Artifact
  import opened FrameCodec
  import opened OutputDecoder
  import opened FrameHandlers
  import opened SessionSpec
  import opened SampleRows
  import opened SamplePlan
  import opened SampleRun
  import opened VoltageLanes

  ghost predicate VoltageSetup(s: Setup) {
    RowsFit(s) && s.view.kind == OUTPUT_VOLTAGE
  }

  function Cells(s: Setup): nat {
    MulMono(0, s.timesteps, s.view.elementCount);
    s.timesteps * s.view.elementCount
  }

  /** First byte of the slot that lane state i describes. */
  function SlotAddress(s: Setup, i: nat): nat
    requires s.view.elementCount > 0
  {
    MulMono(0, i / s.view.elementCount, s.stride);
    s.base + i / s.view.elementCount * s.stride + 4 * (i % s.view.elementCount)
  }

  function LaneLayout(s: Setup): (layout: seq<nat>)
    requires s.view.elementCount > 0
    ensures |layout| == Cells(s)
  {
    seq(Cells(s), i requires 0 <= i < Cells(s) => SlotAddress(s, i))
  }

  /** The lane state a sample uses; a longer buffer's tail is never touched. */
  function Narrow(s: Setup, st: Store): Store
    requires Cells(s) <= |st.lanes|
  {
    Store(st.mem, st.lanes[..Cells(s)])
  }

  /** The lane frames among the received frames, as the slots see them. */
  function LaneOps(s: Setup, frames: seq<Frame>): seq<LaneOp> {
    if frames == [] then []
    else
      match FrameEffect(s, true, frames[0])
      case PutLane(_, state, lane, payload) => [LaneOp(state, lane, payload)] + LaneOps(s, frames[1..])
      case _ => LaneOps(s, frames[1..])
  }

  lemma SlotsApart(s: Setup, i: nat, j: nat)
    requires VoltageSetup(s) && i < j < Cells(s)
    ensures SlotAddress(s, i) + 4 <= SlotAddress(s, j)
  {
    hide RowsFit;
    StateFits(s);
    var n, w: nat := s.view.elementCount, s.stride;
    RowMajor(i, s.timesteps, n);
    RowMajor(j, s.timesteps, n);
    QuotientOrder(i, j, n);
    RowMajorApart(i / n, i % n, j / n, j % n, 4, n, w);
  }

  lemma SlotInWindow(s: Setup, i: nat)
    requires VoltageSetup(s) && i < Cells(s)
    ensures SlotAddress(s, i) + 4 <= s.base + s.capacity
  {
    hide RowsFit;
    StateFits(s);
    RowMajor(i, s.timesteps, s.view.elementCount);
    RowFits(s, i / s.view.elementCount);
  }

  lemma LayoutValid(s: Setup, st: Store)
    requires VoltageSetup(s) && Fits(s, st)
    ensures Cells(s) <= |st.lanes| && ValidLayout(LaneLayout(s), Narrow(s, st))
  {
    hide RowsFit;
    assert Cells(s) <= |st.lanes| by {
      StateFits(s);
    }
    forall i | 0 <= i < Cells(s)
      ensures SlotAddress(s, i) + 4 <= |st.mem|
    {
      SlotInWindow(s, i);
    }
    forall i, j | 0 <= i < j < Cells(s)
      ensures SlotAddress(s, i) + 4 <= SlotAddress(s, j)
    {
      SlotsApart(s, i, j);
    }
  }

  lemma StateFits(s: Setup)
    requires VoltageSetup(s)
    ensures Cells(s) <= s.stateCount && s.view.elementCount > 0
    ensures 4 * s.view.elementCount <= s.stride && RowBytes(s.view) == 4 * s.view.elementCount && s.stride % 4 == 0
  {
  }

  /** The slot and the lane state of one frame belong together. */
  lemma LaneFrameSlot(s: Setup, frame: Frame)
    requires VoltageSetup(s)
    ensures var e := FrameEffect(s, true, frame);
            && !e.PutByte?
            && (e.PutLane? ==> e.state < Cells(s) && e.lane < 4 && SlotAddress(s, e.state) == s.base + 4 * e.slot)
  {
    hide OutputFrameAddress, Find, IsVoltageWork, LaneBase, Cell, SlotAddress, Cells;
    StateFits(s);
    var e := FrameEffect(s, true, frame);
    if e.PutLane? {
      var address := OutputFrameAddress(s.view.targetLcn, frame).value;
      FindSound(s.view.entries, LaneBase(address.axonBitIdx));
      SlotOfElement(s, address.timestep, Find(s.view.entries, LaneBase(address.axonBitIdx)).value.elemIdx);
    }
  }

  lemma SlotOfElement(s: Setup, t: nat, elem: nat)
    requires s.view.elementCount > elem && s.stride % 4 == 0 && t < s.timesteps
    ensures Cell(t, s.view.elementCount, elem) < Cells(s)
    ensures SlotAddress(s, Cell(t, s.view.elementCount, elem)) == s.base + 4 * Cell(t, s.stride / 4, elem)
  {
    var n: nat := s.view.elementCount;
    WordCell(t, s.stride, elem);
    DivMod(t * n + elem, n, t, elem);
    MulMono(t + 1, s.timesteps, n);
    assert (t + 1) * n == t * n + n;
  }

  /** Decoding VOLTAGE frames without an error is running their lanes; every lane was accepted. */
  lemma {:induction false} DecodeIsLaneRun(s: Setup, st: Store, frames: seq<Frame>)
    requires VoltageSetup(s) && Fits(s, st) && DecodeAll(s, true, st, frames).1 == CodecOk
    ensures Cells(s) <= |st.lanes| && ValidLayout(LaneLayout(s), Narrow(s, st))
    ensures ValidOps(LaneLayout(s), LaneOps(s, frames))
    ensures LanesAccepted(LaneLayout(s), Narrow(s, st), LaneOps(s, frames))
    ensures Narrow(s, DecodeAll(s, true, st, frames).0) == RunLanes(LaneLayout(s), Narrow(s, st), LaneOps(s, frames))
    decreases |frames|
  {
    hide FrameEffect, VoltageSetup, StoreLane, LaneLayout, ValidLayout;
    LayoutValid(s, st);
    StateFits(s);
    if frames != [] {
      var e := FrameEffect(s, true, frames[0]);
      LaneFrameSlot(s, frames[0]);
      EffectsInWindow(s, true, frames[0]);
      var next := Apply(s, st, e).0;
      DecodeIsLaneRun(s, next, frames[1..]);
      LayoutAt(s);
      if e.PutLane? {
        var op, rest := LaneOp(e.state, e.lane, e.payload), LaneOps(s, frames[1..]);
        NarrowStore(s, st, s.base + 4 * e.slot, e.state, e.lane, e.payload);
        assert LaneOps(s, frames)[0] == op && LaneOps(s, frames)[1..] == rest;
      }
    }
  }

  lemma LayoutAt(s: Setup)
    requires s.view.elementCount > 0
    ensures forall i :: 0 <= i < Cells(s) ==> LaneLayout(s)[i] == SlotAddress(s, i)
  {
  }

  lemma NarrowStore(s: Setup, st: Store, at: nat, state: nat, lane: nat, payload: u8)
    requires Cells(s) <= |st.lanes| && at + 4 <= |st.mem| && state < Cells(s) && lane < 4
    ensures var wide, narrow := StoreLane(st, at, state, lane, payload), StoreLane(Narrow(s, st), at, state, lane, payload);
            Narrow(s, wide.0) == narrow.0 && wide.1 == narrow.1
  {
    hide OrBytes, HasLane, LaneBit;
  }

  // ------------------------------------------------------------- accepted lanes are distinct

  ghost predicate LanesAccepted(layout: seq<nat>, st: Store, ops: seq<LaneOp>)
    requires ValidLayout(layout, st) && ValidOps(layout, ops)
    decreases |ops|
  {
    ops != [] ==>
      var r := StoreLane(st, layout[ops[0].slot], ops[0].slot, ops[0].lane, ops[0].payload);
      r.1 == CodecOk && ValidLayout(layout, r.0) && LanesAccepted(layout, r.0, ops[1..])
  }

  /** No lane repeats before its value is complete. */
  predicate SlotAccepted(m: SlotModel, ops: seq<LaneOp>)
    decreases |ops|
  {
    ops != [] ==> ops[0].lane !in m.pending && SlotAccepted(SlotStep(m, ops[0].lane, ops[0].payload), ops[1..])
  }

  lemma {:induction false} AcceptedSlot(layout: seq<nat>, st: Store, ops: seq<LaneOp>, i: nat, m: SlotModel)
    requires ValidLayout(layout, st) && ValidOps(layout, ops) && i < |layout|
    requires Represents(st.lanes[i], SlotBytes(layout, st, i), m) && LanesAccepted(layout, st, ops)
    ensures SlotAccepted(m, Project(ops, i))
    decreases |ops|
  {
    hide Represents, StoreLane, SlotStep;
    if ops != [] {
      var op := ops[0];
      var next := StoreLane(st, layout[op.slot], op.slot, op.lane, op.payload).0;
      if op.slot == i {
        StoreLaneRefines(layout, st, op, m);
        assert ([op] + Project(ops[1..], i))[1..] == Project(ops[1..], i);
        AcceptedSlot(layout, next, ops[1..], i, SlotStep(m, op.lane, op.payload));
      } else {
        OtherSlotsKeep(layout, st, op, i);
        assert Project(ops, i) == Project(ops[1..], i);
        AcceptedSlot(layout, next, ops[1..], i, m);
      }
    }
  }

  lemma FourAcceptedDistinct(m: SlotModel, ops: seq<LaneOp>)
    requires m.pending == map[] && SlotAccepted(m, ops) && |ops| == 4
    requires forall op :: op in ops ==> op.lane < 4
    ensures DistinctLanes(ops)
  {
    var a, b, c, d := ops[0], ops[1], ops[2], ops[3];
    assert a in ops && b in ops && c in ops && d in ops;
    var m1 := SlotStep(m, a.lane, a.payload);
    var m2 := SlotStep(m1, b.lane, b.payload);
    var m3 := SlotStep(m2, c.lane, c.payload);
    assert ops[1..][0] == b && ops[1..][1..] == ops[2..] && ops[2..][0] == c && ops[2..][1..] == ops[3..] && ops[3..][0] == d;
    assert SlotAccepted(m1, ops[1..]) && SlotAccepted(m2, ops[2..]) && SlotAccepted(m3, ops[3..]);
    assert m1.pending == map[a.lane := a.payload];
    assert b.lane != a.lane && m2.pending == map[a.lane := a.payload, b.lane := b.payload];
    assert c.lane != a.lane && c.lane != b.lane && m3.pending == map[a.lane := a.payload, b.lane := b.payload, c.lane := c.payload];
  }

  // ------------------------------------------------------------- accepted lanes come in fours

  /** A run may be cut anywhere. */
  lemma {:induction false} SplitRun(m: SlotModel, ops: seq<LaneOp>, k: nat)
    requires k <= |ops|
    ensures SlotRun(m, ops) == SlotRun(SlotRun(m, ops[..k]), ops[k..])
    ensures SlotAccepted(m, ops) <==> SlotAccepted(m, ops[..k]) && SlotAccepted(SlotRun(m, ops[..k]), ops[k..])
    decreases k
  {
    hide SlotStep;
    if k == 0 {
      assert ops[k..] == ops;
    } else {
      SplitRun(SlotStep(m, ops[0].lane, ops[0].payload), ops[1..], k - 1);
      assert ops[..k][0] == ops[0] && ops[..k][1..] == ops[1..][..k - 1];
      assert ops[1..][k - 1..] == ops[k..];
    }
  }

  /** The lanes of the last value that was completed. */
  function LastValue(ops: seq<LaneOp>): (four: seq<LaneOp>)
    requires |ops| >= 4
    ensures |four| == 4
  {
    var k := |ops| - |ops| % 4;
    ops[k - 4..k]
  }

  /** Four accepted lanes complete a value, so after the last multiple of four the slot is idle. */
  lemma {:induction false} AcceptedFours(m: SlotModel, ops: seq<LaneOp>)
    requires m.pending == map[] && SlotAccepted(m, ops) && |ops| % 4 == 0 && |ops| > 0
    requires forall op :: op in ops ==> op.lane < 4
    ensures var r, four := SlotRun(m, ops), ops[|ops| - 4..];
            && r.pending == map[] && |r.value| == 4 && DistinctLanes(four)
            && forall k :: 0 <= k < 4 ==> four[k].lane < 4 && r.value[four[k].lane] == four[k].payload
  {
    hide SlotRun, SlotStep, SlotAccepted, DistinctLanes;
    var n := |ops| - 4;
    SplitRun(m, ops, n);
    var mid, four := SlotRun(m, ops[..n]), ops[n..];
    assert forall op :: op in ops[..n] || op in four ==> op in ops;
    if n > 0 {
      AcceptedFours(m, ops[..n]);
    } else {
      EmptyRun(m, ops[..n]);
    }
    FourAcceptedDistinct(mid, four);
    SlotRunPending(mid, four);
    assert four[0] in four && four[1] in four && four[2] in four && four[3] in four;
  }

  lemma EmptyRun(m: SlotModel, ops: seq<LaneOp>)
    requires ops == []
    ensures SlotRun(m, ops) == m
  {
  }

  // ------------------------------------------------------------- the sample's values

  /** Value of an int32 whose lanes have this sum. */
  function Signed(sum: int): int { if sum >= 0x8000_0000 then sum - 0x1_0000_0000 else sum }

  /** A cleared slot that has received nothing. */
  const ZERO_SLOT: SlotModel := SlotModel(map[], [0, 0, 0, 0])

  /** A successful lane run on an idle slot leaves what the slot's own lanes say, and repeats none early. */
  lemma RunState(layout: seq<nat>, st: Store, ops: seq<LaneOp>, i: nat)
    requires ValidLayout(layout, st) && ValidOps(layout, ops) && i < |layout| && st.lanes[i] == 0
    requires LanesAccepted(layout, st, ops)
    ensures var end, m := RunLanes(layout, st, ops), SlotModel(map[], SlotBytes(layout, st, i));
            Represents(end.lanes[i], SlotBytes(layout, end, i), SlotRun(m, Project(ops, i))) && SlotAccepted(m, Project(ops, i))
    ensures forall op :: op in Project(ops, i) ==> op.lane < 4
  {
    hide StoreLane, Represents;
    var m := SlotModel(map[], SlotBytes(layout, st, i));
    ClearedSlot(m.value);
    ProjectSound(ops, i);
    AcceptedSlot(layout, st, ops, i, m);
    LanesAssemble(layout, st, ops, i, m);
  }

  /** The same for a stream of frames, slot by address. */
  lemma DecodedState(s: Setup, st: Store, frames: seq<Frame>, i: nat)
    requires VoltageSetup(s) && Fits(s, st) && DecodeAll(s, true, st, frames).1 == CodecOk
    requires i < Cells(s) <= |st.lanes| && st.lanes[i] == 0
    ensures SlotAddress(s, i) + 4 <= |st.mem|
    ensures var end, mine, at := DecodeAll(s, true, st, frames).0, Project(LaneOps(s, frames), i), SlotAddress(s, i);
            var m := SlotModel(map[], st.mem[at..at + 4]);
            && Represents(end.lanes[i], end.mem[at..at + 4], SlotRun(m, mine)) && SlotAccepted(m, mine)
            && forall op :: op in mine ==> op.lane < 4
  {
    hide VoltageSetup, DecodeAll, LaneOps, RunLanes, LaneLayout, ValidLayout, ValidOps, LanesAccepted, SlotAddress, Represents;
    StateFits(s);
    DecodeIsLaneRun(s, st, frames);
    LayoutAt(s);
    SlotInWindow(s, i);
    RunState(LaneLayout(s), Narrow(s, st), LaneOps(s, frames), i);
  }

  /**
   A successful VOLTAGE sample, for every element and whatever arrived for it, in whatever order and
   interleaving over all barriers. The element's mask and bytes are exactly what its own lane frames
   leave in a cleared slot: pending lanes in their bytes over zeros, or the last completed value. No
   lane was repeated within a value.
   */
  lemma VoltageSampleValue(layout: Layout, s: Setup, st: Store, received: seq<seq<Frame>>, i: nat)
    requires VoltageSetup(s) && Fits(s, st) && LayoutSound(s.view, layout)
    requires |received| >= s.timesteps && RunRows(layout, s, st, received).1 == SessionOk
    requires i < Cells(s) <= |st.lanes| && st.lanes[i] == 0
    ensures SlotAddress(s, i) + 4 <= |st.mem|
    ensures var end, mine, at := RunRows(layout, s, st, received).0, Project(LaneOps(s, Concat(received)), i), SlotAddress(s, i);
            && Represents(end.lanes[i], end.mem[at..at + 4], SlotRun(ZERO_SLOT, mine)) && SlotAccepted(ZERO_SLOT, mine)
            && forall op :: op in mine ==> op.lane < 4
  {
    hide RowsFit, LayoutSound, RunRows, DecodeAll, LaneOps, Project, SlotAddress, Cells, Represents;
    IncrementalIsClearFirst(layout, s, st, received);
    ClearedLanes(s, st, 0);
    ClearedBytes(s, st, 0, i);
    DecodedState(s, ClearFrom(s, st, 0), Concat(received), i);
  }

  /** The same on the outcome of a successful sample call, whose lane state the runner has cleared. */
  lemma VoltageOutcome(p: Plan, st: SessionState, start: Store, sent: seq<Frame>, rx: seq<RxItem>,
                       barriers: seq<seq<Frame>>, end: Store, sent': seq<Frame>, rx': seq<RxItem>, i: nat)
    requires Accepted(p, |start.mem|) && Fits(p.setup, start) && VoltageSetup(p.setup)
    requires SampleOutcome(p, st, start, sent, rx, SessionOk, barriers, end, sent', rx')
    requires i < Cells(p.setup) <= |start.lanes| && start.lanes[i] == 0
    ensures |barriers| > 0 && SlotAddress(p.setup, i) + 4 <= |end.mem| && i < |end.lanes|
    ensures var mine, at := Project(LaneOps(p.setup, Concat(barriers[1..])), i), SlotAddress(p.setup, i);
            && Represents(end.lanes[i], end.mem[at..at + 4], SlotRun(ZERO_SLOT, mine)) && SlotAccepted(ZERO_SLOT, mine)
            && forall op :: op in mine ==> op.lane < 4
  {
    hide RowsFit, LayoutSound, RegionsOverlap, RunRows, LaneOps, Project, SlotAddress, Cells, Represents, Concat, FullTransmission,
         SentPrefix, SameOutsideRows, DeliveredAll;
    VoltageSampleValue(p.layout, p.setup, start, barriers[1..], i);
  }

  /**
   What an element holds after these lanes: zero if there were none, idle with the little-endian value
   of the last four after a multiple of four, and otherwise the lanes since then pending, each in its
   byte with the other bytes zero.
   */
  ghost predicate Assembled(mask: u8, bytes: seq<u8>, mine: seq<LaneOp>)
    requires |bytes| == 4
  {
    var tail := mine[|mine| - |mine| % 4..];
    && (mine == [] ==> mask == 0 && bytes == [0, 0, 0, 0])
    && (|mine| % 4 == 0 && |mine| > 0 ==> mask == 0 && Int32(bytes) == Signed(LaneSum(LastValue(mine))))
    && (|mine| % 4 != 0 ==>
          && (forall k :: 0 <= k < |tail| ==> tail[k].lane < 4 && HasLane(mask, tail[k].lane) && bytes[tail[k].lane] == tail[k].payload)
          && (forall lane :: 0 <= lane < 4 && (forall k :: 0 <= k < |tail| ==> tail[k].lane != lane) ==>
                !HasLane(mask, lane) && bytes[lane] == 0))
  }

  /** After a multiple of four the element is idle. */
  lemma IdleElement(mask: u8, bytes: seq<u8>, mine: seq<LaneOp>)
    requires |bytes| == 4 && Represents(mask, bytes, SlotRun(ZERO_SLOT, mine)) && SlotAccepted(ZERO_SLOT, mine)
    requires |mine| % 4 == 0 && forall op :: op in mine ==> op.lane < 4
    ensures mask == 0
    ensures if mine == [] then bytes == [0, 0, 0, 0] else Int32(bytes) == Signed(LaneSum(LastValue(mine)))
  {
    hide SlotRun, SlotStep, Int32, LaneSum, HasLane, SlotAccepted, Represents, Signed, Unsigned32;
    var r := SlotRun(ZERO_SLOT, mine);
    if mine == [] {
      EmptyRun(ZERO_SLOT, mine);
      IdleValue(mask, r, bytes);
    } else {
      AcceptedFours(ZERO_SLOT, mine);
      IdleValue(mask, r, bytes);
      var four := mine[|mine| - 4..];
      assert four == LastValue(mine);
      SumOfLanes(bytes, four);
      SignedValue(bytes);
    }
  }

  lemma IdleValue(mask: u8, m: SlotModel, bytes: seq<u8>)
    requires |bytes| == 4 && Represents(mask, bytes, m) && m.pending == map[]
    ensures mask == 0 && bytes == m.value
  {
    hide HasLane;
    IdleMask(mask, m, bytes);
  }

  /** Otherwise the lanes since the last multiple of four are pending. */
  lemma PendingElement(mask: u8, bytes: seq<u8>, mine: seq<LaneOp>)
    requires |bytes| == 4 && Represents(mask, bytes, SlotRun(ZERO_SLOT, mine)) && SlotAccepted(ZERO_SLOT, mine)
    requires |mine| % 4 != 0 && forall op :: op in mine ==> op.lane < 4
    ensures var tail := mine[|mine| - |mine| % 4..];
            && (forall k :: 0 <= k < |tail| ==> tail[k].lane < 4 && HasLane(mask, tail[k].lane) && bytes[tail[k].lane] == tail[k].payload)
            && (forall lane :: 0 <= lane < 4 && (forall k :: 0 <= k < |tail| ==> tail[k].lane != lane) ==>
                  !HasLane(mask, lane) && bytes[lane] == 0)
  {
    hide SlotRun, SlotStep, HasLane, SlotAccepted, Represents;
    var n := |mine| - |mine| % 4;
    SplitRun(ZERO_SLOT, mine, n);
    var mid, tail := SlotRun(ZERO_SLOT, mine[..n]), mine[n..];
    assert forall op :: op in mine[..n] || op in tail ==> op in mine;
    if n > 0 {
      AcceptedFours(ZERO_SLOT, mine[..n]);
    } else {
      EmptyRun(ZERO_SLOT, mine[..n]);
    }
    PendingLanes(mid, tail);
    var p := SlotRun(mid, tail).pending;
    assert tail[0].lane in p;
    PendingBytes(mask, bytes, SlotRun(mid, tail));
    forall k | 0 <= k < |tail|
      ensures tail[k].lane < 4 && tail[k].lane in p && p[tail[k].lane] == tail[k].payload
    {
      assert tail[k] in tail;
    }
  }

  /** Mask and bytes of an element whose lanes were accepted. */
  lemma ElementValue(mask: u8, bytes: seq<u8>, mine: seq<LaneOp>)
    requires |bytes| == 4 && Represents(mask, bytes, SlotRun(ZERO_SLOT, mine)) && SlotAccepted(ZERO_SLOT, mine)
    requires forall op :: op in mine ==> op.lane < 4
    ensures Assembled(mask, bytes, mine)
  {
    hide SlotRun, SlotAccepted, Represents, Int32, LaneSum, HasLane;
    if |mine| % 4 == 0 {
      IdleElement(mask, bytes, mine);
    } else {
      PendingElement(mask, bytes, mine);
    }
  }

  lemma SignedValue(bytes: seq<u8>)
    requires |bytes| == 4
    ensures Int32(bytes) == Signed(Unsigned32(bytes))
  {
  }

  /** Fewer than four accepted lanes after a completed value are all pending. */
  lemma {:induction false} PendingLanes(m: SlotModel, ops: seq<LaneOp>)
    requires m.pending == map[] && SlotAccepted(m, ops) && |ops| < 4
    requires forall op :: op in ops ==> op.lane < 4
    ensures var p := SlotRun(m, ops).pending;
            && |p| == |ops|
            && (forall k :: 0 <= k < |ops| ==> ops[k].lane in p && p[ops[k].lane] == ops[k].payload)
            && (forall lane :: lane in p ==> exists k :: 0 <= k < |ops| && ops[k].lane == lane)
  {
    if ops == [] {
    } else {
      var n := |ops| - 1;
      var last := ops[n];
      SplitRun(m, ops, n);
      PendingLanes(m, ops[..n]);
      var before := SlotRun(m, ops[..n]);
      assert last in ops && ops[n..] == [last] && ops[n..][1..] == [];
      assert SlotRun(before, ops[n..]) == SlotStep(before, last.lane, last.payload);
      NotComplete(before.pending[last.lane := last.payload]);
      assert forall k :: 0 <= k < n ==> ops[..n][k] == ops[k];
    }
  }

  lemma NotComplete(p: map<nat, u8>)
    requires |p| < 4
    ensures !(0 in p && 1 in p && 2 in p && 3 in p)
  {
    if 0 in p && 1 in p && 2 in p && 3 in p {
      assert {0, 1, 2, 3} <= p.Keys;
      SubsetSize({0, 1, 2, 3}, p.Keys);
    }
  }

  lemma {:induction false} SubsetSize(a: set<nat>, b: set<nat>)
    requires a <= b
    ensures |a| <= |b|
  {
    assert b == a + (b - a);
  }

  lemma PendingBytes(mask: u8, bytes: seq<u8>, m: SlotModel)
    requires |bytes| == 4 && Represents(mask, bytes, m) && m.pending != map[]
    ensures forall lane :: 0 <= lane < 4 ==> (HasLane(mask, lane) <==> lane in m.pending)
    ensures forall lane :: 0 <= lane < 4 ==> bytes[lane] == if lane in m.pending then m.pending[lane] else 0
  {
    hide HasLane;
    EmptyMask();
    var lane :| lane in m.pending;
    assert HasLane(mask, lane);
  }

  lemma {:induction false} ClearedLanes(s: Setup, st: Store, k: nat)
    requires RowsFit(s) && Fits(s, st) && k <= s.timesteps
    ensures ClearFrom(s, st, k).lanes == st.lanes
    decreases s.timesteps - k
  {
    if k < s.timesteps {
      ClearedLanes(s, ClearRow(s, st, k), k + 1);
    }
  }

  /** Clearing every row from k leaves each of their slots zero. */
  lemma {:induction false} ClearedBytes(s: Setup, st: Store, k: nat, i: nat)
    requires VoltageSetup(s) && Fits(s, st) && k <= s.timesteps && i < Cells(s)
    requires k == 0 || i / s.view.elementCount >= k ||
             (SlotAddress(s, i) + 4 <= |st.mem| && st.mem[SlotAddress(s, i)..SlotAddress(s, i) + 4] == [0, 0, 0, 0])
    ensures SlotAddress(s, i) + 4 <= |st.mem|
    ensures ClearFrom(s, st, k).mem[SlotAddress(s, i)..SlotAddress(s, i) + 4] == [0, 0, 0, 0]
    decreases s.timesteps - k
  {
    hide RowsFit, SlotAddress, ClearRow;
    StateFits(s);
    RowMajor(i, s.timesteps, s.view.elementCount);
    SlotInWindow(s, i);
    if k < s.timesteps {
      ClearedSlotBytes(s, st, k, i);
      ClearedBytes(s, ClearRow(s, st, k), k + 1, i);
    }
  }

  lemma ClearedSlotBytes(s: Setup, st: Store, k: nat, i: nat)
    requires VoltageSetup(s) && Fits(s, st) && k < s.timesteps && i < Cells(s)
    ensures var at := SlotAddress(s, i);
            at + 4 <= |st.mem| &&
            var c := ClearRow(s, st, k).mem;
            && (i / s.view.elementCount == k ==> c[at..at + 4] == [0, 0, 0, 0])
            && (st.mem[at..at + 4] == [0, 0, 0, 0] ==> c[at..at + 4] == [0, 0, 0, 0])
  {
    hide RowsFit;
    StateFits(s);
    RowMajor(i, s.timesteps, s.view.elementCount);
    SlotInWindow(s, i);
    RowFits(s, k);
    var at, c := SlotAddress(s, i), ClearRow(s, st, k).mem;
    if st.mem[at..at + 4] == [0, 0, 0, 0] {
      assert st.mem[at..at + 4][0] == 0 && st.mem[at..at + 4][1] == 0 && st.mem[at..at + 4][2] == 0 && st.mem[at..at + 4][3] == 0;
    }
  }
}
