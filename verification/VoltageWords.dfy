/**
 VOLTAGE decoding stated on the frames that arrived: which lane of which element a frame carries, when
 a stream is accepted, and the int32 every element ends with.
 */
module VoltageWords {
  import opened Bits
  import opened Artifact
  import opened FrameCodec
  import opened OutputDecoder
  import opened FrameHandlers
  import opened SessionSpec
  import opened SampleRows
  import opened SamplePlan
  import opened SampleRun
  import opened VoltageLanes
  import opened VoltageSample

  /** A VOLTAGE work frame for lane k of element e at timestep t: its key is 8 * k above the element's. */
  ghost predicate Carries(view: OutputView, t: nat, e: nat, k: nat, f: Frame) {
    && k < 4 && IsVoltageWork(f)
    && exists o :: o in view.entries && o.elemIdx == e && o.axonBitIdx / 8 % 4 == 0 &&
                   OutputFrameAddress(view.targetLcn, f) == Some(Address(t, o.axonBitIdx + 8 * k))
  }

  // ------------------------------------------------------------- one frame

  lemma LaneOfKey(key: nat, k: nat)
    requires key / 8 % 4 == 0 && k < 4
    ensures (key + 8 * k) / 8 % 4 == k && LaneBase(key + 8 * k) == key
  {
    DivMod(key + 8 * k, 8, key / 8 + k, key % 8);
    DivMod(key / 8 + k, 4, key / 8 / 4, k);
  }

  lemma KeyOfLane(axon: nat)
    ensures LaneBase(axon) / 8 % 4 == 0 && axon / 8 % 4 < 4 && axon == LaneBase(axon) + 8 * (axon / 8 % 4)
  {
    var lane := axon / 8 % 4;
    DivMod(axon - 8 * lane, 8, axon / 8 - lane, axon % 8);
    DivMod(axon / 8 - lane, 4, axon / 8 / 4, 0);
  }

  lemma EntriesOf(s: Setup)
    requires VoltageSetup(s)
    ensures KeysIncrease(s.view.entries) && s.view.targetLcn <= TARGET_LCN_MAX && s.view.dtype == DTYPE_VOLTAGE_INT32
    ensures s.stride % 4 == 0 && s.capacity % 4 == 0 && s.view.elementCount > 0 && s.timesteps > 0
    ensures forall o :: o in s.view.entries ==> o.elemIdx < s.view.elementCount
  {
  }

  /** A frame for a lane stores its payload as that lane of the element's slot. */
  lemma LaneStores(s: Setup, f: Frame, t: nat, e: nat, k: nat)
    requires VoltageSetup(s) && t < s.timesteps && e < s.view.elementCount && Carries(s.view, t, e, k, f)
    ensures FrameEffect(s, true, f) == PutLane(Cell(t, s.stride / 4, e), Cell(t, s.view.elementCount, e), k, f.low % 0x100)
  {
    hide OutputFrameAddress, Find, IsVoltageWork, LaneBase, Cell, RowsFit, SizeT;
    var o :| o in s.view.entries && o.elemIdx == e && o.axonBitIdx / 8 % 4 == 0 &&
      OutputFrameAddress(s.view.targetLcn, f) == Some(Address(t, o.axonBitIdx + 8 * k));
    EntriesOf(s);
    LaneOfKey(o.axonBitIdx, k);
    FindExact(s.view.entries, o);
    SlotsFit(s, t, e);
  }

  /** Every other frame is ignored; in particular none is refused for its address. */
  lemma StoreCarries(s: Setup, f: Frame) returns (t: nat, e: nat, k: nat)
    requires VoltageSetup(s)
    ensures FrameEffect(s, true, f) == Ignore ||
            (t < s.timesteps && e < s.view.elementCount && Carries(s.view, t, e, k, f))
  {
    hide OutputFrameAddress, Find, IsVoltageWork, LaneBase, Cell, RowsFit, SizeT;
    t, e, k := 0, 0, 0;
    EntriesOf(s);
    var address := OutputFrameAddress(s.view.targetLcn, f);
    if address.Some? && IsVoltageWork(f) {
      var axon := address.value.axonBitIdx;
      KeyOfLane(axon);
      FindSound(s.view.entries, LaneBase(axon));
      var found := Find(s.view.entries, LaneBase(axon));
      if found.Some? && address.value.timestep < s.timesteps {
        t, e, k := address.value.timestep, found.value.elemIdx, axon / 8 % 4;
        assert found.value in s.view.entries;
        SlotsFit(s, t, e);
      }
    } else {
      Located(s, f);
    }
  }

  lemma Located(s: Setup, f: Frame)
    requires VoltageSetup(s) && (OutputFrameAddress(s.view.targetLcn, f).None? || !IsVoltageWork(f))
    ensures FrameEffect(s, true, f) == Ignore
  {
  }

  // ------------------------------------------------------------- the lanes of one element

  /** Index of an element's slot in the lane state. */
  function SlotIndex(view: OutputView, t: nat, e: nat): nat { Cell(t, view.elementCount, e) }

  /** The lanes that these frames carry for an element, in order of arrival. */
  ghost function LanesFor(view: OutputView, t: nat, e: nat, frames: seq<Frame>): seq<LaneOp> {
    if frames == [] then []
    else
      var f, before := frames[|frames| - 1], LanesFor(view, t, e, frames[..|frames| - 1]);
      if k: nat :| Carries(view, t, e, k, f) then before + [LaneOp(SlotIndex(view, t, e), k, f.low % 0x100)] else before
  }

  lemma {:induction false} LaneOpsAppend(s: Setup, left: seq<Frame>, right: seq<Frame>)
    ensures LaneOps(s, left + right) == LaneOps(s, left) + LaneOps(s, right)
    decreases |left|
  {
    hide FrameEffect;
    if left == [] {
      assert left + right == right;
    } else {
      LaneOpsAppend(s, left[1..], right);
      assert (left + right)[0] == left[0] && (left + right)[1..] == left[1..] + right;
    }
  }

  lemma {:induction false} ProjectAppend(left: seq<LaneOp>, right: seq<LaneOp>, slot: nat)
    ensures Project(left + right, slot) == Project(left, slot) + Project(right, slot)
    decreases |left|
  {
    if left == [] {
      assert left + right == right && Project(left, slot) == [];
    } else {
      ProjectAppend(left[1..], right, slot);
      ProjectStep(left, slot);
      ProjectStep(left + right, slot);
      assert (left + right)[0] == left[0] && (left + right)[1..] == left[1..] + right;
      JoinOps(if left[0].slot == slot then [left[0]] else [], Project(left[1..], slot), Project(right, slot));
    }
  }

  lemma ProjectStep(ops: seq<LaneOp>, slot: nat)
    requires ops != []
    ensures Project(ops, slot) == (if ops[0].slot == slot then [ops[0]] else []) + Project(ops[1..], slot)
  {
  }

  lemma JoinOps(a: seq<LaneOp>, b: seq<LaneOp>, c: seq<LaneOp>)
    ensures (a + b) + c == a + (b + c)
  {
  }

  /** What one frame adds to the lanes of a slot. */
  lemma OneFrame(s: Setup, f: Frame, t: nat, e: nat)
    requires VoltageSetup(s) && t < s.timesteps && e < s.view.elementCount
    ensures var mine, i := Project(LaneOps(s, [f]), SlotIndex(s.view, t, e)), SlotIndex(s.view, t, e);
            if exists k: nat :: Carries(s.view, t, e, k, f)
            then exists k: nat :: Carries(s.view, t, e, k, f) && mine == [LaneOp(i, k, f.low % 0x100)]
            else mine == []
    ensures forall k: nat, l: nat :: Carries(s.view, t, e, k, f) && Carries(s.view, t, e, l, f) ==> k == l
  {
    hide VoltageSetup, FrameEffect, Carries, Cell;
    EntriesOf(s);
    LaneOpsOne(s, f);
    var i := SlotIndex(s.view, t, e);
    forall k: nat, l: nat | Carries(s.view, t, e, k, f) && Carries(s.view, t, e, l, f)
      ensures k == l
    {
      LaneStores(s, f, t, e, k);
      LaneStores(s, f, t, e, l);
    }
    if k: nat :| Carries(s.view, t, e, k, f) {
      LaneStores(s, f, t, e, k);
      OneProjected(LaneOp(i, k, f.low % 0x100), i);
    } else {
      var t', e', l := StoreCarries(s, f);
      if FrameEffect(s, true, f) != Ignore {
        LaneStores(s, f, t', e', l);
        if SlotIndex(s.view, t', e') == i {
          SlotOnce(s.view, t, e, t', e');
        }
        OneProjected(LaneOp(SlotIndex(s.view, t', e'), l, f.low % 0x100), i);
      } else {
        assert Project([], i) == [];
      }
    }
  }

  lemma LaneOpsOne(s: Setup, f: Frame)
    ensures LaneOps(s, [f]) == match FrameEffect(s, true, f)
                               case PutLane(_, state, lane, payload) => [LaneOp(state, lane, payload)]
                               case _ => []
  {
    hide FrameEffect;
    assert [f][1..] == [] && LaneOps(s, []) == [];
  }

  lemma OneProjected(op: LaneOp, slot: nat)
    ensures Project([op], slot) == if op.slot == slot then [op] else []
  {
    assert [op][1..] == [];
  }

  lemma SlotOnce(view: OutputView, t: nat, e: nat, t': nat, e': nat)
    requires e < view.elementCount && e' < view.elementCount && SlotIndex(view, t, e) == SlotIndex(view, t', e')
    ensures t == t' && e == e'
  {
    DivMod(SlotIndex(view, t, e), view.elementCount, t, e);
    DivMod(SlotIndex(view, t, e), view.elementCount, t', e');
  }

  /** The slot of an element sees exactly the lanes that frames carry for it. */
  lemma {:induction false} LanesProjected(s: Setup, frames: seq<Frame>, t: nat, e: nat)
    requires VoltageSetup(s) && t < s.timesteps && e < s.view.elementCount
    ensures Project(LaneOps(s, frames), SlotIndex(s.view, t, e)) == LanesFor(s.view, t, e, frames)
    decreases |frames|
  {
    hide VoltageSetup, FrameEffect, Carries, Cell, LaneOps, Project;
    var i := SlotIndex(s.view, t, e);
    if frames == [] {
      NoOps(s, i);
    } else {
      var n := |frames| - 1;
      LanesProjected(s, frames[..n], t, e);
      assert frames == frames[..n] + [frames[n]];
      LaneOpsAppend(s, frames[..n], [frames[n]]);
      ProjectAppend(LaneOps(s, frames[..n]), LaneOps(s, [frames[n]]), i);
      OneFrame(s, frames[n], t, e);
    }
  }

  lemma NoOps(s: Setup, i: nat)
    ensures Project(LaneOps(s, []), i) == []
  {
  }

  // ------------------------------------------------------------- accepted streams

  /** No lane repeats within a value: lanes count in fours from the cleared slot on. */
  ghost predicate NoRepeats(mine: seq<LaneOp>) {
    forall a, b :: 0 <= a < b < |mine| && a / 4 == b / 4 ==> mine[a].lane != mine[b].lane
  }

  /** After accepted lanes, those since the last completed value are pending, and nothing else. */
  lemma PendingTail(m: SlotModel, ops: seq<LaneOp>)
    requires m.pending == map[] && SlotAccepted(m, ops) && forall op :: op in ops ==> op.lane < 4
    ensures var p, from := SlotRun(m, ops).pending, |ops| - |ops| % 4;
            forall lane :: lane in p <==> exists a :: from <= a < |ops| && ops[a].lane == lane
  {
    hide SlotRun, SlotStep, SlotAccepted;
    var from := |ops| - |ops| % 4;
    SplitRun(m, ops, from);
    var tail := ops[from..];
    assert forall op :: op in ops[..from] || op in tail ==> op in ops;
    if from > 0 {
      AcceptedFours(m, ops[..from]);
    } else {
      EmptyRun(m, ops[..from]);
    }
    PendingLanes(SlotRun(m, ops[..from]), tail);
    var p := SlotRun(m, ops).pending;
    forall lane
      ensures lane in p <==> exists a :: from <= a < |ops| && ops[a].lane == lane
    {
      if lane in p {
        var j :| 0 <= j < |tail| && tail[j].lane == lane;
        assert ops[from + j].lane == lane;
      }
      if a :| from <= a < |ops| && ops[a].lane == lane {
        assert tail[a - from] == ops[a];
      }
    }
  }

  /** A slot that starts idle accepts its lanes exactly if none repeats within a value. */
  lemma {:induction false} AcceptedIff(m: SlotModel, ops: seq<LaneOp>)
    requires m.pending == map[] && forall op :: op in ops ==> op.lane < 4
    ensures SlotAccepted(m, ops) <==> NoRepeats(ops)
    decreases |ops|
  {
    hide SlotRun, SlotStep;
    if ops != [] {
      hide SlotAccepted;
      var n := |ops| - 1;
      var front, last := ops[..n], ops[n];
      assert forall op :: op in front ==> op in ops;
      AcceptedIff(m, front);
      SplitRun(m, ops, n);
      LastAccepted(SlotRun(m, front), last);
      assert ops[n..] == [last];
      if SlotAccepted(m, front) {
        PendingTail(m, front);
      }
      RepeatsSnoc(ops);
    }
  }

  lemma LastAccepted(m: SlotModel, op: LaneOp)
    ensures SlotAccepted(m, [op]) <==> op.lane !in m.pending
  {
    assert [op][1..] == [] && SlotAccepted(SlotStep(m, op.lane, op.payload), []);
  }

  lemma RepeatsSnoc(ops: seq<LaneOp>)
    requires |ops| > 0
    ensures var n := |ops| - 1;
            NoRepeats(ops) <==> NoRepeats(ops[..n]) && forall a :: n - n % 4 <= a < n ==> ops[..n][a].lane != ops[n].lane
  {
    var n := |ops| - 1;
    forall a | 0 <= a < n
      ensures a / 4 == n / 4 <==> n - n % 4 <= a
    {
    }
    if NoRepeats(ops) {
      assert forall a :: 0 <= a < n ==> ops[..n][a] == ops[a];
    } else {
      var a, b :| 0 <= a < b < |ops| && a / 4 == b / 4 && ops[a].lane == ops[b].lane;
      assert ops[..n][a] == ops[a];
      if b < n {
        assert ops[..n][b] == ops[b];
      }
    }
  }

  /** Slots do not disturb each other: a run is accepted exactly if every slot accepts its own lanes. */
  lemma {:induction false} AcceptedEverywhere(layout: seq<nat>, st: Store, ops: seq<LaneOp>, m: seq<SlotModel>)
    requires ValidLayout(layout, st) && ValidOps(layout, ops) && |m| == |layout|
    requires forall op :: op in ops ==> Represents(st.lanes[op.slot], SlotBytes(layout, st, op.slot), m[op.slot])
    ensures LanesAccepted(layout, st, ops) <==> forall i :: 0 <= i < |layout| ==> SlotAccepted(m[i], Project(ops, i))
    decreases |ops|
  {
    hide Represents, StoreLane, SlotStep, ValidLayout, SlotBytes;
    if ops != [] {
      var op, rest := ops[0], ops[1..];
      assert op in ops && forall o :: o in rest ==> o in ops;
      StoreLaneRefines(layout, st, op, m[op.slot]);
      StoreStatus(layout, st, op);
      var next, m' := StoreLane(st, layout[op.slot], op.slot, op.lane, op.payload).0,
                      m[op.slot := SlotStep(m[op.slot], op.lane, op.payload)];
      forall o | o in rest && o.slot != op.slot
        ensures Represents(next.lanes[o.slot], SlotBytes(layout, next, o.slot), m'[o.slot])
      {
        OtherSlotsKeep(layout, st, op, o.slot);
      }
      AcceptedEverywhere(layout, next, rest, m');
      forall i | 0 <= i < |layout|
        ensures SlotAccepted(m[i], Project(ops, i)) <==>
                (i == op.slot ==> op.lane !in m[i].pending) && SlotAccepted(m'[i], Project(rest, i))
      {
        FrontAccepted(m[i], ops, i);
      }
    }
  }

  lemma StoreStatus(layout: seq<nat>, st: Store, op: LaneOp)
    requires ValidLayout(layout, st) && op.slot < |layout| && op.lane < 4
    ensures var r := StoreLane(st, layout[op.slot], op.slot, op.lane, op.payload);
            (r.1 == CodecOk || r.1 == CodecBadValue) && ValidLayout(layout, r.0)
  {
  }

  lemma FrontAccepted(m: SlotModel, ops: seq<LaneOp>, i: nat)
    requires ops != []
    ensures SlotAccepted(m, Project(ops, i)) <==>
            if ops[0].slot == i then ops[0].lane !in m.pending &&
                                     SlotAccepted(SlotStep(m, ops[0].lane, ops[0].payload), Project(ops[1..], i))
            else SlotAccepted(m, Project(ops[1..], i))
  {
    hide SlotStep;
    ProjectStep(ops, i);
    if ops[0].slot == i {
      assert Project(ops, i)[0] == ops[0] && Project(ops, i)[1..] == Project(ops[1..], i);
    } else {
      assert Project(ops, i) == Project(ops[1..], i);
    }
  }

  /** Decoding succeeds exactly if every lane is accepted; a repeated lane is the only error. */
  lemma {:induction false} DecodeAcceptedIff(s: Setup, st: Store, frames: seq<Frame>)
    requires VoltageSetup(s) && Fits(s, st)
    ensures Cells(s) <= |st.lanes| && ValidLayout(LaneLayout(s), Narrow(s, st)) && ValidOps(LaneLayout(s), LaneOps(s, frames))
    ensures DecodeAll(s, true, st, frames).1 ==
            if LanesAccepted(LaneLayout(s), Narrow(s, st), LaneOps(s, frames)) then CodecOk else CodecBadValue
    decreases |frames|
  {
    hide FrameEffect, VoltageSetup, StoreLane, LaneLayout, ValidLayout;
    LayoutValid(s, st);
    StateFits(s);
    if frames != [] {
      var e := FrameEffect(s, true, frames[0]);
      LaneFrameSlot(s, frames[0]);
      EffectsInWindow(s, true, frames[0]);
      OnlyStores(s, frames[0]);
      var next := Apply(s, st, e).0;
      DecodeAcceptedIff(s, next, frames[1..]);
      LayoutAt(s);
      if e.PutLane? {
        var op, rest := LaneOp(e.state, e.lane, e.payload), LaneOps(s, frames[1..]);
        NarrowStore(s, st, s.base + 4 * e.slot, e.state, e.lane, e.payload);
        assert LaneOps(s, frames)[0] == op && LaneOps(s, frames)[1..] == rest;
        StoreStatus(LaneLayout(s), Narrow(s, st), op);
      }
    }
  }

  lemma OnlyStores(s: Setup, f: Frame)
    requires VoltageSetup(s)
    ensures FrameEffect(s, true, f) == Ignore || FrameEffect(s, true, f).PutLane?
  {
    hide VoltageSetup, FrameEffect, Carries;
    var t, e, k := StoreCarries(s, f);
    if FrameEffect(s, true, f) != Ignore {
      LaneStores(s, f, t, e, k);
    }
  }

  ghost predicate AllIdle(s: Setup, st: Store) {
    Cells(s) <= |st.lanes| && forall i :: 0 <= i < Cells(s) ==> st.lanes[i] == 0
  }

  ghost predicate StreamAccepted(s: Setup, frames: seq<Frame>) {
    forall t: nat, e: nat :: t < s.timesteps && e < s.view.elementCount ==> NoRepeats(LanesFor(s.view, t, e, frames))
  }

  /**
   The exact condition for a VOLTAGE stream on cleared lane state: it decodes if and only if no element
   gets a lane twice within a value. Otherwise the error is the one for a bad value.
   */
  lemma DecodeSucceedsIff(s: Setup, st: Store, frames: seq<Frame>)
    requires VoltageSetup(s) && Fits(s, st) && AllIdle(s, st)
    ensures DecodeAll(s, true, st, frames).1 == if StreamAccepted(s, frames) then CodecOk else CodecBadValue
  {
    hide VoltageSetup, DecodeAll, LaneLayout, ValidLayout, LanesAccepted, SlotAccepted, NoRepeats, Carries, LaneOps, Represents,
         Project, LanesFor, Cell;
    EntriesOf(s);
    DecodeAcceptedIff(s, st, frames);
    var layout, narrow, ops := LaneLayout(s), Narrow(s, st), LaneOps(s, frames);
    var m := seq(|layout|, i requires 0 <= i < |layout| => SlotModel(map[], IdleBytes(layout, narrow, i)));
    SlotsInLayout(layout, narrow);
    forall op | op in ops
      ensures Represents(narrow.lanes[op.slot], SlotBytes(layout, narrow, op.slot), m[op.slot])
    {
      ClearedSlot(SlotBytes(layout, narrow, op.slot));
    }
    AcceptedEverywhere(layout, narrow, ops, m);
    forall i | 0 <= i < |layout|
      ensures SlotAccepted(m[i], Project(ops, i)) <==> NoRepeats(Project(ops, i))
    {
      ProjectSound(ops, i);
      AcceptedIff(m[i], Project(ops, i));
    }
    if StreamAccepted(s, frames) {
      forall i | 0 <= i < |layout|
        ensures NoRepeats(Project(ops, i))
      {
        var t, e := ElementOf(s, i);
        LanesProjected(s, frames, t, e);
      }
    } else {
      var t: nat, e: nat :| t < s.timesteps && e < s.view.elementCount && !NoRepeats(LanesFor(s.view, t, e, frames));
      LanesProjected(s, frames, t, e);
      IndexOf(s, t, e);
      assert !SlotAccepted(m[SlotIndex(s.view, t, e)], Project(ops, SlotIndex(s.view, t, e)));
    }
  }

  /** A VOLTAGE handler on cleared lane state takes a stream exactly if no frame is late and no lane repeats. */
  lemma VoltageFeed(layout: Layout, s: Setup, submitted: nat, st: Store, frames: seq<Frame>)
    requires VoltageSetup(s) && Fits(s, st) && AllIdle(s, st) && LayoutSound(s.view, layout) && submitted <= s.timesteps
    ensures Feed(layout, s, submitted, st, frames).1 == SessionOk <==>
            InTime(layout, s.view, submitted, frames) && StreamAccepted(s, frames)
  {
    hide RowsFit, Feed, DecodeAll, LayoutSound, InTime, LateWork, OtherKind, StreamAccepted, AllIdle;
    EntriesOf(s);
    FeedSucceedsIff(layout, s, submitted, st, frames);
    InTimeMeaning(layout, s.view, submitted, frames);
    DecodeSucceedsIff(s, st, frames);
  }

  function IdleBytes(layout: seq<nat>, st: Store, i: nat): seq<u8>
    requires ValidLayout(layout, st) && i < |layout|
  {
    SlotBytes(layout, st, i)
  }

  lemma SlotsInLayout(layout: seq<nat>, st: Store)
    requires ValidLayout(layout, st)
    ensures forall i :: 0 <= i < |layout| ==> layout[i] + 4 <= |st.mem|
  {
  }

  /** Element and timestep of a slot. */
  lemma ElementOf(s: Setup, i: nat) returns (t: nat, e: nat)
    requires i < Cells(s) && s.view.elementCount > 0
    ensures t < s.timesteps && e < s.view.elementCount && SlotIndex(s.view, t, e) == i
  {
    RowMajor(i, s.timesteps, s.view.elementCount);
    t, e := i / s.view.elementCount, i % s.view.elementCount;
  }

  lemma IndexOf(s: Setup, t: nat, e: nat)
    requires t < s.timesteps && e < s.view.elementCount
    ensures SlotIndex(s.view, t, e) < Cells(s)
  {
    MulMono(t + 1, s.timesteps, s.view.elementCount);
    assert (t + 1) * s.view.elementCount == t * s.view.elementCount + s.view.elementCount;
  }

  // ------------------------------------------------------------- words

  /** Byte k of a number in two's complement. */
  function ByteOf(word: int, k: nat): u8 {
    (if k == 0 then word else if k == 1 then word / 0x100 else if k == 2 then word / 0x1_0000 else word / 0x100_0000) % 0x100
  }

  /** Four lanes that carry the four bytes of a number, in any order. */
  ghost predicate Spells(four: seq<LaneOp>, word: int) {
    && |four| == 4 && DistinctLanes(four)
    && forall j :: 0 <= j < 4 ==> four[j].lane < 4 && four[j].payload == ByteOf(word, four[j].lane)
  }

  lemma BytesOfWord(word: int)
    requires -0x8000_0000 <= word < 0x8000_0000
    ensures ByteOf(word, 0) + ByteOf(word, 1) * 0x100 + ByteOf(word, 2) * 0x1_0000 + ByteOf(word, 3) * 0x100_0000 ==
            if word < 0 then word + 0x1_0000_0000 else word
  {
    var q1, b0 := word / 0x100, word % 0x100;
    var q2, b1 := q1 / 0x100, q1 % 0x100;
    var q3, b2 := q2 / 0x100, q2 % 0x100;
    DivMod(word, 0x1_0000, q2, b1 * 0x100 + b0);
    DivMod(word, 0x100_0000, q3, b2 * 0x1_0000 + b1 * 0x100 + b0);
    DivMod(q3, 0x100, if q3 < 0 then -1 else 0, if q3 < 0 then q3 + 0x100 else q3);
  }

  /** The bytes of an int32 assemble to it. */
  lemma SpelledWord(four: seq<LaneOp>, word: int)
    requires Spells(four, word) && -0x8000_0000 <= word < 0x8000_0000
    ensures Signed(LaneSum(four)) == word
  {
    hide ByteOf, LaneSum;
    SumOfLanes([ByteOf(word, 0), ByteOf(word, 1), ByteOf(word, 2), ByteOf(word, 3)], four);
    BytesOfWord(word);
  }

  /** First byte of an element. */
  function WordAt(s: Setup, t: nat, e: nat): nat {
    MulMono(0, t, s.stride);
    s.base + t * s.stride + 4 * e
  }

  lemma WordIsSlot(s: Setup, t: nat, e: nat)
    requires t < s.timesteps && e < s.view.elementCount
    ensures WordAt(s, t, e) == SlotAddress(s, SlotIndex(s.view, t, e)) && SlotIndex(s.view, t, e) < Cells(s)
  {
    IndexOf(s, t, e);
    DivMod(SlotIndex(s.view, t, e), s.view.elementCount, t, e);
  }

  // ------------------------------------------------------------- four frames

  /** The four frames that carry an int32 to an element, whatever the order of the lanes. */
  ghost predicate CarryWord(view: OutputView, t: nat, e: nat, lanes: seq<nat>, word: int, frames: seq<Frame>) {
    && |frames| == 4 && |lanes| == 4 && Distinct(lanes)
    && forall j :: 0 <= j < 4 ==> Carries(view, t, e, lanes[j], frames[j]) && frames[j].low % 0x100 == ByteOf(word, lanes[j])
  }

  /** Their lanes, at the element's slot. */
  function OpsOf(slot: nat, lanes: seq<nat>, frames: seq<Frame>): seq<LaneOp>
    requires |lanes| == |frames|
  {
    seq(|frames|, j requires 0 <= j < |frames| => LaneOp(slot, lanes[j], frames[j].low % 0x100))
  }

  lemma {:induction false} CarriedOps(s: Setup, t: nat, e: nat, lanes: seq<nat>, frames: seq<Frame>)
    requires VoltageSetup(s) && t < s.timesteps && e < s.view.elementCount && |lanes| == |frames|
    requires forall j :: 0 <= j < |frames| ==> Carries(s.view, t, e, lanes[j], frames[j])
    ensures LaneOps(s, frames) == OpsOf(SlotIndex(s.view, t, e), lanes, frames)
    decreases |frames|
  {
    hide VoltageSetup, FrameEffect, Carries, Cell;
    if frames != [] {
      LaneStores(s, frames[0], t, e, lanes[0]);
      CarriedOps(s, t, e, lanes[1..], frames[1..]);
      assert OpsOf(SlotIndex(s.view, t, e), lanes, frames)[1..] == OpsOf(SlotIndex(s.view, t, e), lanes[1..], frames[1..]);
    }
  }

  lemma {:induction false} OneSlot(ops: seq<LaneOp>, slot: nat, i: nat)
    requires forall op :: op in ops ==> op.slot == slot
    ensures Project(ops, i) == if i == slot then ops else []
  {
    if ops != [] {
      assert ops[0] in ops;
      OneSlot(ops[1..], slot, i);
    }
  }

  /** Lanes for one idle slot are accepted if none repeats. */
  lemma OneSlotAccepted(layout: seq<nat>, st: Store, ops: seq<LaneOp>, slot: nat)
    requires ValidLayout(layout, st) && slot < |layout| && st.lanes[slot] == 0
    requires forall op :: op in ops ==> op.slot == slot && op.lane < 4
    requires NoRepeats(ops)
    ensures ValidOps(layout, ops) && LanesAccepted(layout, st, ops)
  {
    hide SlotAccepted, Represents, ValidLayout, NoRepeats, LanesAccepted, Project;
    SlotsInLayout(layout, st);
    var idle := SlotModel(map[], SlotBytes(layout, st, slot));
    var m := seq(|layout|, i => idle);
    ClearedSlot(idle.value);
    AcceptedEverywhere(layout, st, ops, m);
    AcceptedIff(idle, ops);
    forall i | 0 <= i < |layout|
      ensures SlotAccepted(m[i], Project(ops, i))
    {
      OneSlot(ops, slot, i);
      NothingRepeats(idle);
    }
  }

  lemma NothingRepeats(m: SlotModel)
    ensures SlotAccepted(m, [])
  {
  }

  /** Work for a submitted timestep is not late. */
  lemma CarriedInTime(view: OutputView, submitted: nat, t: nat, e: nat, k: nat, f: Frame)
    requires Carries(view, t, e, k, f) && t < submitted
    ensures !LateWork(view, submitted, f)
  {
    hide OutputFrameAddress;
  }

  /**
   The law on words. Four frames with the bytes of an int32, in any order of lanes, for an element whose
   slot is idle: the handler, fast or generic, takes them all and the element holds the number.
   */
  lemma FourFrames(layout: Layout, s: Setup, submitted: nat, st: Store, frames: seq<Frame>, t: nat, e: nat, lanes: seq<nat>, word: int)
    requires VoltageSetup(s) && Fits(s, st) && LayoutSound(s.view, layout) && submitted <= s.timesteps
    requires t < submitted && e < s.view.elementCount && -0x8000_0000 <= word < 0x8000_0000
    requires SlotIndex(s.view, t, e) < |st.lanes| && st.lanes[SlotIndex(s.view, t, e)] == 0
    requires CarryWord(s.view, t, e, lanes, word, frames)
    ensures var r, at := Feed(layout, s, submitted, st, frames), WordAt(s, t, e);
            && r.1 == SessionOk && at + 4 <= |r.0.mem|
            && r.0.lanes[SlotIndex(s.view, t, e)] == 0 && Int32(r.0.mem[at..at + 4]) == word
  {
    hide RowsFit, LayoutSound, LaneLayout, ValidLayout, LanesAccepted, Carries, LaneOps, Project, Cell, Represents, DecodeAll, Feed,
         SlotAccepted, LateWork, OtherKind, ByteOf, LaneSum, Int32, Signed, SlotAddress, WordAt, Cells;
    var slot := SlotIndex(s.view, t, e);
    var ops := OpsOf(slot, lanes, frames);
    WordIsSlot(s, t, e);
    StateFits(s);
    CarriedOps(s, t, e, lanes, frames);
    DecodeAcceptedIff(s, st, frames);
    WordLanes(s.view, t, e, slot, lanes, word, frames);
    OneSlotAccepted(LaneLayout(s), Narrow(s, st), ops, slot);
    forall f | f in frames
      ensures !LateWork(s.view, submitted, f)
    {
      var j :| 0 <= j < 4 && frames[j] == f;
      CarriedInTime(s.view, submitted, t, e, lanes[j], f);
    }
    FeedSucceedsIff(layout, s, submitted, st, frames);
    DecodedState(s, st, frames, slot);
    OneSlot(ops, slot, slot);
    var end, at := DecodeAll(s, true, st, frames).0, WordAt(s, t, e);
    FourDecoded(end.lanes[slot], end.mem[at..at + 4], SlotModel(map[], st.mem[at..at + 4]), ops, word);
  }

  lemma WordLanes(view: OutputView, t: nat, e: nat, slot: nat, lanes: seq<nat>, word: int, frames: seq<Frame>)
    requires CarryWord(view, t, e, lanes, word, frames)
    ensures var ops := OpsOf(slot, lanes, frames);
            Spells(ops, word) && NoRepeats(ops) && forall op :: op in ops ==> op.slot == slot && op.lane < 4
  {
    hide ByteOf;
    assert forall j :: 0 <= j < 4 ==> Carries(view, t, e, lanes[j], frames[j]);
  }

  lemma FourDecoded(mask: u8, bytes: seq<u8>, m: SlotModel, ops: seq<LaneOp>, word: int)
    requires |bytes| == 4 && m.pending == map[] && Spells(ops, word) && -0x8000_0000 <= word < 0x8000_0000
    requires Represents(mask, bytes, SlotRun(m, ops))
    ensures mask == 0 && Int32(bytes) == word
  {
    hide SlotRun, ByteOf, LaneSum, Int32, Signed, HasLane;
    SlotRunPending(m, ops);
    IdleMask(mask, SlotRun(m, ops), bytes);
    SumOfLanes(bytes, ops);
    SignedValue(bytes);
    SpelledWord(ops, word);
  }

  // ------------------------------------------------------------- a whole sample

  /** An element holds what the lanes that arrived for it say, and none of them repeated within a value. */
  ghost predicate HoldsLanes(s: Setup, end: Store, t: nat, e: nat, mine: seq<LaneOp>) {
    && WordAt(s, t, e) + 4 <= |end.mem| && SlotIndex(s.view, t, e) < |end.lanes|
    && NoRepeats(mine)
    && Assembled(end.lanes[SlotIndex(s.view, t, e)], end.mem[WordAt(s, t, e)..WordAt(s, t, e) + 4], mine)
  }

  ghost predicate HoldsWords(s: Setup, end: Store, frames: seq<Frame>) {
    forall t: nat, e: nat :: t < s.timesteps && e < s.view.elementCount ==> HoldsLanes(s, end, t, e, LanesFor(s.view, t, e, frames))
  }

  /** If the last four lanes of an element spell an int32, the element is idle and holds it. */
  lemma WordHeld(s: Setup, end: Store, t: nat, e: nat, mine: seq<LaneOp>, word: int)
    requires HoldsLanes(s, end, t, e, mine) && |mine| % 4 == 0 && |mine| > 0
    requires Spells(LastValue(mine), word) && -0x8000_0000 <= word < 0x8000_0000
    ensures end.lanes[SlotIndex(s.view, t, e)] == 0 && Int32(end.mem[WordAt(s, t, e)..WordAt(s, t, e) + 4]) == word
  {
    hide Spells, LaneSum, Int32, Signed, HasLane, NoRepeats;
    SpelledWord(LastValue(mine), word);
  }

  /** A successful VOLTAGE sample on cleared lane state: the law for every element, over all frames of all barriers. */
  lemma SampleWords(layout: Layout, s: Setup, st: Store, received: seq<seq<Frame>>)
    requires VoltageSetup(s) && Fits(s, st) && LayoutSound(s.view, layout) && AllIdle(s, st)
    requires |received| >= s.timesteps && RunRows(layout, s, st, received).1 == SessionOk
    ensures HoldsWords(s, RunRows(layout, s, st, received).0, Concat(received))
  {
    hide RowsFit, LayoutSound, RunRows, DecodeAll, LaneOps, Project, SlotAddress, Represents, WordAt, LanesFor, Concat, Assembled,
         SlotAccepted, NoRepeats, Cell, Cells;
    var end := RunRows(layout, s, st, received).0;
    forall t: nat, e: nat | t < s.timesteps && e < s.view.elementCount
      ensures HoldsLanes(s, end, t, e, LanesFor(s.view, t, e, Concat(received)))
    {
      var i, mine := SlotIndex(s.view, t, e), LanesFor(s.view, t, e, Concat(received));
      WordIsSlot(s, t, e);
      VoltageSampleValue(layout, s, st, received, i);
      LanesProjected(s, Concat(received), t, e);
      ElementValue(end.lanes[i], end.mem[WordAt(s, t, e)..WordAt(s, t, e) + 4], mine);
      AcceptedIff(ZERO_SLOT, mine);
    }
  }

  /** A VOLTAGE run on cleared lane state succeeds exactly if, besides, no element got a lane twice within a value. */
  lemma VoltageRunIff(layout: Layout, s: Setup, st: Store, received: seq<seq<Frame>>)
    requires VoltageSetup(s) && Fits(s, st) && LayoutSound(s.view, layout) && AllIdle(s, st)
    ensures RunRows(layout, s, st, received).1 == SessionOk <==>
            RunInTime(layout, s, received) && StreamAccepted(s, Concat(received))
  {
    hide RowsFit, RunRows, DecodeAll, LayoutSound, Concat, RunInTime, StreamAccepted, AllIdle;
    RunSucceedsIff(layout, s, st, received);
    DecodeSucceedsIff(s, st, Concat(received));
  }

  /** The law on the outcome of a successful sample call. */
  lemma WordsOutcome(p: Plan, st: SessionState, start: Store, sent: seq<Frame>, rx: seq<RxItem>,
                     barriers: seq<seq<Frame>>, end: Store, sent': seq<Frame>, rx': seq<RxItem>)
    requires Accepted(p, |start.mem|) && Fits(p.setup, start) && VoltageSetup(p.setup) && AllIdle(p.setup, start)
    requires SampleOutcome(p, st, start, sent, rx, SessionOk, barriers, end, sent', rx')
    ensures |barriers| > 0 && HoldsWords(p.setup, end, Concat(barriers[1..]))
  {
    hide RowsFit, LayoutSound, RegionsOverlap, RunRows, Concat, FullTransmission, SentPrefix, SameOutsideRows, DeliveredAll, HoldsWords,
         AllIdle;
    SampleWords(p.layout, p.setup, start, barriers[1..]);
  }
}
