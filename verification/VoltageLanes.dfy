/** Four-lane assembly of int32 VOLTAGE values, for every interleaving of slots and lanes. */
module VoltageLanes {
  import opened Bits
  import opened FrameCodec
  import opened OutputDecoder

  /** One stored lane: the slot it belongs to, the lane index and the byte. */
  datatype LaneOp = LaneOp(slot: nat, lane: nat, payload: u8)

  /** What a slot means: the lanes received since the last complete value, and that value's bytes. */
  datatype SlotModel = SlotModel(pending: map<nat, u8>, value: seq<u8>)

  function SlotStep(m: SlotModel, lane: nat, payload: u8): SlotModel {
    if lane in m.pending then m
    else
      var p := m.pending[lane := payload];
      if 0 in p && 1 in p && 2 in p && 3 in p then SlotModel(map[], [p[0], p[1], p[2], p[3]])
      else m.(pending := p)
  }

  function SlotRun(m: SlotModel, ops: seq<LaneOp>): SlotModel
    decreases |ops|
  {
    if ops == [] then m else SlotRun(SlotStep(m, ops[0].lane, ops[0].payload), ops[1..])
  }

  function Project(ops: seq<LaneOp>, slot: nat): seq<LaneOp> {
    if ops == [] then []
    else (if ops[0].slot == slot then [ops[0]] else []) + Project(ops[1..], slot)
  }

  /** The mask describes exactly the pending bytes; the other bytes of a partial slot are zero. */
  ghost predicate Represents(mask: u8, bytes: seq<u8>, m: SlotModel)
    requires |bytes| == 4
  {
    && mask < COMPLETE_MASK
    && (forall lane :: 0 <= lane < 4 ==> (HasLane(mask, lane) <==> lane in m.pending))
    && (forall lane :: lane in m.pending ==> lane < 4)
    && (if mask == 0 then bytes == m.value
        else forall lane :: 0 <= lane < 4 ==> bytes[lane] == if lane in m.pending then m.pending[lane] else 0)
  }

  /** Slot i occupies the four bytes from layout[i]; slots do not overlap. */
  ghost predicate ValidLayout(layout: seq<nat>, st: Store) {
    && |layout| == |st.lanes|
    && (forall i :: 0 <= i < |layout| ==> layout[i] + 4 <= |st.mem|)
    && (forall i, j :: 0 <= i < j < |layout| ==> layout[i] + 4 <= layout[j] || layout[j] + 4 <= layout[i])
  }

  ghost predicate ValidOps(layout: seq<nat>, ops: seq<LaneOp>) {
    forall op :: op in ops ==> op.slot < |layout| && op.lane < 4
  }

  function SlotBytes(layout: seq<nat>, st: Store, i: nat): (bytes: seq<u8>)
    requires i < |layout| && layout[i] + 4 <= |st.mem|
    ensures |bytes| == 4
  {
    st.mem[layout[i]..layout[i] + 4]
  }

  function RunLanes(layout: seq<nat>, st: Store, ops: seq<LaneOp>): (r: Store)
    requires ValidLayout(layout, st) && ValidOps(layout, ops)
    ensures ValidLayout(layout, r) && |r.mem| == |st.mem|
    decreases |ops|
  {
    if ops == [] then st
    else
      var op := ops[0];
      RunLanes(layout, StoreLane(st, layout[op.slot], op.slot, op.lane, op.payload).0, ops[1..])
  }

  // ---------------------------------------------------------------- mask bits

  lemma MaskBits(mask: nat)
    requires mask < 16
    ensures HasLane(mask, 0) <==> mask % 2 == 1
    ensures HasLane(mask, 1) <==> mask / 2 % 2 == 1
    ensures HasLane(mask, 2) <==> mask / 4 % 2 == 1
    ensures HasLane(mask, 3) <==> mask / 8 % 2 == 1
  {
    SmallPowers();
  }

  /** Setting a clear bit adds its weight. */
  lemma OrFreshBit(mask: nat, lane: nat)
    requires mask < 16 && lane < 4 && !HasLane(mask, lane)
    ensures OrBytes(mask, LaneBit(lane)) == mask + LaneBit(lane)
    ensures LaneBit(lane) == if lane == 0 then 1 else if lane == 1 then 2 else if lane == 2 then 4 else 8
  {
    hide BitOr, HasLane;
    SmallPowers();
    MaskBits(mask);
    if lane == 0 {
      OrFreshAt(mask / 2, mask % 2, 0, 1);
    } else if lane == 1 {
      OrFreshAt(mask / 4, mask % 4, 1, 2);
    } else if lane == 2 {
      OrFreshAt(mask / 8, mask % 8, 2, 4);
    } else {
      OrFreshAt(mask / 16, mask % 16, 3, 8);
    }
  }

  lemma OrFreshAt(high: nat, low: nat, lane: nat, p: nat)
    requires p == Pow2(lane) && low < p
    ensures BitOr(high * (2 * p) + low, p) == high * (2 * p) + low + p
  {
    hide BitOr, Pow2, Shl;
    SmallPowers();
    Pow2Add(1, lane);
    ShlIsProduct(high, lane + 1);
    ShlIsProduct(0, lane + 1);
    OrSplit(high, low, 0, p, lane + 1);
    OrZero(high);
    ShlIsProduct(1, lane);
    OrDisjoint(1, lane, low);
  }

  lemma OrOntoZero(payload: u8)
    ensures OrBytes(0, payload) == payload
  {
    OrZero(payload);
  }

  /** One accepted lane, on the mask alone. */
  lemma MaskStep(mask: nat, lane: nat)
    requires mask < COMPLETE_MASK && lane < 4 && !HasLane(mask, lane)
    ensures var next := OrBytes(mask, LaneBit(lane));
            && 0 < next <= COMPLETE_MASK
            && (forall k :: 0 <= k < 4 ==> (HasLane(next, k) <==> k == lane || HasLane(mask, k)))
            && (next == COMPLETE_MASK <==> forall k :: 0 <= k < 4 ==> k == lane || HasLane(mask, k))
    ensures mask == 0 <==> forall k :: 0 <= k < 4 ==> !HasLane(mask, k)
  {
    hide OrBytes, LaneBit, HasLane;
    OrFreshBit(mask, lane);
    MaskBits(mask);
    var next := OrBytes(mask, LaneBit(lane));
    MaskBits(next);
    assert lane == 0 || lane == 1 || lane == 2 || lane == 3;
  }

  lemma EmptyMask()
    ensures forall k :: 0 <= k < 4 ==> !HasLane(0, k)
  {
    MaskBits(0);
  }

  // ----------------------------------------------------------------- one step

  /** A slot's four bytes and mask after one accepted lane. */
  lemma StoredSlot(layout: seq<nat>, st: Store, op: LaneOp)
    requires ValidLayout(layout, st) && op.slot < |layout| && op.lane < 4 && !HasLane(st.lanes[op.slot], op.lane)
    ensures var r, mask, bytes := StoreLane(st, layout[op.slot], op.slot, op.lane, op.payload),
                                  OrBytes(st.lanes[op.slot], LaneBit(op.lane)), SlotBytes(layout, st, op.slot);
            var before := if st.lanes[op.slot] == 0 then [0, 0, 0, 0] else bytes;
            && r.1 == CodecOk
            && r.0.lanes[op.slot] == (if mask == COMPLETE_MASK then 0 else mask)
            && SlotBytes(layout, r.0, op.slot) == before[op.lane := OrBytes(before[op.lane], op.payload)]
  {
    hide OrBytes, LaneBit, HasLane;
  }

  /** One accepted lane on the slot alone. */
  lemma SlotRefines(mask: u8, bytes: seq<u8>, m: SlotModel, lane: nat, payload: u8)
    requires |bytes| == 4 && lane < 4 && Represents(mask, bytes, m) && lane !in m.pending
    ensures var next, before := OrBytes(mask, LaneBit(lane)), if mask == 0 then [0, 0, 0, 0] else bytes;
            Represents(if next == COMPLETE_MASK then 0 else next, before[lane := OrBytes(before[lane], payload)],
                       SlotStep(m, lane, payload))
  {
    hide OrBytes, LaneBit, HasLane;
    MaskStep(mask, lane);
    EmptyMask();
    OrOntoZero(payload);
  }

  lemma StoreLaneRefines(layout: seq<nat>, st: Store, op: LaneOp, m: SlotModel)
    requires ValidLayout(layout, st) && op.slot < |layout| && op.lane < 4
    requires Represents(st.lanes[op.slot], SlotBytes(layout, st, op.slot), m)
    ensures var r := StoreLane(st, layout[op.slot], op.slot, op.lane, op.payload);
            && Represents(r.0.lanes[op.slot], SlotBytes(layout, r.0, op.slot), SlotStep(m, op.lane, op.payload))
            && (r.1 == CodecBadValue <==> op.lane in m.pending)
            && (op.lane in m.pending ==> r.0 == st)
  {
    hide OrBytes, LaneBit, HasLane;
    if op.lane !in m.pending {
      hide StoreLane, SlotStep;
      StoredSlot(layout, st, op);
      SlotRefines(st.lanes[op.slot], SlotBytes(layout, st, op.slot), m, op.lane, op.payload);
    }
  }

  lemma OtherSlotsKeep(layout: seq<nat>, st: Store, op: LaneOp, i: nat)
    requires ValidLayout(layout, st) && op.slot < |layout| && op.lane < 4 && i < |layout| && i != op.slot
    ensures var r := StoreLane(st, layout[op.slot], op.slot, op.lane, op.payload).0;
            r.lanes[i] == st.lanes[i] && SlotBytes(layout, r, i) == SlotBytes(layout, st, i)
  {
    hide OrBytes, LaneBit, HasLane;
    assert layout[i] + 4 <= layout[op.slot] || layout[op.slot] + 4 <= layout[i];
  }

  // ------------------------------------------------------------------ any run

  /**
   Assembly over any run: whatever the interleaving of slots, a slot ends as if only its own lanes
   had arrived, and its mask says exactly which of its bytes are filled.
   */
  lemma {:induction false} LanesAssemble(layout: seq<nat>, st: Store, ops: seq<LaneOp>, i: nat, m: SlotModel)
    requires ValidLayout(layout, st) && ValidOps(layout, ops) && i < |layout|
    requires Represents(st.lanes[i], SlotBytes(layout, st, i), m)
    ensures var r := RunLanes(layout, st, ops);
            Represents(r.lanes[i], SlotBytes(layout, r, i), SlotRun(m, Project(ops, i)))
    decreases |ops|
  {
    if ops != [] {
      var op := ops[0];
      var next := StoreLane(st, layout[op.slot], op.slot, op.lane, op.payload).0;
      if op.slot == i {
        StoreLaneRefines(layout, st, op, m);
        assert ([op] + Project(ops[1..], i))[1..] == Project(ops[1..], i);
        LanesAssemble(layout, next, ops[1..], i, SlotStep(m, op.lane, op.payload));
      } else {
        OtherSlotsKeep(layout, st, op, i);
        assert Project(ops, i) == Project(ops[1..], i);
        LanesAssemble(layout, next, ops[1..], i, m);
      }
    }
  }

  /** A cleared slot represents the idle model. */
  lemma ClearedSlot(value: seq<u8>)
    requires |value| == 4
    ensures Represents(0, value, SlotModel(map[], value))
  {
    EmptyMask();
  }

  ghost predicate DistinctLanes(ops: seq<LaneOp>) {
    forall a, b :: 0 <= a < b < |ops| ==> ops[a].lane != ops[b].lane
  }

  function Unsigned32(bytes: seq<u8>): int
    requires |bytes| == 4
  {
    (bytes[0] as int) + (bytes[1] as int) * 0x100 + (bytes[2] as int) * 0x1_0000 + (bytes[3] as int) * 0x100_0000
  }

  /** Place value of a lane in the int32. */
  function LaneWeight(lane: nat): int {
    if lane == 0 then 1 else if lane == 1 then 0x100 else if lane == 2 then 0x1_0000 else 0x100_0000
  }

  function LaneSum(ops: seq<LaneOp>): int {
    if ops == [] then 0 else ops[0].payload * LaneWeight(ops[0].lane) + LaneSum(ops[1..])
  }

  lemma SumOfLanes(bytes: seq<u8>, ops: seq<LaneOp>)
    requires |bytes| == 4 && |ops| == 4 && DistinctLanes(ops)
    requires forall k :: 0 <= k < 4 ==> ops[k].lane < 4 && bytes[ops[k].lane] == ops[k].payload
    ensures Unsigned32(bytes) == LaneSum(ops)
  {
    var a, b, c, d := ops[0], ops[1], ops[2], ops[3];
    assert a.lane != b.lane && a.lane != c.lane && a.lane != d.lane && b.lane != c.lane && b.lane != d.lane && c.lane != d.lane;
    assert ops[1..][1..] == ops[2..] && ops[2..][1..] == ops[3..] && ops[3..][1..] == [];
    assert LaneSum(ops[3..]) == d.payload * LaneWeight(d.lane);
    assert LaneSum(ops[2..]) == c.payload * LaneWeight(c.lane) + LaneSum(ops[3..]);
    assert LaneSum(ops[1..]) == b.payload * LaneWeight(b.lane) + LaneSum(ops[2..]);
  }

  /**
   Storing a lane in its byte is what the code does to the whole word: OR the payload, shifted to the
   lane, into the unsigned 32-bit value of the slot.
   */
  lemma LaneIsWordOr(bytes: seq<u8>, lane: nat, payload: u8)
    requires |bytes| == 4 && lane < 4
    ensures Unsigned32(bytes[lane := OrBytes(bytes[lane], payload)]) == BitOr(Unsigned32(bytes), Shl(payload, 8 * lane))
  {
    hide BitOr, OrBytes, Shl, Pow2;
    var b0: nat, b1: nat, b2: nat, b3: nat := bytes[0], bytes[1], bytes[2], bytes[3];
    LanePowers(lane);
    if lane == 0 {
      OrByteInWord(b1 + b2 * 0x100 + b3 * 0x1_0000, b0, 0, payload, lane);
    } else if lane == 1 {
      OrByteInWord(b2 + b3 * 0x100, b1, b0, payload, lane);
    } else if lane == 2 {
      OrByteInWord(b3, b2, b0 + b1 * 0x100, payload, lane);
    } else {
      OrByteInWord(0, b3, b0 + b1 * 0x100 + b2 * 0x1_0000, payload, lane);
    }
  }

  lemma LanePowers(lane: nat)
    requires lane < 4
    ensures Pow2(8 * lane) == LaneWeight(lane)
  {
    FieldPowers();
    SmallPowers();
    Pow2Add(8, 8);
  }

  /** An OR of one shifted byte works on that byte of a word. */
  lemma OrByteInWord(high: nat, b: u8, low: nat, payload: u8, lane: nat)
    requires lane < 4 && low < Pow2(8 * lane)
    ensures var p := Pow2(8 * lane);
            BitOr((high * 0x100 + b) * p + low, Shl(payload, 8 * lane)) == (high * 0x100 + OrBytes(b, payload)) * p + low
  {
    hide BitOr, Pow2, Shl;
    var k := 8 * lane;
    SmallPowers();
    ShlIsProduct(high * 0x100 + b, k);
    OrSplit(high * 0x100 + b, low, payload, 0, k);
    OrZero(low);
    ShlIsProduct(high, 8);
    ShlZero(8);
    OrSplit(high, b, 0, payload, 8);
    OrZero(high);
    ShlIsProduct(high * 0x100 + OrBytes(b, payload), k);
  }

  /** The signed little-endian int32 of four bytes. */
  function Int32(bytes: seq<u8>): int
    requires |bytes| == 4
  {
    var word: int := Unsigned32(bytes);
    if bytes[3] >= 0x80 then word - 0x1_0000_0000 else word
  }

  lemma SlotRunPending(m: SlotModel, ops: seq<LaneOp>)
    requires m.pending == map[] && |ops| == 4 && DistinctLanes(ops)
    requires forall op :: op in ops ==> op.lane < 4
    ensures var r := SlotRun(m, ops);
            r.pending == map[] && |r.value| == 4 && forall k :: 0 <= k < 4 ==> r.value[ops[k].lane] == ops[k].payload
  {
    var a, b, c, d := ops[0], ops[1], ops[2], ops[3];
    assert a in ops && b in ops && c in ops && d in ops;
    assert a.lane != b.lane && a.lane != c.lane && a.lane != d.lane && b.lane != c.lane && b.lane != d.lane && c.lane != d.lane;
    var m1 := SlotStep(m, a.lane, a.payload);
    var m2 := SlotStep(m1, b.lane, b.payload);
    var m3 := SlotStep(m2, c.lane, c.payload);
    var m4 := SlotStep(m3, d.lane, d.payload);
    assert m1.pending == map[a.lane := a.payload];
    assert m2.pending == map[a.lane := a.payload, b.lane := b.payload];
    assert m3.pending == map[a.lane := a.payload, b.lane := b.payload, c.lane := c.payload];
    var all := m3.pending[d.lane := d.payload];
    assert 0 in all && 1 in all && 2 in all && 3 in all;
    assert SlotRun(m, ops) == m4 by {
      assert ops[1..][1..] == ops[2..] && ops[2..][1..] == ops[3..] && ops[3..][1..] == [];
      assert SlotRun(m3, ops[3..]) == m4;
      assert SlotRun(m2, ops[2..]) == m4;
    }
  }

  /**
   The four distinct lanes of an idle slot, in any order and interleaved with any traffic for other
   slots, leave the mask clear and the slot holding the little-endian int32 of the four payloads.
   */
  lemma FourLanesComplete(layout: seq<nat>, st: Store, ops: seq<LaneOp>, i: nat)
    requires ValidLayout(layout, st) && ValidOps(layout, ops) && i < |layout| && st.lanes[i] == 0
    requires |Project(ops, i)| == 4 && DistinctLanes(Project(ops, i))
    ensures var r, mine := RunLanes(layout, st, ops), Project(ops, i);
            && r.lanes[i] == 0
            && (forall k :: 0 <= k < 4 ==> mine[k].lane < 4 && SlotBytes(layout, r, i)[mine[k].lane] == mine[k].payload)
            && Int32(SlotBytes(layout, r, i)) ==
               if LaneSum(mine) >= 0x8000_0000 then LaneSum(mine) - 0x1_0000_0000 else LaneSum(mine)
  {
    var mine, m := Project(ops, i), SlotModel(map[], SlotBytes(layout, st, i));
    ProjectSound(ops, i);
    ClearedSlot(m.value);
    LanesAssemble(layout, st, ops, i, m);
    SlotRunPending(m, mine);
    var r := RunLanes(layout, st, ops);
    IdleMask(r.lanes[i], SlotRun(m, mine), SlotBytes(layout, r, i));
    assert forall k :: 0 <= k < 4 ==> mine[k] in mine;
    assert SlotBytes(layout, r, i) == SlotRun(m, mine).value;
    SumOfLanes(SlotBytes(layout, r, i), mine);
  }

  lemma IdleMask(mask: u8, m: SlotModel, bytes: seq<u8>)
    requires |bytes| == 4 && Represents(mask, bytes, m) && m.pending == map[]
    ensures mask == 0
  {
    hide HasLane;
    MaskBits(mask);
    assert !HasLane(mask, 0) && !HasLane(mask, 1) && !HasLane(mask, 2) && !HasLane(mask, 3);
  }

  lemma {:induction false} ProjectSound(ops: seq<LaneOp>, slot: nat)
    ensures forall op :: op in Project(ops, slot) ==> op in ops && op.slot == slot
  {
    if ops != [] {
      ProjectSound(ops[1..], slot);
    }
  }
}
