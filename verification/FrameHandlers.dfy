/**
 The runner's receive handlers: the generic path, and the two fast paths that configure_fast_layout
 may select. The fast paths never consult the mapping; they are proved to do what the mapping says.
 */
module FrameHandlers {
  import opened Bits
  import opened Artifact
  import opened FrameCodec
  import opened OutputDecoder

  datatype SessionStatus =
    | SessionOk | SessionTimeout | SessionBufferTooSmall | SessionOverflow | SessionHardwareError
    | SessionRuntimeError | SessionSyncModeError | SessionScheduleUnsupported | SessionFaulted | SessionBusy

  datatype Layout = GenericLayout | FastData | FastVoltage

  // -------------------------------------------------------- layout detection

  /** Axon key an element has in the canonical layout; C computes it in 32 bits. */
  function ExpectedAxon(voltage: bool, element: nat): nat {
    if voltage then element / 8 * 32 % 0x1_0000_0000 + element % 8 else element
  }

  predicate IsFastData(view: OutputView) { view.kind == OUTPUT_DATA && view.dtype == 1 }
  predicate IsFastVoltage(view: OutputView) { view.kind == OUTPUT_VOLTAGE && view.dtype == DTYPE_VOLTAGE_INT32 }

  predicate Candidate(view: OutputView) {
    (IsFastData(view) || IsFastVoltage(view)) && |view.entries| == view.elementCount && view.elementCount != 0
  }

  function Lookup(view: OutputView, element: nat): Option<OutputEntry> {
    Find(view.entries, ExpectedAxon(IsFastVoltage(view), element))
  }

  predicate Canonical(view: OutputView, element: nat) {
    Lookup(view, element).Some? && Lookup(view, element).value.elemIdx == element
  }

  ghost predicate AllCanonical(view: OutputView) {
    forall e :: 0 <= e < view.elementCount ==> Canonical(view, e)
  }

  /**
   Select the handler. A missing expected key refuses the deployment; a present key that belongs to
   another element falls back to the generic path. The first such element in order decides.
   */
  method ConfigureFastLayout(view: OutputView) returns (status: SessionStatus, layout: Layout)
    ensures !Candidate(view) ==> status == SessionOk && layout == GenericLayout
    ensures Candidate(view) && AllCanonical(view) ==>
              status == SessionOk && layout == if IsFastData(view) then FastData else FastVoltage
    ensures Candidate(view) && !AllCanonical(view) ==>
              exists e :: 0 <= e < view.elementCount && !Canonical(view, e) &&
                (forall k :: 0 <= k < e ==> Canonical(view, k)) &&
                layout == GenericLayout &&
                status == if Lookup(view, e).None? then SessionRuntimeError else SessionOk
  {
    if !Candidate(view) {
      return SessionOk, GenericLayout;
    }
    for element := 0 to view.elementCount
      invariant forall k :: 0 <= k < element ==> Canonical(view, k)
    {
      var found := OutputMappingFind(view, ExpectedAxon(IsFastVoltage(view), element));
      if found.None? {
        assert !Canonical(view, element);
        return SessionRuntimeError, GenericLayout;
      }
      if found.value.elemIdx != element || found.value.axonBitIdx != ExpectedAxon(IsFastVoltage(view), element) {
        FindSound(view.entries, ExpectedAxon(IsFastVoltage(view), element));
        assert !Canonical(view, element);
        return SessionOk, GenericLayout;
      }
    }
    return SessionOk, if IsFastData(view) then FastData else FastVoltage;
  }

  /** The layouts deployment can leave behind. */
  ghost predicate LayoutSound(view: OutputView, layout: Layout) {
    layout != GenericLayout ==>
      Candidate(view) && AllCanonical(view) && (if layout == FastData then IsFastData(view) else IsFastVoltage(view))
  }

  /** The canonical keys: the element itself, or for VOLTAGE eight elements a group and 32 keys a group. */
  lemma CanonicalKeys(group: nat, within: nat)
    requires group < 0x800_0000 && within < 8
    ensures ExpectedAxon(false, 8 * group + within) == 8 * group + within
    ensures ExpectedAxon(true, 8 * group + within) == 32 * group + within
  {
    DivMod(8 * group + within, 8, group, within);
    DivMod(32 * group, 0x1_0000_0000, 0, 32 * group);
  }

  /** A mapping that lists its elements in order under their canonical keys is detected. */
  lemma CanonicalDetected(view: OutputView)
    requires Candidate(view) && KeysIncrease(view.entries)
    requires forall e :: 0 <= e < |view.entries| ==>
               view.entries[e].elemIdx == e && view.entries[e].axonBitIdx == ExpectedAxon(IsFastVoltage(view), e)
    ensures AllCanonical(view)
  {
    forall e | 0 <= e < view.elementCount
      ensures Canonical(view, e)
    {
      assert view.entries[e] in view.entries;
      FindExact(view.entries, view.entries[e]);
    }
  }

  // -------------------------------------------------------------- pigeonhole

  ghost predicate Distinct(xs: seq<nat>) {
    forall i, j :: 0 <= i < j < |xs| ==> xs[i] != xs[j]
  }

  function ToSet(xs: seq<nat>): set<nat> { set x | x in xs }

  lemma {:induction false} SetOfSeq(xs: seq<nat>)
    ensures |ToSet(xs)| <= |xs|
    ensures Distinct(xs) ==> |ToSet(xs)| == |xs|
  {
    if xs != [] {
      var front, last := xs[..|xs| - 1], xs[|xs| - 1];
      SetOfSeq(front);
      assert xs == front + [last];
      assert ToSet(xs) == ToSet(front) + {last};
      if Distinct(xs) {
        assert last !in front;
      }
    }
  }

  lemma SubsetOfSameSize(a: set<nat>, b: set<nat>)
    requires a <= b && |a| >= |b|
    ensures a == b
  {
    assert b == a + (b - a);
  }

  /** n distinct keys found among n entries are all the keys there are. */
  lemma NoOtherKeys(view: OutputView, key: nat)
    requires Candidate(view) && AllCanonical(view)
    ensures Find(view.entries, key).Some? ==>
              exists e :: 0 <= e < view.elementCount && key == ExpectedAxon(IsFastVoltage(view), e)
  {
    var n, voltage := view.elementCount as nat, IsFastVoltage(view);
    var expected := seq(n, e requires 0 <= e < n => ExpectedAxon(voltage, e));
    var keys := seq(n, i requires 0 <= i < n => view.entries[i].axonBitIdx as nat);
    forall i, j | 0 <= i < j < n
      ensures expected[i] != expected[j]
    {
      assert Canonical(view, i) && Canonical(view, j);
    }
    forall x | x in expected
      ensures x in keys
    {
      var e :| 0 <= e < n && expected[e] == x;
      assert Canonical(view, e);
      FindSound(view.entries, x);
      var i :| 0 <= i < n && view.entries[i] == Lookup(view, e).value;
      assert keys[i] == x;
    }
    SetOfSeq(expected);
    SetOfSeq(keys);
    SubsetOfSameSize(ToSet(expected), ToSet(keys));
    if Find(view.entries, key).Some? {
      FindSound(view.entries, key);
      var i :| 0 <= i < n && view.entries[i] == Find(view.entries, key).value;
      assert keys[i] == key && key in ToSet(keys);
      assert key in expected;
    }
  }

  /** In a detected layout, a key resolves exactly to the element whose canonical key it is. */
  lemma CanonicalLookup(view: OutputView, key: nat, element: nat)
    requires Candidate(view) && AllCanonical(view)
    requires key == ExpectedAxon(IsFastVoltage(view), element) && element < 0x1_0000
    ensures if element < view.elementCount
            then Find(view.entries, key).Some? && Find(view.entries, key).value.elemIdx == element
            else Find(view.entries, key).None?
  {
    if element < view.elementCount {
      assert Canonical(view, element);
    } else if Find(view.entries, key).Some? {
      NoOtherKeys(view, key);
      var e :| 0 <= e < view.elementCount && key == ExpectedAxon(IsFastVoltage(view), e);
      assert Canonical(view, e);
      CanonicalKeysDiffer(IsFastVoltage(view), e, element);
    }
  }

  lemma CanonicalKeysDiffer(voltage: bool, a: nat, b: nat)
    requires a < 0x1_0000 && b < 0x1_0000
    ensures ExpectedAxon(voltage, a) == ExpectedAxon(voltage, b) ==> a == b
  {
    DivMod(a / 8 * 32, 0x1_0000_0000, 0, a / 8 * 32);
    DivMod(b / 8 * 32, 0x1_0000_0000, 0, b / 8 * 32);
  }

  // ---------------------------------------------------------------- handlers

  /** The sample rows and the per-element lane state fit the caller's buffers. */
  ghost predicate RowsFit(s: Setup) {
    && ValidOutputView(s.view)
    && s.timesteps > 0 && s.capacity <= SIZE_MAX
    && RowBytes(s.view) <= s.stride
    && (s.timesteps - 1) * s.stride + RowBytes(s.view) <= s.capacity
    && (s.view.kind == OUTPUT_VOLTAGE ==>
          s.stride % 4 == 0 && s.capacity % 4 == 0 && s.timesteps * s.view.elementCount <= s.stateCount <= UINT32_MAX)
    && (s.view.kind == OUTPUT_DATA ==> DtypeInfo(s.view.dtype).Some? || |s.view.entries| == 0)
  }

  lemma Strided(s: Setup)
    requires RowsFit(s)
    ensures s.stride > 0
  {
  }

  function RowBytes(view: OutputView): nat {
    if view.kind == OUTPUT_VOLTAGE then 4 * view.elementCount else view.elementCount
  }

  function FastDataEffect(s: Setup, submitted: nat, frame: Frame): Effect
    requires s.stride > 0
  {
    if !IsDataWork(frame) then Ignore
    else
      var address := OutputFrameAddress(s.view.targetLcn, frame);
      if address.None? then Ignore
      else
        var timestep, axon := address.value.timestep, address.value.axonBitIdx;
        if timestep >= submitted then Reject(CodecOutOfRange)
        else if timestep >= s.timesteps || axon >= s.view.elementCount || timestep > (SIZE_MAX - axon) / s.stride then Ignore
        else
          var payload := frame.low % 0x100;
          if payload / 2 != 0 then Ignore
          else if Cell(timestep, s.stride, axon) >= s.capacity then Reject(CodecOutOfRange)
          else PutByte(Cell(timestep, s.stride, axon), payload)
  }

  /** The canonical VOLTAGE address: eight elements a group, four lanes eight keys apart. */
  function FastElement(axon: nat): nat { axon / 32 * 8 + axon % 32 % 8 }
  function FastLane(axon: nat): nat { axon % 32 / 8 }

  /** size_t arithmetic wraps. */
  function SizeT(x: nat): nat { x % 0x1_0000_0000 }

  function FastVoltageEffect(s: Setup, submitted: nat, frame: Frame): Effect {
    var address := OutputFrameAddress(s.view.targetLcn, frame);
    if !IsVoltageWork(frame) || address.None? then Ignore
    else
      var timestep, axon := address.value.timestep, address.value.axonBitIdx;
      if timestep >= submitted then Reject(CodecOutOfRange)
      else if timestep >= s.timesteps then Ignore
      else
        var element, lane := FastElement(axon), FastLane(axon);
        if lane >= 4 || element >= s.view.elementCount then Ignore
        else
          var slot := SizeT(Cell(timestep, s.stride / 4, element));
          var state := SizeT(Cell(timestep, s.view.elementCount, element));
          if slot >= s.capacity / 4 || state >= s.stateCount then Reject(CodecOutOfRange)
          else PutLane(slot, state, lane, frame.low % 0x100)
  }

  /** A work frame of either kind whose timestep has not been submitted yet. */
  predicate LateWork(view: OutputView, submitted: nat, frame: Frame) {
    IsWork(frame) && OutputFrameAddress(view.targetLcn, frame).Some? &&
    OutputFrameAddress(view.targetLcn, frame).value.timestep >= submitted
  }

  /** Late is decided by the timestamp alone: its timestep part has not been submitted. */
  lemma LateMeaning(view: OutputView, submitted: nat, frame: Frame)
    requires view.targetLcn <= TARGET_LCN_MAX
    ensures LateWork(view, submitted, frame) <==>
            (IsDataWork(frame) || IsVoltageWork(frame)) && Shr(EncodedTimestep(frame), view.targetLcn) >= submitted
  {
    hide EncodedTimestep, Shr, LowBits, BitOr;
    KindsPartition(frame);
  }

  function HandlerEffect(layout: Layout, s: Setup, submitted: nat, frame: Frame): Effect
    requires s.stride > 0
  {
    match layout
    case GenericLayout =>
      if LateWork(s.view, submitted, frame) then Reject(CodecOutOfRange) else FrameEffect(s, true, frame)
    case FastData => FastDataEffect(s, submitted, frame)
    case FastVoltage => FastVoltageEffect(s, submitted, frame)
  }

  lemma HandlerInWindow(layout: Layout, s: Setup, submitted: nat, frame: Frame)
    requires s.stride > 0
    ensures InWindow(s, HandlerEffect(layout, s, submitted, frame))
    ensures HandlerEffect(layout, s, submitted, frame) != Reject(CodecOk)
  {
    hide OutputFrameAddress, FrameEffect, IsDataWork, IsVoltageWork;
    EffectsInWindow(s, true, frame);
  }

  /** One handler call: every codec error surfaces as RUNTIME_ERROR. */
  function Handle(layout: Layout, s: Setup, submitted: nat, st: Store, frame: Frame): (r: (Store, SessionStatus))
    requires s.stride > 0 && Fits(s, st)
    ensures Fits(s, r.0) && |r.0.mem| == |st.mem|
    ensures r.1 == SessionOk || r.1 == SessionRuntimeError
  {
    HandlerInWindow(layout, s, submitted, frame);
    var r := Apply(s, st, HandlerEffect(layout, s, submitted, frame));
    (r.0, if r.1 == CodecOk then SessionOk else SessionRuntimeError)
  }

  /** The sticky feed of a barrier: the handler is called up to and including the first frame it fails on. */
  function Feed(layout: Layout, s: Setup, submitted: nat, st: Store, frames: seq<Frame>): (r: (Store, SessionStatus))
    requires s.stride > 0 && Fits(s, st)
    ensures Fits(s, r.0) && |r.0.mem| == |st.mem|
    ensures r.1 == SessionOk || r.1 == SessionRuntimeError
    decreases |frames|
  {
    if frames == [] then (st, SessionOk)
    else
      var next := Handle(layout, s, submitted, st, frames[0]);
      if next.1 != SessionOk then next else Feed(layout, s, submitted, next.0, frames[1..])
  }

  // -------------------------------------------------------------- refinement

  /** A work frame of the kind the fast handler does not serve. */
  predicate OtherKind(layout: Layout, frame: Frame) {
    match layout
    case GenericLayout => false
    case FastData => IsVoltageWork(frame)
    case FastVoltage => IsDataWork(frame)
  }

  lemma CellFits(row: nat, rows: nat, stride: nat, elem: nat, width: nat, capacity: nat)
    requires row < rows && elem < width && (rows - 1) * stride + width <= capacity
    ensures row * stride + elem < capacity
    ensures stride > 0 && capacity <= SIZE_MAX ==> row <= (SIZE_MAX - elem) / stride
  {
    MulMono(row, rows - 1, stride);
    if stride > 0 && capacity <= SIZE_MAX {
      AtMostQuotient(row, stride, SIZE_MAX - elem);
    }
  }

  lemma FastDataRefines(s: Setup, submitted: nat, frame: Frame)
    requires RowsFit(s) && LayoutSound(s.view, FastData) && submitted <= s.timesteps
    ensures IsDataWork(frame) ==>
              HandlerEffect(FastData, s, submitted, frame) == HandlerEffect(GenericLayout, s, submitted, frame)
  {
    hide Pow2, BitOr, EncodedTimestep, OutputFrameAddress, Find;
    if IsDataWork(frame) {
      AddressMeaning(s.view.targetLcn, frame);
      var address := OutputFrameAddress(s.view.targetLcn, frame).value;
      var timestep, axon := address.timestep, address.axonBitIdx;
      assert axon < 0x1_0000;
      SmallPowers();
      if timestep < submitted {
        CanonicalLookup(s.view, axon, axon);
        if axon < s.view.elementCount {
          CellFits(timestep, s.timesteps, s.stride, axon, s.view.elementCount, s.capacity);
          UnsignedBit(frame.low % 0x100);
        }
      }
    }
  }

  lemma UnsignedBit(payload: nat)
    requires payload < 0x100
    ensures payload / 2 != 0 <==> payload >= Pow2(1)
    ensures payload / 2 == 0 ==> DecodePayload(payload, Dtype(1, false)) == payload
  {
  }

  lemma FastVoltageRefines(s: Setup, submitted: nat, frame: Frame)
    requires RowsFit(s) && LayoutSound(s.view, FastVoltage) && submitted <= s.timesteps
    ensures IsVoltageWork(frame) ==>
              HandlerEffect(FastVoltage, s, submitted, frame) == HandlerEffect(GenericLayout, s, submitted, frame)
  {
    hide Pow2, BitOr, EncodedTimestep, OutputFrameAddress, Find, FastElement, FastLane, LaneBase, Cell, SizeT;
    if IsVoltageWork(frame) {
      AddressMeaning(s.view.targetLcn, frame);
      var address := OutputFrameAddress(s.view.targetLcn, frame).value;
      var timestep, axon := address.timestep, address.axonBitIdx;
      assert axon < 0x1_0000;
      LaneAddress(axon);
      CanonicalLookup(s.view, LaneBase(axon), FastElement(axon));
      if timestep < submitted && FastElement(axon) < s.view.elementCount {
        SlotsFit(s, timestep, FastElement(axon));
      }
    }
  }

  lemma SlotsFit(s: Setup, timestep: nat, element: nat)
    requires RowsFit(s) && s.view.kind == OUTPUT_VOLTAGE && timestep < s.timesteps && element < s.view.elementCount
    ensures var n := s.view.elementCount;
            && element < s.stride / 4
            && Cell(timestep, s.stride / 4, element) < s.capacity / 4 && Cell(timestep, n, element) < s.stateCount
            && SizeT(Cell(timestep, s.stride / 4, element)) == Cell(timestep, s.stride / 4, element)
            && SizeT(Cell(timestep, n, element)) == Cell(timestep, n, element)
            && timestep <= (SIZE_MAX - element) / (s.stride / 4) && timestep <= (SIZE_MAX - element) / n
  {
    var n := s.view.elementCount as nat;
    WordRows(s);
    CellFits(timestep, s.timesteps, s.stride / 4, element, n, s.capacity / 4);
    CellFits(timestep, s.timesteps, n, element, n, s.timesteps * n);
    NoWrap(Cell(timestep, s.stride / 4, element));
    NoWrap(Cell(timestep, n, element));
  }

  lemma NoWrap(x: nat)
    requires x <= SIZE_MAX
    ensures SizeT(x) == x
  {
  }

  lemma LaneAddress(axon: nat)
    requires axon < 0x1_0000
    ensures FastElement(axon) < 0x4000
    ensures ExpectedAxon(true, FastElement(axon)) == LaneBase(axon)
    ensures FastLane(axon) == axon / 8 % 4 < 4
  {
    var group, within := axon / 32, axon % 32;
    DivMod(group * 8 + within % 8, 8, group, within % 8);
    DivMod(group * 32, 0x1_0000_0000, 0, group * 32);
    DivMod(axon / 8, 4, group, within / 8);
  }

  lemma WordRows(s: Setup)
    requires RowsFit(s) && s.view.kind == OUTPUT_VOLTAGE
    ensures (s.timesteps - 1) * (s.stride / 4) + s.view.elementCount <= s.capacity / 4
    ensures (s.timesteps - 1) * s.view.elementCount + s.view.elementCount == s.timesteps * s.view.elementCount
    ensures s.view.elementCount <= s.stride / 4
  {
    assert (s.timesteps - 1) * s.stride == 4 * ((s.timesteps - 1) * (s.stride / 4));
  }

  /**
   The fast path refines the generic path, frame by frame, and exactly here: the two agree unless the
   frame is a late work frame of the other kind, which only the generic path refuses.
   */
  lemma FastAgreesIff(layout: Layout, s: Setup, submitted: nat, st: Store, frame: Frame)
    requires RowsFit(s) && Fits(s, st) && LayoutSound(s.view, layout) && submitted <= s.timesteps
    ensures Handle(layout, s, submitted, st, frame) == Handle(GenericLayout, s, submitted, st, frame) <==>
            !(OtherKind(layout, frame) && LateWork(s.view, submitted, frame))
    ensures OtherKind(layout, frame) ==> Handle(layout, s, submitted, st, frame) == (st, SessionOk)
    ensures OtherKind(layout, frame) && LateWork(s.view, submitted, frame) ==>
              Handle(GenericLayout, s, submitted, st, frame) == (st, SessionRuntimeError)
  {
    hide Pow2, BitOr, EncodedTimestep, OutputFrameAddress, Find;
    FastDataRefinesIf(layout, s, submitted, frame);
    if OtherKind(layout, frame) && !LateWork(s.view, submitted, frame) {
      assert FrameEffect(s, true, frame) == Ignore;
    }
    KindsPartition(frame);
  }

  lemma KindsPartition(frame: Frame)
    ensures IsWork(frame) <==> IsDataWork(frame) || IsVoltageWork(frame)
    ensures !(IsDataWork(frame) && IsVoltageWork(frame))
  {
  }

  lemma FastDataRefinesIf(layout: Layout, s: Setup, submitted: nat, frame: Frame)
    requires RowsFit(s) && LayoutSound(s.view, layout) && submitted <= s.timesteps
    ensures !OtherKind(layout, frame) ==>
              HandlerEffect(layout, s, submitted, frame) == HandlerEffect(GenericLayout, s, submitted, frame)
  {
    hide Pow2, BitOr, EncodedTimestep, OutputFrameAddress, Find;
    KindsPartition(frame);
    match layout
    case GenericLayout =>
    case FastData => FastDataRefines(s, submitted, frame);
    case FastVoltage => FastVoltageRefines(s, submitted, frame);
  }

  /** Over a whole frame stream, the fast path leaves the same memory, lane state and sticky status. */
  lemma {:induction false} FastRefinesGeneric(layout: Layout, s: Setup, submitted: nat, st: Store, frames: seq<Frame>)
    requires RowsFit(s) && Fits(s, st) && LayoutSound(s.view, layout) && submitted <= s.timesteps
    requires forall f :: f in frames ==> !(OtherKind(layout, f) && LateWork(s.view, submitted, f))
    ensures Feed(layout, s, submitted, st, frames) == Feed(GenericLayout, s, submitted, st, frames)
    decreases |frames|
  {
    hide Handle, OtherKind, LateWork;
    if frames != [] {
      assert frames[0] in frames;
      FastAgreesIff(layout, s, submitted, st, frames[0]);
      var next := Handle(layout, s, submitted, st, frames[0]);
      if next.1 == SessionOk {
        FastRefinesGeneric(layout, s, submitted, next.0, frames[1..]);
      }
    }
  }

  lemma {:induction false} FeedOneMore(layout: Layout, s: Setup, submitted: nat, st: Store, frames: seq<Frame>, frame: Frame)
    requires s.stride > 0 && Fits(s, st)
    ensures var before := Feed(layout, s, submitted, st, frames);
            Feed(layout, s, submitted, st, frames + [frame]) ==
            if before.1 != SessionOk then before else Handle(layout, s, submitted, before.0, frame)
    decreases |frames|
  {
    hide Handle;
    var all := frames + [frame];
    if frames == [] {
      assert all[0] == frame && all[1..] == [];
    } else {
      assert all[0] == frames[0] && all[1..] == frames[1..] + [frame];
      var next := Handle(layout, s, submitted, st, frames[0]);
      if next.1 == SessionOk {
        FeedOneMore(layout, s, submitted, next.0, frames[1..], frame);
      }
    }
  }

  /** At this point of the stream both handlers have left the same memory, lane state and status. */
  ghost predicate AgreeAt(layout: Layout, s: Setup, submitted: nat, st: Store, frames: seq<Frame>, n: nat)
    requires s.stride > 0 && Fits(s, st) && n <= |frames|
  {
    Feed(layout, s, submitted, st, frames[..n]) == Feed(GenericLayout, s, submitted, st, frames[..n])
  }

  /** Frame n is a late work frame of the other kind, and reaches the generic handler. */
  ghost predicate RefusedAt(layout: Layout, s: Setup, submitted: nat, st: Store, frames: seq<Frame>, n: nat)
    requires s.stride > 0 && Fits(s, st) && n < |frames|
  {
    && OtherKind(layout, frames[n]) && LateWork(s.view, submitted, frames[n])
    && Feed(GenericLayout, s, submitted, st, frames[..n]).1 == SessionOk
  }

  lemma AgreeAtStart(layout: Layout, s: Setup, submitted: nat, st: Store, frames: seq<Frame>)
    requires s.stride > 0 && Fits(s, st)
    ensures AgreeAt(layout, s, submitted, st, frames, 0)
  {
    hide Handle;
  }

  /** Where the handlers agree, they go on agreeing over the next frame exactly if it is not refused. */
  lemma AgreeStep(layout: Layout, s: Setup, submitted: nat, st: Store, frames: seq<Frame>, n: nat)
    requires RowsFit(s) && Fits(s, st) && LayoutSound(s.view, layout) && submitted <= s.timesteps
    requires n < |frames| && AgreeAt(layout, s, submitted, st, frames, n)
    ensures AgreeAt(layout, s, submitted, st, frames, n + 1) <==> !RefusedAt(layout, s, submitted, st, frames, n)
  {
    hide Handle, OtherKind, LateWork, Feed;
    var before := Feed(GenericLayout, s, submitted, st, frames[..n]);
    assert frames[..n + 1] == frames[..n] + [frames[n]];
    FeedOneMore(layout, s, submitted, st, frames[..n], frames[n]);
    FeedOneMore(GenericLayout, s, submitted, st, frames[..n], frames[n]);
    FastAgreesIff(layout, s, submitted, before.0, frames[n]);
  }

  /**
   The exact law over streams: fast and generic path agree after every frame if and only if no late
   work frame of the other kind reaches the generic handler, that is, every such frame comes after the
   generic handler has already failed.
   */
  lemma FastAgreesThroughoutIff(layout: Layout, s: Setup, submitted: nat, st: Store, frames: seq<Frame>)
    requires RowsFit(s) && Fits(s, st) && LayoutSound(s.view, layout) && submitted <= s.timesteps
    ensures (forall n :: 0 <= n <= |frames| ==> AgreeAt(layout, s, submitted, st, frames, n)) <==>
            (forall n :: 0 <= n < |frames| ==> !RefusedAt(layout, s, submitted, st, frames, n))
  {
    hide AgreeAt, RefusedAt, RowsFit, LayoutSound;
    Strided(s);
    AgreeAtStart(layout, s, submitted, st, frames);
    if forall n :: 0 <= n < |frames| ==> !RefusedAt(layout, s, submitted, st, frames, n) {
      for n := 0 to |frames|
        invariant forall k :: 0 <= k <= n ==> AgreeAt(layout, s, submitted, st, frames, k)
      {
        AgreeStep(layout, s, submitted, st, frames, n);
      }
    } else {
      var n :| 0 <= n < |frames| && RefusedAt(layout, s, submitted, st, frames, n);
      if AgreeAt(layout, s, submitted, st, frames, n) {
        AgreeStep(layout, s, submitted, st, frames, n);
      }
    }
  }
}
