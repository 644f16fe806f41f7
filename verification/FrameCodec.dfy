/** Packing and unpacking of 64-bit NoC frames, and the scalar payload codec. */
module FrameCodec {
  import opened Bits
  import opened Artifact

  datatype CodecStatus =
    CodecOk | CodecDone | CodecBufferFull | CodecNullArgument | CodecOutOfRange | CodecBadValue | CodecUnsupported

  /** One logical 64-bit frame, split for the FIFO. */
  datatype Frame = Frame(high: u32, low: u32)

  datatype BuildResult = Built(frame: Frame) | Failed(status: CodecStatus)

  const HDR_WORK: nat := 8
  const HDR_SYNC: nat := 12
  const HDR_INIT: nat := 13
  const CTRL_PAYLOAD_MAX: nat := 0xFF_FFFF

  predicate IsWork(frame: Frame) { frame.high / 0x4000_0000 % 4 == 2 }
  function WorkKind(frame: Frame): nat { frame.high / 0x2000_0000 % 2 }
  predicate IsDataWork(frame: Frame) { IsWork(frame) && WorkKind(frame) == 0 }
  predicate IsVoltageWork(frame: Frame) { IsWork(frame) && WorkKind(frame) == 1 }
  predicate IsComplete(frame: Frame) { frame.high / 0x1000_0000 % 16 == 14 }

  function WordOf(frame: Frame): nat { frame.high * 0x1_0000_0000 + frame.low }

  function FrameFromWord(word: nat): Frame
    requires word < 0x1_0000_0000_0000_0000
  {
    Frame(word / 0x1_0000_0000, word % 0x1_0000_0000)
  }

  // ---------------------------------------------------------------- routing

  function SignMagnitude6(value: int): Option<nat> {
    if value < -31 || value > 31 then None
    else if value < 0 then Some(BitOr(0x20, -value))
    else Some(value)
  }

  /** The signed number a 6-bit sign-magnitude field stands for. */
  function SignMagnitudeValue(code: nat): int {
    if code >= 0x20 then 0x20 - code else code
  }

  function SignCode(value: int): nat
    requires -31 <= value <= 31
  {
    if value < 0 then 0x20 - value else value
  }

  function Magnitude(value: int): nat { if value < 0 then 0 - value else value }

  lemma SignMagnitudeRoundTrip(value: int)
    ensures SignMagnitude6(value) == if -31 <= value <= 31 then Some(SignCode(value)) else None
    ensures -31 <= value <= 31 ==> SignCode(value) < 64 && SignMagnitudeValue(SignCode(value)) == value
    ensures -31 <= value <= 31 ==> (SignCode(value) / 32 == 1 <==> value < 0) && SignCode(value) % 32 == Magnitude(value)
  {
    if -31 <= value < 0 {
      SmallPowers();
      OrAdd(0x20, 1, 0x20, 5, -value);
    }
  }

  function PackField(value: nat, offset: nat, width: nat): nat {
    Shl(LowBits(value, width), offset)
  }

  function PackRoute(r: Route, offsetXy: nat, offsetX: nat, offsetY: nat): Option<nat> {
    var xy, x, y := SignMagnitude6(r.xy), SignMagnitude6(r.x), SignMagnitude6(r.y);
    if xy.None? || x.None? || y.None? then None
    else Some(BitOr(BitOr(PackField(xy.value, offsetXy, 6), PackField(x.value, offsetX, 6)),
                    PackField(y.value, offsetY, 6)))
  }

  function FrameDest(header: nat, offset: Route, copies: Route): Option<nat> {
    var packedOffset, packedCopy := PackRoute(offset, 54, 48, 42), PackRoute(copies, 36, 30, 24);
    if packedOffset.None? || packedCopy.None? then None
    else Some(BitOr(BitOr(PackField(header, 60, 4), packedOffset.value), packedCopy.value))
  }

  predicate Routable(r: Route) {
    -31 <= r.xy <= 31 && -31 <= r.x <= 31 && -31 <= r.y <= 31
  }

  /** The 18-bit code of a routable triple. */
  function RouteCode(r: Route): nat
    requires Routable(r)
  {
    SignCode(r.xy) * 0x1000 + SignCode(r.x) * 0x40 + SignCode(r.y)
  }

  function RouteOfCode(code: nat): (int, int, int) {
    (SignMagnitudeValue(code / 0x1000), SignMagnitudeValue(code / 0x40 % 0x40), SignMagnitudeValue(code % 0x40))
  }

  lemma RouteCodeRoundTrip(r: Route)
    requires Routable(r)
    ensures RouteCode(r) < 0x4_0000
    ensures RouteOfCode(RouteCode(r)) == (r.xy, r.x, r.y)
    ensures var code := RouteCode(r);
            code / 0x1000 == SignCode(r.xy) && code / 0x40 % 0x40 == SignCode(r.x) && code % 0x40 == SignCode(r.y)
  {
    hide SignMagnitude6, SignCode, SignMagnitudeValue;
    SignMagnitudeRoundTrip(r.xy);
    SignMagnitudeRoundTrip(r.x);
    SignMagnitudeRoundTrip(r.y);
    SplitCode(SignCode(r.xy), SignCode(r.x), SignCode(r.y));
  }

  lemma SplitCode(xy: nat, x: nat, y: nat)
    requires xy < 64 && x < 64 && y < 64
    ensures var code := xy * 0x1000 + x * 0x40 + y;
            code < 0x4_0000 && code / 0x1000 == xy && code / 0x40 % 0x40 == x && code % 0x40 == y
  {
    var code := xy * 0x1000 + x * 0x40 + y;
    DivMod(code, 0x1000, xy, x * 0x40 + y);
    DivMod(code, 0x40, xy * 0x40 + x, y);
    DivMod(xy * 0x40 + x, 0x40, xy, x);
  }

  /** A masked field packed at an offset is a plain multiple. */
  lemma PackFieldIsProduct(value: nat, offset: nat, m: nat, width: nat, w: nat)
    requires m == Pow2(offset) && w == Pow2(width)
    ensures PackField(value, offset, width) == PackField(value % w, offset, width)
    ensures value < w ==> PackField(value, offset, width) == value * m
  {
    ShlIsProduct(value % w, offset);
    if value < w {
      DivMod(value, w, 0, value);
    }
    DivMod(value % w, w, 0, value % w);
  }

  /** OR-ing three six-bit codes that sit next to each other. */
  lemma OrCodes(xy: nat, x: nat, y: nat, oxy: nat, ox: nat, oy: nat, m: nat)
    requires xy < 64 && x < 64 && y < 64
    requires m == Pow2(oy) && m * 0x40 == Pow2(ox) && m * 0x1000 == Pow2(oxy)
    ensures BitOr(BitOr(PackField(xy, oxy, 6), PackField(x, ox, 6)), PackField(y, oy, 6)) ==
            (xy * 0x1000 + x * 0x40 + y) * m
  {
    hide BitOr, Pow2, Shl;
    SmallPowers();
    PackFieldIsProduct(xy, oxy, m * 0x1000, 6, 64);
    PackFieldIsProduct(x, ox, m * 0x40, 6, 64);
    PackFieldIsProduct(y, oy, m, 6, 64);
    RouteSum(xy, x, y, m);
    MulMono(x + 1, 0x40, m * 0x40);
    MulMono(y + 1, 0x40, m);
    OrAdd(xy * (m * 0x1000), xy, m * 0x1000, oxy, x * (m * 0x40));
    OrAdd((xy * 0x40 + x) * (m * 0x40), xy * 0x40 + x, m * 0x40, ox, y * m);
  }

  lemma RouteSum(xy: nat, x: nat, y: nat, m: nat)
    ensures xy * (m * 0x1000) + x * (m * 0x40) == (xy * 0x40 + x) * (m * 0x40)
    ensures (xy * 0x40 + x) * (m * 0x40) + y * m == (xy * 0x1000 + x * 0x40 + y) * m
    ensures (x + 1) * (m * 0x40) == x * (m * 0x40) + m * 0x40 && (y + 1) * m == y * m + m
    ensures 0 <= x * (m * 0x40) && 0 <= y * m && 0 <= xy * (m * 0x1000) && 0 <= (xy * 0x40 + x) * (m * 0x40)
  {
    MulMono(0, x, m);
    MulMono(0, y, m);
    MulMono(0, xy, m);
    assert (xy * 0x40 + x) * m == 0x40 * (xy * m) + x * m;
  }

  lemma PackRouteMeaning(r: Route, oxy: nat, ox: nat, oy: nat, m: nat)
    requires m == Pow2(oy) && m * 0x40 == Pow2(ox) && m * 0x1000 == Pow2(oxy)
    ensures PackRoute(r, oxy, ox, oy) == if Routable(r) then Some(RouteCode(r) * m) else None
  {
    hide BitOr, Pow2, Shl;
    SignMagnitudeRoundTrip(r.xy);
    SignMagnitudeRoundTrip(r.x);
    SignMagnitudeRoundTrip(r.y);
    if Routable(r) {
      OrCodes(SignCode(r.xy), SignCode(r.x), SignCode(r.y), oxy, ox, oy, m);
    }
  }

  lemma OrDest(header: nat, o: nat, c: nat)
    requires header < 16 && o < 0x4_0000 && c < 0x4_0000
    ensures PackField(header, 60, 4) == header * 0x1000_0000_0000_0000
    ensures BitOr(BitOr(header * 0x1000_0000_0000_0000, o * 0x400_0000_0000), c * 0x100_0000) ==
            header * 0x1000_0000_0000_0000 + o * 0x400_0000_0000 + c * 0x100_0000
  {
    hide BitOr, Pow2, Shl;
    FieldPowers();
    SmallPowers();
    PackFieldIsProduct(header, 60, 0x1000_0000_0000_0000, 4, 16);
    OrAdd(header * 0x1000_0000_0000_0000, header, 0x1000_0000_0000_0000, 60, o * 0x400_0000_0000);
    OrAdd(header * 0x1000_0000_0000_0000 + o * 0x400_0000_0000, header * 0x4_0000 + o, 0x400_0000_0000, 42, c * 0x100_0000);
  }

  lemma FrameDestMeaning(header: nat, offset: Route, copies: Route)
    requires header < 16
    ensures FrameDest(header, offset, copies) ==
            if Routable(offset) && Routable(copies)
            then Some(header * 0x1000_0000_0000_0000 + RouteCode(offset) * 0x400_0000_0000 + RouteCode(copies) * 0x100_0000)
            else None
  {
    hide BitOr, Pow2, Shl, PackField, PackRoute, SignMagnitude6, RouteOfCode;
    FieldPowers();
    PackRouteMeaning(offset, 54, 48, 42, 0x400_0000_0000);
    PackRouteMeaning(copies, 36, 30, 24, 0x100_0000);
    if Routable(offset) && Routable(copies) {
      RouteCodeRoundTrip(offset);
      RouteCodeRoundTrip(copies);
      OrDest(header, RouteCode(offset), RouteCode(copies));
    }
  }

  // ------------------------------------------------------------- work frames

  /** The meaning of a DATA work frame: what the ten packed bit fields carry. */
  datatype WorkFields = WorkFields(offset: nat, copies: nat, timestamp: nat, axon: nat, payload: nat)

  ghost predicate FieldsInRange(f: WorkFields) {
    f.offset < 0x4_0000 && f.copies < 0x4_0000 && f.timestamp < 0x100 && f.axon < 0x200 && f.payload < 0x100
  }

  function WorkWord(f: WorkFields): nat {
    (HDR_WORK + f.timestamp / 0x80) * 0x1000_0000_0000_0000 + f.offset * 0x400_0000_0000 + f.copies * 0x100_0000
    + f.timestamp % 0x80 * 0x2_0000 + f.axon * 0x100 + f.payload
  }

  function UnpackWork(frame: Frame): WorkFields {
    var word := WordOf(frame);
    WorkFields(word / 0x400_0000_0000 % 0x4_0000, word / 0x100_0000 % 0x4_0000,
               EncodedTimestep(frame), frame.low / 0x100 % 0x200, frame.low % 0x100)
  }

  /** The timestamp split over bit 60 and bits 17..23, as the decoder reassembles it. */
  function EncodedTimestep(frame: Frame): nat {
    BitOr(Shl(frame.high / 0x1000_0000 % 2, 7), frame.low / 0x2_0000 % 0x80)
  }

  lemma EncodedTimestepIsSum(frame: Frame)
    ensures EncodedTimestep(frame) == frame.high / 0x1000_0000 % 2 * 0x80 + frame.low / 0x2_0000 % 0x80
    ensures EncodedTimestep(frame) < 0x100
  {
    SmallPowers();
    var top := frame.high / 0x1000_0000 % 2;
    ShlIsProduct(top, 7);
    OrAdd(Shl(top, 7), top, 0x80, 7, frame.low / 0x2_0000 % 0x80);
  }

  /** The fields partition the 64 bits: packing loses nothing and marks the frame as DATA work. */
  lemma WorkWordRoundTrip(f: WorkFields)
    requires FieldsInRange(f)
    ensures WorkWord(f) < 0x1_0000_0000_0000_0000
    ensures UnpackWork(FrameFromWord(WorkWord(f))) == f
    ensures IsDataWork(FrameFromWord(WorkWord(f))) && !IsComplete(FrameFromWord(WorkWord(f)))
  {
    hide EncodedTimestep, WorkWord;
    var word := WorkWord(f);
    SplitWorkWord(f, word);
    var frame := FrameFromWord(word);
    HighFields(frame.high, f.timestamp / 0x80, f.offset * 0x400 + f.copies / 0x100);
    LowFields(frame.low, f.copies % 0x100, f.timestamp % 0x80, f.axon, f.payload);
    RouteFields(f, word);
    EncodedTimestepIsSum(frame);
  }

  lemma SplitWorkWord(f: WorkFields, word: nat)
    requires FieldsInRange(f) && word == WorkWord(f)
    ensures word < 0x1_0000_0000_0000_0000
    ensures word / 0x1_0000_0000 == (HDR_WORK + f.timestamp / 0x80) * 0x1000_0000 + f.offset * 0x400 + f.copies / 0x100
    ensures word % 0x1_0000_0000 ==
            f.copies % 0x100 * 0x100_0000 + f.timestamp % 0x80 * 0x2_0000 + f.axon * 0x100 + f.payload
  {
    DivMod(word, 0x1_0000_0000, (HDR_WORK + f.timestamp / 0x80) * 0x1000_0000 + f.offset * 0x400 + f.copies / 0x100,
           f.copies % 0x100 * 0x100_0000 + f.timestamp % 0x80 * 0x2_0000 + f.axon * 0x100 + f.payload);
  }

  lemma RouteFields(f: WorkFields, word: nat)
    requires FieldsInRange(f) && word == WorkWord(f)
    ensures word / 0x400_0000_0000 % 0x4_0000 == f.offset && word / 0x100_0000 % 0x4_0000 == f.copies
  {
    var header, tail := HDR_WORK + f.timestamp / 0x80, f.timestamp % 0x80 * 0x2_0000 + f.axon * 0x100 + f.payload;
    DivMod(word, 0x400_0000_0000, header * 0x4_0000 + f.offset, f.copies * 0x100_0000 + tail);
    DivMod(header * 0x4_0000 + f.offset, 0x4_0000, header, f.offset);
    DivMod(word, 0x100_0000, header * 0x10_0000_0000 + f.offset * 0x4_0000 + f.copies, tail);
    DivMod(header * 0x10_0000_0000 + f.offset * 0x4_0000 + f.copies, 0x4_0000, header * 0x4_0000 + f.offset, f.copies);
  }

  lemma HighFields(high: u32, top: nat, rest: nat)
    requires top < 2 && rest < 0x1000_0000
    requires high == (HDR_WORK + top) * 0x1000_0000 + rest
    ensures high / 0x4000_0000 == 2 && high / 0x2000_0000 == 4
    ensures high / 0x1000_0000 == HDR_WORK + top
  {
    DivMod(high, 0x4000_0000, 2, top * 0x1000_0000 + rest);
    DivMod(high, 0x2000_0000, 4, top * 0x1000_0000 + rest);
    DivMod(high, 0x1000_0000, HDR_WORK + top, rest);
  }

  lemma LowFields(low: u32, copies: nat, ts: nat, axon: nat, payload: nat)
    requires copies < 0x100 && ts < 0x80 && axon < 0x200 && payload < 0x100
    requires low == copies * 0x100_0000 + ts * 0x2_0000 + axon * 0x100 + payload
    ensures low / 0x2_0000 % 0x80 == ts && low / 0x100 % 0x200 == axon && low % 0x100 == payload
  {
    DivMod(low, 0x2_0000, copies * 0x80 + ts, axon * 0x100 + payload);
    DivMod(copies * 0x80 + ts, 0x80, copies, ts);
    DivMod(low, 0x100, copies * 0x1_0000 + ts * 0x200 + axon, payload);
    DivMod(copies * 0x1_0000 + ts * 0x200 + axon, 0x200, copies * 0x80 + ts, axon);
  }

  function BuildWork1Frame(entry: InputEntry, timestep: nat, payload: u8): BuildResult {
    if entry.targetLcn > TARGET_LCN_MAX || entry.addrAxon > 0x1FF then Failed(CodecBadValue)
    else
      var dest := FrameDest(HDR_WORK, entry.coreOffset, entry.copyCount);
      if dest.None? then Failed(CodecBadValue)
      else if entry.tickRelative >= Pow2(entry.targetLcn) then Failed(CodecBadValue)
      else
        var resolved := ResolvedTimestep(entry, timestep);
        if resolved > 0xFF then Failed(CodecBadValue)
        else
          var frameAddr := BitOr(BitOr(PackField(resolved / 0x80, 60, 1), PackField(resolved, 17, 7)),
                                 PackField(entry.addrAxon, 8, 9));
          var word := BitOr(BitOr(dest.value, frameAddr), payload);
          WorkFrameWord(entry, resolved, payload);
          Built(FrameFromWord(word))
  }

  function ResolvedTimestep(entry: InputEntry, timestep: nat): nat
    requires entry.targetLcn <= TARGET_LCN_MAX
  {
    var wrapped := LowBits(timestep, 8 - entry.targetLcn);
    Shl(wrapped, entry.targetLcn) + entry.tickRelative
  }

  ghost function FieldsOf(entry: InputEntry, timestep: nat, payload: u8): WorkFields
    requires Routable(entry.coreOffset) && Routable(entry.copyCount) && entry.targetLcn <= TARGET_LCN_MAX
  {
    WorkFields(RouteCode(entry.coreOffset), RouteCode(entry.copyCount),
               ResolvedTimestep(entry, timestep), entry.addrAxon, payload)
  }

  /** The OR of the packed pieces is the sum of the fields: no two pieces share a bit. */
  lemma WorkFrameWord(entry: InputEntry, resolved: nat, payload: u8)
    requires FrameDest(HDR_WORK, entry.coreOffset, entry.copyCount).Some?
    requires entry.addrAxon <= 0x1FF && resolved <= 0xFF
    ensures Routable(entry.coreOffset) && Routable(entry.copyCount)
    ensures var dest := FrameDest(HDR_WORK, entry.coreOffset, entry.copyCount).value;
            var frameAddr := BitOr(BitOr(PackField(resolved / 0x80, 60, 1), PackField(resolved, 17, 7)),
                                   PackField(entry.addrAxon, 8, 9));
            var f := WorkFields(RouteCode(entry.coreOffset), RouteCode(entry.copyCount), resolved, entry.addrAxon, payload);
            FieldsInRange(f) && BitOr(BitOr(dest, frameAddr), payload) == WorkWord(f) < 0x1_0000_0000_0000_0000
  {
    hide BitOr, Pow2, Shl, PackField, FrameDest;
    FrameDestMeaning(HDR_WORK, entry.coreOffset, entry.copyCount);
    RouteCodeRoundTrip(entry.coreOffset);
    RouteCodeRoundTrip(entry.copyCount);
    var o, c := RouteCode(entry.coreOffset), RouteCode(entry.copyCount);
    OrAddress(resolved, entry.addrAxon);
    var addr := resolved % 0x80 * 0x2_0000 + entry.addrAxon * 0x100;
    MergeAddress(o * 0x4_0000 + c, resolved / 0x80, addr);
    OrPayload(WorkFields(o, c, resolved, entry.addrAxon, payload));
  }

  lemma OrAddress(resolved: nat, axon: nat)
    requires resolved <= 0xFF && axon <= 0x1FF
    ensures BitOr(BitOr(PackField(resolved / 0x80, 60, 1), PackField(resolved, 17, 7)), PackField(axon, 8, 9)) ==
            resolved / 0x80 * 0x1000_0000_0000_0000 + resolved % 0x80 * 0x2_0000 + axon * 0x100
  {
    hide BitOr, Pow2, Shl, PackField;
    FieldPowers();
    SmallPowers();
    var top, low := resolved / 0x80, resolved % 0x80;
    PackFieldIsProduct(top, 60, 0x1000_0000_0000_0000, 1, 2);
    PackFieldIsProduct(resolved, 17, 0x2_0000, 7, 0x80);
    PackFieldIsProduct(low, 17, 0x2_0000, 7, 0x80);
    PackFieldIsProduct(axon, 8, 0x100, 9, 0x200);
    OrAdd(top * 0x1000_0000_0000_0000, top, 0x1000_0000_0000_0000, 60, low * 0x2_0000);
    OrAdd(top * 0x1000_0000_0000_0000 + low * 0x2_0000, top * 0x800_0000_0000 + low, 0x2_0000, 17, axon * 0x100);
  }

  lemma OrPayload(f: WorkFields)
    requires FieldsInRange(f)
    ensures WorkWord(f.(payload := 0)) + f.payload == WorkWord(f) < 0x1_0000_0000_0000_0000
    ensures BitOr(WorkWord(f.(payload := 0)), f.payload) == WorkWord(f)
  {
    hide BitOr, Pow2;
    SmallPowers();
    var header, low := HDR_WORK + f.timestamp / 0x80, f.timestamp % 0x80;
    OrAdd(WorkWord(f.(payload := 0)),
          header * 0x10_0000_0000_0000 + f.offset * 0x4_0000_0000 + f.copies * 0x1_0000 + low * 0x200 + f.axon, 0x100, 8, f.payload);
  }

  /** The work header leaves bit 60 clear, so the timestamp's top bit can share its nibble. */
  lemma MergeAddress(routes: nat, top: nat, low: nat)
    requires routes < 0x10_0000_0000 && top < 2 && low < 0x100_0000
    ensures BitOr(HDR_WORK * 0x1000_0000_0000_0000 + routes * 0x100_0000, top * 0x1000_0000_0000_0000 + low) ==
            (HDR_WORK + top) * 0x1000_0000_0000_0000 + routes * 0x100_0000 + low
  {
    hide BitOr, Pow2, Shl;
    FieldPowers();
    var a, b := HDR_WORK * 0x10_0000_0000 + routes, top * 0x10_0000_0000;
    ShlIsProduct(a, 24);
    ShlIsProduct(b, 24);
    OrSplit(a, 0, b, low, 24);
    OrZero(low);
    MergeHeader(routes, top);
    ShlIsProduct(BitOr(a, b), 24);
  }

  lemma MergeHeader(routes: nat, top: nat)
    requires routes < 0x10_0000_0000 && top < 2
    ensures BitOr(HDR_WORK * 0x10_0000_0000 + routes, top * 0x10_0000_0000) == (HDR_WORK + top) * 0x10_0000_0000 + routes
  {
    hide BitOr, Pow2, Shl;
    FieldPowers();
    SmallPowers();
    ShlIsProduct(HDR_WORK, 36);
    ShlIsProduct(top, 36);
    OrSplit(HDR_WORK, routes, top, 0, 36);
    OrZero(routes);
    OrAdd(HDR_WORK, 4, 2, 1, top);
    ShlIsProduct(HDR_WORK + top, 36);
  }

  predicate BuildableEntry(entry: InputEntry) {
    && entry.targetLcn <= TARGET_LCN_MAX && entry.addrAxon <= 0x1FF
    && Routable(entry.coreOffset) && Routable(entry.copyCount)
    && entry.tickRelative < Pow2(entry.targetLcn)
  }

  lemma ResolvedTimestepFits(entry: InputEntry, timestep: nat)
    requires entry.targetLcn <= TARGET_LCN_MAX && entry.tickRelative < Pow2(entry.targetLcn)
    ensures ResolvedTimestep(entry, timestep) <= 0xFF
    ensures Shr(ResolvedTimestep(entry, timestep), entry.targetLcn) == LowBits(timestep, 8 - entry.targetLcn)
    ensures LowBits(ResolvedTimestep(entry, timestep), entry.targetLcn) == entry.tickRelative
  {
    hide BitOr, Pow2, Shl;
    SmallPowers();
    var wrapped, p := LowBits(timestep, 8 - entry.targetLcn), Pow2(entry.targetLcn);
    ShlIsProduct(wrapped, entry.targetLcn);
    DivMod(wrapped * p + entry.tickRelative, p, wrapped, entry.tickRelative);
    Pow2Add(entry.targetLcn, 8 - entry.targetLcn);
    MulMono(wrapped + 1, Pow2(8 - entry.targetLcn), p);
    assert (wrapped + 1) * p == wrapped * p + p;
  }

  /**
   A build succeeds exactly on entries whose fields fit; the final "timestamp above 255" rejection
   is therefore unreachable. A built frame carries precisely the entry's fields.
   */
  lemma BuildWork1Meaning(entry: InputEntry, timestep: nat, payload: u8)
    ensures BuildWork1Frame(entry, timestep, payload).Built? <==> BuildableEntry(entry)
    ensures !BuildableEntry(entry) ==> BuildWork1Frame(entry, timestep, payload) == Failed(CodecBadValue)
    ensures BuildableEntry(entry) ==>
              var frame := BuildWork1Frame(entry, timestep, payload).frame;
              UnpackWork(frame) == FieldsOf(entry, timestep, payload) && IsDataWork(frame) && !IsComplete(frame)
  {
    hide BitOr, Pow2, Shl, PackField, FrameDest, WorkWord, ResolvedTimestep, UnpackWork, FrameFromWord, IsDataWork, IsComplete;
    FrameDestMeaning(HDR_WORK, entry.coreOffset, entry.copyCount);
    if BuildableEntry(entry) {
      ResolvedTimestepFits(entry, timestep);
      WorkFrameWord(entry, ResolvedTimestep(entry, timestep), payload);
      WorkWordRoundTrip(FieldsOf(entry, timestep, payload));
    }
  }

  /** Equal frames come from equal routes, timestamps, addresses and payloads. */
  lemma WorkFrameInjective(e1: InputEntry, t1: nat, p1: u8, e2: InputEntry, t2: nat, p2: u8)
    requires BuildWork1Frame(e1, t1, p1).Built?
    requires BuildWork1Frame(e1, t1, p1) == BuildWork1Frame(e2, t2, p2)
    ensures e1.coreOffset == e2.coreOffset && e1.copyCount == e2.copyCount
    ensures e1.addrAxon == e2.addrAxon && p1 == p2
    ensures ResolvedTimestep(e1, t1) == ResolvedTimestep(e2, t2)
    ensures e1.targetLcn == e2.targetLcn ==>
              e1.tickRelative == e2.tickRelative &&
              LowBits(t1, 8 - e1.targetLcn) == LowBits(t2, 8 - e2.targetLcn)
  {
    BuildWork1Meaning(e1, t1, p1);
    BuildWork1Meaning(e2, t2, p2);
    RouteCodeRoundTrip(e1.coreOffset);
    RouteCodeRoundTrip(e1.copyCount);
    RouteCodeRoundTrip(e2.coreOffset);
    RouteCodeRoundTrip(e2.copyCount);
    ResolvedTimestepFits(e1, t1);
    ResolvedTimestepFits(e2, t2);
  }

  // ---------------------------------------------------------- frame address

  datatype Address = Address(timestep: nat, axonBitIdx: nat)

  /** None when the target LCN is unsupported. */
  function OutputFrameAddress(targetLcn: nat, frame: Frame): Option<Address> {
    if targetLcn > TARGET_LCN_MAX then None
    else
      var encoded := EncodedTimestep(frame);
      var axon := frame.low / 0x100 % 0x200;
      Some(Address(Shr(encoded, targetLcn), LowBits(BitOr(Shl(encoded, 9), axon), 9 + targetLcn)))
  }

  /** The flat lookup key of an input entry's destination. */
  function EntryKey(entry: InputEntry): nat { entry.tickRelative * 0x200 + entry.addrAxon }

  lemma AddressMeaning(targetLcn: nat, frame: Frame)
    requires targetLcn <= TARGET_LCN_MAX
    ensures var ts := EncodedTimestep(frame);
            OutputFrameAddress(targetLcn, frame) ==
            Some(Address(Shr(ts, targetLcn), LowBits(ts, targetLcn) * 0x200 + frame.low / 0x100 % 0x200))
    ensures Shr(EncodedTimestep(frame), targetLcn) < Pow2(8 - targetLcn)
    ensures LowBits(EncodedTimestep(frame), targetLcn) < 0x80
  {
    hide BitOr, Pow2, Shl;
    SmallPowers();
    var ts, axon := EncodedTimestep(frame), frame.low / 0x100 % 0x200;
    EncodedTimestepIsSum(frame);
    ShlIsProduct(ts, 9);
    OrAdd(Shl(ts, 9), ts, 0x200, 9, axon);
    Pow2Add(9, targetLcn);
    KeyOfTimestamp(ts, axon, Pow2(targetLcn));
    Pow2Add(targetLcn, 8 - targetLcn);
    RowMajor(ts, Pow2(8 - targetLcn), Pow2(targetLcn));
    Pow2Mono(targetLcn, 7);
  }

  /** Masking (timestamp, axon) to 9 + lcn bits keeps the low timestamp bits and the axon. */
  lemma KeyOfTimestamp(ts: nat, axon: nat, p: nat)
    requires p > 0 && axon < 0x200
    ensures (ts * 0x200 + axon) % (0x200 * p) == ts % p * 0x200 + axon
  {
    var q, r := ts / p, ts % p;
    assert ts == q * p + r;
    assert q * (0x200 * p) == 0x200 * (q * p);
    DivMod(ts * 0x200 + axon, 0x200 * p, q, r * 0x200 + axon);
  }

  /** Decoding the address of a built frame under its own target LCN inverts the packing. */
  lemma AddressInvertsBuild(entry: InputEntry, timestep: nat, payload: u8)
    requires BuildableEntry(entry)
    ensures var frame := BuildWork1Frame(entry, timestep, payload);
            frame.Built? &&
            OutputFrameAddress(entry.targetLcn, frame.frame) ==
            Some(Address(LowBits(timestep, 8 - entry.targetLcn), EntryKey(entry)))
  {
    hide BitOr, Pow2, Shl;
    BuildWork1Meaning(entry, timestep, payload);
    ResolvedTimestepFits(entry, timestep);
    AddressMeaning(entry.targetLcn, BuildWork1Frame(entry, timestep, payload).frame);
  }

  // ---------------------------------------------------------- control frames

  function BuildControlFrame(root: Route, header: nat, payload: nat): BuildResult
    requires header < 16
  {
    if payload > CTRL_PAYLOAD_MAX then Failed(CodecBadValue)
    else
      var dest := FrameDest(header, root, Route(0, 0, 0));
      if dest.None? then Failed(CodecBadValue)
      else
        ControlFrameWord(root, header, payload);
        Built(FrameFromWord(BitOr(dest.value, payload)))
  }

  function ControlHeader(frame: Frame): nat { frame.high / 0x1000_0000 }
  function ControlPayload(frame: Frame): nat { frame.low % 0x100_0000 }

  lemma ControlFrameWord(root: Route, header: nat, payload: nat)
    requires header < 16 && payload <= CTRL_PAYLOAD_MAX
    requires FrameDest(header, root, Route(0, 0, 0)).Some?
    ensures Routable(root)
    ensures BitOr(FrameDest(header, root, Route(0, 0, 0)).value, payload) ==
            header * 0x1000_0000_0000_0000 + RouteCode(root) * 0x400_0000_0000 + payload < 0x1_0000_0000_0000_0000
  {
    hide BitOr, Pow2, FrameDest, RouteCode, SignMagnitude6;
    FrameDestMeaning(header, root, Route(0, 0, 0));
    RouteCodeRoundTrip(root);
    ZeroRoute();
    OrControl(header, RouteCode(root), payload);
  }

  lemma ZeroRoute()
    ensures RouteCode(Route(0, 0, 0)) == 0
  {
  }

  lemma OrControl(header: nat, code: nat, payload: nat)
    requires header < 16 && code < 0x4_0000 && payload <= CTRL_PAYLOAD_MAX
    ensures BitOr(header * 0x1000_0000_0000_0000 + code * 0x400_0000_0000, payload) ==
            header * 0x1000_0000_0000_0000 + code * 0x400_0000_0000 + payload
  {
    hide BitOr, Pow2;
    FieldPowers();
    OrAdd(header * 0x1000_0000_0000_0000 + code * 0x400_0000_0000, header * 0x10_0000_0000 + code * 0x4_0000,
          0x100_0000, 24, payload);
  }

  lemma ControlFields(header: nat, code: nat, payload: nat, word: nat)
    requires header < 16 && code < 0x4_0000 && payload <= CTRL_PAYLOAD_MAX
    requires word == header * 0x1000_0000_0000_0000 + code * 0x400_0000_0000 + payload
    ensures word < 0x1_0000_0000_0000_0000 && WordOf(FrameFromWord(word)) == word
    ensures ControlHeader(FrameFromWord(word)) == header && ControlPayload(FrameFromWord(word)) == payload
    ensures word / 0x400_0000_0000 % 0x4_0000 == code
  {
    DivMod(word, 0x1_0000_0000, header * 0x1000_0000 + code * 0x400, payload);
    DivMod(header * 0x1000_0000 + code * 0x400, 0x1000_0000, header, code * 0x400);
    DivMod(word, 0x400_0000_0000, header * 0x4_0000 + code, payload);
    DivMod(header * 0x4_0000 + code, 0x4_0000, header, code);
  }

  /** A control frame is built iff its payload fits 24 bits and the root is routable, and says both. */
  lemma ControlFrameMeaning(root: Route, header: nat, payload: nat)
    requires header < 16
    ensures var r := BuildControlFrame(root, header, payload);
            if payload <= CTRL_PAYLOAD_MAX && Routable(root)
            then r.Built? && ControlHeader(r.frame) == header && ControlPayload(r.frame) == payload &&
                 WordOf(r.frame) == header * 0x1000_0000_0000_0000 + RouteCode(root) * 0x400_0000_0000 + payload &&
                 RouteOfCode(WordOf(r.frame) / 0x400_0000_0000 % 0x4_0000) == (root.xy, root.x, root.y)
            else r == Failed(CodecBadValue)
  {
    hide BitOr, Pow2, FrameDest, RouteOfCode, FrameFromWord, WordOf, ControlHeader, ControlPayload;
    FrameDestMeaning(header, root, Route(0, 0, 0));
    if payload <= CTRL_PAYLOAD_MAX && Routable(root) {
      ControlFrameWord(root, header, payload);
      RouteCodeRoundTrip(root);
      ControlFields(header, RouteCode(root), payload,
                    header * 0x1000_0000_0000_0000 + RouteCode(root) * 0x400_0000_0000 + payload);
    }
  }

  /** Which frame is what, by its header: the work headers leave the lowest bit to the timestamp. */
  lemma Headers(frame: Frame)
    ensures IsDataWork(frame) <==> ControlHeader(frame) == 8 || ControlHeader(frame) == 9
    ensures IsVoltageWork(frame) <==> ControlHeader(frame) == 10 || ControlHeader(frame) == 11
    ensures IsComplete(frame) <==> ControlHeader(frame) == 14
  {
    var h := ControlHeader(frame);
    assert frame.high / 0x2000_0000 == h / 2 && frame.high / 0x4000_0000 == h / 4 && h < 16;
  }

  // -------------------------------------------------------------- payloads

  function SignedByte(raw: u8): int { if raw >= 0x80 then raw - 0x100 else raw }

  /** None when the element does not fit the declared width. */
  function EncodePayload(raw: u8, d: Dtype): Option<u8>
    requires 1 <= d.bits <= 8
  {
    var mask, extent := Pow2(d.bits), Pow2(d.bits - 1);
    if !d.signed then
      if raw >= mask then None else Some(raw)
    else if SignedByte(raw) < 0 - extent || SignedByte(raw) >= extent then None
    else
      WidthPowers(d.bits);
      DivMod(SignedByte(raw), mask, if SignedByte(raw) < 0 then -1 else 0,
             if SignedByte(raw) < 0 then SignedByte(raw) + mask else SignedByte(raw));
      Some(SignedByte(raw) % mask)
  }

  function DecodePayload(payload: nat, d: Dtype): u8
    requires 1 <= d.bits <= 8
  {
    WidthPowers(d.bits);
    var value := LowBits(payload, d.bits);
    if d.signed && value >= Pow2(d.bits - 1) then 0x100 - Pow2(d.bits) + value else value
  }

  lemma WidthPowers(bits: nat)
    requires 1 <= bits <= 8
    ensures Pow2(bits) == 2 * Pow2(bits - 1) && Pow2(bits - 1) <= 128
  {
    SmallPowers();
    Pow2Mono(bits - 1, 7);
  }

  /** Decoding inverts encoding, and only the zero element encodes to the payload that is dropped. */
  lemma PayloadRoundTrip(raw: u8, d: Dtype)
    requires 1 <= d.bits <= 8
    ensures EncodePayload(raw, d).Some? <==>
            if d.signed then 0 <= SignedByte(raw) + Pow2(d.bits - 1) < Pow2(d.bits) else raw < Pow2(d.bits)
    ensures EncodePayload(raw, d).Some? ==>
              var p := EncodePayload(raw, d).value;
              p < Pow2(d.bits) && DecodePayload(p, d) == raw && (p == 0 <==> raw == 0)
  {
    hide Pow2;
    WidthPowers(d.bits);
    var mask, value := Pow2(d.bits), SignedByte(raw);
    if d.signed && EncodePayload(raw, d).Some? {
      DivMod(value, mask, if value < 0 then -1 else 0, if value < 0 then value + mask else value);
    }
    if EncodePayload(raw, d).Some? {
      DivMod(EncodePayload(raw, d).value, mask, 0, EncodePayload(raw, d).value);
    }
  }

  /** A decoded byte is the payload's low bits, read as a number of the declared width and sign. */
  lemma DecodedValue(payload: nat, d: Dtype)
    requires 1 <= d.bits <= 8
    ensures var v := DecodePayload(payload, d);
            && ((if d.signed then SignedByte(v) else v) - payload) % Pow2(d.bits) == 0
            && (d.signed ==> 0 <= SignedByte(v) + Pow2(d.bits - 1) < Pow2(d.bits))
            && (!d.signed ==> v < Pow2(d.bits))
  {
    hide Pow2;
    WidthPowers(d.bits);
    LowBelow(payload, Pow2(d.bits), Pow2(d.bits - 1));
  }

  /** Numbers that differ from the payload by its bits above m, or by those and m. */
  lemma LowBelow(payload: nat, m: nat, h: nat)
    requires m == 2 * h && 0 < h <= 128
    ensures 0 <= payload % m < m && (payload % m - payload) % m == 0 && (payload % m - m - payload) % m == 0
  {
    var q, r := payload / m, payload % m;
    assert payload == q * m + r;
    DivMod(r - payload, m, -q, 0);
    DivMod(r - m - payload, m, -q - 1, 0);
  }

  /** Elements encoded under one dtype may be decoded under the other: 8 bits read the same with and without sign. */
  predicate Interchangeable(a: u32, b: u32) {
    && DtypeInfo(a).Some? && DtypeInfo(b).Some? && DtypeInfo(a).value.bits == DtypeInfo(b).value.bits
    && (DtypeInfo(a).value.signed == DtypeInfo(b).value.signed || DtypeInfo(a).value.bits == 8)
  }

  /** A decoder of this dtype accepts the payload and returns the byte. */
  predicate ReadsBack(raw: u8, a: Dtype, b: Dtype)
    requires 1 <= a.bits <= 8 && 1 <= b.bits <= 8
  {
    var p := EncodePayload(raw, a);
    p.Some? ==> (b.signed || p.value < Pow2(b.bits)) && DecodePayload(p.value, b) == raw
  }

  /** Every value that encodes under one dtype reads back under another of its width exactly if the two are interchangeable. */
  lemma ReadBackIff(a: u32, b: u32)
    requires DtypeInfo(a).Some? && DtypeInfo(b).Some? && DtypeInfo(a).value.bits == DtypeInfo(b).value.bits
    ensures 1 <= DtypeInfo(a).value.bits <= 8 && 1 <= DtypeInfo(b).value.bits <= 8
    ensures (forall raw: u8 :: ReadsBack(raw, DtypeInfo(a).value, DtypeInfo(b).value)) <==> Interchangeable(a, b)
  {
    hide Pow2, EncodePayload, DecodePayload, ReadsBack;
    DtypeWidths(a);
    var da, db := DtypeInfo(a).value, DtypeInfo(b).value;
    if Interchangeable(a, b) {
      forall raw: u8
        ensures ReadsBack(raw, da, db)
      {
        ReadBack(raw, da, db);
      }
    } else {
      var raw := LostValue(da, db);
    }
  }

  lemma ReadBack(raw: u8, a: Dtype, b: Dtype)
    requires 1 <= a.bits <= 8 && b.bits == a.bits && (a.signed == b.signed || a.bits == 8)
    ensures ReadsBack(raw, a, b)
  {
    hide Pow2;
    PayloadRoundTrip(raw, a);
    SmallPowers();
    WidthPowers(a.bits);
    if EncodePayload(raw, a).Some? {
      var p := EncodePayload(raw, a).value;
      DivMod(p, Pow2(a.bits), 0, p);
    }
  }

  /** With another sign and fewer than eight bits, the value with only the sign bit set, or minus one, is lost. */
  lemma LostValue(a: Dtype, b: Dtype) returns (raw: u8)
    requires 1 <= a.bits < 8 && b.bits == a.bits && a.signed != b.signed
    ensures !ReadsBack(raw, a, b)
  {
    hide Pow2;
    SmallPowers();
    WidthPowers(a.bits);
    Pow2Mono(a.bits, 7);
    raw := if a.signed then 0xFF else Pow2(a.bits - 1);
    PayloadRoundTrip(raw, a);
    var p := EncodePayload(raw, a).value;
    DivMod(p, Pow2(a.bits), 0, p);
  }

  lemma DtypeWidths(dtype: u32)
    ensures DtypeInfo(dtype).Some? ==> 1 <= DtypeInfo(dtype).value.bits <= 8
  {
  }
}
