/**
 The runtime artifact after FlatBuffers has parsed it: shape and mapping validation, and the
 accessors that hand borrowed views to the frame codec. Every entry is assumed present; a missing
 table is a FlatBuffers matter.
 */
module Artifact {
  import opened Bits

  const TARGET_LCN_MAX: nat := 7
  const OUTPUT_DATA: u32 := 0
  const OUTPUT_VOLTAGE: u32 := 1
  const DTYPE_VOLTAGE_INT32: u32 := 9

  type i32 = x: int | -0x8000_0000 <= x < 0x8000_0000

  datatype ArtifactStatus = ArtifactOk | ArtifactOutOfRange | ArtifactBadValue

  /** A triple of routing numbers: a core offset, or a multicast copy count. */
  datatype Route = Route(xy: i32, x: i32, y: i32)

  datatype InputEntry = InputEntry(
    elemIdx: u32, coreOffset: Route, copyCount: Route,
    tickRelative: u32, addrAxon: u32, targetLcn: u32, dtype: u32)

  datatype OutputEntry = OutputEntry(elemIdx: u32, copyId: u32, axonBitIdx: u32, dtype: u32)

  datatype InputMapping = InputMapping(shape: seq<i32>, entries: seq<InputEntry>, bitWidth: u32)
  datatype OutputMapping = OutputMapping(shape: seq<i32>, entries: seq<OutputEntry>, kind: u32, bitWidth: u32)

  datatype Timing = Timing(timesteps: u32, pipelineLatency: u32, completionSync: u32, streamEncoding: bool)

  datatype Thread = Thread(
    root: Route, timing: Timing, targetLcn: u32,
    inputs: seq<InputMapping>, outputs: seq<OutputMapping>)

  datatype Artifact = Artifact(threads: seq<Thread>, configWords: seq<u32>, wordOrder: u32)

  datatype InputView = InputView(entries: seq<InputEntry>, elementCount: u32, bitWidth: u32)
  datatype OutputView = OutputView(
    entries: seq<OutputEntry>, elementCount: u32, dtype: u32, kind: u32, targetLcn: u32)

  datatype Dtype = Dtype(bits: nat, signed: bool)

  /** Payload width and signedness of a serialized scalar dtype code. */
  function DtypeInfo(dtype: u32): Option<Dtype> {
    match dtype
    case 1 => Some(Dtype(1, false))
    case 2 => Some(Dtype(1, true))
    case 3 => Some(Dtype(2, false))
    case 4 => Some(Dtype(2, true))
    case 5 => Some(Dtype(4, false))
    case 6 => Some(Dtype(4, true))
    case 7 => Some(Dtype(8, false))
    case 8 => Some(Dtype(8, true))
    case _ => None
  }

  /** The eight scalar codes: widths double every second code, even codes are signed. */
  lemma DtypeCodes(dtype: u32)
    ensures DtypeInfo(dtype).Some? <==> 1 <= dtype <= 8
    ensures 1 <= dtype <= 8 ==>
              DtypeInfo(dtype).value.bits == Pow2((dtype - 1) / 2) && (DtypeInfo(dtype).value.signed <==> dtype % 2 == 0)
  {
  }

  // ---------------------------------------------------------------- shapes

  function Product(dims: seq<int>): int {
    if dims == [] then 1 else Product(dims[..|dims| - 1]) * dims[|dims| - 1]
  }

  ghost predicate ShapeFits(dims: seq<int>) {
    (forall i :: 0 <= i < |dims| ==> dims[i] > 0) && Product(dims) <= UINT32_MAX
  }

  function NumElements(dims: seq<int>): (n: u32)
    requires ShapeFits(dims)
  {
    ProductPositive(dims);
    Product(dims)
  }

  lemma {:induction false} ProductPositive(dims: seq<int>)
    requires forall i :: 0 <= i < |dims| ==> dims[i] > 0
    ensures Product(dims) >= 1
  {
    if dims != [] {
      var front, last := dims[..|dims| - 1], dims[|dims| - 1];
      ProductPositive(front);
      assert Product(front) * last >= 1 * last by {
        MulMono(1, Product(front), last);
      }
    }
  }

  /** With positive dimensions, a prefix of a shape never has more elements than the shape. */
  lemma {:induction false} PrefixProduct(dims: seq<int>, k: nat)
    requires forall i :: 0 <= i < |dims| ==> dims[i] > 0
    requires k <= |dims|
    ensures Product(dims[..k]) <= Product(dims)
    decreases |dims|
  {
    if k == |dims| {
      assert dims[..k] == dims;
    } else {
      var front, last := dims[..|dims| - 1], dims[|dims| - 1];
      PrefixProduct(front, k);
      assert front[..k] == dims[..k];
      ProductPositive(front);
      assert Product(front) * 1 <= Product(front) * last by {
        MulMono(1, last, Product(front));
      }
    }
  }

  /**
   The element count of a shape. The guard divides before it multiplies, so it never relies on a
   wrapped product; it still rejects exactly the shapes whose true product does not fit.
   */
  method CopyShape(dims: seq<i32>) returns (numel: Option<u32>)
    ensures numel.Some? <==> ShapeFits(dims)
    ensures numel.Some? ==> numel.value == Product(dims)
  {
    var product: u32 := 1;
    for i := 0 to |dims|
      invariant forall k :: 0 <= k < i ==> dims[k] > 0
      invariant product == Product(dims[..i]) && product >= 1
    {
      var dim := dims[i];
      assert dims[..i + 1][..i] == dims[..i];
      if dim <= 0 || product > UINT32_MAX / dim {
        if ShapeFits(dims) {
          PrefixProduct(dims, i + 1);
          ProductBound(product, dim);
          assert false;
        }
        return None;
      }
      ProductBound(product, dim);
      product := product * dim;
    }
    assert dims[..|dims|] == dims;
    return Some(product);
  }

  lemma ProductBound(product: nat, dim: nat)
    requires product >= 1 && dim > 0
    ensures product > UINT32_MAX / dim <==> product * dim > UINT32_MAX
    ensures product * dim >= 1
  {
    AtMostQuotient(product, dim, UINT32_MAX);
    MulMono(1, product, dim);
  }

  // ------------------------------------------------------- mapping validation

  ghost predicate ValidInputEntry(e: InputEntry, numel: nat, bitWidth: nat) {
    && e.elemIdx < numel
    && e.targetLcn <= TARGET_LCN_MAX
    && DtypeInfo(e.dtype).Some?
    && DtypeInfo(e.dtype).value.bits == bitWidth
  }

  ghost predicate ValidInputMapping(m: InputMapping) {
    && ShapeFits(m.shape)
    && forall e :: e in m.entries ==> ValidInputEntry(e, NumElements(m.shape), m.bitWidth)
  }

  ghost predicate KeysIncrease(entries: seq<OutputEntry>) {
    forall i, j :: 0 <= i < j < |entries| ==> entries[i].axonBitIdx < entries[j].axonBitIdx
  }

  ghost predicate ValidOutputMapping(m: OutputMapping) {
    && ShapeFits(m.shape)
    && (forall e :: e in m.entries ==> e.elemIdx < NumElements(m.shape))
    && KeysIncrease(m.entries)
    && (m.kind == OUTPUT_DATA || m.kind == OUTPUT_VOLTAGE)
    && (m.kind == OUTPUT_VOLTAGE ==> m.bitWidth == 32)
    && (m.kind == OUTPUT_DATA ==>
          m.bitWidth <= 8 &&
          forall e :: e in m.entries ==> DtypeInfo(e.dtype).Some? && DtypeInfo(e.dtype).value.bits == m.bitWidth)
  }

  ghost predicate ValidThread(t: Thread) {
    && t.targetLcn <= TARGET_LCN_MAX
    && (forall m :: m in t.inputs ==> ValidInputMapping(m))
    && (forall m :: m in t.outputs ==> ValidOutputMapping(m))
  }

  ghost predicate ValidIoMapping(threads: seq<Thread>) {
    forall t :: t in threads ==> ValidThread(t)
  }

  /** Entry i is the first that validation has something against. */
  ghost predicate FirstInvalid(m: InputMapping, i: nat)
    requires ShapeFits(m.shape)
  {
    && i < |m.entries| && !ValidInputEntry(m.entries[i], NumElements(m.shape), m.bitWidth)
    && forall k :: 0 <= k < i ==> ValidInputEntry(m.entries[k], NumElements(m.shape), m.bitWidth)
  }

  method ValidateInputMapping(m: InputMapping) returns (status: ArtifactStatus)
    ensures status == ArtifactOk <==> ValidInputMapping(m)
    ensures !ShapeFits(m.shape) ==> status == ArtifactOutOfRange
    ensures ShapeFits(m.shape) && status != ArtifactOk ==>
              exists i: nat :: FirstInvalid(m, i) &&
                status == if m.entries[i].elemIdx >= NumElements(m.shape) || m.entries[i].targetLcn > TARGET_LCN_MAX
                          then ArtifactOutOfRange else ArtifactBadValue
  {
    var numel := CopyShape(m.shape);
    if numel.None? {
      return ArtifactOutOfRange;
    }
    for i := 0 to |m.entries|
      invariant forall k :: 0 <= k < i ==> ValidInputEntry(m.entries[k], numel.value, m.bitWidth)
    {
      var entry := m.entries[i];
      assert entry in m.entries;
      if entry.elemIdx >= numel.value || entry.targetLcn > TARGET_LCN_MAX {
        assert FirstInvalid(m, i);
        return ArtifactOutOfRange;
      }
      var info := DtypeInfo(entry.dtype);
      if info.None? || info.value.bits > 8 || info.value.bits != m.bitWidth {
        assert FirstInvalid(m, i);
        return ArtifactBadValue;
      }
    }
    return ArtifactOk;
  }

  /** Entry i is outside the shape, and no earlier entry is outside or out of order. */
  ghost predicate FirstOutside(m: OutputMapping, i: nat)
    requires ShapeFits(m.shape)
  {
    && i < |m.entries| && m.entries[i].elemIdx >= NumElements(m.shape)
    && (forall k :: 0 <= k < i ==> m.entries[k].elemIdx < NumElements(m.shape)) && KeysIncrease(m.entries[..i])
  }

  /** One pass comparing neighbouring keys establishes that all keys are strictly increasing. */
  method ValidateOutputMapping(m: OutputMapping) returns (status: ArtifactStatus)
    ensures status == ArtifactOk <==> ValidOutputMapping(m)
    ensures !ShapeFits(m.shape) ==> status == ArtifactOutOfRange
    ensures ShapeFits(m.shape) ==> (status == ArtifactOutOfRange <==> exists i: nat :: FirstOutside(m, i))
  {
    var numel := CopyShape(m.shape);
    if numel.None? {
      return ArtifactOutOfRange;
    }
    var first, previousKey := true, 0;
    for i := 0 to |m.entries|
      invariant first <==> i == 0
      invariant i > 0 ==> previousKey == m.entries[i - 1].axonBitIdx
      invariant forall k :: 0 <= k < i ==> m.entries[k].elemIdx < numel.value
      invariant KeysIncrease(m.entries[..i])
    {
      var entry := m.entries[i];
      assert entry in m.entries;
      if entry.elemIdx >= numel.value {
        assert FirstOutside(m, i);
        return ArtifactOutOfRange;
      }
      if !first && entry.axonBitIdx <= previousKey {
        assert m.entries[i - 1].axonBitIdx >= m.entries[i].axonBitIdx;
        NotLater(m, i);
        return ArtifactBadValue;
      }
      assert forall k :: 0 <= k < i ==> m.entries[..i][k].axonBitIdx <= previousKey;
      first, previousKey := false, entry.axonBitIdx;
    }
    assert m.entries[..|m.entries|] == m.entries;
    if m.kind == OUTPUT_DATA {
      if m.bitWidth > 8 {
        return ArtifactBadValue;
      }
      for i := 0 to |m.entries|
        invariant forall k :: 0 <= k < i ==>
                    DtypeInfo(m.entries[k].dtype).Some? && DtypeInfo(m.entries[k].dtype).value.bits == m.bitWidth
      {
        var info := DtypeInfo(m.entries[i].dtype);
        assert m.entries[i] in m.entries;
        if info.None? || info.value.bits != m.bitWidth {
          return ArtifactBadValue;
        }
      }
    } else if m.kind != OUTPUT_VOLTAGE || m.bitWidth != 32 {
      return ArtifactBadValue;
    }
    return ArtifactOk;
  }

  lemma OrderedBefore(entries: seq<OutputEntry>, i: nat, j: nat)
    requires 0 < i < j <= |entries| && KeysIncrease(entries[..j])
    ensures entries[i - 1].axonBitIdx < entries[i].axonBitIdx
  {
    assert entries[..j][i - 1] == entries[i - 1] && entries[..j][i] == entries[i];
  }

  /** Once two neighbours are out of order, no later entry is reported as outside. */
  lemma NotLater(m: OutputMapping, i: nat)
    requires ShapeFits(m.shape) && 0 < i < |m.entries| && m.entries[i - 1].axonBitIdx >= m.entries[i].axonBitIdx
    requires forall k :: 0 <= k <= i ==> m.entries[k].elemIdx < NumElements(m.shape)
    ensures !exists j: nat :: FirstOutside(m, j)
  {
    hide KeysIncrease;
    forall j: nat
      ensures !FirstOutside(m, j)
    {
      if i < j <= |m.entries| && KeysIncrease(m.entries[..j]) {
        OrderedBefore(m.entries, i, j);
      }
    }
  }

  method ValidateIoMapping(threads: seq<Thread>) returns (status: ArtifactStatus)
    ensures status == ArtifactOk <==> ValidIoMapping(threads)
  {
    for t := 0 to |threads|
      invariant forall k :: 0 <= k < t ==> ValidThread(threads[k])
    {
      var thread := threads[t];
      assert thread in threads;
      if thread.targetLcn > TARGET_LCN_MAX {
        return ArtifactOutOfRange;
      }
      for i := 0 to |thread.inputs|
        invariant forall k :: 0 <= k < i ==> ValidInputMapping(thread.inputs[k])
      {
        assert thread.inputs[i] in thread.inputs;
        status := ValidateInputMapping(thread.inputs[i]);
        if status != ArtifactOk {
          return;
        }
      }
      for i := 0 to |thread.outputs|
        invariant forall k :: 0 <= k < i ==> ValidOutputMapping(thread.outputs[k])
      {
        assert thread.outputs[i] in thread.outputs;
        status := ValidateOutputMapping(thread.outputs[i]);
        if status != ArtifactOk {
          return;
        }
      }
    }
    return ArtifactOk;
  }

  // ------------------------------------------------------------------ views

  ghost function InputViewOf(m: InputMapping): InputView
    requires ShapeFits(m.shape)
  {
    InputView(m.entries, NumElements(m.shape), m.bitWidth)
  }

  /** The runtime dtype of an output: synthesized for VOLTAGE, taken from the first entry for DATA. */
  function OutputDtype(m: OutputMapping): u32 {
    if m.kind == OUTPUT_VOLTAGE then DTYPE_VOLTAGE_INT32
    else if |m.entries| == 0 then 0 else m.entries[0].dtype
  }

  ghost function OutputViewOf(m: OutputMapping, targetLcn: u32): OutputView
    requires ShapeFits(m.shape)
  {
    OutputView(m.entries, NumElements(m.shape), OutputDtype(m), m.kind, targetLcn)
  }

  method GetInputMappingView(m: InputMapping) returns (view: Option<InputView>)
    ensures view.Some? <==> ShapeFits(m.shape)
    ensures view.Some? ==>
              && view.value == InputViewOf(m)
              && view.value.entries == m.entries && view.value.elementCount == Product(m.shape) && view.value.bitWidth == m.bitWidth
  {
    var numel := CopyShape(m.shape);
    if numel.None? {
      return None;
    }
    return Some(InputView(m.entries, numel.value, m.bitWidth));
  }

  method GetOutputMappingView(m: OutputMapping, targetLcn: u32) returns (view: Option<OutputView>)
    ensures view.Some? <==> ShapeFits(m.shape)
    ensures view.Some? ==>
              && view.value == OutputViewOf(m, targetLcn)
              && view.value.entries == m.entries && view.value.elementCount == Product(m.shape)
              && view.value.kind == m.kind && view.value.targetLcn == targetLcn
              && (m.kind == OUTPUT_VOLTAGE ==> view.value.dtype == DTYPE_VOLTAGE_INT32)
              && (m.kind != OUTPUT_VOLTAGE && |m.entries| == 0 ==> view.value.dtype == 0)
              && (m.kind != OUTPUT_VOLTAGE && |m.entries| > 0 ==> view.value.dtype == m.entries[0].dtype)
  {
    var numel := CopyShape(m.shape);
    if numel.None? {
      return None;
    }
    return Some(OutputView(m.entries, numel.value, OutputDtype(m), m.kind, targetLcn));
  }

  /** What validation promises about a view, in the terms the codec and the runner use. */
  ghost predicate ValidInputView(v: InputView) {
    forall e :: e in v.entries ==> ValidInputEntry(e, v.elementCount, v.bitWidth)
  }

  ghost predicate ValidOutputView(v: OutputView) {
    && v.elementCount >= 1
    && v.targetLcn <= TARGET_LCN_MAX
    && KeysIncrease(v.entries)
    && (forall e :: e in v.entries ==> e.elemIdx < v.elementCount)
    && (v.kind == OUTPUT_DATA || v.kind == OUTPUT_VOLTAGE)
    && (v.kind == OUTPUT_VOLTAGE ==> v.dtype == DTYPE_VOLTAGE_INT32)
    && (v.kind == OUTPUT_DATA && |v.entries| > 0 ==> DtypeInfo(v.dtype).Some?)
  }

  /** Views of an accepted artifact never leave their tensor, and their lookup keys are unique. */
  lemma ValidatedViews(threads: seq<Thread>, t: nat, i: nat, o: nat)
    requires ValidIoMapping(threads) && t < |threads|
    requires i < |threads[t].inputs| && o < |threads[t].outputs|
    ensures ShapeFits(threads[t].inputs[i].shape) && ShapeFits(threads[t].outputs[o].shape)
    ensures ValidInputView(InputViewOf(threads[t].inputs[i]))
    ensures ValidOutputView(OutputViewOf(threads[t].outputs[o], threads[t].targetLcn))
    ensures var m := threads[t].outputs[o];
            forall e :: e in m.entries && m.kind == OUTPUT_DATA && (forall f :: f in m.entries ==> f.dtype == e.dtype) ==>
              OutputViewOf(m, threads[t].targetLcn).dtype == e.dtype
  {
    assert threads[t] in threads;
    assert threads[t].inputs[i] in threads[t].inputs;
    var m := threads[t].outputs[o];
    assert m in threads[t].outputs;
    ProductPositive(m.shape);
    if |m.entries| > 0 {
      assert m.entries[0] in m.entries;
    }
  }

  // ----------------------------------------------------------------- lookup

  /** First entry with the given key. */
  function Find(entries: seq<OutputEntry>, key: nat): Option<OutputEntry> {
    if entries == [] then None
    else if entries[0].axonBitIdx == key then Some(entries[0])
    else Find(entries[1..], key)
  }

  method OutputMappingFind(view: OutputView, key: nat) returns (found: Option<OutputEntry>)
    ensures found == Find(view.entries, key)
  {
    for i := 0 to |view.entries|
      invariant Find(view.entries, key) == Find(view.entries[i..], key)
    {
      if view.entries[i].axonBitIdx == key {
        return Some(view.entries[i]);
      }
    }
    return None;
  }

  /** Entry i is the first with the key. */
  predicate FirstWith(entries: seq<OutputEntry>, key: nat, i: nat) {
    i < |entries| && entries[i].axonBitIdx == key && forall j :: 0 <= j < i ==> entries[j].axonBitIdx != key
  }

  lemma {:induction false} FindFirst(entries: seq<OutputEntry>, key: nat, i: nat)
    requires FirstWith(entries, key, i)
    ensures Find(entries, key) == Some(entries[i])
  {
    if i > 0 {
      assert entries[0].axonBitIdx != key;
      FindFirst(entries[1..], key, i - 1);
    }
  }

  lemma {:induction false} FindSound(entries: seq<OutputEntry>, key: nat)
    ensures var r := Find(entries, key);
            if r.Some? then r.value in entries && r.value.axonBitIdx == key
            else forall e :: e in entries ==> e.axonBitIdx != key
  {
    if entries != [] {
      FindSound(entries[1..], key);
    }
  }

  /** On strictly increasing keys the scan is an exact partial function: no entry is shadowed. */
  lemma FindExact(entries: seq<OutputEntry>, e: OutputEntry)
    requires KeysIncrease(entries)
    ensures Find(entries, e.axonBitIdx) == Some(e) <==> e in entries
  {
    FindSound(entries, e.axonBitIdx);
    var r := Find(entries, e.axonBitIdx);
    if r.Some? && e in entries {
      var i :| 0 <= i < |entries| && entries[i] == e;
      var j :| 0 <= j < |entries| && entries[j] == r.value;
    }
  }

  // --------------------------------------------------------- config frames

  datatype Words = Words(high: u32, low: u32)

  function ConfigFrameWords(words: seq<u32>, wordOrder: u32, index: nat): (ArtifactStatus, Words) {
    if index >= |words| / 2 then (ArtifactOutOfRange, Words(0, 0))
    else
      var word0, word1 := words[index * 2], words[index * 2 + 1];
      if wordOrder == 0 then (ArtifactOk, Words(word0, word1))
      else if wordOrder == 1 then (ArtifactOk, Words(word1, word0))
      else (ArtifactBadValue, Words(0, 0))
  }
}
