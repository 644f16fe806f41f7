/**
 DATA tensors inside a larger memory: rows a stride apart, from some base on. Decoding there is
 decoding into a compact tensor of its own, cell by cell, and touches nothing between or around rows.
 */
module TensorWindow {
  import opened Bits
  import opened Artifact
  import opened FrameCodec
  import opened OutputDecoder
  import opened FrameHandlers
  import opened SampleRows

  /** A DATA window that a sample or the batch decoder accepts. */
  ghost predicate DataWindow(s: Setup) {
    RowsFit(s) && s.view.kind == OUTPUT_DATA && DtypeInfo(s.view.dtype).Some?
  }

  /** The tensor as a memory of its own. */
  function CompactSetup(view: OutputView, timesteps: nat): Setup {
    Setup(view, timesteps, 0, timesteps * view.elementCount, view.elementCount, 0)
  }

  function TensorBytes(s: Setup): nat {
    MulMono(0, s.timesteps, s.view.elementCount);
    s.timesteps * s.view.elementCount
  }

  /** Address of the k-th cell in row-major order. */
  function CellAt(s: Setup, k: nat): nat
    requires s.view.elementCount > 0
  {
    MulMono(0, k / s.view.elementCount, s.stride);
    s.base + k / s.view.elementCount * s.stride + k % s.view.elementCount
  }

  lemma WindowFields(s: Setup)
    requires RowsFit(s)
    ensures 0 < s.view.elementCount <= s.stride && s.timesteps > 0 && s.capacity <= SIZE_MAX
    ensures forall e :: e in s.view.entries ==> e.elemIdx < s.view.elementCount
    ensures s.view.kind == OUTPUT_DATA ==> RowBytes(s.view) == s.view.elementCount
  {
    if s.view.kind == OUTPUT_VOLTAGE {
      assert 4 * s.view.elementCount >= s.view.elementCount;
    }
  }

  lemma CellInRow(s: Setup, k: nat)
    requires DataWindow(s) && k < TensorBytes(s)
    ensures s.view.elementCount > 0 && CellAt(s, k) < s.base + s.capacity
    ensures k / s.view.elementCount < s.timesteps && InRow(s, k / s.view.elementCount, CellAt(s, k))
  {
    hide RowsFit;
    WindowFields(s);
    RowMajor(k, s.timesteps, s.view.elementCount);
    RowFits(s, k / s.view.elementCount);
  }

  lemma CellsApart(s: Setup, j: nat, k: nat)
    requires DataWindow(s) && j < k < TensorBytes(s)
    ensures s.view.elementCount > 0 && CellAt(s, j) < CellAt(s, k)
  {
    hide RowsFit;
    WindowFields(s);
    var n, w: nat := s.view.elementCount, s.stride;
    RowMajor(j, s.timesteps, n);
    RowMajor(k, s.timesteps, n);
    QuotientOrder(j, k, n);
    RowMajorApart(j / n, j % n, k / n, k % n, 1, n, w);
  }

  ghost function CellByte(s: Setup, mem: seq<u8>, k: nat): u8
    requires DataWindow(s) && s.base + s.capacity <= |mem| && k < TensorBytes(s)
  {
    CellInRow(s, k);
    mem[CellAt(s, k)]
  }

  /** The window's cells as one compact tensor. */
  ghost function Gathered(s: Setup, mem: seq<u8>): (t: seq<u8>)
    requires DataWindow(s) && s.base + s.capacity <= |mem|
    ensures |t| == TensorBytes(s)
    ensures forall k :: 0 <= k < |t| ==> t[k] == CellByte(s, mem, k)
  {
    seq(TensorBytes(s), k requires 0 <= k < TensorBytes(s) => CellByte(s, mem, k))
  }

  lemma SizeOfTensor(s: Setup)
    requires DataWindow(s)
    ensures TensorBytes(s) <= s.capacity <= SIZE_MAX
    ensures CompactSetup(s.view, s.timesteps).capacity == TensorBytes(s)
  {
    hide RowsFit;
    WindowFields(s);
    RowFits(s, s.timesteps - 1);
    MulMono(s.view.elementCount, s.stride, s.timesteps - 1);
    assert s.timesteps * s.view.elementCount == (s.timesteps - 1) * s.view.elementCount + s.view.elementCount;
  }

  // ------------------------------------------------------------- one frame

  /** What a frame does to the window and what it does to the compact tensor. */
  ghost predicate SameCell(s: Setup, wide: Effect, small: Effect)
    requires s.view.elementCount > 0
  {
    if wide.PutByte? then
      && small.PutByte? && small.value == wide.value
      && small.index < TensorBytes(s) && s.base + wide.index == CellAt(s, small.index)
    else wide == small && !wide.PutLane?
  }

  lemma CellEffect(s: Setup, row: nat, elem: nat)
    requires DataWindow(s) && row < s.timesteps && elem < s.view.elementCount
    ensures Cell(row, s.view.elementCount, elem) < TensorBytes(s)
    ensures s.base + Cell(row, s.stride, elem) == CellAt(s, Cell(row, s.view.elementCount, elem))
    ensures Cell(row, s.stride, elem) < s.capacity
    ensures row <= (SIZE_MAX - elem) / s.stride && row <= (SIZE_MAX - elem) / s.view.elementCount
  {
    hide RowsFit;
    WindowFields(s);
    SizeOfTensor(s);
    var n: nat := s.view.elementCount;
    RowFits(s, row);
    DivMod(row * n + elem, n, row, elem);
    MulMono(row + 1, s.timesteps, n);
    assert (row + 1) * n == row * n + n;
    AtMostQuotient(row, s.stride, SIZE_MAX - elem);
    AtMostQuotient(row, n, SIZE_MAX - elem);
  }

  /** A frame writes the same cell with the same value wherever the tensor lies. */
  lemma SameEffect(s: Setup, frame: Frame)
    requires DataWindow(s)
    ensures s.view.elementCount > 0
    ensures SameCell(s, FrameEffect(s, false, frame), FrameEffect(CompactSetup(s.view, s.timesteps), false, frame))
  {
    hide OutputFrameAddress, Find, DecodePayload, IsDataWork, Cell, RowsFit, CellAt, TensorBytes;
    WindowFields(s);
    SizeOfTensor(s);
    var address := OutputFrameAddress(s.view.targetLcn, frame);
    if address.Some? {
      FindSound(s.view.entries, address.value.axonBitIdx);
      var found := Find(s.view.entries, address.value.axonBitIdx);
      if found.Some? && address.value.timestep < s.timesteps {
        CellEffect(s, address.value.timestep, found.value.elemIdx);
      }
    }
  }

  /** Applying the effect commutes with gathering, and stays inside the rows. */
  lemma ApplyGathered(s: Setup, st: Store, wide: Effect, small: Effect)
    requires DataWindow(s) && Fits(s, st) && InWindow(s, wide)
    requires s.view.elementCount > 0 && SameCell(s, wide, small)
    ensures var compact, r := CompactSetup(s.view, s.timesteps), Apply(s, st, wide);
            && InWindow(compact, small)
            && Apply(compact, Store(Gathered(s, st.mem), []), small) == (Store(Gathered(s, r.0.mem), []), r.1)
            && SameOutsideRows(s, s.timesteps, st.mem, r.0.mem)
  {
    hide RowsFit, CellAt, TensorBytes, InRows;
    SizeOfTensor(s);
    if wide.PutByte? {
      CellInRow(s, small.index);
      WrittenCell(s, st.mem, small.index, small.value);
      RowOfCell(s, small.index);
      ApplyStays(s, s.timesteps, st, wide);
    } else {
      NothingChanged(s, s.timesteps, st.mem);
    }
  }

  lemma RowOfCell(s: Setup, k: nat)
    requires DataWindow(s) && k < TensorBytes(s)
    ensures s.view.elementCount > 0 && InRows(s, s.timesteps, CellAt(s, k))
  {
    CellInRow(s, k);
  }

  /** Writing one cell changes that one byte of the gathered tensor. */
  lemma WrittenCell(s: Setup, mem: seq<u8>, k: nat, value: u8)
    requires DataWindow(s) && s.base + s.capacity <= |mem| && k < TensorBytes(s)
    ensures s.view.elementCount > 0 && CellAt(s, k) < |mem|
    ensures Gathered(s, mem[CellAt(s, k) := value]) == Gathered(s, mem)[k := value]
  {
    hide RowsFit, CellAt, TensorBytes;
    CellInRow(s, k);
    var after := mem[CellAt(s, k) := value];
    forall j | 0 <= j < TensorBytes(s)
      ensures CellByte(s, after, j) == if j == k then value else CellByte(s, mem, j)
    {
      CellInRow(s, j);
      if j < k {
        CellsApart(s, j, k);
      } else if k < j {
        CellsApart(s, k, j);
      }
    }
  }

  // ------------------------------------------------------------- any stream

  /** Decoding into the window is decoding into the compact tensor; everything else stays. */
  lemma {:induction false} DecodeGathered(s: Setup, st: Store, frames: seq<Frame>)
    requires DataWindow(s) && Fits(s, st)
    ensures var r := DecodeAll(s, false, st, frames);
            && DecodeAll(CompactSetup(s.view, s.timesteps), false, Store(Gathered(s, st.mem), []), frames) ==
               (Store(Gathered(s, r.0.mem), []), r.1)
            && SameOutsideRows(s, s.timesteps, st.mem, r.0.mem)
    decreases |frames|
  {
    hide FrameEffect, Apply, DataWindow, TensorBytes, CellAt, InWindow, SameCell, InRows;
    SizeOfTensor(s);
    if frames != [] {
      var compact := CompactSetup(s.view, s.timesteps);
      var wide, small := FrameEffect(s, false, frames[0]), FrameEffect(compact, false, frames[0]);
      SameEffect(s, frames[0]);
      EffectsInWindow(s, false, frames[0]);
      EffectsInWindow(compact, false, frames[0]);
      ApplyGathered(s, st, wide, small);
      DecodeGathered(s, Apply(s, st, wide).0, frames[1..]);
    }
  }

  // ------------------------------------------------------------- compact and cleared windows

  /** The window the batch decoder uses, once it has accepted the call. */
  lemma BatchWindow(ov: OutputView, timing: Timing, base: nat, size: nat)
    requires ValidOutputView(ov) && size <= SIZE_MAX && BatchCheck(ov, timing, size) == CodecOk
    ensures var s := BatchSetup(ov, timing, base, size);
            DataWindow(s) && TensorBytes(s) == timing.timesteps * ov.elementCount <= size
  {
    BatchCheckMeaning(ov, timing, size);
    assert (timing.timesteps - 1) * ov.elementCount + ov.elementCount == timing.timesteps * ov.elementCount;
  }

  /** With compact rows the gathered tensor is a slice of memory. */
  lemma CompactGather(s: Setup, mem: seq<u8>)
    requires DataWindow(s) && s.stride == s.view.elementCount && s.base + s.capacity <= |mem|
    ensures TensorBytes(s) <= s.capacity
    ensures Gathered(s, mem) == mem[s.base..s.base + TensorBytes(s)]
  {
    hide RowsFit;
    SizeOfTensor(s);
    WindowFields(s);
    forall k | 0 <= k < TensorBytes(s)
      ensures CellAt(s, k) == s.base + k
    {
      RowMajor(k, s.timesteps, s.view.elementCount);
    }
  }

  lemma RowClearsCell(s: Setup, st: Store, j: nat, k: nat)
    requires DataWindow(s) && Fits(s, st) && j < s.timesteps && k < TensorBytes(s)
    ensures var c := ClearRow(s, st, j).mem;
            && (s.view.elementCount > 0 && k / s.view.elementCount == j ==> CellByte(s, c, k) == 0)
            && (CellByte(s, st.mem, k) == 0 ==> CellByte(s, c, k) == 0)
  {
    hide RowsFit, ClearRow, TensorBytes;
    CellInRow(s, k);
    ClearRowIs(s, st, j);
  }

  /** Clearing every row from j leaves each of their cells zero. */
  lemma {:induction false} ClearedCell(s: Setup, st: Store, j: nat, k: nat)
    requires DataWindow(s) && Fits(s, st) && j <= s.timesteps && k < TensorBytes(s)
    requires j == 0 || (s.view.elementCount > 0 && k / s.view.elementCount >= j) || CellByte(s, st.mem, k) == 0
    ensures CellByte(s, ClearFrom(s, st, j).mem, k) == 0
    decreases s.timesteps - j
  {
    hide RowsFit, CellAt, ClearRow, CellByte, TensorBytes;
    WindowFields(s);
    CellInRow(s, k);
    if j < s.timesteps {
      RowClearsCell(s, st, j, k);
      ClearedCell(s, ClearRow(s, st, j), j + 1, k);
    }
  }
}
