/** Sending one input row through a bounded workspace. */
module SessionIo {
  import opened Bits
  import opened Artifact
  import opened FrameCodec
  import opened InputEncoder
  import opened FrameHandlers
  import opened SessionSpec
  import opened Session

  predicate CanSend(st: SessionState) {
    st.artifact.Some? && !st.faulted && !st.barrierActive
  }

  /** What sending a row amounts to: either nothing at all, or the row's chunks up to the first encoding error. */
  function SendRowStep(st: SessionState, view: InputView, timestep: nat, row: seq<u8>, capacity: nat): (r: StepResult)
    ensures r.state == st
  {
    if capacity == 0 then Refuse(st, SessionRuntimeError)
    else if st.faulted then Refuse(st, SessionFaulted)
    else if !CanSend(st) then Refuse(st, SessionRuntimeError)
    else
      var s := SendChunks(view, timestep, row, 0, capacity);
      StepResult(st, if s.ok then SessionOk else SessionRuntimeError, s.frames)
  }

  /**
   Encode and send chunk by chunk. The workspace may be the session's own receive buffer: no barrier
   is open, so nothing else writes it.
   */
  method SendInputTimestep(session: Session, noc: Noc, view: InputView, timestep: nat,
                           mem: array<u8>, base: nat, size: nat, workspace: array<Frame>, capacity: nat)
    returns (status: SessionStatus)
    requires session.Valid() && base + size <= mem.Length && capacity <= workspace.Length
    modifies noc`sent, noc`irqEnabled, workspace
    ensures session.Valid() && noc.irqEnabled == old(noc.irqEnabled)
    ensures Took(SendRowStep(session.State(), view, timestep, mem[base..base + size], capacity),
                 session.State(), status, old(noc.sent), noc.sent)
  {
    hide EncodeChunk, EncodeRow, SendChunks, VisitEntry, SendRowStep;
    Unusable(session.State(), view, timestep, mem[base..base + size], capacity);
    if capacity == 0 {
      return SessionRuntimeError;
    }
    if session.faulted {
      return SessionFaulted;
    }
    ghost var row, st, start, done := mem[base..base + size], session.State(), noc.sent, [];
    var cursor := new InputCursor(timestep);
    while true
      invariant session.Valid() && session.State() == st && mem[base..base + size] == row
      invariant fresh(cursor) && cursor.timestep == timestep && cursor.entryIndex <= |view.entries|
      invariant noc.irqEnabled == old(noc.irqEnabled) && noc.sent == start + done
      invariant CanSend(st) || (done == [] && cursor.entryIndex == 0)
      invariant SendChunks(view, timestep, row, 0, capacity) ==
                Prepend(done, SendChunks(view, timestep, row, cursor.entryIndex, capacity))
      decreases |view.entries| - cursor.entryIndex
    {
      SendChunksStep(view, timestep, row, cursor.entryIndex, capacity);
      ChunkOfRow(view, timestep, row, cursor.entryIndex, capacity);
      ghost var before := noc.sent;
      var codec, count := EncodeInputChunk(view, cursor, mem, base, size, workspace, capacity);
      ghost var piece := workspace[..count];
      if (codec != CodecDone && codec != CodecBufferFull) || (codec == CodecBufferFull && count == 0) {
        SettledBy(st, view, timestep, row, capacity, done, Sent([], false));
        return SessionRuntimeError;
      }
      var sent := session.SendFrames(noc, workspace, count);
      if sent != SessionOk {
        SettledBy(st, view, timestep, row, capacity, done, Sent([], false));
        return sent;
      }
      SettledBy(st, view, timestep, row, capacity, done, Sent(piece, true));
      assert noc.sent == before + piece;
      Associate(start, done, piece);
      PrependTwice(done, piece, SendChunks(view, timestep, row, cursor.entryIndex, capacity));
      done := done + piece;
      if codec == CodecDone {
        return SessionOk;
      }
    }
  }

  ghost function Prepend(done: seq<Frame>, s: Sent): Sent { Sent(done + s.frames, s.ok) }

  lemma PrependTwice(first: seq<Frame>, second: seq<Frame>, s: Sent)
    ensures Prepend(first, Prepend(second, s)) == Prepend(first + second, s)
  {
    assert first + (second + s.frames) == (first + second) + s.frames;
  }

  lemma Unusable(st: SessionState, view: InputView, timestep: nat, row: seq<u8>, capacity: nat)
    ensures capacity == 0 ==> SendRowStep(st, view, timestep, row, capacity) == Refuse(st, SessionRuntimeError)
    ensures capacity > 0 && st.faulted ==> SendRowStep(st, view, timestep, row, capacity) == Refuse(st, SessionFaulted)
  {
  }

  /** The last chunk settles the result. */
  lemma SettledBy(st: SessionState, view: InputView, timestep: nat, row: seq<u8>, capacity: nat, done: seq<Frame>, last: Sent)
    requires capacity > 0 && !st.faulted && (CanSend(st) || done == [])
    ensures !CanSend(st) ==> SendRowStep(st, view, timestep, row, capacity) == Refuse(st, SessionRuntimeError)
    ensures CanSend(st) && SendChunks(view, timestep, row, 0, capacity) == Prepend(done, last) ==>
              SendRowStep(st, view, timestep, row, capacity) ==
              StepResult(st, if last.ok then SessionOk else SessionRuntimeError, done + last.frames)
  {
    hide SendChunks;
  }

  lemma SendChunksStep(view: InputView, timestep: nat, row: seq<u8>, index: nat, capacity: nat)
    requires index <= |view.entries| && capacity > 0
    ensures var c := EncodeChunk(view, timestep, row, index, capacity);
            SendChunks(view, timestep, row, index, capacity) ==
            if c.status == CodecDone then Sent(c.frames, true)
            else if c.status == CodecBufferFull then Prepend(c.frames, SendChunks(view, timestep, row, c.next, capacity))
            else Sent([], false)
  {
    hide EncodeChunk;
  }

  /**
   Sending a row through a usable session: OK iff the whole row encodes, and then exactly its
   one-shot encoding was transmitted, whatever the workspace; otherwise a prefix of it. On any other
   session, or without a workspace, nothing is sent.
   */
  lemma RowTransmission(st: SessionState, view: InputView, timestep: nat, row: seq<u8>, capacity: nat)
    ensures var r, o := SendRowStep(st, view, timestep, row, capacity), EncodeRow(view, timestep, row, 0);
            if CanSend(st) && capacity > 0 then
              && r.state == st && (r.status == SessionOk || r.status == SessionRuntimeError)
              && (r.status == SessionOk <==> o.status == CodecDone)
              && r.sent <= o.frames && (r.status == SessionOk ==> r.sent == o.frames)
            else
              r == Refuse(st, if capacity > 0 && st.faulted then SessionFaulted else SessionRuntimeError)
  {
    hide EncodeChunk, EncodeRow, SendChunks;
    if capacity > 0 {
      ChunkingInvisible(view, timestep, row, 0, capacity);
    }
  }
}
