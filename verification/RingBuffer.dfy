/** The byte ring buffer: its index arithmetic, its contents as a queue, and the object itself. */
module RingBuffer {
  import opened Bits

  datatype RingStatus = RingOk | RingInvalid | RingFull | RingEmpty

  /** The buffer as a value. One byte of storage always stays unused. */
  datatype Ring = Ring(size: u32, storage: seq<u8>, head: u32, tail: u32)

  ghost predicate ValidRing(r: Ring) {
    2 <= r.size <= |r.storage| && r.head < r.size && r.tail < r.size
  }

  function NextIndex(size: u32, index: u32): (next: u32)
    requires index < size
    ensures next < size
  {
    if index + 1 >= size then 0 else index + 1
  }

  /** Bytes between tail and head, going round. */
  function Distance(size: u32, head: u32, tail: u32): (n: nat)
    requires head < size && tail < size
    ensures n < size
  {
    if head >= tail then head - tail else size - tail + head
  }

  /** Index of the i-th unread byte. */
  function Position(size: u32, tail: u32, i: nat): (p: u32)
    requires tail < size && i < size
    ensures p < size
  {
    if tail + i >= size then tail + i - size else tail + i
  }

  /** The unread bytes, oldest first. */
  function Contents(r: Ring): (q: seq<u8>)
    requires ValidRing(r)
    ensures |q| == Distance(r.size, r.head, r.tail) <= r.size - 1
  {
    seq(Distance(r.size, r.head, r.tail), i requires 0 <= i < Distance(r.size, r.head, r.tail) =>
      r.storage[Position(r.size, r.tail, i)])
  }

  // ------------------------------------------------------------- index facts

  /** The next head meets the tail exactly when all usable bytes are taken; equal indices mean none is. */
  lemma FullAndEmpty(size: u32, head: u32, tail: u32)
    requires head < size && tail < size
    ensures NextIndex(size, head) == tail <==> Distance(size, head, tail) == size - 1
    ensures head == tail <==> Distance(size, head, tail) == 0
  {
  }

  /** Writing the slot at head touches no unread byte. */
  lemma SlotIsFree(r: Ring, byte: u8)
    requires ValidRing(r)
    ensures ValidRing(r.(storage := r.storage[r.head := byte])) && Contents(r.(storage := r.storage[r.head := byte])) == Contents(r)
  {
  }

  /** Publishing the next head appends what the slot holds. */
  lemma PublishAppends(r: Ring)
    requires ValidRing(r) && NextIndex(r.size, r.head) != r.tail
    ensures var next := r.(head := NextIndex(r.size, r.head));
            ValidRing(next) && Contents(next) == Contents(r) + [r.storage[r.head]]
  {
  }

  /** Advancing the tail drops the oldest byte. */
  lemma AdvanceDrops(r: Ring)
    requires ValidRing(r) && r.head != r.tail
    ensures var next := r.(tail := NextIndex(r.size, r.tail));
            ValidRing(next) && |Contents(r)| > 0 && Contents(r)[0] == r.storage[r.tail] && Contents(next) == Contents(r)[1..]
  {
  }

  // ------------------------------------------------------------- sequential object

  class RingBuffer {
    var storage: array<u8>
    var size: u32
    var head: u32
    var tail: u32

    /** Either not initialized, which every operation reports, or consistent. */
    ghost predicate Valid()
      reads this
    {
      size >= 2 ==> size <= storage.Length && head < size && tail < size
    }

    ghost function Value(): (r: Ring)
      reads this, storage
      requires Valid() && size >= 2
      ensures ValidRing(r)
    {
      Ring(size, storage[..], head, tail)
    }

    /** Zeroed storage, as a C caller provides it. */
    constructor (storage: array<u8>)
      ensures Valid() && size == 0
    {
      this.storage, size, head, tail := storage, 0, 0, 0;
    }

    method Init(storage: array<u8>, storageSize: u32) returns (status: RingStatus)
      requires Valid() && storageSize <= storage.Length
      modifies this
      ensures Valid()
      ensures if storageSize < 2 then status == RingInvalid && size == old(size) && this.storage == old(this.storage)
              else status == RingOk && size == storageSize && this.storage == storage && Contents(Value()) == []
    {
      if storageSize < 2 {
        return RingInvalid;
      }
      this.storage, size, head, tail := storage, storageSize, 0, 0;
      return RingOk;
    }

    method Put(byte: u8) returns (status: RingStatus)
      requires Valid()
      modifies this`head, storage
      ensures Valid()
      ensures status == RingInvalid <==> size < 2
      ensures size >= 2 ==> (status == RingFull <==> |old(Contents(Value()))| == size - 1)
      ensures size >= 2 ==> status != RingEmpty
      ensures size >= 2 ==>
                Contents(Value()) == if status == RingOk then old(Contents(Value())) + [byte] else old(Contents(Value()))
    {
      if size < 2 {
        return RingInvalid;
      }
      ghost var before := Value();
      var at := head;
      var next := NextIndex(size, at);
      FullAndEmpty(size, at, tail);
      if next == tail {
        return RingFull;
      }
      storage[at] := byte;
      SlotIsFree(before, byte);
      PublishAppends(Value());
      head := next;
      return RingOk;
    }

    method Get() returns (status: RingStatus, byte: u8)
      requires Valid()
      modifies this`tail
      ensures Valid()
      ensures status == RingInvalid <==> size < 2
      ensures size >= 2 ==> (status == RingEmpty <==> |old(Contents(Value()))| == 0)
      ensures size >= 2 ==> status != RingFull
      ensures size >= 2 ==>
                old(Contents(Value())) == if status == RingOk then [byte] + Contents(Value()) else Contents(Value())
    {
      if size < 2 {
        return RingInvalid, 0;
      }
      var at := tail;
      FullAndEmpty(size, head, at);
      if head == at {
        return RingEmpty, 0;
      }
      byte := storage[at];
      AdvanceDrops(Value());
      tail := NextIndex(size, at);
      status := RingOk;
    }

    method Available() returns (n: nat)
      requires Valid()
      ensures n == if size >= 2 then |Contents(Value())| else 0
    {
      if size < 2 {
        return 0;
      }
      return if head >= tail then head - tail else size - tail + head;
    }

    method Reset()
      requires Valid()
      modifies this`tail
      ensures Valid() && (size >= 2 ==> Contents(Value()) == [])
    {
      if size >= 2 {
        tail := head;
      }
    }
  }
}
