/**
 The ring buffer shared by one producer and one consumer thread. Every load and store of a shared
 location is one step, and a scheduler interleaves the steps of the two threads in any order.
 */
module RingThreads {
  import opened Bits
  import opened RingBuffer

  /** Where the producer is inside put or available, with its local variables. */
  datatype Producer =
    | PIdle
    | PutHead(byte: u8, head: u32)     // head loaded
    | PutRoom(byte: u8, head: u32)     // tail loaded: there is room
    | PutStored(byte: u8, head: u32)   // byte stored, head not yet published
    | PSize(head: u32)                 // available: head loaded

  /** Where the consumer is; `then` remembers how much was unread when its available call loaded head. */
  datatype Consumer =
    | CIdle
    | GetTail(tail: u32)               // tail loaded
    | GetData(tail: u32)               // head loaded: there is data
    | GetRead(tail: u32, byte: u8)     // byte read, tail not yet advanced
    | CSize(head: u32, length: nat)    // available: head loaded

  /**
   What a call reported, with the number of unread bytes at the moment that decided it: the comparing
   index read of a refusal, the publishing store of a success, the read of the other thread's index
   of a size.
   */
  datatype Report =
    | PutReport(byte: u8, status: RingStatus, length: nat)
    | GetReport(byte: u8, status: RingStatus, length: nat)
    | SizeReport(n: nat, length: nat)

  datatype Machine = Machine(ring: Ring, producer: Producer, consumer: Consumer, puts: seq<Report>, gets: seq<Report>)

  /** One scheduling decision; the request says what an idle thread calls next. */
  datatype Turn = ProducerPut(byte: u8) | ProducerSize | ConsumerGet | ConsumerSize

  /** What a suspended producer may rely on. */
  ghost predicate ProducerHolds(ring: Ring, p: Producer)
    requires ValidRing(ring)
  {
    match p
    case PIdle => true
    case PutHead(_, head) => head == ring.head
    case PutRoom(_, head) => head == ring.head && |Contents(ring)| < ring.size - 1
    case PutStored(byte, head) => head == ring.head && |Contents(ring)| < ring.size - 1 && ring.storage[head] == byte
    case PSize(head) => head == ring.head
  }

  /** What a suspended consumer may rely on. */
  ghost predicate ConsumerHolds(ring: Ring, c: Consumer)
    requires ValidRing(ring)
  {
    match c
    case CIdle => true
    case GetTail(tail) => tail == ring.tail
    case GetData(tail) => tail == ring.tail && |Contents(ring)| > 0
    case GetRead(tail, byte) => tail == ring.tail && |Contents(ring)| > 0 && Contents(ring)[0] == byte
    case CSize(head, length) => head < ring.size && length == Distance(ring.size, head, ring.tail)
  }

  /** Every accepted byte has been delivered or is still queued, in order, and all reports were true. */
  ghost predicate Balanced(m: Machine)
    requires ValidRing(m.ring)
  {
    && Accepted(m.puts) == Delivered(m.gets) + Contents(m.ring)
    && (forall r :: r in m.puts ==> Truthful(r, m.ring.size))
    && (forall r :: r in m.gets ==> Truthful(r, m.ring.size))
  }

  ghost predicate Consistent(m: Machine) {
    ValidRing(m.ring) && ProducerHolds(m.ring, m.producer) && ConsumerHolds(m.ring, m.consumer) && Balanced(m)
  }

  /** FULL, EMPTY and sizes were exactly true at that moment. */
  ghost predicate Truthful(r: Report, size: nat) {
    match r
    case PutReport(_, status, length) =>
      (status == RingFull && length == size - 1) || (status == RingOk && length < size - 1)
    case GetReport(_, status, length) =>
      (status == RingEmpty && length == 0) || (status == RingOk && length > 0)
    case SizeReport(n, length) => n == length
  }

  /** Bytes the successful puts took in, in order. */
  function Accepted(puts: seq<Report>): seq<u8> {
    if puts == [] then []
    else
      Accepted(puts[..|puts| - 1]) +
      match puts[|puts| - 1]
      case PutReport(byte, RingOk, _) => [byte]
      case _ => []
  }

  /** Bytes the successful gets handed out, in order. */
  function Delivered(gets: seq<Report>): seq<u8> {
    if gets == [] then []
    else
      Delivered(gets[..|gets| - 1]) +
      match gets[|gets| - 1]
      case GetReport(byte, RingOk, _) => [byte]
      case _ => []
  }

  /** The queue length as the two indices show it; zero while they are not valid indices. */
  function Length(r: Ring): nat {
    if r.head < r.size && r.tail < r.size then Distance(r.size, r.head, r.tail) else 0
  }

  function ProducerStep(m: Machine, turn: Turn): Machine
    requires ValidRing(m.ring)
    requires m.producer.PIdle? || m.producer.head < m.ring.size
  {
    match m.producer
    case PIdle =>
      if turn.ProducerPut? then m.(producer := PutHead(turn.byte, m.ring.head)) else m.(producer := PSize(m.ring.head))
    case PutHead(byte, head) =>
      if NextIndex(m.ring.size, head) == m.ring.tail
      then m.(producer := PIdle, puts := m.puts + [PutReport(byte, RingFull, Length(m.ring))])
      else m.(producer := PutRoom(byte, head))
    case PutRoom(byte, head) =>
      m.(ring := m.ring.(storage := m.ring.storage[head := byte]), producer := PutStored(byte, head))
    case PutStored(byte, head) =>
      m.(ring := m.ring.(head := NextIndex(m.ring.size, head)), producer := PIdle,
         puts := m.puts + [PutReport(byte, RingOk, Length(m.ring))])
    case PSize(head) =>
      m.(producer := PIdle, puts := m.puts + [SizeReport(Distance(m.ring.size, head, m.ring.tail), Length(m.ring))])
  }

  function ConsumerStep(m: Machine, turn: Turn): Machine
    requires ValidRing(m.ring)
    requires match m.consumer case CIdle => true case CSize(head, _) => head < m.ring.size case c => c.tail < m.ring.size
  {
    match m.consumer
    case CIdle =>
      if turn.ConsumerGet? then m.(consumer := GetTail(m.ring.tail))
      else m.(consumer := CSize(m.ring.head, Length(m.ring)))
    case GetTail(tail) =>
      if m.ring.head == tail
      then m.(consumer := CIdle, gets := m.gets + [GetReport(0, RingEmpty, Length(m.ring))])
      else m.(consumer := GetData(tail))
    case GetData(tail) => m.(consumer := GetRead(tail, m.ring.storage[tail]))
    case GetRead(tail, byte) =>
      m.(ring := m.ring.(tail := NextIndex(m.ring.size, tail)), consumer := CIdle,
         gets := m.gets + [GetReport(byte, RingOk, Length(m.ring))])
    case CSize(head, length) =>
      m.(consumer := CIdle, gets := m.gets + [SizeReport(Distance(m.ring.size, head, m.ring.tail), length)])
  }

  predicate ProducerTurn(turn: Turn) { turn.ProducerPut? || turn.ProducerSize? }

  function Step(m: Machine, turn: Turn): Machine
    requires Consistent(m)
  {
    if ProducerTurn(turn) then ProducerStep(m, turn) else ConsumerStep(m, turn)
  }

  // ------------------------------------------------------------- every step is a queue step

  lemma AcceptedOneMore(puts: seq<Report>, r: Report)
    ensures Accepted(puts + [r]) == Accepted(puts) + if r.PutReport? && r.status == RingOk then [r.byte] else []
  {
    assert (puts + [r])[..|puts|] == puts;
  }

  lemma DeliveredOneMore(gets: seq<Report>, r: Report)
    ensures Delivered(gets + [r]) == Delivered(gets) + if r.GetReport? && r.status == RingOk then [r.byte] else []
  {
    assert (gets + [r])[..|gets|] == gets;
  }

  /** Steps of a bounded first-in first-out queue. */
  ghost predicate QueueStep(capacity: nat, before: seq<u8>, after: seq<u8>) {
    || after == before
    || (|before| < capacity && exists byte :: after == before + [byte])
    || (|before| > 0 && after == before[1..])
  }

  /** Bytes joining the queue leave the consumer's knowledge true. */
  lemma ConsumerUndisturbed(before: Ring, after: Ring, c: Consumer)
    requires ValidRing(before) && ValidRing(after) && after.size == before.size && after.tail == before.tail
    requires Contents(before) <= Contents(after) && ConsumerHolds(before, c)
    ensures ConsumerHolds(after, c)
  {
    hide Contents;
  }

  /** Bytes leaving the queue leave the producer's knowledge true. */
  lemma ProducerUndisturbed(before: Ring, after: Ring, p: Producer)
    requires ValidRing(before) && ValidRing(after)
    requires after.size == before.size && after.head == before.head && after.storage == before.storage
    requires |Contents(after)| <= |Contents(before)| && ProducerHolds(before, p)
    ensures ProducerHolds(after, p)
  {
    hide Contents;
  }

  lemma ProducerKeeps(m: Machine, turn: Turn)
    requires Consistent(m) && ProducerTurn(turn)
    ensures Consistent(Step(m, turn))
    ensures Contents(Step(m, turn).ring) == Contents(m.ring) + if m.producer.PutStored? then [m.producer.byte] else []
    ensures m.producer.PutStored? ==> |Contents(m.ring)| < m.ring.size - 1
  {
    hide Contents, Distance, ConsumerHolds, Accepted, Delivered, NextIndex;
    var next, r := Step(m, turn), m.ring;
    FullAndEmpty(r.size, r.head, r.tail);
    match m.producer
    case PIdle =>
    case PutHead(byte, head) =>
      AcceptedOneMore(m.puts, PutReport(byte, RingFull, Length(r)));
    case PutRoom(byte, head) =>
      SlotIsFree(r, byte);
      ConsumerUndisturbed(r, next.ring, m.consumer);
    case PutStored(byte, head) =>
      PublishAppends(r);
      ConsumerUndisturbed(r, next.ring, m.consumer);
      AcceptedOneMore(m.puts, PutReport(byte, RingOk, Length(r)));
      assert (Delivered(m.gets) + Contents(r)) + [byte] == Delivered(m.gets) + (Contents(r) + [byte]);
    case PSize(head) =>
      AcceptedOneMore(m.puts, SizeReport(Distance(r.size, head, r.tail), Length(r)));
  }

  lemma ConsumerKeeps(m: Machine, turn: Turn)
    requires Consistent(m) && !ProducerTurn(turn)
    ensures Consistent(Step(m, turn))
    ensures m.consumer.GetRead? ==> Contents(m.ring) == [m.consumer.byte] + Contents(Step(m, turn).ring)
    ensures !m.consumer.GetRead? ==> Contents(Step(m, turn).ring) == Contents(m.ring)
  {
    hide Contents, Distance, ProducerHolds, Accepted, Delivered, NextIndex;
    var next, r := Step(m, turn), m.ring;
    FullAndEmpty(r.size, r.head, r.tail);
    match m.consumer
    case CIdle =>
    case GetTail(tail) =>
      DeliveredOneMore(m.gets, GetReport(0, RingEmpty, Length(r)));
    case GetData(tail) => AdvanceDrops(r);
    case GetRead(tail, byte) =>
      AdvanceDrops(r);
      ProducerUndisturbed(r, next.ring, m.producer);
      DeliveredOneMore(m.gets, GetReport(byte, RingOk, Length(r)));
      assert Contents(r) == [byte] + Contents(next.ring);
      assert (Delivered(m.gets) + [byte]) + Contents(next.ring) == Delivered(m.gets) + ([byte] + Contents(next.ring));
    case CSize(head, length) =>
      DeliveredOneMore(m.gets, SizeReport(Distance(r.size, head, r.tail), length));
  }

  // ------------------------------------------------------------- every interleaving

  function Start(ring: Ring): Machine { Machine(ring, PIdle, CIdle, [], []) }

  function Run(m: Machine, schedule: seq<Turn>): Machine
    requires Consistent(m)
    decreases |schedule|
  {
    if schedule == [] then m
    else
      StepKeeps(m, schedule[0]);
      Run(Step(m, schedule[0]), schedule[1..])
  }

  lemma StepKeeps(m: Machine, turn: Turn)
    requires Consistent(m)
    ensures Consistent(Step(m, turn)) && Step(m, turn).ring.size == m.ring.size
    ensures QueueStep(m.ring.size - 1, Contents(m.ring), Contents(Step(m, turn).ring))
  {
    if ProducerTurn(turn) {
      ProducerKeeps(m, turn);
    } else {
      ConsumerKeeps(m, turn);
    }
  }

  /**
   The shared buffer refines a bounded FIFO queue under every interleaving: what was read is always a
   prefix of what was accepted, the difference is exactly the queue, and every report was true when
   its deciding index was read.
   */
  lemma {:induction false} EveryInterleaving(ring: Ring, schedule: seq<Turn>)
    requires ValidRing(ring) && ring.head == ring.tail
    ensures Consistent(Start(ring))
    ensures var m := Run(Start(ring), schedule);
            && Consistent(m) && m.ring.size == ring.size
            && Delivered(m.gets) <= Accepted(m.puts)
            && |Accepted(m.puts)| - |Delivered(m.gets)| == |Contents(m.ring)| <= ring.size - 1
            && (forall r :: r in m.puts + m.gets ==> Truthful(r, ring.size))
  {
    FullAndEmpty(ring.size, ring.head, ring.tail);
    RunKeeps(Start(ring), schedule);
  }

  lemma {:induction false} RunKeeps(m: Machine, schedule: seq<Turn>)
    requires Consistent(m)
    ensures Consistent(Run(m, schedule)) && Run(m, schedule).ring.size == m.ring.size
    decreases |schedule|
  {
    if schedule != [] {
      StepKeeps(m, schedule[0]);
      RunKeeps(Step(m, schedule[0]), schedule[1..]);
    }
  }

  /** A put that is not interrupted does what the sequential object does. */
  lemma UninterruptedPut(m: Machine, byte: u8)
    requires Consistent(m) && m.producer.PIdle?
    ensures var full, p := |Contents(m.ring)| == m.ring.size - 1, ProducerPut(byte);
            var end := if full then Run(m, [p, p]) else Run(m, [p, p, p, p]);
            && Consistent(end) && end.producer.PIdle? && end.consumer == m.consumer
            && end.puts == m.puts + [PutReport(byte, if full then RingFull else RingOk, |Contents(m.ring)|)]
            && Contents(end.ring) == if full then Contents(m.ring) else Contents(m.ring) + [byte]
  {
    hide ProducerHolds, ConsumerHolds, Balanced, Contents, Step, NextIndex, Distance;
    var p := ProducerPut(byte);
    RunKeeps(m, [p, p]);
    RunKeeps(m, [p, p, p, p]);
    var m1 := Step(m, p);
    PutBegins(m, byte);
    if |Contents(m.ring)| == m.ring.size - 1 {
      assert Run(m, [p, p]) == Step(m1, p) by {
        RunTwo(m, p);
      }
    } else {
      RunTwo(m, p);
      PutEnds(Step(m1, p), byte);
      RunTwo(Step(m1, p), p);
      RunFour(m, p);
    }
  }

  lemma RunTwo(m: Machine, p: Turn)
    requires Consistent(m)
    ensures Consistent(Step(m, p)) && Run(m, [p, p]) == Step(Step(m, p), p)
  {
    hide Consistent, Step;
    StepKeeps(m, p);
    StepKeeps(Step(m, p), p);
    assert [p, p][1..] == [p] && [p][1..] == [];
    assert Run(Step(Step(m, p), p), []) == Step(Step(m, p), p);
    assert Run(Step(m, p), [p]) == Step(Step(m, p), p);
  }

  lemma RunFour(m: Machine, p: Turn)
    requires Consistent(m)
    ensures Consistent(Run(m, [p, p])) && Run(m, [p, p, p, p]) == Run(Run(m, [p, p]), [p, p])
  {
    hide Consistent, Step;
    RunTwo(m, p);
    StepKeeps(m, p);
    StepKeeps(Step(m, p), p);
    assert [p, p, p, p][1..] == [p, p, p] && [p, p, p][1..] == [p, p];
    assert Run(Step(m, p), [p, p, p]) == Run(Step(Step(m, p), p), [p, p]);
  }

  /** The two index loads: either FULL is reported, or there is room. */
  lemma PutBegins(m: Machine, byte: u8)
    requires Consistent(m) && m.producer.PIdle?
    ensures Consistent(Step(m, ProducerPut(byte)))
    ensures var two := Step(Step(m, ProducerPut(byte)), ProducerPut(byte));
            if |Contents(m.ring)| == m.ring.size - 1
            then two == m.(puts := m.puts + [PutReport(byte, RingFull, |Contents(m.ring)|)])
            else Consistent(two) && two == m.(producer := PutRoom(byte, m.ring.head))
  {
    hide Contents, Distance, NextIndex, Accepted, Delivered;
    StepKeeps(m, ProducerPut(byte));
    StepKeeps(Step(m, ProducerPut(byte)), ProducerPut(byte));
    FullAndEmpty(m.ring.size, m.ring.head, m.ring.tail);
  }

  /** The two stores: write the slot, publish it. */
  lemma PutEnds(m: Machine, byte: u8)
    requires Consistent(m) && m.producer.PutRoom? && m.producer.byte == byte
    ensures Consistent(Step(m, ProducerPut(byte)))
    ensures var two := Step(Step(m, ProducerPut(byte)), ProducerPut(byte));
            && two.producer.PIdle? && two.consumer == m.consumer
            && two.puts == m.puts + [PutReport(byte, RingOk, |Contents(m.ring)|)]
            && Contents(two.ring) == Contents(m.ring) + [byte]
  {
    hide Contents, NextIndex, Accepted, Delivered;
    ProducerKeeps(m, ProducerPut(byte));
    ProducerKeeps(Step(m, ProducerPut(byte)), ProducerPut(byte));
  }

  /** So does a get. */
  lemma UninterruptedGet(m: Machine)
    requires Consistent(m) && m.consumer.CIdle?
    ensures var empty, g := |Contents(m.ring)| == 0, ConsumerGet;
            var end := if empty then Run(m, [g, g]) else Run(m, [g, g, g, g]);
            && Consistent(end) && end.consumer.CIdle? && end.producer == m.producer
            && |end.gets| == |m.gets| + 1 && end.gets[..|m.gets|] == m.gets
            && (empty ==> end.gets[|m.gets|] == GetReport(0, RingEmpty, 0) && Contents(end.ring) == [])
            && (!empty ==> end.gets[|m.gets|] == GetReport(Contents(m.ring)[0], RingOk, |Contents(m.ring)|) &&
                           Contents(end.ring) == Contents(m.ring)[1..])
  {
    hide ProducerHolds, ConsumerHolds, Balanced, Contents, Step, NextIndex, Distance;
    var g := ConsumerGet;
    RunKeeps(m, [g, g]);
    RunKeeps(m, [g, g, g, g]);
    RunTwo(m, g);
    GetBegins(m);
    if |Contents(m.ring)| > 0 {
      GetEnds(Step(Step(m, g), g));
      RunTwo(Step(Step(m, g), g), g);
      RunFour(m, g);
    }
  }

  /** The two index loads of a get: either EMPTY is reported, or there is data. */
  lemma GetBegins(m: Machine)
    requires Consistent(m) && m.consumer.CIdle?
    ensures Consistent(Step(m, ConsumerGet))
    ensures var two := Step(Step(m, ConsumerGet), ConsumerGet);
            if |Contents(m.ring)| == 0
            then two == m.(gets := m.gets + [GetReport(0, RingEmpty, 0)])
            else Consistent(two) && two == m.(consumer := GetData(m.ring.tail))
  {
    hide Contents, Distance, NextIndex, Accepted, Delivered;
    StepKeeps(m, ConsumerGet);
    StepKeeps(Step(m, ConsumerGet), ConsumerGet);
    FullAndEmpty(m.ring.size, m.ring.head, m.ring.tail);
  }

  /** The data load and the final store. */
  lemma GetEnds(m: Machine)
    requires Consistent(m) && m.consumer.GetData?
    ensures Consistent(Step(m, ConsumerGet)) && |Contents(m.ring)| > 0
    ensures var two := Step(Step(m, ConsumerGet), ConsumerGet);
            && two.consumer.CIdle? && two.producer == m.producer
            && two.gets == m.gets + [GetReport(Contents(m.ring)[0], RingOk, |Contents(m.ring)|)]
            && Contents(two.ring) == Contents(m.ring)[1..]
  {
    hide Contents, NextIndex, Accepted, Delivered;
    ConsumerKeeps(m, ConsumerGet);
    ConsumerKeeps(Step(m, ConsumerGet), ConsumerGet);
    FullAndEmpty(m.ring.size, m.ring.head, m.ring.tail);
    AdvanceDrops(m.ring);
  }
}
