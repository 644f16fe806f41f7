/**
 64-bit counter and compare registers accessed in 32-bit halves, while the counter goes on ticking
 between the accesses.
 */
module Counter {
  const HALF: nat := 0x1_0000_0000
  const FULL: nat := 0x1_0000_0000_0000_0000

  /** What the 64-bit register shows when the counter has ticked v times in all. */
  function Register(v: nat): nat { v % FULL }
  function Low(v: nat): nat { v % HALF }
  function High(v: nat): nat { v / HALF % HALF }

  /** The register had this value at some moment between two counts. */
  ghost predicate Held(value: nat, first: nat, last: nat) {
    exists v: nat :: first <= v <= last && Register(v) == value
  }

  /** Two halves make the register of the count whose halves they are. */
  lemma Halves(q: nat, low: nat)
    requires low < HALF
    ensures Low(q * HALF + low) == low && High(q * HALF + low) == q % HALF
    ensures Register(q * HALF + low) == q % HALF * HALF + low
  {
    assert (q * HALF + low) / HALF == q && (q * HALF + low) % HALF == low;
    var k, m := q / HALF, q % HALF;
    assert q * HALF + low == k * FULL + (m * HALF + low);
    assert m * HALF + low < FULL;
  }

  class Timer {
    var now: nat          // ticks so far; the register shows them modulo 2^64
    var compare: nat
    ghost var exposed: seq<nat>  // every value the compare register has shown

    constructor ()
      ensures now == 0 && compare == 0 && exposed == [0]
    {
      now, compare, exposed := 0, 0, [0];
    }

    /** Any number of ticks may pass before an access. */
    method Tick()
      modifies this`now
      ensures now >= old(now)
    {
      var ticks: nat :| ticks >= 0;
      now := now + ticks;
    }

    method ReadLow() returns (low: nat)
      modifies this`now
      ensures now >= old(now) && low == Low(now)
    {
      Tick();
      low := Low(now);
    }

    method ReadHigh() returns (high: nat)
      modifies this`now
      ensures now >= old(now) && high == High(now)
    {
      Tick();
      high := High(now);
    }

    method WriteLow(low: nat) returns (ghost at: nat)
      requires low < HALF
      modifies this`now
      ensures at >= old(now) && now == at / HALF * HALF + low
    {
      Tick();
      at := now;
      now := now / HALF * HALF + low;
    }

    method WriteHigh(high: nat) returns (ghost at: nat)
      requires high < HALF
      modifies this`now
      ensures at >= old(now) && now == high * HALF + Low(at)
    {
      Tick();
      at := now;
      now := high * HALF + Low(now);
    }

    /**
     Clear the low half, set the high half, set the low half. What matters is the low half when the high
     half is written and the ticks until the last write: the register ends at the value exactly if they
     carry a multiple of 2^32 times, and the count itself exactly if they do not carry at all. Fewer than
     2^32 ticks since the first write are enough: clearing first leaves the counter that long.
     */
    method SetLoadValue(value: nat) returns (ghost low: nat, ghost ticks: nat, ghost total: nat)
      requires value < FULL
      modifies this`now
      ensures low < HALF && ticks <= total
      ensures now == value <==> low + ticks < HALF
      ensures Register(now) == value <==> (low + ticks) / HALF % HALF == 0
      ensures total < HALF ==> low + ticks == total
    {
      hide Register, Low, High;
      ghost var at;
      at := WriteLow(0);
      ghost var block := at / HALF;
      at := WriteHigh(value / HALF);
      low, total := Low(at), at - block * HALF;
      ghost var high := now;
      at := WriteLow(value % HALF);
      ticks := at - high;
      ClearedLow(block, total);
      CarryInto(value / HALF, low, ticks, value % HALF);
      total := total + ticks;
    }

    method WriteCompareHalf(upper: bool, half: nat)
      requires half < HALF && compare < FULL
      modifies this`compare, this`exposed
      ensures compare == if upper then half * HALF + Low(old(compare)) else High(old(compare)) * HALF + half
      ensures compare < FULL && exposed == old(exposed) + [compare]
    {
      compare := if upper then half * HALF + Low(compare) else High(compare) * HALF + half;
      exposed := exposed + [compare];
    }

    /**
     Low half to all ones, high half, low half. Nothing the register shows on the way is below both
     the old and the new value, so an update alone never makes the timer look expired.
     */
    method SetCompareValue(value: nat)
      requires value < FULL && compare < FULL
      modifies this`compare, this`exposed
      ensures compare == value
      ensures old(exposed) <= exposed && |exposed| == |old(exposed)| + 3
      ensures forall i :: |old(exposed)| <= i < |exposed| ==> exposed[i] >= value || exposed[i] >= old(compare)
    {
      WriteCompareHalf(false, HALF - 1);
      WriteCompareHalf(true, value / HALF);
      WriteCompareHalf(false, value % HALF);
    }

    /**
     High, low, high again; if the high half moved, low once more. The result is a value the counter
     held between the first and the last read, except when the reads are torn.
     */
    method Read() returns (value: nat, ghost first: nat, ghost second: nat, ghost third: nat)
      modifies this`now
      ensures old(now) <= first <= second <= third <= now && (High(first) == High(third) ==> now == third)
      ensures value == ReadResult(first, second, third, now)
      ensures Held(value, first, now) <==> !Torn(first, second, third)
      ensures third - first <= FULL - HALF ==> Held(value, first, now)
    {
      var high0 := ReadHigh();
      first := now;
      var low := ReadLow();
      second := now;
      var high := ReadHigh();
      third := now;
      if high0 != high {
        low := ReadLow();
      }
      value := high * HALF + low;
      ReadHeldIff(first, second, third, now);
      if third - first <= FULL - HALF {
        ReadIsHeld(first, second, third, now);
      }
    }
  }

  /** After fewer than 2^32 ticks from a cleared low half, the low half is their number. */
  lemma ClearedLow(block: nat, ticks: nat)
    ensures ticks < HALF ==> Low(block * HALF + ticks) == ticks
    ensures Low(block * HALF + ticks) < HALF
  {
    if ticks < HALF {
      Halves(block, ticks);
    }
  }

  /** Ticks that reach 2^32 in the low half carry into the high half before the last write. */
  lemma CarryInto(high: nat, low: nat, ticks: nat, value: nat)
    requires high < HALF && low < HALF && value < HALF
    ensures var carries := (low + ticks) / HALF;
            var now := (high * HALF + low + ticks) / HALF * HALF + value;
            && now == (high + carries) * HALF + value
            && (now == high * HALF + value <==> low + ticks < HALF)
            && (Register(now) == high * HALF + value <==> carries % HALF == 0)
  {
    var carries, rest := (low + ticks) / HALF, (low + ticks) % HALF;
    Halves(high + carries, rest);
    assert high * HALF + low + ticks == (high + carries) * HALF + rest;
    Halves(high + carries, value);
    SameResidue(high, carries);
  }

  lemma SameResidue(high: nat, carries: nat)
    requires high < HALF
    ensures (high + carries) % HALF == high <==> carries % HALF == 0
  {
    var k, m := carries / HALF, carries % HALF;
    assert carries == k * HALF + m;
  }

  /** What the read sequence returns for the counts at its four possible reads. */
  function ReadResult(t0: nat, t1: nat, t2: nat, t3: nat): nat {
    High(t2) * HALF + if High(t0) != High(t2) then Low(t3) else Low(t1)
  }

  /** A count is its block of 2^32 and its place in it; later counts are in later or equal blocks. */
  lemma Blocks(a: nat, b: nat)
    requires a <= b
    ensures a == a / HALF * HALF + Low(a) && b == b / HALF * HALF + Low(b)
    ensures a / HALF <= b / HALF && (b - a < HALF ==> b / HALF <= a / HALF + 1)
  {
  }

  /** If the high half belongs to the first read's block, or moved, the halves fit together. */
  lemma BlockRead(t0: nat, t1: nat, t2: nat, t3: nat) returns (v: nat)
    requires t0 <= t1 <= t2 <= t3 && (High(t0) != High(t2) || t0 / HALF == t2 / HALF)
    ensures t0 <= v <= t3 && Register(v) == ReadResult(t0, t1, t2, t3)
    ensures v == t2 / HALF * HALF + if High(t0) == High(t2) then Low(t1) else Low(t3)
  {
    hide Register, Low;
    Blocks(t0, t1);
    Blocks(t1, t2);
    Blocks(t2, t3);
    var low := if High(t0) == High(t2) then Low(t1) else Low(t3);
    Halves(t2 / HALF, low);
    v := t2 / HALF * HALF + low;
  }

  lemma ReadIsHeld(t0: nat, t1: nat, t2: nat, t3: nat)
    requires t0 <= t1 <= t2 <= t3 && t2 - t0 <= FULL - HALF
    ensures Held(ReadResult(t0, t1, t2, t3), t0, t3)
    ensures t3 - t0 < HALF ==> ReadResult(t0, t1, t2, t3) == Register(if High(t0) != High(t2) then t3 else t1)
  {
    hide Register, Low;
    if High(t0) == High(t2) {
      SameBlock(t0, t2);
    }
    var v := BlockRead(t0, t1, t2, t3);
    Blocks(t0, t1);
    Blocks(t1, t2);
    Blocks(t2, t3);
    Blocks(t0, t3);
  }

  /** Equal high halves that are less than a full turn apart belong to one block of 2^32 counts. */
  lemma SameBlock(t0: nat, t2: nat)
    requires t0 <= t2 <= t0 + (FULL - HALF) && High(t0) == High(t2)
    ensures t0 / HALF == t2 / HALF
  {
    var q0, q2 := t0 / HALF, t2 / HALF;
    assert q2 - q0 < HALF;
    assert q0 == q0 / HALF * HALF + q0 % HALF && q2 == q2 / HALF * HALF + q2 % HALF;
  }

  /**
   The one way the read goes wrong: the counter went round so nearly completely that the high half
   reads the same in the next turn, and the low half was read in the part that was skipped.
   */
  predicate Torn(t0: nat, t1: nat, t2: nat) {
    High(t0) == High(t2) && t2 / HALF != t0 / HALF && t2 < t0 + FULL && Low(t2) < Low(t1) < Low(t0)
  }

  /** Less than a turn apart in different blocks with one high half: exactly the next turn's block. */
  lemma NextTurn(t0: nat, t2: nat)
    requires t0 <= t2 < t0 + FULL && High(t0) == High(t2) && t0 / HALF != t2 / HALF
    ensures t2 / HALF == t0 / HALF + HALF && Low(t2) < Low(t0)
  {
    Blocks(t0, t2);
    var q0, q2 := t0 / HALF, t2 / HALF;
    assert q0 == q0 / HALF * HALF + q0 % HALF && q2 == q2 / HALF * HALF + q2 % HALF;
  }

  /** A whole turn shows every value. */
  lemma WholeTurn(value: nat, first: nat, last: nat)
    requires value < FULL && first + FULL - 1 <= last
    ensures Held(value, first, last)
  {
    var base := first / FULL * FULL;
    var v := if base + value >= first then base + value else base + FULL + value;
    assert first <= v <= last && Register(v) == value;
  }

  /** The exact condition: for all counts at the reads, the result was held unless the reads are torn. */
  lemma ReadHeldIff(t0: nat, t1: nat, t2: nat, t3: nat)
    requires t0 <= t1 <= t2 <= t3 && (High(t0) == High(t2) ==> t3 == t2)
    ensures Held(ReadResult(t0, t1, t2, t3), t0, t3) <==> !Torn(t0, t1, t2)
  {
    var value := ReadResult(t0, t1, t2, t3);
    if t2 - t0 >= FULL {
      WholeTurn(value, t0, t3);
    } else if High(t0) != High(t2) || t0 / HALF == t2 / HALF {
      var v := BlockRead(t0, t1, t2, t3);
    } else {
      SkippedRead(t0, t1, t2);
    }
  }

  /** In the next turn's block, the low half decides. */
  lemma SkippedRead(t0: nat, t1: nat, t2: nat)
    requires t0 <= t1 <= t2 < t0 + FULL && High(t0) == High(t2) && t0 / HALF != t2 / HALF
    ensures Held(ReadResult(t0, t1, t2, t2), t0, t2) <==> !(Low(t2) < Low(t1) < Low(t0))
  {
    hide Register, Low;
    NextTurn(t0, t2);
    Blocks(t0, t2);
    Blocks(t1, t2);
    var q, low := t0 / HALF, Low(t1);
    var value, early, late := ReadResult(t0, t1, t2, t2), q * HALF + low, (q + HALF) * HALF + low;
    Halves(q, low);
    Halves(q + HALF, low);
    assert value == High(t2) * HALF + low;
    assert Register(early) == value && Register(late) == value && late == early + FULL;
    if low >= Low(t0) {
      assert t0 <= early <= t2;
    } else if low <= Low(t2) {
      assert t0 <= late <= t2;
    } else {
      forall v: nat | t0 <= v <= t2
        ensures Register(v) != value
      {
        OncePerTurn(early, v);
      }
    }
  }

  /** Between two consecutive showings of a value it is not shown. */
  lemma OncePerTurn(early: nat, v: nat)
    requires early < v < early + FULL
    ensures Register(v) != Register(early)
  {
  }

  /** The shortest run that fails: one tick above the bound, reading 3 without ever having held it. */
  lemma TornRead()
    ensures var t0, t1, t2 := HALF - 1, HALF + 3, FULL;
            t2 - t0 == FULL - HALF + 1 && ReadResult(t0, t1, t2, t2) == 3 && !Held(3, t0, t2)
  {
    ReadHeldIff(HALF - 1, HALF + 3, FULL, FULL);
  }

  ghost predicate TornWithin(t0: nat, t1: nat, ticks: nat) {
    t0 <= t1 <= t0 + ticks && Torn(t0, t1, t0 + ticks)
  }

  /**
   What a caller can rely on by counting ticks: among runs with that many ticks from first to third
   read there is a torn one exactly above 2^64 - 2^32 and below 2^64 - 1. The tick bound is sharp.
   */
  lemma TornTicks(ticks: nat)
    ensures (exists t0: nat, t1: nat :: TornWithin(t0, t1, ticks)) <==> FULL - HALF < ticks < FULL - 1
  {
    if FULL - HALF < ticks < FULL - 1 {
      Halves(0, FULL - ticks);
      Halves(1, 1);
      Halves(HALF, 0);
      assert TornWithin(FULL - ticks, HALF + 1, ticks);
    }
    forall t0: nat, t1: nat | TornWithin(t0, t1, ticks)
      ensures FULL - HALF < ticks < FULL - 1
    {
      NextTurn(t0, t0 + ticks);
      Blocks(t0, t0 + ticks);
    }
  }
}
