/**
 Physical memory protection entries: several one-byte configurations packed into each configuration
 CSR, and naturally aligned regions packed into each address CSR. CSRs keep what is written to them.
 */
module Pmp {
  import opened Bits

  const A_NA4: nat := 0x10
  const A_NAPOT: nat := 0x18
  const GRANULE_SHIFT: nat := 2

  /** Permissions with lock and mode bits, size as a power of two, and base address. */
  datatype Region = Region(protection: nat, order: nat, base: nat)

  // ------------------------------------------------------------- trailing zeros

  function TrailingZeros(data: nat): nat
    requires data > 0
  {
    if data % 2 == 1 then 0 else TrailingZeros(data / 2) + 1
  }

  /** Count by shifting. A word of zeros has as many as it is wide. */
  method CountTrailingZeros(xlen: nat, data: nat) returns (n: nat)
    ensures n == if data == 0 then xlen else TrailingZeros(data)
  {
    if data == 0 {
      return xlen;
    }
    n := 0;
    var rest := data;
    while rest % 2 == 0
      invariant rest > 0 && TrailingZeros(data) == n + TrailingZeros(rest)
      decreases rest
    {
      n := n + 1;
      rest := rest / 2;
    }
  }

  lemma {:induction false} ShiftedZeros(odd: nat, n: nat)
    requires odd % 2 == 1
    ensures Shl(odd, n) > 0 && TrailingZeros(Shl(odd, n)) == n
    decreases n
  {
    if n > 0 {
      ShiftedZeros(odd, n - 1);
    }
  }

  lemma {:induction false} OddPart(data: nat) returns (odd: nat)
    requires data > 0
    ensures odd % 2 == 1 && data == Shl(odd, TrailingZeros(data))
  {
    if data % 2 == 1 {
      odd := data;
    } else {
      odd := OddPart(data / 2);
    }
  }

  /** The count is n exactly for odd multiples of 2^n. */
  lemma TrailingZerosMeaning(data: nat, n: nat)
    requires data > 0
    ensures TrailingZeros(data) == n <==> exists odd :: odd % 2 == 1 && data == Shl(odd, n)
  {
    var part := OddPart(data);
    forall odd: nat | odd % 2 == 1 && data == Shl(odd, n)
      ensures TrailingZeros(data) == n
    {
      ShiftedZeros(odd, n);
    }
  }

  // ------------------------------------------------------------- address coding

  /** AND with the complement of the mask 2^k - 1. */
  function ClearLow(a: nat, k: nat): nat {
    LowIsSmall(a, k);
    a - LowBits(a, k)
  }

  lemma LowIsSmall(a: nat, k: nat)
    ensures LowBits(a, k) <= a
  {
    hide Pow2;
    RemainderBelow(a, Pow2(k));
  }

  lemma RemainderBelow(a: nat, m: nat)
    requires m > 0
    ensures a % m <= a
  {
    var q := a / m;
    assert a == q * m + a % m;
    MulMono(0, q, m);
  }

  /** Address register of a region; for NAPOT the size is the run of ones below a zero. */
  function EncodeAddress(r: Region): nat
    requires r.order >= GRANULE_SHIFT
  {
    if r.order == GRANULE_SHIFT then Shr(r.base, GRANULE_SHIFT)
    else
      var mask := Pow2(r.order - GRANULE_SHIFT) - 1;
      BitOr(ClearLow(Shr(r.base, GRANULE_SHIFT), r.order - GRANULE_SHIFT), mask / 2)
  }

  /** Protection byte as it is stored: the requested bits, with the mode bits ORed in. */
  function StoredProtection(r: Region): (p: nat)
    ensures p < 0x100
  {
    BitOr(r.protection, if r.order == GRANULE_SHIFT then A_NA4 else A_NAPOT) % 0x100
  }

  /** Both mode bits set. */
  predicate IsNapot(protection: nat) { protection / 8 % 4 == 3 }

  /** The base comes back rounded down to the region's size. */
  function Aligned(base: nat, order: nat): nat { ClearLow(base, order) }

  lemma RoundDown(base: nat, order: nat)
    ensures Aligned(base, order) <= base && Aligned(base, order) % Pow2(order) == 0
    ensures Aligned(base, order) == base <==> base % Pow2(order) == 0
  {
    var p, q, r := Pow2(order), base / Pow2(order), base % Pow2(order);
    assert base == q * p + r;
    DivMod(q * p, p, q, 0);
  }

  /** The quarter of a base, cleared below the region size, is the quarter of the rounded base. */
  lemma QuarterAligned(base: nat, k: nat)
    ensures Pow2(k + 2) == 4 * Pow2(k)
    ensures base / 4 / Pow2(k) >= 0 && ClearLow(base / 4, k) == base / 4 / Pow2(k) * Pow2(k)
    ensures 4 * ClearLow(base / 4, k) == Aligned(base, k + 2)
  {
    hide Pow2;
    var p := Pow2(k);
    QuotientNonNegative(base / 4, p);
    Pow2Add(2, k);
    SmallPowers();
    var q, r := base / 4 / p, base / 4 % p;
    assert base / 4 == q * p + r;
    assert base == q * (4 * p) + (4 * r + base % 4) by {
      assert q * (4 * p) == 4 * (q * p);
    }
    DivMod(base, 4 * p, q, 4 * r + base % 4);
  }

  /** The address register of a NAPOT region: j ones, a zero, and the base above them. */
  lemma NapotShape(r: Region) returns (h: nat)
    requires r.order > GRANULE_SHIFT
    ensures var j := r.order - 3;
            && EncodeAddress(r) == h * Pow2(j + 1) + (Pow2(j) - 1)
            && 4 * (h * Pow2(j + 1)) == Aligned(r.base, r.order)
  {
    hide BitOr, Pow2, ClearLow;
    var j := r.order - 3;
    SmallPowers();
    QuarterAligned(r.base, j + 1);
    h := r.base / 4 / Pow2(j + 1);
    Pow2Add(1, j);
    DivMod(Pow2(j + 1) - 1, 2, Pow2(j) - 1, 1);
    OrAdd(h * Pow2(j + 1), h, Pow2(j + 1), j + 1, Pow2(j) - 1);
  }

  /** Complement within the register. */
  function Complement(xlen: nat, a: nat): nat
    requires a < Pow2(xlen)
  {
    Pow2(xlen) - 1 - a
  }

  /** The complement of j ones below a zero ends in exactly j zeros. */
  lemma ComplementZeros(xlen: nat, h: nat, j: nat)
    requires h * Pow2(j + 1) + (Pow2(j) - 1) < Pow2(xlen) && j < xlen
    ensures var c := Complement(xlen, h * Pow2(j + 1) + (Pow2(j) - 1));
            c > 0 && TrailingZeros(c) == j
  {
    hide Pow2, Shl, TrailingZeros;
    var p, top := Pow2(j), Pow2(xlen - j - 1);
    SmallPowers();
    Pow2Add(1, j);
    Pow2Add(xlen - j - 1, j + 1);
    OddAbove(top, h, p);
    var odd := 2 * (top - h) - 1;
    ShlIsProduct(odd, j);
    ShiftedZeros(odd, j);
  }

  lemma OddAbove(top: nat, h: nat, p: nat)
    requires p > 0 && h * (2 * p) + (p - 1) < top * (2 * p)
    ensures h < top
    ensures (2 * (top - h) - 1) * p == top * (2 * p) - 1 - (h * (2 * p) + (p - 1)) > 0
  {
    if h >= top {
      MulMono(top, h, 2 * p);
    }
    Distribute(top, h, p);
    MulMono(1, 2 * (top - h) - 1, p);
  }

  lemma Distribute(top: int, h: int, p: int)
    ensures (2 * (top - h) - 1) * p == top * (2 * p) - h * (2 * p) - p
  {
  }

  // ------------------------------------------------------------- packed configuration bytes

  function Byte(word: nat, b: nat): nat { Shr(word, 8 * b) % 0x100 }

  /** Replace byte b: AND with the complement of 0xFF << 8b, OR with the new byte in place. */
  function InsertByte(word: nat, b: nat, value: nat): nat {
    ByteInside(word, b);
    BitOr(word - Byte(word, b) * Pow2(8 * b), Shl(value, 8 * b))
  }

  /** A word around its byte b. */
  lemma ByteInside(word: nat, b: nat)
    ensures var p := Pow2(8 * b);
            word == (word / p / 0x100 * 0x100 + Byte(word, b)) * p + word % p &&
            0 <= Byte(word, b) * p <= word
  {
    hide Pow2;
    SplitAround(word, Pow2(8 * b));
  }

  lemma SplitAround(word: nat, p: nat)
    requires p > 0
    ensures word == (word / p / 0x100 * 0x100 + word / p % 0x100) * p + word % p
    ensures 0 <= word / p % 0x100 * p <= word
  {
    var q := word / p;
    assert word == q * p + word % p;
    MulMono(0, q % 0x100, p);
    MulMono(q % 0x100, q, p);
  }

  lemma InsertedWord(word: nat, b: nat, value: nat)
    requires value < 0x100
    ensures var p := Pow2(8 * b);
            InsertByte(word, b, value) == (word / p / 0x100 * 0x100 + value) * p + word % p
  {
    hide BitOr, Pow2;
    var p := Pow2(8 * b);
    var hi, lo := word / p / 0x100, word % p;
    SmallPowers();
    ByteInside(word, b);
    Distribute2(hi * 0x100, Byte(word, b), p);
    ShlIsProduct(hi * 0x100, 8 * b);
    OrSplit(hi * 0x100, lo, value, 0, 8 * b);
    OrZero(lo);
    OrAdd(hi * 0x100, hi, 0x100, 8, value);
    ShlIsProduct(hi * 0x100 + value, 8 * b);
  }

  lemma Distribute2(a: int, b: int, p: int)
    ensures (a + b) * p == a * p + b * p
  {
  }

  /** The inserted byte reads back. */
  lemma InsertedByte(word: nat, b: nat, value: nat)
    requires value < 0x100
    ensures Byte(InsertByte(word, b, value), b) == value
  {
    hide InsertByte, Pow2;
    var p := Pow2(8 * b);
    var q := word / p / 0x100 * 0x100 + value;
    InsertedWord(word, b, value);
    DivMod(q * p + word % p, p, q, word % p);
    DivMod(q, 0x100, word / p / 0x100, value);
  }

  /** Every other byte of the register is untouched. */
  lemma OtherBytes(word: nat, b: nat, value: nat, c: nat)
    requires value < 0x100 && c != b
    ensures Byte(InsertByte(word, b, value), c) == Byte(word, c)
  {
    hide InsertByte, Pow2;
    var p := Pow2(8 * b);
    var hi, lo := word / p / 0x100, word % p;
    InsertedWord(word, b, value);
    ByteInside(word, b);
    if c < b {
      LowByte((hi * 0x100 + value) * p + lo, hi * 0x100 + value, lo, b, c);
      LowByte(word, hi * 0x100 + Byte(word, b), lo, b, c);
    } else {
      HighByte((hi * 0x100 + value) * p + lo, hi, value, lo, b, c);
      HighByte(word, hi, Byte(word, b), lo, b, c);
    }
  }

  lemma LowByte(word: nat, q: nat, lo: nat, b: nat, c: nat)
    requires c < b && lo < Pow2(8 * b) && word == q * Pow2(8 * b) + lo
    ensures Byte(word, c) == Byte(lo, c)
  {
    hide Pow2;
    var s, r := Pow2(8 * c), Pow2(8 * (b - c - 1));
    SmallPowers();
    Pow2Add(8 * (b - c - 1) + 8, 8 * c);
    Pow2Add(8 * (b - c - 1), 8);
    assert Pow2(8 * b) == r * 0x100 * s;
    var x, y := lo / s, lo % s;
    assert lo == x * s + y;
    assert q * (r * 0x100 * s) == (q * r * 0x100) * s;
    Distribute2(q * r * 0x100, x, s);
    MulMono(0, q, r);
    DivMod(word, s, q * r * 0x100 + x, y);
    DivMod(q * r * 0x100 + x, 0x100, q * r + x / 0x100, x % 0x100);
  }

  lemma HighByte(word: nat, hi: nat, middle: nat, lo: nat, b: nat, c: nat)
    requires c > b && middle < 0x100 && lo < Pow2(8 * b) && word == (hi * 0x100 + middle) * Pow2(8 * b) + lo
    ensures Byte(word, c) == Byte(hi, c - b - 1)
  {
    hide Pow2;
    var p, r := Pow2(8 * b), Pow2(8 * (c - b - 1));
    SmallPowers();
    Pow2Add(8 * (c - b - 1) + 8, 8 * b);
    Pow2Add(8 * (c - b - 1), 8);
    assert Pow2(8 * c) == r * 0x100 * p;
    var x, y := hi / r, hi % r;
    assert hi == x * r + y;
    Regroup(x, r, y, middle, p, lo);
    BelowProduct(y, r, middle, p, lo);
    DivMod(word, r * 0x100 * p, x, (y * 0x100 + middle) * p + lo);
  }

  lemma Regroup(x: int, r: int, y: int, middle: int, p: int, lo: int)
    ensures ((x * r + y) * 0x100 + middle) * p + lo == x * (r * 0x100 * p) + ((y * 0x100 + middle) * p + lo)
  {
    assert ((x * r + y) * 0x100 + middle) * p == (x * r * 0x100) * p + (y * 0x100 + middle) * p;
    assert (x * r * 0x100) * p == x * (r * 0x100 * p);
  }

  lemma BelowProduct(y: int, r: int, middle: int, p: int, lo: int)
    requires 0 <= y < r && 0 <= middle < 0x100 && 0 <= lo < p
    ensures 0 <= (y * 0x100 + middle) * p + lo < r * 0x100 * p
  {
    MulMono(y * 0x100 + middle + 1, r * 0x100, p);
    MulMono(0, y * 0x100 + middle, p);
    assert (y * 0x100 + middle + 1) * p == (y * 0x100 + middle) * p + p;
  }

  // ------------------------------------------------------------- decoding

  /** A region as the two registers describe it; anything but NAPOT reads as four bytes. */
  function DecodeRegion(xlen: nat, protection: nat, address: nat): Region
    requires address < Pow2(xlen) && (IsNapot(protection) ==> Complement(xlen, address) > 0)
  {
    if IsNapot(protection) then
      var ones := TrailingZeros(Complement(xlen, address));
      Region(protection, ones + GRANULE_SHIFT + 1, LowBits(4 * ClearLow(address, ones), xlen))
    else Region(protection, GRANULE_SHIFT, LowBits(4 * address, xlen))
  }

  lemma OrNapot(x: nat)
    ensures BitOr(x, A_NAPOT) == x / 32 * 32 + 24 + x % 8
  {
    hide BitOr;
    OrStep(x, 24);
    OrStep(x / 2, 12);
    OrStep(x / 4, 6);
    OrStep(x / 8, 3);
    OrStep(x / 16, 1);
    OrZero(x / 32);
  }

  lemma OrNa4(x: nat)
    ensures BitOr(x, A_NA4) == x / 32 * 32 + 16 + x % 16
  {
    hide BitOr;
    OrStep(x, 16);
    OrStep(x / 2, 8);
    OrStep(x / 4, 4);
    OrStep(x / 8, 2);
    OrStep(x / 16, 1);
    OrZero(x / 32);
  }

  /** ORing in the mode bits: NAPOT always sets both, NA4 keeps a stray low mode bit of the caller's. */
  lemma StoredMode(r: Region)
    ensures r.order > GRANULE_SHIFT ==> IsNapot(StoredProtection(r))
    ensures r.order == GRANULE_SHIFT ==> (IsNapot(StoredProtection(r)) <==> r.protection / 8 % 2 == 1)
    ensures StoredProtection(r) % 8 == r.protection % 8 && StoredProtection(r) / 0x20 == r.protection / 0x20 % 8
  {
    hide BitOr;
    var x := r.protection;
    OrNapot(x);
    OrNa4(x);
    LowByteOf(x / 32, 24 + x % 8);
    LowByteOf(x / 32, 16 + x % 16);
    NibbleSplit(x);
    DivMod(24 + x % 8, 8, 3, x % 8);
  }

  lemma LowByteOf(q: nat, t: nat)
    requires t < 32
    ensures var y := (q * 32 + t) % 0x100;
            y / 32 == q % 8 && y / 8 % 4 == t / 8 && y % 8 == t % 8
  {
    var m, k := q % 8, q / 8;
    assert q * 32 + t == k * 0x100 + (m * 32 + t);
    DivMod(q * 32 + t, 0x100, k, m * 32 + t);
    DivMod(m * 32 + t, 32, m, t);
    DivMod(m * 32 + t, 8, m * 4 + t / 8, t % 8);
    DivMod(m * 4 + t / 8, 4, m, t / 8);
  }

  lemma NibbleSplit(x: nat)
    ensures (16 + x % 16) / 8 == 2 + x / 8 % 2 && (16 + x % 16) % 8 == x % 8
  {
    var q, t := x / 16, x % 16;
    DivMod(x, 8, 2 * q + t / 8, t % 8);
    DivMod(2 * q + t / 8, 2, q, t / 8);
    DivMod(16 + t, 8, 2 + t / 8, t % 8);
  }

  predicate Settable(xlen: nat, r: Region) { GRANULE_SHIFT <= r.order <= xlen && r.base < Pow2(xlen) }

  lemma EncodedFits(xlen: nat, r: Region)
    requires Settable(xlen, r) && xlen >= 3
    ensures EncodeAddress(r) < Pow2(xlen) && 4 * EncodeAddress(r) < 2 * Pow2(xlen)
    ensures r.order == GRANULE_SHIFT ==> 4 * EncodeAddress(r) < Pow2(xlen)
  {
    hide BitOr;
    SmallPowers();
    Pow2Add(2, xlen - 2);
    if r.order > GRANULE_SHIFT {
      var h := NapotShape(r);
      RoundDown(r.base, r.order);
      Pow2Mono(r.order - 3, xlen - 3);
      Pow2Add(3, xlen - 3);
    }
  }

  /** The run of ones at the bottom of an address, and what is above it. */
  lemma {:induction false} OnesShape(a: nat) returns (h: nat, ones: nat)
    ensures a == h * Pow2(ones + 1) + (Pow2(ones) - 1)
  {
    if a % 2 == 0 {
      h, ones := a / 2, 0;
      SmallPowers();
    } else {
      h, ones := OnesShape(a / 2);
      var p := Pow2(ones);
      Pow2Add(1, ones);
      Pow2Add(1, ones + 1);
      Pow2Add(1, ones + 2);
      assert 2 * (h * (2 * p)) == h * (2 * (2 * p));
      ones := ones + 1;
    }
  }

  /** Fewer ones than the register is wide, if the top bit is clear. */
  lemma OnesFit(xlen: nat, a: nat, h: nat, ones: nat)
    requires xlen > 0 && 2 * a < Pow2(xlen) && a == h * Pow2(ones + 1) + (Pow2(ones) - 1)
    ensures ones < xlen
  {
    MulMono(0, h, Pow2(ones + 1));
    if ones >= xlen {
      Pow2Mono(xlen, ones);
    }
  }

  /** A four-byte address misread as NAPOT: the region around the base whose size its low ones spell. */
  lemma MisreadDecodes(xlen: nat, r: Region) returns (ones: nat)
    requires Settable(xlen, r) && xlen >= 3 && r.order == GRANULE_SHIFT && 4 * EncodeAddress(r) < Pow2(xlen)
    ensures r.base / 4 % Pow2(ones + 1) == Pow2(ones) - 1
    ensures Complement(xlen, EncodeAddress(r)) > 0 && TrailingZeros(Complement(xlen, EncodeAddress(r))) == ones
    ensures LowBits(4 * ClearLow(EncodeAddress(r), ones), xlen) == Aligned(r.base, ones + 3)
  {
    hide BitOr, Pow2, TrailingZeros, ClearLow, Complement, LowBits;
    var a, h := r.base / 4, 0;
    SmallPowers();
    h, ones := OnesShape(a);
    assert EncodeAddress(r) == a by {
      QuarterBase(r);
    }
    OnesFit(xlen, a, h, ones);
    ComplementZeros(xlen, h, ones);
    OnesCleared(h, ones);
    Pow2Add(1, ones);
    DivMod(a, Pow2(ones + 1), h, Pow2(ones) - 1);
    QuarterAligned(r.base, ones + 1);
    RoundDown(r.base, ones + 3);
    LowBitsOfSmall(Aligned(r.base, ones + 3), xlen);
  }

  lemma QuarterBase(r: Region)
    requires r.order == GRANULE_SHIFT
    ensures EncodeAddress(r) == r.base / 4
  {
    SmallPowers();
  }

  /** The order a region reads back with. */
  ghost predicate ReadsAs(r: Region, order: nat) {
    if r.order > GRANULE_SHIFT || r.protection / 8 % 2 == 0 then order == r.order
    else order >= 3 && r.base / 4 % Pow2(order - 2) == Pow2(order - 3) - 1
  }

  /**
   Setting an entry and reading it back returns the base rounded down to the order it reads back with,
   and the protection with the mode bits added. The order is the requested one, except in exactly one
   case: a four-byte region whose protection already carries the low mode bit reads back as the NAPOT
   region around its base that the ones at the bottom of base / 4 spell, eight bytes or more.
   */
  lemma EntryRoundTrip(xlen: nat, r: Region)
    requires Settable(xlen, r) && xlen >= 3
    ensures EncodeAddress(r) < Pow2(xlen) && Complement(xlen, EncodeAddress(r)) > 0
    ensures var back := DecodeRegion(xlen, StoredProtection(r), EncodeAddress(r));
            && ReadsAs(r, back.order)
            && back == Region(StoredProtection(r), back.order, Aligned(r.base, back.order))
            && (back.order == r.order <==> r.order > GRANULE_SHIFT || r.protection / 8 % 2 == 0)
  {
    hide BitOr, StoredProtection, EncodeAddress, Pow2, ClearLow;
    StoredMode(r);
    EncodedFits(xlen, r);
    if r.order > GRANULE_SHIFT {
      NapotDecodes(xlen, r);
    } else if r.protection / 8 % 2 == 0 {
      FourByteDecodes(xlen, r);
    } else {
      var ones := MisreadDecodes(xlen, r);
    }
  }

  lemma NapotDecodes(xlen: nat, r: Region)
    requires Settable(xlen, r) && r.order > GRANULE_SHIFT && EncodeAddress(r) < Pow2(xlen)
    ensures Complement(xlen, EncodeAddress(r)) > 0
    ensures TrailingZeros(Complement(xlen, EncodeAddress(r))) == r.order - 3
    ensures LowBits(4 * ClearLow(EncodeAddress(r), r.order - 3), xlen) == Aligned(r.base, r.order)
  {
    hide BitOr, EncodeAddress, Pow2, TrailingZeros, ClearLow, Complement, LowBits;
    var j := r.order - 3;
    var h := NapotShape(r);
    ComplementZeros(xlen, h, j);
    OnesCleared(h, j);
    RoundDown(r.base, r.order);
    LowBitsOfSmall(Aligned(r.base, r.order), xlen);
  }

  lemma OnesCleared(h: nat, j: nat)
    ensures ClearLow(h * Pow2(j + 1) + (Pow2(j) - 1), j) == h * Pow2(j + 1)
  {
    var p := Pow2(j);
    SmallPowers();
    Pow2Add(1, j);
    assert h * (2 * p) == 2 * h * p;
    DivMod(2 * h * p + (p - 1), p, 2 * h, p - 1);
  }

  lemma LowBitsOfSmall(a: nat, k: nat)
    requires a < Pow2(k)
    ensures LowBits(a, k) == a
  {
    DivMod(a, Pow2(k), 0, a);
  }

  lemma FourByteDecodes(xlen: nat, r: Region)
    requires Settable(xlen, r) && r.order == GRANULE_SHIFT && 4 * EncodeAddress(r) < Pow2(xlen)
    ensures Complement(xlen, EncodeAddress(r)) > 0
    ensures LowBits(4 * EncodeAddress(r), xlen) == Aligned(r.base, r.order)
  {
    SmallPowers();
    LowBitsOfSmall(4 * EncodeAddress(r), xlen);
  }

  // ------------------------------------------------------------- the unit

  /** Configuration CSR and byte of an entry; with 64-bit registers only even CSRs exist. */
  function ConfigIndex(xlen: nat, entry: nat): nat { if xlen == 32 then entry / 4 else entry / 4 - entry / 4 % 2 }
  function ConfigByteIndex(xlen: nat, entry: nat): nat { if xlen == 32 then entry % 4 else entry % 8 }

  /**
   Where an entry lives: with 32-bit registers four entries to a register, with 64-bit registers eight
   to each even one, in both cases lowest byte first.
   */
  lemma EntryLocation(group: nat, b: nat)
    ensures b < 4 ==> ConfigIndex(32, 4 * group + b) == group && ConfigByteIndex(32, 4 * group + b) == b
    ensures b < 8 ==> ConfigIndex(64, 8 * group + b) == 2 * group && ConfigByteIndex(64, 8 * group + b) == b
  {
    DivMod(8 * group + b, 4, 2 * group + b / 4, b % 4);
    if b < 8 {
      DivMod(8 * group + b, 8, group, b);
    }
    if b < 4 {
      DivMod(4 * group + b, 4, group, b);
    }
  }

  /** Different entries have different bytes. */
  lemma EntriesApart(xlen: nat, a: nat, b: nat)
    requires xlen == 32 || xlen == 64
    ensures ConfigIndex(xlen, a) == ConfigIndex(xlen, b) && ConfigByteIndex(xlen, a) == ConfigByteIndex(xlen, b) ==> a == b
  {
  }

  class Unit {
    const xlen: nat
    const entries: nat
    var config: seq<nat>
    var address: seq<nat>

    ghost predicate Valid()
      reads this
    {
      && (xlen == 32 || xlen == 64) && entries <= 64
      && |config| == 16 && |address| == 64
      && (forall i :: 0 <= i < 64 ==> address[i] < Pow2(xlen))
    }

    constructor (xlen: nat, entries: nat)
      requires (xlen == 32 || xlen == 64) && entries <= 64
      ensures Valid() && this.xlen == xlen && this.entries == entries
    {
      this.xlen, this.entries := xlen, entries;
      config, address := seq(16, _ => 0), seq(64, _ => 0);
    }

    /** Configuration byte of an entry. */
    function Protection(entry: nat): nat
      requires Valid() && entry < entries
      reads this
    {
      Byte(config[ConfigIndex(xlen, entry)], ConfigByteIndex(xlen, entry))
    }

    /** Parameters out of range are ignored. The address is written first, before a lock bit could take effect. */
    method SetEntry(entry: nat, r: Region)
      requires Valid() && r.base < Pow2(xlen)
      modifies this
      ensures Valid()
      ensures entry >= entries || r.order > xlen || r.order < GRANULE_SHIFT ==>
                config == old(config) && address == old(address)
      ensures entry < entries && GRANULE_SHIFT <= r.order <= xlen ==>
                && Protection(entry) == StoredProtection(r) && address == old(address)[entry := EncodeAddress(r)]
                && (forall e :: 0 <= e < entries && e != entry ==> Protection(e) == old(Protection(e)))
    {
      hide InsertByte, Byte, StoredProtection, EncodeAddress;
      if entry >= entries || r.order > xlen || r.order < GRANULE_SHIFT {
        return;
      }
      var csr, b := ConfigIndex(xlen, entry), ConfigByteIndex(xlen, entry);
      var word := InsertByte(config[csr], b, StoredProtection(r));
      EncodedFits(xlen, r);
      ghost var before := config;
      address := address[entry := EncodeAddress(r)];
      config := config[csr := word];
      InsertedByte(before[csr], b, StoredProtection(r));
      forall e | 0 <= e < entries && e != entry
        ensures Protection(e) == old(Protection(e))
      {
        EntriesApart(xlen, e, entry);
        if ConfigIndex(xlen, e) == csr {
          OtherBytes(before[csr], b, StoredProtection(r), ConfigByteIndex(xlen, e));
        }
      }
    }

    /** Shifting by the full register width is undefined in C, so an all-ones NAPOT address is the caller's to avoid. */
    method GetEntry(entry: nat) returns (region: Option<Region>)
      requires Valid()
      requires entry < entries && IsNapot(Protection(entry)) ==> Complement(xlen, address[entry]) > 0
      ensures region.None? <==> entry >= entries
      ensures entry < entries ==> region == Some(DecodeRegion(xlen, Protection(entry), address[entry]))
    {
      if entry >= entries {
        return None;
      }
      var protection, a := Protection(entry), address[entry];
      if IsNapot(protection) {
        var ones := CountTrailingZeros(xlen, Complement(xlen, a));
        return Some(Region(protection, ones + GRANULE_SHIFT + 1, LowBits(4 * ClearLow(a, ones), xlen)));
      }
      return Some(Region(protection, GRANULE_SHIFT, LowBits(4 * a, xlen)));
    }

    /** Replace one configuration byte. */
    method SetConfigByte(entry: nat, value: nat)
      requires Valid() && value < 0x100
      modifies this`config
      ensures Valid()
      ensures entry >= entries ==> config == old(config)
      ensures entry < entries ==>
                && Protection(entry) == value
                && (forall e :: 0 <= e < entries && e != entry ==> Protection(e) == old(Protection(e)))
    {
      hide InsertByte, Byte;
      if entry >= entries {
        return;
      }
      var csr, b := ConfigIndex(xlen, entry), ConfigByteIndex(xlen, entry);
      ghost var before := config;
      config := config[csr := InsertByte(config[csr], b, value)];
      InsertedByte(before[csr], b, value);
      forall e | 0 <= e < entries && e != entry
        ensures Protection(e) == old(Protection(e))
      {
        EntriesApart(xlen, e, entry);
        if ConfigIndex(xlen, e) == csr {
          OtherBytes(before[csr], b, value, ConfigByteIndex(xlen, e));
        }
      }
    }
  }
}
