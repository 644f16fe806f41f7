/** Unsigned machine words as bounded integers, powers of two, and bitwise OR. */
module Bits {
  const UINT32_MAX: nat := 0xFFFF_FFFF
  const SIZE_MAX: nat := 0xFFFF_FFFF  // size_t of the 32-bit target

  type u8 = x: int | 0 <= x < 0x100
  type u32 = x: int | 0 <= x < 0x1_0000_0000

  datatype Option<+T> = None | Some(value: T)

  function Pow2(n: nat): (p: nat)
    ensures p >= 1
  {
    if n == 0 then 1 else 2 * Pow2(n - 1)
  }

  /** Left shift of a word wide enough not to lose bits. */
  function Shl(a: nat, k: nat): nat
    decreases k
  {
    if k == 0 then a else 2 * Shl(a, k - 1)
  }

  /** Right shift. */
  function Shr(a: nat, k: nat): nat {
    QuotientNonNegative(a, Pow2(k));
    a / Pow2(k)
  }

  lemma QuotientNonNegative(a: nat, m: nat)
    requires m > 0
    ensures a / m >= 0
  {
  }

  /** The low k bits, as an AND with the mask 2^k - 1 keeps them. */
  function LowBits(a: nat, k: nat): (r: nat)
    ensures r < Pow2(k)
  {
    a % Pow2(k)
  }

  /** The bitwise OR of two unsigned words, bit by bit from the bottom. */
  function BitOr(a: nat, b: nat): nat
    decreases a + b
  {
    if a == 0 && b == 0 then 0
    else 2 * BitOr(a / 2, b / 2) + (if a % 2 == 1 || b % 2 == 1 then 1 else 0)
  }

  lemma {:induction false} OrZero(a: nat)
    ensures BitOr(a, 0) == a && BitOr(0, a) == a
  {
    if a > 0 {
      OrZero(a / 2);
    }
  }

  /** OR works independently on the parts above and below bit k. */
  lemma {:induction false} OrSplit(a: nat, c: nat, b: nat, d: nat, k: nat)
    requires c < Pow2(k) && d < Pow2(k)
    ensures BitOr(Shl(a, k) + c, Shl(b, k) + d) == Shl(BitOr(a, b), k) + BitOr(c, d)
    decreases k
  {
    if k == 0 {
      OrZero(0);
    } else {
      OrSplit(a, c / 2, b, d / 2, k - 1);
      assert (Shl(a, k) + c) / 2 == Shl(a, k - 1) + c / 2;
      assert (Shl(b, k) + d) / 2 == Shl(b, k - 1) + d / 2;
      OrStep(Shl(a, k) + c, Shl(b, k) + d);
      OrStep(c, d);
    }
  }

  lemma OrStep(a: nat, b: nat)
    ensures BitOr(a, b) == 2 * BitOr(a / 2, b / 2) + (if a % 2 == 1 || b % 2 == 1 then 1 else 0)
  {
  }

  lemma {:induction false} ShlIsProduct(a: nat, k: nat)
    ensures Shl(a, k) == a * Pow2(k)
    decreases k
  {
    if k > 0 {
      ShlIsProduct(a, k - 1);
    }
  }

  lemma ShlZero(k: nat)
    ensures Shl(0, k) == 0
  {
  }

  /** Fields that share no bit are combined by addition. */
  lemma OrDisjoint(high: nat, k: nat, low: nat)
    requires low < Pow2(k)
    ensures BitOr(Shl(high, k), low) == Shl(high, k) + low
    ensures BitOr(low, Shl(high, k)) == Shl(high, k) + low
  {
    hide BitOr, Pow2;
    OrZero(0);
    OrSplit(high, 0, 0, low, k);
    OrSplit(0, low, high, 0, k);
    OrZero(high);
    OrZero(low);
    ShlZero(k);
  }

  /** The same for words given as numbers: x is a multiple of m == 2^k, and y is below it. */
  lemma OrAdd(x: nat, h: nat, m: nat, k: nat, y: nat)
    requires m == Pow2(k) && x == h * m && y < m
    ensures BitOr(x, y) == x + y
  {
    ShlIsProduct(h, k);
    OrDisjoint(h, k, y);
  }

  /** Quotient and remainder are determined by the division identity. */
  lemma DivMod(word: int, m: int, q: int, r: int)
    requires 0 <= r < m && word == q * m + r
    ensures word / m == q && word % m == r
  {
    var d, e := word / m, word % m;
    assert word == d * m + e;
    if d > q {
      MulMono(q + 1, d, m);
    } else if d < q {
      MulMono(d + 1, q, m);
    }
  }

  lemma MulMono(a: int, b: int, c: int)
    requires a <= b && c >= 0
    ensures a * c <= b * c
  {
  }

  /** Comparing with a quotient is comparing the product: the overflow-free form of a bound. */
  lemma AtMostQuotient(a: nat, m: nat, limit: nat)
    requires m > 0
    ensures a <= limit / m <==> a * m <= limit
  {
    var q, r := limit / m, limit % m;
    assert q * m + r == limit && (q + 1) * m == q * m + m;
    if a <= q {
      MulMono(a, q, m);
    } else {
      MulMono(q + 1, a, m);
    }
  }

  /** Row and column of a position in row-major order. */
  lemma RowMajor(k: nat, rows: nat, n: nat)
    requires n > 0 && k < rows * n
    ensures 0 <= k / n < rows && 0 <= k % n < n && k == k / n * n + k % n
  {
    if k / n >= rows {
      MulMono(rows, k / n, n);
    }
  }

  /** Row-major positions are ordered by row, then by column. */
  lemma QuotientOrder(i: nat, j: nat, n: nat)
    requires n > 0 && i < j
    ensures i / n < j / n || (i / n == j / n && i % n < j % n)
  {
    if i / n > j / n {
      MulMono(j / n + 1, i / n, n);
    }
  }

  /** Cells of a given size in rows a stride apart do not overlap. */
  lemma RowMajorApart(r1: nat, e1: nat, r2: nat, e2: nat, size: nat, n: nat, w: nat)
    requires size * n <= w && e1 < n && (r1 < r2 || (r1 == r2 && e1 < e2))
    ensures r1 * w + size * e1 + size <= r2 * w + size * e2
  {
    if r1 < r2 {
      MulMono(r1 + 1, r2, w);
      assert (r1 + 1) * w == r1 * w + w;
      MulMono(e1 + 1, n, size);
      MulMono(0, e2, size);
    } else {
      MulMono(e1 + 1, e2, size);
    }
    assert (e1 + 1) * size == size * e1 + size;
  }

  /** An OR stays within the width of its operands. */
  lemma OrBound(a: nat, b: nat, k: nat)
    requires a < Pow2(k) && b < Pow2(k)
    ensures BitOr(a, b) < Pow2(k)
    decreases k
  {
    if k > 0 {
      OrBound(a / 2, b / 2, k - 1);
    }
  }

  lemma Pow2Mono(a: nat, b: nat)
    requires a <= b
    ensures Pow2(a) <= Pow2(b)
    decreases b
  {
    if a < b {
      Pow2Mono(a, b - 1);
    }
  }

  lemma Pow2Add(a: nat, b: nat)
    ensures Pow2(a + b) == Pow2(a) * Pow2(b)
    decreases a
  {
    if a > 0 {
      Pow2Add(a - 1, b);
    }
  }

  /** The powers that appear as target-LCN shifts. */
  lemma SmallPowers()
    ensures Pow2(0) == 1 && Pow2(1) == 2 && Pow2(2) == 4 && Pow2(3) == 8 && Pow2(4) == 16
    ensures Pow2(5) == 32 && Pow2(6) == 64 && Pow2(7) == 128 && Pow2(8) == 256 && Pow2(9) == 512
  {
  }

  /** The powers that appear as field offsets of a 64-bit frame. */
  lemma FieldPowers()
    ensures Pow2(6) == 0x40 && Pow2(8) == 0x100 && Pow2(17) == 0x2_0000 && Pow2(24) == 0x100_0000
    ensures Pow2(30) == 0x4000_0000 && Pow2(36) == 0x10_0000_0000 && Pow2(42) == 0x400_0000_0000
    ensures Pow2(48) == 0x1_0000_0000_0000 && Pow2(54) == 0x40_0000_0000_0000 && Pow2(60) == 0x1000_0000_0000_0000
  {
    SmallPowers();
    Pow2Add(8, 9);
    Pow2Add(17, 7);
    Pow2Add(24, 6);
    Pow2Add(30, 6);
    Pow2Add(36, 6);
    Pow2Add(42, 6);
    Pow2Add(48, 6);
    Pow2Add(54, 6);
  }
}
