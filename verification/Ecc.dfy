/**
 The ECC code generators for 32- and 64-bit words. A word is its sequence of bits, least significant
 first; each code bit is the XOR of the data bits that its row lists.
 */
module Ecc {
  import opened Bits

  datatype Generator = U32 | U64

  function Width(g: Generator): nat { if g == U32 then 32 else 64 }
  function CodeWidth(g: Generator): nat { if g == U32 then 7 else 8 }

  predicate Listed32(k: nat, i: nat) {
    match k
    case 0 => i in {0, 1, 3, 4, 6, 8, 10, 12, 14, 17, 19, 20, 24, 28}
    case 1 => i in {0, 2, 3, 5, 6, 9, 11, 12, 15, 20, 22, 25, 29}
    case 2 => i in {1, 2, 3, 7, 8, 9, 13, 14, 15, 18, 21, 22, 26, 30}
    case 3 => i in {4, 5, 6, 7, 8, 9, 16, 17, 18, 23, 24, 25, 26, 31}
    case 4 => i in {10, 11, 12, 13, 14, 15, 16, 17, 18, 27, 28, 29, 30, 31}
    case 5 => i in {19, 20, 21, 22, 23, 24, 25, 26, 27, 28, 29, 30, 31}
    case 6 => i in {0, 1, 2, 4, 5, 7, 10, 11, 13, 16, 19, 21, 23, 27}
    case _ => false
  }

  predicate Listed64(k: nat, i: nat) {
    match k
    case 0 => i in {0, 1, 3, 4, 6, 8, 10, 12, 14, 17, 20, 22, 24, 27, 30, 32, 36, 37,
                    38, 40, 42, 45, 47, 51, 54, 57}
    case 1 => i in {0, 2, 3, 5, 6, 9, 11, 12, 15, 18, 21, 22, 25, 28, 30, 33, 37, 39,
                    40, 43, 46, 47, 49, 52, 58, 63}
    case 2 => i in {1, 2, 3, 7, 8, 9, 13, 14, 15, 19, 23, 24, 25, 29, 30, 34, 41, 42,
                    43, 48, 49, 53, 54, 59, 62, 63}
    case 3 => i in {4, 5, 6, 7, 8, 9, 16, 17, 18, 19, 26, 27, 28, 29, 30, 35, 36, 37,
                    44, 45, 46, 47, 48, 49, 55, 60}
    case 4 => i in {10, 11, 12, 13, 14, 15, 16, 17, 18, 19, 31, 32, 33, 34, 35, 36, 37, 50,
                    51, 52, 53, 54, 55, 61, 62, 63}
    case 5 => i in {20, 21, 22, 23, 24, 25, 26, 27, 28, 29, 30, 31, 32, 33, 34, 35, 36, 37,
                    56, 57, 58, 59, 60, 61, 62, 63}
    case 6 => i in {38, 39, 40, 41, 42, 43, 44, 45, 46, 47, 48, 49, 50, 51, 52, 53, 54, 55,
                    56, 57, 58, 59, 60, 61, 62, 63}
    case 7 => i in {0, 1, 2, 4, 5, 7, 10, 11, 13, 16, 20, 21, 23, 26, 31, 36, 38, 39,
                    41, 44, 47, 49, 50, 54, 56, 62}
    case _ => false
  }

  /** Data bit i enters code bit k. */
  predicate Listed(g: Generator, k: nat, i: nat) {
    if g == U32 then Listed32(k, i) else Listed64(k, i)
  }

  /** XOR of the listed ones among the first n data bits. */
  function CodeBit(g: Generator, k: nat, a: seq<bool>, n: nat): bool
    requires n <= |a|
  {
    if n == 0 then false else CodeBit(g, k, a, n - 1) != (Listed(g, k, n - 1) && a[n - 1])
  }

  function Code(g: Generator, a: seq<bool>): (c: seq<bool>)
    ensures |c| == CodeWidth(g)
  {
    seq(CodeWidth(g), k requires 0 <= k < CodeWidth(g) => CodeBit(g, k, a, |a|))
  }

  // ------------------------------------------------------------- words as vectors

  function Xor(a: seq<bool>, b: seq<bool>): (c: seq<bool>)
    requires |a| == |b|
    ensures |c| == |a| && forall i :: 0 <= i < |c| ==> c[i] == (a[i] != b[i])
  {
    seq(|a|, i requires 0 <= i < |a| => a[i] != b[i])
  }

  function One(b: bool): nat { if b then 1 else 0 }

  function Weight(a: seq<bool>): (n: nat)
    ensures n <= |a|
  {
    if a == [] then 0 else Weight(a[..|a| - 1]) + One(a[|a| - 1])
  }

  /** The word with only bit i set. */
  function Unit(width: nat, i: nat): (u: seq<bool>)
    ensures |u| == width && forall j :: 0 <= j < width ==> u[j] == (j == i)
  {
    seq(width, j => j == i)
  }

  function Column(g: Generator, i: nat): (c: seq<bool>)
    ensures |c| == CodeWidth(g) && forall k :: 0 <= k < |c| ==> c[k] == Listed(g, k, i)
  {
    seq(CodeWidth(g), k requires 0 <= k < CodeWidth(g) => Listed(g, k, i))
  }

  lemma {:induction false} WeightFlip(a: seq<bool>, i: nat)
    requires i < |a| && a[i]
    ensures Weight(a[i := false]) == Weight(a) - 1
  {
    var n := |a| - 1;
    assert a[i := false][..n] == if i < n then a[..n][i := false] else a[..n];
    if i < n {
      WeightFlip(a[..n], i);
    }
  }

  lemma {:induction false} WeightZero(a: seq<bool>)
    ensures Weight(a) == 0 <==> forall i :: 0 <= i < |a| ==> !a[i]
  {
    if a != [] {
      var n := |a| - 1;
      WeightZero(a[..n]);
      assert forall i :: 0 <= i < n ==> a[..n][i] == a[i];
    }
  }

  lemma ParityStep(x: nat, y: nat, z: nat, p: bool, q: bool)
    requires z % 2 == (x + y) % 2
    ensures (z + One(p != q)) % 2 == (x + One(p) + y + One(q)) % 2
  {
  }

  /** XOR preserves the parity of the number of ones. */
  lemma {:induction false} WeightOfXor(a: seq<bool>, b: seq<bool>)
    requires |a| == |b|
    ensures Weight(Xor(a, b)) % 2 == (Weight(a) + Weight(b)) % 2
    ensures Weight(Xor(a, b)) <= Weight(a) + Weight(b)
  {
    if a != [] {
      var n := |a| - 1;
      WeightOfXor(a[..n], b[..n]);
      assert Xor(a, b)[..n] == Xor(a[..n], b[..n]);
      ParityStep(Weight(a[..n]), Weight(b[..n]), Weight(Xor(a[..n], b[..n])), a[n], b[n]);
    }
  }

  lemma {:induction false} CodeBitLinear(g: Generator, k: nat, a: seq<bool>, b: seq<bool>, n: nat)
    requires |a| == |b| && n <= |a|
    ensures CodeBit(g, k, Xor(a, b), n) == (CodeBit(g, k, a, n) != CodeBit(g, k, b, n))
  {
    hide Listed;
    if n > 0 {
      CodeBitLinear(g, k, a, b, n - 1);
    }
  }

  /** The generator is linear: the code of a difference is the difference of the codes. */
  lemma CodeLinear(g: Generator, a: seq<bool>, b: seq<bool>)
    requires |a| == |b|
    ensures Code(g, Xor(a, b)) == Xor(Code(g, a), Code(g, b))
  {
    hide CodeBit;
    forall k | 0 <= k < CodeWidth(g)
      ensures Code(g, Xor(a, b))[k] == Xor(Code(g, a), Code(g, b))[k]
    {
      CodeBitLinear(g, k, a, b, |a|);
    }
  }

  lemma {:induction false} UnitCodeBit(g: Generator, k: nat, width: nat, i: nat, n: nat)
    requires i < width && n <= width
    ensures CodeBit(g, k, Unit(width, i), n) == (i < n && Listed(g, k, i))
  {
    hide Listed;
    if n > 0 {
      UnitCodeBit(g, k, width, i, n - 1);
    }
  }

  lemma UnitCode(g: Generator, i: nat)
    requires i < Width(g)
    ensures Code(g, Unit(Width(g), i)) == Column(g, i)
  {
    hide CodeBit, Listed;
    forall k | 0 <= k < CodeWidth(g)
      ensures Code(g, Unit(Width(g), i))[k] == Column(g, i)[k]
    {
      UnitCodeBit(g, k, Width(g), i, Width(g));
    }
  }

  // ------------------------------------------------------------- facts about the two tables

  lemma WeightOfEight(c: seq<bool>)
    requires |c| == 7 || |c| == 8
    ensures Weight(c) == One(c[0]) + One(c[1]) + One(c[2]) + One(c[3]) + One(c[4]) + One(c[5]) + One(c[6]) +
                         (if |c| == 8 then One(c[7]) else 0)
  {
    WeightOfFour(c[..4]);
    assert c[..7][..6] == c[..6] && c[..6][..5] == c[..5] && c[..5][..4] == c[..4];
    assert Weight(c[..5]) == Weight(c[..4]) + One(c[4]);
    assert Weight(c[..6]) == Weight(c[..5]) + One(c[5]);
    assert Weight(c[..7]) == Weight(c[..6]) + One(c[6]);
    assert |c| == 7 ==> c[..7] == c;
  }

  lemma WeightOfFour(c: seq<bool>)
    requires |c| == 4
    ensures Weight(c) == One(c[0]) + One(c[1]) + One(c[2]) + One(c[3])
  {
    assert c[..3][..2] == c[..2] && c[..2][..1] == c[..1] && c[..1][..0] == [];
    assert Weight(c[..1]) == One(c[0]);
    assert Weight(c[..2]) == Weight(c[..1]) + One(c[1]);
    assert Weight(c[..3]) == Weight(c[..2]) + One(c[2]);
  }

  /** Every data bit enters three or five code bits. */
  lemma ColumnWeight(g: Generator, i: nat)
    requires i < Width(g)
    ensures Weight(Column(g, i)) == 3 || Weight(Column(g, i)) == 5
  {
    var c := Column(g, i);
    WeightOfEight(c);
    if g == U32 {
      Odd32(i);
    } else {
      Odd64(i);
    }
  }

  lemma Odd32(i: nat)
    requires i < 32
    ensures One(Listed32(0, i)) + One(Listed32(1, i)) + One(Listed32(2, i)) + One(Listed32(3, i)) + One(Listed32(4, i)) +
            One(Listed32(5, i)) + One(Listed32(6, i)) == 3
  {
  }

  lemma Odd64(i: nat)
    requires i < 64
    ensures var n := One(Listed64(0, i)) + One(Listed64(1, i)) + One(Listed64(2, i)) + One(Listed64(3, i)) +
                     One(Listed64(4, i)) + One(Listed64(5, i)) + One(Listed64(6, i)) + One(Listed64(7, i));
            n == 3 || n == 5
  {
  }

  /** No two data bits enter the same set of code bits. */
  lemma ColumnsDiffer(g: Generator, i: nat, j: nat)
    requires i < Width(g) && j < Width(g) && i != j
    ensures Column(g, i) != Column(g, j)
  {
    hide Listed32, Listed64;
    if Column(g, i) == Column(g, j) {
      var a, b := if i < j then i else j, if i < j then j else i;
      forall k | 0 <= k < CodeWidth(g)
        ensures Listed(g, k, a) == Listed(g, k, b)
      {
        assert Column(g, a)[k] == Column(g, b)[k];
      }
      assert Listed(g, 0, a) == Listed(g, 0, b) && Listed(g, 1, a) == Listed(g, 1, b) && Listed(g, 2, a) == Listed(g, 2, b);
      assert Listed(g, 3, a) == Listed(g, 3, b) && Listed(g, 4, a) == Listed(g, 4, b) && Listed(g, 5, a) == Listed(g, 5, b);
      assert Listed(g, 6, a) == Listed(g, 6, b);
      if g == U32 {
        Differ32(a, b);
      } else {
        assert Listed(g, 7, a) == Listed(g, 7, b);
        Differ64(a, b);
      }
    }
  }

  lemma Differ32(i: nat, j: nat)
    requires i < j < 32
    ensures Listed32(0, i) != Listed32(0, j) || Listed32(1, i) != Listed32(1, j) || Listed32(2, i) != Listed32(2, j) ||
            Listed32(3, i) != Listed32(3, j) || Listed32(4, i) != Listed32(4, j) || Listed32(5, i) != Listed32(5, j) ||
            Listed32(6, i) != Listed32(6, j)
  {
  }

  lemma Differ64(i: nat, j: nat)
    requires i < j < 64
    ensures Listed64(0, i) != Listed64(0, j) || Listed64(1, i) != Listed64(1, j) || Listed64(2, i) != Listed64(2, j) ||
            Listed64(3, i) != Listed64(3, j) || Listed64(4, i) != Listed64(4, j) || Listed64(5, i) != Listed64(5, j) ||
            Listed64(6, i) != Listed64(6, j) || Listed64(7, i) != Listed64(7, j)
  {
  }

  /** The check bits a data bit enters, without the last one, read as a number. */
  function ColumnNumber(g: Generator, i: nat): nat {
    if g == U32 then
      One(Listed32(0, i)) + 2 * One(Listed32(1, i)) + 4 * One(Listed32(2, i)) + 8 * One(Listed32(3, i)) +
      16 * One(Listed32(4, i)) + 32 * One(Listed32(5, i))
    else
      One(Listed64(0, i)) + 2 * One(Listed64(1, i)) + 4 * One(Listed64(2, i)) + 8 * One(Listed64(3, i)) +
      16 * One(Listed64(4, i)) + 32 * One(Listed64(5, i)) + 64 * One(Listed64(6, i))
  }

  /**
   The order of the rows: data bits are numbered by increasing column, from 3 on, and the last check bit
   is the one that makes every column odd. So no two rows can be exchanged.
   */
  lemma {:induction false} ColumnsIncrease(g: Generator, i: nat, j: nat)
    requires i < j < Width(g)
    ensures 3 <= ColumnNumber(g, i) < ColumnNumber(g, j)
    decreases j
  {
    hide ColumnNumber;
    if g == U32 {
      Next32(j - 1);
    } else if j - 1 < 31 {
      Next64(j - 1);
    } else {
      Next64High(j - 1);
    }
    FirstColumn(g);
    if i < j - 1 {
      ColumnsIncrease(g, i, j - 1);
    } else if i > 0 {
      ColumnsIncrease(g, 0, i);
    }
  }

  lemma FirstColumn(g: Generator)
    ensures ColumnNumber(g, 0) == 3
  {
  }

  lemma Next32(i: nat)
    requires i < 31
    ensures ColumnNumber(U32, i) < ColumnNumber(U32, i + 1)
  {
  }

  lemma Next64(i: nat)
    requires i < 31
    ensures ColumnNumber(U64, i) < ColumnNumber(U64, i + 1)
  {
  }

  lemma Next64High(i: nat)
    requires 31 <= i < 63
    ensures ColumnNumber(U64, i) < ColumnNumber(U64, i + 1)
  {
  }

  // ------------------------------------------------------------- distance four

  /** Taking one bit out of a pattern takes its column out of the code. */
  lemma SplitBit(g: Generator, d: seq<bool>) returns (i: nat)
    requires |d| == Width(g) && Weight(d) > 0
    ensures i < |d| && d[i] && Weight(d[i := false]) == Weight(d) - 1
    ensures Code(g, d) == Xor(Code(g, d[i := false]), Column(g, i))
  {
    hide Code, Column;
    WeightZero(d);
    i :| 0 <= i < |d| && d[i];
    WeightFlip(d, i);
    assert d == Xor(d[i := false], Unit(|d|, i));
    CodeLinear(g, d[i := false], Unit(|d|, i));
    UnitCode(g, i);
  }

  /** All columns are odd, so a code is odd exactly when its word is. */
  lemma {:induction false} CodeParity(g: Generator, d: seq<bool>)
    requires |d| == Width(g)
    ensures Weight(Code(g, d)) % 2 == Weight(d) % 2
    ensures Weight(d) == 0 ==> Weight(Code(g, d)) == 0
    decreases Weight(d)
  {
    hide Code, Column, Weight;
    if Weight(d) == 0 {
      WeightZero(d);
      assert d == Xor(d, d);
      CodeLinear(g, d, d);
      WeightZero(Code(g, d));
    } else {
      var i := SplitBit(g, d);
      CodeParity(g, d[i := false]);
      ColumnWeight(g, i);
      WeightOfXor(Code(g, d[i := false]), Column(g, i));
    }
  }

  lemma XorWithZero(z: seq<bool>, c: seq<bool>)
    requires |z| == |c| && Weight(z) == 0
    ensures Xor(z, c) == c
  {
    WeightZero(z);
  }

  /** A pattern of one bit has that bit's column as its code. */
  lemma SingleBit(g: Generator, d: seq<bool>) returns (i: nat)
    requires |d| == Width(g) && Weight(d) == 1
    ensures i < |d| && d[i] && Code(g, d) == Column(g, i)
  {
    hide Code, Column, Xor, Weight;
    i := SplitBit(g, d);
    CodeParity(g, d[i := false]);
    XorWithZero(Code(g, d[i := false]), Column(g, i));
  }

  lemma SameWhenXorZero(a: seq<bool>, b: seq<bool>)
    requires |a| == |b| && forall i :: 0 <= i < |a| ==> !Xor(a, b)[i]
    ensures a == b
  {
    forall i | 0 <= i < |a|
      ensures a[i] == b[i]
    {
      assert !Xor(a, b)[i];
    }
  }

  /** Two distinct columns do not cancel. */
  lemma DoubleBit(g: Generator, d: seq<bool>)
    requires |d| == Width(g) && Weight(d) == 2
    ensures Weight(Code(g, d)) > 0
  {
    hide Code, Column, Weight;
    var i := SplitBit(g, d);
    var j := SingleBit(g, d[i := false]);
    ColumnsDiffer(g, i, j);
    if Weight(Code(g, d)) == 0 {
      WeightZero(Code(g, d));
      SameWhenXorZero(Column(g, j), Column(g, i));
    }
  }

  /** A nonzero pattern and its code have at least four ones between them. */
  lemma PatternWeight(g: Generator, d: seq<bool>)
    requires |d| == Width(g) && Weight(d) > 0
    ensures Weight(d) + Weight(Code(g, d)) >= 4
  {
    hide Code, Column, Weight;
    CodeParity(g, d);
    if Weight(d) == 1 {
      var i := SingleBit(g, d);
      ColumnWeight(g, i);
    } else if Weight(d) == 2 {
      DoubleBit(g, d);
    }
  }

  function Distance(a: seq<bool>, b: seq<bool>): nat
    requires |a| == |b|
  {
    Weight(Xor(a, b))
  }

  /** Codewords of distinct data words differ in at least four of their data and code bits. */
  lemma DistanceFour(g: Generator, a: seq<bool>, b: seq<bool>)
    requires |a| == |b| == Width(g) && a != b
    ensures Distance(a, b) + Distance(Code(g, a), Code(g, b)) >= 4
  {
    hide Code;
    CodeLinear(g, a, b);
    WeightZero(Xor(a, b));
    PatternWeight(g, Xor(a, b));
  }

  // ------------------------------------------------------------- correcting and detecting

  /** What a memory stores: a data word and its check bits. */
  datatype Stored = Stored(data: seq<bool>, check: seq<bool>)

  predicate WellFormed(g: Generator, s: Stored) { |s.data| == Width(g) && |s.check| == CodeWidth(g) }

  /** Number of bits, data and check together, in which two stored words differ. */
  function Errors(s: Stored, t: Stored): nat
    requires |s.data| == |t.data| && |s.check| == |t.check|
  {
    Distance(s.data, t.data) + Distance(s.check, t.check)
  }

  /** Difference between the check bits recomputed and those read back. */
  function Syndrome(g: Generator, s: Stored): seq<bool>
    requires WellFormed(g, s)
  {
    Xor(Code(g, s.data), s.check)
  }

  lemma {:induction false} Triangle(a: seq<bool>, b: seq<bool>, c: seq<bool>)
    requires |a| == |b| == |c|
    ensures Distance(a, c) <= Distance(a, b) + Distance(b, c)
    ensures Distance(a, b) == Distance(b, a)
    ensures Distance(a, b) == 0 <==> a == b
  {
    assert Xor(a, c) == Xor(Xor(a, b), Xor(b, c));
    WeightOfXor(Xor(a, b), Xor(b, c));
    assert Xor(a, b) == Xor(b, a);
    WeightZero(Xor(a, b));
  }

  /**
   Single-error correction, double-error detection. Two stored words with equal syndromes that each
   came from a codeword by e and f errors with e + f <= 3 carry the same error: so every one-bit error
   has a syndrome of its own, and no two-bit error looks clean or like a one-bit error.
   */
  lemma EqualSyndromes(g: Generator, a: seq<bool>, s: Stored, b: seq<bool>, t: Stored)
    requires |a| == |b| == Width(g) && WellFormed(g, s) && WellFormed(g, t)
    requires Errors(Stored(a, Code(g, a)), s) + Errors(Stored(b, Code(g, b)), t) <= 3
    requires Syndrome(g, s) == Syndrome(g, t)
    ensures Xor(a, s.data) == Xor(b, t.data) && Xor(Code(g, a), s.check) == Xor(Code(g, b), t.check)
  {
    hide Code;
    var x, y := Xor(a, s.data), Xor(b, t.data);
    var u, v := Xor(Code(g, a), s.check), Xor(Code(g, b), t.check);
    SyndromeOfError(g, a, s);
    SyndromeOfError(g, b, t);
    assert Xor(Code(g, x), Code(g, y)) == Xor(u, v) by {
      SameSum(Code(g, x), u, Code(g, y), v);
    }
    WeightOfXor(x, y);
    WeightOfXor(u, v);
    CodeLinear(g, x, y);
    if x != y {
      DistanceFour(g, x, y);
    } else {
      Triangle(u, v, v);
      assert Xor(u, v) == Xor(Code(g, x), Code(g, x));
      WeightZero(Xor(u, v));
    }
  }

  lemma SameSum(p: seq<bool>, u: seq<bool>, q: seq<bool>, v: seq<bool>)
    requires |p| == |u| == |q| == |v| && Xor(p, u) == Xor(q, v)
    ensures Xor(p, q) == Xor(u, v)
  {
    forall i | 0 <= i < |p|
      ensures Xor(p, q)[i] == Xor(u, v)[i]
    {
      assert Xor(p, u)[i] == Xor(q, v)[i];
    }
  }

  /** A syndrome depends on the error alone. */
  lemma SyndromeOfError(g: Generator, a: seq<bool>, s: Stored)
    requires |a| == Width(g) && WellFormed(g, s)
    ensures Syndrome(g, s) == Xor(Code(g, Xor(a, s.data)), Xor(Code(g, a), s.check))
  {
    hide Code;
    CodeLinear(g, a, s.data);
  }

  /** Read-back is clean iff nothing went wrong, provided fewer than four bits did. */
  lemma CleanIff(g: Generator, a: seq<bool>, s: Stored)
    requires |a| == Width(g) && WellFormed(g, s) && Errors(Stored(a, Code(g, a)), s) <= 3
    ensures Weight(Syndrome(g, s)) == 0 <==> s == Stored(a, Code(g, a))
  {
    hide Code;
    WeightZero(Syndrome(g, s));
    if Weight(Syndrome(g, s)) == 0 {
      assert Code(g, s.data) == s.check;
      if a != s.data {
        DistanceFour(g, a, s.data);
      }
    }
  }

  /** One-bit errors are odd and two-bit errors are even, so the two are told apart without a table. */
  lemma SyndromeParity(g: Generator, a: seq<bool>, s: Stored)
    requires |a| == Width(g) && WellFormed(g, s)
    ensures Weight(Syndrome(g, s)) % 2 == Errors(Stored(a, Code(g, a)), s) % 2
  {
    hide Code, Weight, Xor;
    SyndromeOfError(g, a, s);
    CodeParity(g, Xor(a, s.data));
    WeightOfXor(Code(g, Xor(a, s.data)), Xor(Code(g, a), s.check));
  }

  // ------------------------------------------------------------- words as numbers

  function BitsOf(value: nat, n: nat): (bits: seq<bool>)
    ensures |bits| == n
    decreases n
  {
    if n == 0 then [] else [value % 2 == 1] + BitsOf(value / 2, n - 1)
  }

  function ValueOf(bits: seq<bool>): nat {
    if bits == [] then 0 else One(bits[0]) + 2 * ValueOf(bits[1..])
  }

  /** The generated check byte of a machine word. */
  function Generate(g: Generator, value: nat): nat {
    ValueOf(Code(g, BitsOf(value, Width(g))))
  }

  /** Bit i of a word is what shifting right by i and masking one bit gives. */
  lemma {:induction false} BitIsShifted(value: nat, n: nat, i: nat)
    requires i < n
    ensures BitsOf(value, n)[i] == (Shr(value, i) % 2 == 1)
    decreases n
  {
    if i > 0 {
      BitIsShifted(value / 2, n - 1, i - 1);
      ShiftAgain(value, i);
    }
  }

  lemma ShiftAgain(value: nat, i: nat)
    requires i > 0
    ensures Shr(value / 2, i - 1) == Shr(value, i)
  {
    var p, half := Pow2(i - 1), value / 2;
    var q, r := half / p, half % p;
    assert half == q * p + r;
    assert value == q * (2 * p) + (2 * r + value % 2) by {
      assert q * (2 * p) == 2 * (q * p);
    }
    DivMod(value, 2 * p, q, 2 * r + value % 2);
  }

  lemma {:induction false} BitsOfValue(bits: seq<bool>)
    ensures BitsOf(ValueOf(bits), |bits|) == bits && ValueOf(bits) < Pow2(|bits|)
  {
    if bits != [] {
      BitsOfValue(bits[1..]);
    }
  }

  lemma {:induction false} ValueOfBits(value: nat, n: nat)
    requires value < Pow2(n)
    ensures ValueOf(BitsOf(value, n)) == value
    decreases n
  {
    if n > 0 {
      ValueOfBits(value / 2, n - 1);
    }
  }

  /** The distance law for machine words and their generated check bytes. */
  lemma GeneratedDistance(g: Generator, x: nat, y: nat)
    requires x < Pow2(Width(g)) && y < Pow2(Width(g)) && x != y
    ensures Generate(g, x) < Pow2(CodeWidth(g)) && Generate(g, y) < Pow2(CodeWidth(g))
    ensures Distance(BitsOf(x, Width(g)), BitsOf(y, Width(g))) +
            Distance(BitsOf(Generate(g, x), CodeWidth(g)), BitsOf(Generate(g, y), CodeWidth(g))) >= 4
  {
    hide Code, Pow2, BitsOf, ValueOf, Distance;
    ValueOfBits(x, Width(g));
    ValueOfBits(y, Width(g));
    BitsOfValue(Code(g, BitsOf(x, Width(g))));
    BitsOfValue(Code(g, BitsOf(y, Width(g))));
    DistanceFour(g, BitsOf(x, Width(g)), BitsOf(y, Width(g)));
  }
}
