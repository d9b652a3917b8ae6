/**
 * The number a 32-bit pattern stands for, as PHP sees it once the value is
 * non-negative: `Value(v)` reads the bits of v as an unsigned binary numeral.
 * It is built bit by bit, so every fact about it is proved a bit at a time
 * and no proof here compares sums of bit-vectors directly.
 */
module Unsigned {
  import opened Bits32

  /** 2^k. */
  function Pow2(k: nat): (r: nat)
    ensures r >= 1
  {
    if k == 0 then 1 else 2 * Pow2(k - 1)
  }

  /** The lowest bit of v as the number 0 or 1. */
  function Low(v: bv32): int
  {
    if v & 1 == 0 then 0 else 1
  }

  function ValRec(v: bv32, k: nat): int
    decreases k
  {
    if k == 0 then 0 else 2 * ValRec(Half(v), k - 1) + Low(v)
  }

  /** The number written by the low k bits of v. */
  function Val(v: bv32, k: nat): int
  {
    ValRec(v, k)
  }

  /** The unsigned number the 32-bit pattern v stands for. */
  function Value(v: bv32): int
  {
    Val(v, 32)
  }

  lemma ValZero(v: bv32)
    ensures Val(v, 0) == 0
  {
  }

  lemma ValSucc(v: bv32, k: nat)
    ensures Val(v, k + 1) == 2 * Val(Half(v), k) + Low(v)
  {
    assert ValRec(v, k + 1) == 2 * ValRec(Half(v), k) + Low(v);
  }

  lemma {:induction false} Pow2Monotone(j: nat, k: nat)
    requires j <= k
    ensures Pow2(j) <= Pow2(k)
    decreases k - j
  {
    if j < k {
      Pow2Monotone(j, k - 1);
    }
  }

  // ---- single-step facts, each proved by the bit-vector decision procedure

  lemma HalfPushOne(o: bv32)
    ensures o < TOP ==> Half(Push(o, 1)) == o
  {
  }

  lemma LowPushOne(o: bv32)
    ensures Low(Push(o, 1)) == 1
  {
  }

  lemma HalfZero()
    ensures Half(0) == 0 && Low(0) == 0
  {
  }

  // ---- Val

  lemma {:induction false} ValBounds(v: bv32, k: nat)
    ensures 0 <= Val(v, k) < Pow2(k)
    decreases k
  {
    if k > 0 {
      ValBounds(Half(v), k - 1);
      ValSucc(v, k - 1);
    }
  }

  lemma OrHalves(a: bv32, b: bv32, c: bv32)
    ensures c == a | b ==> Half(c) == Half(a) | Half(b) && Low(c) <= Low(a) + Low(b)
  {
  }

  lemma OrStep(a: bv32, b: bv32, c: bv32, k: nat)
    ensures Val(Half(c), k) <= Val(Half(a), k) + Val(Half(b), k) && Low(c) <= Low(a) + Low(b)
      ==> Val(c, k + 1) <= Val(a, k + 1) + Val(b, k + 1)
  {
    ValSucc(c, k);
    ValSucc(a, k);
    ValSucc(b, k);
  }

  lemma {:induction false} ValOr(a: bv32, b: bv32, c: bv32, k: nat)
    requires c == a | b
    ensures Val(c, k) <= Val(a, k) + Val(b, k)
    decreases k
  {
    if k > 0 {
      OrHalves(a, b, c);
      ValOr(Half(a), Half(b), Half(c), k - 1);
      OrStep(a, b, c, k - 1);
    }
  }

  /** Setting the bits of b in a adds at most the number b. */
  lemma ValueOr(a: bv32, b: bv32)
    ensures Value(a | b) <= Value(a) + Value(b)
  {
    ValOr(a, b, a | b, 32);
  }

  lemma {:induction false} ValOfZero(k: nat)
    ensures Val(0, k) == 0
  {
    if k > 0 {
      HalfZero();
      ValOfZero(k - 1);
      ValSucc(0, k - 1);
    }
  }

  lemma {:induction false} ValOnes(j: nat, k: nat)
    requires j <= k <= 32
    ensures Val(Ones(j), k) == Pow2(j) - 1
  {
    if j == 0 {
      OnesZero();
      ValOfZero(k);
    } else {
      OnesSucc(j - 1);
      OnesBelowTop(j - 1);
      HalfPushOne(Ones(j - 1));
      LowPushOne(Ones(j - 1));
      ValOnes(j - 1, k - 1);
      ValSucc(Ones(j), k - 1);
    }
  }

  /** The pattern with the low k bits set stands for 2^k - 1. */
  lemma ValueOnes(k: nat)
    requires k <= 32
    ensures Value(Ones(k)) == Pow2(k) - 1
  {
    ValOnes(k, 32);
  }

  lemma ValueBounds(v: bv32)
    ensures 0 <= Value(v) < Pow2(32)
  {
    ValBounds(v, 32);
  }

  lemma ValueZero()
    ensures Value(0) == 0
  {
    ValOfZero(32);
  }

  // ---- disjoint bits

  /** c is a | b and a, b share no bit. */
  predicate Disjoint(a: bv32, b: bv32, c: bv32)
  {
    c == a | b && a & b == 0
  }

  lemma DisjointHalves(a: bv32, b: bv32, c: bv32)
    ensures Disjoint(a, b, c) ==> Disjoint(Half(a), Half(b), Half(c)) && Low(c) == Low(a) + Low(b)
  {
  }

  lemma DisjointStep(a: bv32, b: bv32, c: bv32, k: nat)
    ensures Val(Half(c), k) == Val(Half(a), k) + Val(Half(b), k) && Low(c) == Low(a) + Low(b)
      ==> Val(c, k + 1) == Val(a, k + 1) + Val(b, k + 1)
  {
    ValSucc(c, k);
    ValSucc(a, k);
    ValSucc(b, k);
  }

  lemma {:induction false} ValDisjoint(a: bv32, b: bv32, c: bv32, k: nat)
    requires Disjoint(a, b, c)
    ensures Val(c, k) == Val(a, k) + Val(b, k)
    decreases k
  {
    if k > 0 {
      DisjointHalves(a, b, c);
      ValDisjoint(Half(a), Half(b), Half(c), k - 1);
      DisjointStep(a, b, c, k - 1);
    }
  }

  /** Joining patterns that share no bit adds the numbers. */
  lemma ValueDisjoint(a: bv32, b: bv32)
    requires a & b == 0
    ensures Value(a | b) == Value(a) + Value(b)
  {
    ValDisjoint(a, b, a | b, 32);
  }

  lemma SplitOr(a: bv32, b: bv32)
    ensures Disjoint(a & !b, b, a | b) && Disjoint(a, b & !a, a | b)
  {
  }

  /** Setting more bits never makes the number smaller. */
  lemma ValueOrAbove(a: bv32, b: bv32)
    ensures Value(a) <= Value(a | b) && Value(b) <= Value(a | b)
  {
    SplitOr(a, b);
    ValDisjoint(a & !b, b, a | b, 32);
    ValDisjoint(a, b & !a, a | b, 32);
    ValueBounds(a & !b);
    ValueBounds(b & !a);
  }

  // ---- powers of two

  lemma {:induction false} Pow2Add(a: nat, b: nat)
    ensures Pow2(a + b) == Pow2(a) * Pow2(b)
    decreases a
  {
    if a > 0 {
      Pow2Add(a - 1, b);
    }
  }

  lemma Pow2Values()
    ensures Pow2(8) == 0x100
    ensures Pow2(16) == 0x1_0000
    ensures Pow2(31) == 0x8000_0000
    ensures Pow2(32) == 0x1_0000_0000
  {
    assert Pow2(1) == 2;
    assert Pow2(2) == 4;
    assert Pow2(3) == 8;
    assert Pow2(4) == 0x10;
    assert Pow2(5) == 0x20;
    assert Pow2(6) == 0x40;
    assert Pow2(7) == 0x80;
    assert Pow2(8) == 0x100;
    Pow2Add(8, 8);
    Pow2Add(16, 8);
    Pow2Add(24, 7);
    Pow2Add(31, 1);
  }

  // ---- the top bit

  lemma FullSplit(o: bv32)
    requires o == 0x7FFF_FFFF
    ensures Disjoint(o, TOP, FULL)
  {
  }

  /** The top bit stands for 2^31. */
  lemma ValueTopBit()
    ensures Value(TOP) == Pow2(31)
  {
    OnesValues();
    FullSplit(Ones(31));
    ValDisjoint(Ones(31), TOP, FULL, 32);
    ValueOnes(31);
    ValueOnes(32);
  }

  // ---- the low bits

  lemma {:induction false} MulAtLeast(m: int, d: nat)
    requires m > 0 && d >= 1
    ensures m * d >= m
    decreases d
  {
    if d > 1 {
      MulAtLeast(m, d - 1);
      assert m * d == m * (d - 1) + m;
    }
  }

  lemma MulStep(m: int, x: int, y: int)
    requires m > 0 && x < y
    ensures m * x + m <= m * y
  {
    MulAtLeast(m, y - x);
    assert m * y == m * x + m * (y - x);
  }

  /** Division with remainder has one answer. */
  lemma ModUnique(a: int, m: int, q: int, r: int)
    requires m > 0 && 0 <= r < m && a == m * q + r
    ensures a % m == r && a / m == q
  {
    var t, s := a / m, a % m;
    assert a == m * t + s;
    if t < q {
      MulStep(m, t, q);
    } else if q < t {
      MulStep(m, q, t);
    }
  }

  lemma ModDouble(x: int, b: int, m: int)
    requires x >= 0 && m >= 1 && 0 <= b <= 1
    ensures (2 * x + b) % (2 * m) == 2 * (x % m) + b
  {
    var q := x / m;
    var r := x % m;
    assert 2 * x + b == (2 * m) * q + (2 * r + b);
    ModUnique(2 * x + b, 2 * m, q, 2 * r + b);
  }

  /** w is the part of v under the window o. */
  predicate LowPart(v: bv32, w: bv32, o: bv32)
  {
    w == v & o
  }

  lemma LowPartHalves(v: bv32, w: bv32, o: bv32, o1: bv32)
    requires o1 == Push(o, 1)
    ensures LowPart(v, w, o1) ==> LowPart(Half(v), Half(w), o) && Low(w) == Low(v)
  {
  }

  lemma LowPartNone(v: bv32, w: bv32)
    ensures LowPart(v, w, 0) ==> w == 0
  {
  }

  lemma {:induction false} ValLowBits(v: bv32, w: bv32, j: nat, k: nat)
    requires j <= k && LowPart(v, w, Ones(j))
    ensures Val(w, k) == Val(v, k) % Pow2(j)
    decreases k
  {
    if j == 0 {
      OnesZero();
      LowPartNone(v, w);
      ValOfZero(k);
    } else {
      OnesSucc(j - 1);
      LowPartHalves(v, w, Ones(j - 1), Ones(j));
      ValLowBits(Half(v), Half(w), j - 1, k - 1);
      ValSucc(v, k - 1);
      ValSucc(w, k - 1);
      ValBounds(Half(v), k - 1);
      ModDouble(Val(Half(v), k - 1), Low(v), Pow2(j - 1));
    }
  }

  /** The low k bits of v stand for v mod 2^k. */
  lemma ValueLowBits(v: bv32, k: nat)
    requires k <= 32
    ensures Value(v & Ones(k)) == Value(v) % Pow2(k)
  {
    ValLowBits(v, v & Ones(k), k, 32);
  }

  lemma ClearSplit(a: bv32, o: bv32)
    ensures Disjoint(a & !o, a & o, a)
  {
  }

  lemma SetSplit(a: bv32, o: bv32)
    ensures Disjoint(a & !o, o, (a & !o) | o)
  {
  }

  /** a is its bits outside the window o joined with those inside. */
  lemma ValueWindow(a: bv32, o: bv32)
    ensures Value(a) == Value(a & !o) + Value(a & o)
  {
    ClearSplit(a, o);
    ValDisjoint(a & !o, a & o, a, 32);
  }

  /** Setting the window o after clearing it adds the number o. */
  lemma ValueFill(a: bv32, o: bv32)
    ensures Value((a & !o) | o) == Value(a & !o) + Value(o)
  {
    SetSplit(a, o);
    ValDisjoint(a & !o, o, (a & !o) | o, 32);
  }

  /**
   * Clearing the low k bits of a takes away a mod 2^k; setting them
   * afterwards adds 2^k - 1.
   */
  lemma ValueClearLow(a: bv32, k: nat)
    requires k <= 32
    ensures Value(a & !Ones(k)) == Value(a) - Value(a) % Pow2(k)
    ensures Value((a & !Ones(k)) | Ones(k)) == Value(a & !Ones(k)) + Pow2(k) - 1
  {
    ValueWindow(a, Ones(k));
    ValueFill(a, Ones(k));
    ValueOnes(k);
    ValueLowBits(a, k);
  }

  /** ValueClearLow, for patterns n and b named by the caller. */
  lemma ValueClearLowAt(a: bv32, k: nat, n: bv32, b: bv32)
    requires k <= 32 && n == a & !Ones(k) && b == n | Ones(k)
    ensures Value(n) == Value(a) - Value(a) % Pow2(k)
    ensures Value(b) == Value(n) + Pow2(k) - 1
  {
    ValueClearLow(a, k);
  }

  // ---- arithmetic over plain parameters

  /** x rounded down to a multiple of m. */
  lemma RoundDown(x: int, m: int)
    requires m >= 1 && x >= 0
    ensures 0 <= x - x % m <= x
    ensures x - x % m == m * (x / m)
  {
    assert x == m * (x / m) + x % m;
    if x / m >= 1 {
      MulAtLeast(m, x / m);
    }
  }

  /** Below m * k, the multiples of m stop at m * (k - 1). */
  lemma AlignedBelow(x: int, m: int, k: int)
    requires m >= 1 && k >= 1 && 0 <= x < m * k
    ensures x - x % m + m - 1 < m * k
  {
    RoundDown(x, m);
    var t := x / m;
    if t > k {
      MulStep(m, k, t);
    }
    if t < k {
      MulStep(m, t, k);
    }
  }

  lemma MulMonotone(x: int, y: int, m: int)
    requires m >= 1 && x <= y
    ensures x * m <= y * m
  {
    if x < y {
      MulStep(m, x, y);
      assert x * m == m * x && y * m == m * y;
    }
  }

  /** Bounds on d * m give bounds on d. */
  lemma ScaleBounds(d: int, m: int, a: int, b: int)
    requires m >= 1 && a * m <= d * m < b * m
    ensures a <= d < b
  {
    if d < a {
      MulMonotone(d + 1, a, m);
    }
    if d >= b {
      MulMonotone(b, d, m);
    }
  }
}
