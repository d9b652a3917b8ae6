/**
 * Range-to-prefix inference: guess_prefix and guess_netmask. Given two
 * addresses, guess_prefix is meant to find the largest prefix p whose /p
 * block, taken at the lower address, reaches the higher one. It first
 * estimates p from the number of leading zero bits of the difference, then
 * walks p down until broadcast(start, p) reaches end.
 *
 * Addresses are compared as the unsigned numbers they stand for (`Value`).
 * This module holds the specification, the two loops both copies of the
 * source share, and `GuessPrefix`/`GuessNetmask` as the design intends them;
 * the modules Legacy and Trunk hold each copy's own guess_prefix.
 */
module Range {
  import opened Bits32
  import opened Unsigned
  import opened Subnet
  import opened Logic
  import Dotted

  // ---- address blocks, as numbers

  /** The first address of the /q block holding x: x with its 32 - q host bits cleared. */
  function BlockFirst(x: int, q: int): int
    requires 0 <= q <= 32
  {
    x - x % Pow2(32 - q)
  }

  /** The last address of the /q block holding x. */
  function BlockLast(x: int, q: int): int
    requires 0 <= q <= 32
  {
    BlockFirst(x, q) + Pow2(32 - q) - 1
  }

  /** The network and broadcast addresses of a /q block are its first and last address. */
  lemma ValueBlock(a: bv32, q: int)
    requires 0 <= q <= 32
    ensures Value(NetworkOf(a, q)) == BlockFirst(Value(a), q)
    ensures Value(BroadcastOf(a, q)) == BlockLast(Value(a), q)
  {
    var k := 32 - q;
    NetworkHostBits(a, q, k);
    BlockHostBits(Value(a), q, k);
    ValueClearLowAt(a, k, NetworkOf(a, q), BroadcastOf(a, q));
  }

  /** The /q network and broadcast written with the number k of host bits. */
  lemma NetworkHostBits(a: bv32, q: int, k: nat)
    requires 0 <= q <= 32 && k == 32 - q
    ensures NetworkOf(a, q) == a & !Ones(k)
    ensures BroadcastOf(a, q) == NetworkOf(a, q) | Ones(k)
  {
  }

  /** The /q block of x written with the number k of host bits. */
  lemma BlockHostBits(x: int, q: int, k: nat)
    requires 0 <= q <= 32 && k == 32 - q
    ensures BlockFirst(x, q) == x - x % Pow2(k)
    ensures BlockLast(x, q) == BlockFirst(x, q) + Pow2(k) - 1
  {
  }

  /** For a prefix from 1 to 32, broadcast's expression gives the last address of the block. */
  lemma BroadcastWithValue(a: bv32, q: int)
    requires 1 <= q <= 32
    ensures Value(BroadcastWith(a, PrefixArgMask(q))) == BlockLast(Value(a), q)
  {
    BroadcastAtPrefix(a, q);
    ValueBlock(a, q);
  }

  /** The block starts at a multiple of its size at or below x. */
  lemma BlockFirstBounds(x: int, q: int)
    requires 0 <= q <= 32 && x >= 0
    ensures 0 <= BlockFirst(x, q) <= x
    ensures BlockFirst(x, q) == Pow2(32 - q) * (x / Pow2(32 - q))
  {
    RoundDown(x, Pow2(32 - q));
  }

  // ---- what guess_prefix is meant to find

  /** The /q block holding x reaches y. */
  predicate Covers(x: int, y: int, q: int)
  {
    0 <= q <= 32 && y <= BlockLast(x, q)
  }

  /** No prefix above p has a block holding x that reaches y. */
  predicate NoneAbove(x: int, y: int, p: int)
  {
    forall q :: p < q <= 32 ==> !Covers(x, y, q)
  }

  /** p is the largest prefix whose block holding x reaches y. */
  predicate IsLargestCovering(x: int, y: int, p: int)
  {
    Covers(x, y, p) && NoneAbove(x, y, p)
  }

  /** The first prefix from q downwards whose block holding x reaches y (0 if none above 0 does). */
  function LargestFrom(x: int, y: int, q: int): (r: int)
    requires 0 <= q <= 32
    ensures 0 <= r <= q
    decreases q
  {
    if q == 0 || Covers(x, y, q) then q else LargestFrom(x, y, q - 1)
  }

  /** The reference answer: the prefixes searched from 32 downwards. */
  function Largest(x: int, y: int): (r: int)
    ensures 0 <= r <= 32
  {
    LargestFrom(x, y, 32)
  }

  /** The lower and the higher of two addresses, the order guess_prefix swaps them into. */
  function Lo(start: bv32, end: bv32): bv32
  {
    if Value(end) < Value(start) then end else start
  }

  function Hi(start: bv32, end: bv32): bv32
  {
    if Value(end) < Value(start) then start else end
  }

  /** The swap puts the two addresses in order and keeps both. */
  lemma LoHiOrder(a: bv32, b: bv32)
    ensures Value(Lo(a, b)) <= Value(Hi(a, b))
    ensures (Lo(a, b), Hi(a, b)) == (a, b) || (Lo(a, b), Hi(a, b)) == (b, a)
  {
  }

  /** What guess_prefix is meant to return for two addresses. */
  function GuessFor(start: bv32, end: bv32): (r: int)
    ensures 0 <= r <= 32
  {
    Largest(Value(Lo(start, end)), Value(Hi(start, end)))
  }

  /** x is below 2^31 and y is not: the range crosses the middle of the address space. */
  predicate Straddles(x: int, y: int)
  {
    x < 0x8000_0000 <= y
  }

  // ---- facts about the specification

  /** The /0 block reaches every address. */
  lemma CoversWhole(x: int, y: int)
    requires 0 <= x < Pow2(32) && y < Pow2(32)
    ensures Covers(x, y, 0)
  {
    ModUnique(x, Pow2(32), 0, x);
  }

  /** No block of 2^(32 - q) addresses reaches an address at least 2^(32 - q) above x. */
  lemma WideGapNotCovered(x: int, y: int, q: int)
    requires 0 <= q <= 32
    requires y - x >= Pow2(32 - q)
    ensures !Covers(x, y, q)
  {
  }

  /** Every block below /32 ends at a positive address. */
  lemma BlockLastPositive(x: int, q: int)
    requires 0 <= q <= 31 && x >= 0
    ensures BlockLast(x, q) >= 1
  {
    BlockFirstBounds(x, q);
    Pow2Monotone(1, 32 - q);
  }

  /** At most one prefix is the largest covering one. */
  lemma LargestCoveringUnique(x: int, y: int, p: int, r: int)
    requires IsLargestCovering(x, y, p) && IsLargestCovering(x, y, r)
    ensures p == r
  {
  }

  /**
   * One pass of the correction loop: when the /p block ends below y, p is
   * not the answer, and since the /f block reaches y, neither is any prefix
   * down to f + 1 unless it is looked at.
   */
  lemma StepDown(x: int, y: int, p: int, f: int)
    requires 0 <= f <= p <= 32 && Covers(x, y, f) && NoneAbove(x, y, p)
    requires y > BlockLast(x, p)
    ensures f < p && NoneAbove(x, y, p - 1)
  {
  }

  lemma {:induction false} LargestFromCovering(x: int, y: int, q: int)
    requires 0 <= x < Pow2(32) && y < Pow2(32)
    requires 0 <= q <= 32
    requires NoneAbove(x, y, q)
    ensures IsLargestCovering(x, y, LargestFrom(x, y, q))
    decreases q
  {
    if q == 0 {
      CoversWhole(x, y);
    } else if !Covers(x, y, q) {
      LargestFromCovering(x, y, q - 1);
    }
  }

  /** The downward search finds the largest covering prefix, and it is the only one. */
  lemma LargestIsLargestCovering(x: int, y: int, p: int)
    requires 0 <= x < Pow2(32) && y < Pow2(32)
    ensures IsLargestCovering(x, y, Largest(x, y))
    ensures IsLargestCovering(x, y, p) <==> p == Largest(x, y)
  {
    LargestFromCovering(x, y, 32);
    if IsLargestCovering(x, y, p) {
      LargestCoveringUnique(x, y, p, Largest(x, y));
    }
  }

  /** A single address is its own /32 block. */
  lemma LargestOfEqual(x: int)
    ensures Largest(x, x) == 32
  {
  }

  /** Swapping the two addresses changes nothing. */
  lemma GuessSymmetric(a: bv32, b: bv32)
    ensures GuessFor(a, b) == GuessFor(b, a)
  {
    if Value(a) == Value(b) {
      LargestOfEqual(Value(a));
    }
  }

  /** A range within one half of the address space is reached by a /1 block. */
  lemma SameHalfCoversOne(x: int, y: int)
    requires 0 <= x <= y < Pow2(32) && !Straddles(x, y)
    ensures Covers(x, y, 1)
  {
    Pow2Values();
    BlockFirstBounds(x, 1);
    if x >= Pow2(31) {
      ModUnique(x, Pow2(31), 1, x - Pow2(31));
    }
  }

  /** Below 2^31, every block under an address prefix ends below 2^31. */
  lemma LowHalfBlock(x: int, q: int)
    requires 0 <= x < Pow2(31) && 1 <= q <= 32
    ensures BlockLast(x, q) < Pow2(31)
  {
    Pow2Add(32 - q, q - 1);
    AlignedBelow(x, Pow2(32 - q), Pow2(q - 1));
  }

  /** A range across 2^31 fits in no block but the /0 one: the design's answer for it is 0. */
  lemma StraddleLargestZero(x: int, y: int)
    requires 0 <= x && y < Pow2(32) && Straddles(x, y)
    ensures IsLargestCovering(x, y, 0)
    ensures Largest(x, y) == 0
  {
    Pow2Values();
    CoversWhole(x, y);
    forall q | 0 < q <= 32
      ensures !Covers(x, y, q)
    {
      LowHalfBlock(x, q);
    }
    LargestIsLargestCovering(x, y, 0);
  }

  /** Every block holding x ends at or above x. */
  lemma BlockLastAbove(x: int, q: int)
    requires 0 <= q <= 32
    ensures BlockLast(x, q) >= x
  {
  }

  // ---- the estimate: leading zeros of the difference

  /**
   * Bit 31 of a non-negative PHP integer n, the test `n & 0x80000000`
   * of the estimate loop.
   */
  predicate Bit31(n: int)
  {
    (n / 0x8000_0000) % 2 == 1
  }

  /** Below 2^32, bit 31 is set exactly from 2^31 upwards. */
  lemma Bit31Below(n: int)
    requires 0 <= n < 0x1_0000_0000
    ensures Bit31(n) <==> n >= 0x8000_0000
  {
  }

  /** p is the number of leading zeros of the 32-bit number d: d has bit 31 - p as its highest set bit. */
  predicate EstimateFor(d: int, p: int)
  {
    0 <= p <= 31 && Pow2(31 - p) <= d < Pow2(32 - p)
  }

  /** The number of leading zeros of d among its low k + 1 bits, counted from bit k downwards. */
  function LeadingZerosFrom(d: int, k: int): (r: int)
    requires 0 <= k <= 31
    ensures 31 - k <= r <= 31
    decreases k
  {
    if k == 0 || Pow2(k) <= d then 31 - k else LeadingZerosFrom(d, k - 1)
  }

  /** clz32(d). */
  function Clz32(d: int): int
  {
    LeadingZerosFrom(d, 31)
  }

  lemma {:induction false} LeadingZerosFromBounds(d: int, k: int)
    requires 0 <= k <= 31 && 0 < d < Pow2(k + 1)
    ensures EstimateFor(d, LeadingZerosFrom(d, k))
    decreases k
  {
    if k > 0 && d < Pow2(k) {
      LeadingZerosFromBounds(d, k - 1);
    }
  }

  /** A positive 32-bit number has exactly one leading-zero count, clz32. */
  lemma Clz32Meaning(d: int, p: int)
    requires 0 < d < Pow2(32)
    ensures EstimateFor(d, Clz32(d))
    ensures EstimateFor(d, p) <==> p == Clz32(d)
  {
    LeadingZerosFromBounds(d, 31);
    if EstimateFor(d, p) {
      EstimateUnique(d, p, Clz32(d));
    }
  }

  lemma EstimateUnique(d: int, p: int, r: int)
    requires EstimateFor(d, p) && EstimateFor(d, r)
    ensures p == r
  {
    if p < r {
      Pow2Monotone(32 - r, 31 - p);
    } else if r < p {
      Pow2Monotone(32 - p, 31 - r);
    }
  }

  /** Once d shifted up p places lands in [2^31, 2^32), p counts the leading zeros of d. */
  lemma EstimateBounds(d: int, p: int, n: int)
    requires 0 <= p <= 31 && n == d * Pow2(p)
    requires Pow2(31) <= n < Pow2(32)
    ensures EstimateFor(d, p)
  {
    Pow2Add(31 - p, p);
    Pow2Add(32 - p, p);
    ScaleBounds(d, Pow2(p), Pow2(31 - p), Pow2(32 - p));
  }

  /** The prefix bound while bit 31 is still clear. */
  lemma ShiftRoom(p: int, n: int)
    requires 0 <= p && Pow2(p) <= n < Pow2(31)
    ensures p < 31
  {
    if p >= 31 {
      Pow2Monotone(31, p);
    }
  }

  /** One round of the estimate loop: d shifted up p places, still below 2^31, shifted once more. */
  lemma ShiftStep(d: int, p: int, scale: int, n: int)
    requires 0 <= p && scale == Pow2(p) && n == d * scale && scale <= n < Pow2(31)
    ensures p + 1 <= 31 && scale * 2 == Pow2(p + 1) && n * 2 == d * (scale * 2)
    ensures scale * 2 <= n * 2 < Pow2(32)
  {
    ShiftRoom(p, n);
    Pow2Values();
    assert Pow2(p + 1) == 2 * Pow2(p);
    DoubleProduct(d, scale);
  }

  lemma DoubleProduct(d: int, m: int)
    ensures (d * m) * 2 == d * (m * 2)
  {
  }

  /** The estimate phase of guess_prefix: shift the difference up until bit 31 is set. */
  method Estimate(d: int) returns (prefix: int)
    requires 0 < d < Pow2(32)
    ensures EstimateFor(d, prefix)
    ensures prefix == Clz32(d)
  {
    Pow2Values();
    prefix := 0;
    var n := d;
    ghost var scale := 1;
    while !Bit31(n)
      invariant 0 <= prefix <= 31
      invariant scale == Pow2(prefix) && n == d * scale
      invariant scale <= n < 0x1_0000_0000
      decreases 0x1_0000_0000 - n
    {
      Bit31Below(n);
      ShiftStep(d, prefix, scale, n);
      n := n * 2;
      prefix := prefix + 1;
      scale := scale * 2;
    }
    Bit31Below(n);
    EstimateBounds(d, prefix, n);
    Clz32Meaning(d, prefix);
  }

  /** No prefix above the estimate reaches y: its blocks are narrower than the range. */
  lemma AboveEstimateNotCovered(x: int, y: int, p: int)
    requires EstimateFor(y - x, p)
    ensures NoneAbove(x, y, p)
  {
    forall q | p < q <= 32
      ensures !Covers(x, y, q)
    {
      Pow2Monotone(32 - q, 31 - p);
      WideGapNotCovered(x, y, q);
    }
  }

  // ---- the correction phase

  /**
   * The correction loop with the designed broadcast address: from the
   * estimate, step the prefix down while the broadcast address of lo's
   * block is below hi. The sentinel n = 0 makes the first pass look at the
   * estimate itself.
   */
  method Narrow(lo: bv32, hi: bv32, estimate: int) returns (prefix: int)
    requires EstimateFor(Value(hi) - Value(lo), estimate)
    ensures IsLargestCovering(Value(lo), Value(hi), prefix)
    ensures prefix <= estimate
  {
    ghost var x, y := Value(lo), Value(hi);
    AboveEstimateNotCovered(x, y, estimate);
    ValueBounds(lo);
    ValueBounds(hi);
    CoversWhole(x, y);
    prefix := estimate;
    var n := 0;
    while Value(hi) > n
      invariant 0 <= prefix <= estimate
      invariant NoneAbove(x, y, prefix)
      invariant n >= 0
      invariant n != 0 ==> n == BlockLast(x, prefix)
      decreases prefix + (if n == 0 then 1 else 0)
    {
      if n > 0 {
        StepDown(x, y, prefix, 0);
        prefix := prefix - 1;
      }
      ValueBlock(lo, prefix);
      n := Value(BroadcastOf(lo, prefix));
      BlockLastPositive(x, prefix);
    }
  }

  /**
   * The correction loop as both copies of guess_prefix write it: the
   * broadcast comes from broadcast's own expression with prefix2long's mask,
   * and the guard compares n with the number `end` the copy holds for hi:
   * its unsigned value, or in the later copy a negative signed value once
   * bit 31 of hi is set. The range may not straddle 2^31.
   */
  method NarrowAsWritten(lo: bv32, hi: bv32, end: int, estimate: int) returns (prefix: int)
    requires EstimateFor(Value(hi) - Value(lo), estimate)
    requires !Straddles(Value(lo), Value(hi))
    requires end == Value(hi) || end < 0
    ensures end == Value(hi) ==> IsLargestCovering(Value(lo), Value(hi), prefix)
    ensures end < 0 ==> prefix == estimate
  {
    ghost var x, y := Value(lo), Value(hi);
    AboveEstimateNotCovered(x, y, estimate);
    ValueBounds(lo);
    ValueBounds(hi);
    SameHalfCoversOne(x, y);
    prefix := estimate;
    var n := 0;
    while end > n
      invariant 1 <= prefix <= estimate
      invariant NoneAbove(x, y, prefix)
      invariant n >= 0
      invariant n != 0 ==> n == BlockLast(x, prefix)
      invariant end < 0 ==> n == 0 && prefix == estimate
      decreases prefix + (if n == 0 then 1 else 0)
    {
      if n > 0 {
        StepDown(x, y, prefix, 1);
        prefix := prefix - 1;
      }
      BroadcastWithValue(lo, prefix);
      n := Value(BroadcastWith(lo, PrefixArgMask(prefix)));
      BlockLastPositive(x, prefix);
    }
  }

  /**
   * What that part gives: when the guard reads hi as its unsigned value, the
   * designed answer (which GuessInOrder also shows to be the largest covering
   * prefix); when it reads a negative number, 32 for a single
   * address and otherwise the bare estimate.
   */
  predicate InOrderOutcome(x: int, y: int, d: int, end: int, prefix: int)
  {
    && (end == y ==> prefix == Largest(x, y))
    && (end < 0 && d == 0 ==> prefix == 32)
    && (end < 0 && d != 0 ==> prefix == Clz32(d) && EstimateFor(d, prefix))
  }

  /**
   * The part of guess_prefix both copies write alike, from the ordered
   * addresses lo <= hi on: the difference d, 32 for a single address, then
   * the estimate and the correction loop as written, whose guard reads hi
   * as the number `end` (see NarrowAsWritten).
   */
  method GuessInOrder(lo: bv32, hi: bv32, d: int, end: int) returns (prefix: int)
    requires Value(lo) <= Value(hi) && !Straddles(Value(lo), Value(hi))
    requires d == Value(hi) - Value(lo)
    requires end == Value(hi) || end < 0
    ensures InOrderOutcome(Value(lo), Value(hi), d, end, prefix)
    ensures end == Value(hi) ==> IsLargestCovering(Value(lo), Value(hi), prefix)
  {
    ValueBounds(lo);
    ValueBounds(hi);
    if d == 0 {
      LargestOfEqual(Value(lo));
      LargestIsLargestCovering(Value(lo), Value(hi), 32);
      return 32;
    }
    var estimate := Estimate(d);
    prefix := NarrowAsWritten(lo, hi, end, estimate);
    if end == Value(hi) {
      LargestIsLargestCovering(Value(lo), Value(hi), prefix);
    }
  }

  /** One pass of the correction loop as written, on the state (prefix, n). */
  datatype Correction = Correction(prefix: int, n: int)

  function CorrectionStep(lo: bv32, s: Correction): Correction
  {
    var p := if s.n > 0 then s.prefix - 1 else s.prefix;
    Correction(p, Value(BroadcastWith(lo, PrefixArgMask(p))))
  }

  /** The state after k passes, from the estimate and the sentinel n = 0. */
  function CorrectionAfter(lo: bv32, estimate: int, k: nat): Correction
    decreases k
  {
    if k == 0 then Correction(estimate, 0) else CorrectionStep(lo, CorrectionAfter(lo, estimate, k - 1))
  }

  /** In a straddling range, broadcast's expression at lo is below hi whatever the prefix. */
  lemma StraddleBroadcastBelow(lo: bv32, hi: bv32, q: int)
    requires Straddles(Value(lo), Value(hi))
    ensures Value(BroadcastWith(lo, PrefixArgMask(q))) < Value(hi)
  {
    Pow2Values();
    ValueBounds(lo);
    if 1 <= q <= 32 {
      BroadcastWithValue(lo, q);
      LowHalfBlock(Value(lo), q);
    } else {
      BroadcastAtNoPrefix(lo, q);
      OnesZero();
      OnesSucc(0);
      ValueOnes(1);
      Pow2Monotone(1, 31);
    }
  }

  /**
   * On a range that straddles 2^31 the loop as written never stops: after any
   * number of passes its guard `end > n` still holds, because every block at
   * lo under an address prefix ends below 2^31 and at prefix 0 and below
   * broadcast gives 1.
   */
  lemma CorrectionNeverStops(lo: bv32, hi: bv32, estimate: int, k: nat)
    requires Straddles(Value(lo), Value(hi))
    ensures Value(hi) > CorrectionAfter(lo, estimate, k).n
  {
    if k > 0 {
      StraddleBroadcastBelow(lo, hi, CorrectionAfter(lo, estimate, k).prefix);
    }
  }

  // ---- guess_prefix and guess_netmask as designed

  /**
   * guess_prefix as designed, on the two addresses ip2long gives: swap them
   * into order, answer 32 for a single address, otherwise estimate and
   * correct with the true 32-bit broadcast.
   */
  method GuessPrefixOf(start: bv32, end: bv32) returns (prefix: int)
    ensures prefix == GuessFor(start, end)
    ensures IsLargestCovering(Value(Lo(start, end)), Value(Hi(start, end)), prefix)
  {
    var s, e := Lo(start, end), Hi(start, end);
    LoHiOrder(start, end);
    ValueBounds(s);
    ValueBounds(e);
    var d := Value(e) - Value(s);
    if d == 0 {
      LargestOfEqual(Value(s));
      LargestIsLargestCovering(Value(s), Value(e), 32);
      return 32;
    }
    var estimate := Estimate(d);
    prefix := Narrow(s, e, estimate);
    LargestIsLargestCovering(Value(s), Value(e), prefix);
  }

  /** guess_prefix(start, end): both arguments go through ip2long first. */
  method GuessPrefix(start: Operand, end: Operand) returns (prefix: int)
    ensures prefix == GuessFor(AsLong(start), AsLong(end))
    ensures IsLargestCovering(Value(Lo(AsLong(start), AsLong(end))), Value(Hi(AsLong(start), AsLong(end))), prefix)
  {
    prefix := GuessPrefixOf(AsLong(start), AsLong(end));
  }

  /** guess_netmask as designed: prefix2long of the guessed prefix, written as a dotted quad by long2ip. */
  method GuessNetmask(start: Operand, end: Operand) returns (mask: string)
    ensures mask == Dotted.Format(PrefixMask(GuessFor(AsLong(start), AsLong(end))))
  {
    var p := GuessPrefix(start, end);
    var r := Prefix2Long(Numeric(p));
    mask := Dotted.Format(OrZero(r));
  }
}
