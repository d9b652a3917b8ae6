/**
 * guess_prefix and guess_netmask as the later copy of IPCALCLogic writes
 * them. Both addresses first go through signed_casting, so an address with
 * bit 31 set is held as a negative number; the swap and the correction
 * loop's guard compare those signed numbers. Below 2^31 nothing changes.
 * When both addresses are at or above 2^31 the guard is false from the
 * start and the estimate comes back uncorrected (HighHalfCounterexample).
 * On a range across 2^31 the swap puts the higher address first, and the
 * result is an estimate that is not corrected, or -1
 * (CrossWholeCounterexample, CrossMiddleCounterexample). Text that ip2long
 * cannot read stays PHP's false, which the swap compares as a boolean and
 * the arithmetic reads as 0 (FalseGuess, UnreadableCounterexample).
 */
module Trunk {
  import opened Bits32
  import opened Unsigned
  import opened Logic
  import opened Range
  import Dotted
  import opened Wrappers

  /**
   * signed_casting(&v): the two's-complement reading of a 32-bit value. It
   * leaves values up to 0x7fffffff alone and, for every 32-bit value, lands
   * in [-2^31, 2^31) on a number equal to v modulo 2^32.
   */
  method SignedCasting(v: int) returns (r: int)
    ensures v <= 0x7fff_ffff ==> r == v
    ensures 0 <= v < 0x1_0000_0000 ==> -0x8000_0000 <= r < 0x8000_0000 && r % 0x1_0000_0000 == v
  {
    r := v;
    if r > 0x7fff_ffff {
      r := r - (0xffff_ffff + 1);
    }
    if 0 <= v < 0x1_0000_0000 {
      ModUnique(r, 0x1_0000_0000, if v > 0x7fff_ffff then -1 else 0, v);
    }
  }

  /** A value at or above 2^31 is read as itself minus 2^32. */
  lemma SignedHigh(v: int, r: int)
    requires 0x8000_0000 <= v < 0x1_0000_0000
    requires -0x8000_0000 <= r < 0x8000_0000 && r % 0x1_0000_0000 == v
    ensures r == v - 0x1_0000_0000
  {
    ModUnique(r, 0x1_0000_0000, -1, r + 0x1_0000_0000);
  }

  /**
   * The reading of a value 0 <= v < 2^32 that signed_casting leaves: v itself
   * below 2^31 and v - 2^32 from 2^31 upwards.
   */
  predicate Reading(v: int, r: int)
  {
    && (v < 0x8000_0000 ==> r == v)
    && (v >= 0x8000_0000 ==> r == v - 0x1_0000_0000)
  }

  /** What signed_casting returns for a 32-bit value is its reading. */
  lemma SignedReading(v: int, r: int)
    requires 0 <= v < 0x1_0000_0000
    requires v <= 0x7fff_ffff ==> r == v
    requires -0x8000_0000 <= r < 0x8000_0000 && r % 0x1_0000_0000 == v
    ensures Reading(v, r)
  {
    if v >= 0x8000_0000 {
      SignedHigh(v, r);
    }
  }

  /** Every number in [-2^31, 2^31) is the reading of exactly one 32-bit value. */
  lemma ReadingOnto(r: int, v: int)
    requires -0x8000_0000 <= r < 0x8000_0000
    ensures Reading(if r < 0 then r + 0x1_0000_0000 else r, r)
    ensures 0 <= v < 0x1_0000_0000 && Reading(v, r) ==> v == (if r < 0 then r + 0x1_0000_0000 else r)
  {
  }

  /**
   * What this copy's guess_prefix returns on a range lo = x < 2^31 <= y = hi
   * across the middle: the swap puts hi's negative reading first, so
   * n = 2^32 - (hi - lo) is estimated, and the correction loop compares lo
   * with broadcast at that negative start. An estimate above 0 is kept; at 0
   * the loop tries prefix -1 once lo is above 1.
   */
  function CrossReturned(x: int, y: int): (r: int)
    ensures -1 <= r <= 31
  {
    var p := Clz32(0x1_0000_0000 - (y - x));
    if p == 0 && x > 1 then -1 else p
  }

  /**
   * What this copy's guess_prefix returns for the ordered addresses x <= y:
   * the value above on a range across 2^31, the bare estimate clz32(y - x)
   * when both are at or above 2^31 and differ, the designed answer
   * otherwise.
   */
  function Returned(x: int, y: int): (r: int)
    ensures -1 <= r <= 32
  {
    if x < 0x8000_0000 <= y then CrossReturned(x, y)
    else if 0x8000_0000 <= x < y then Clz32(y - x)
    else Largest(x, y)
  }

  /**
   * Below 2^31 and for a single address that is the designed answer; above
   * 2^31 it is the leading-zero count of the difference.
   */
  lemma ReturnedMeaning(x: int, y: int)
    requires 0 <= x <= y < 0x1_0000_0000
    ensures y < 0x8000_0000 ==> Returned(x, y) == Largest(x, y)
    ensures y < 0x8000_0000 ==> IsLargestCovering(x, y, Returned(x, y))
    ensures x == y ==> Returned(x, y) == 32
    ensures 0x8000_0000 <= x < y ==> EstimateFor(y - x, Returned(x, y))
  {
    Pow2Values();
    if y < 0x8000_0000 {
      LargestIsLargestCovering(x, y, 0);
    }
    if x == y {
      LargestOfEqual(x);
    }
    if 0x8000_0000 <= x < y {
      var d, r := y - x, Returned(x, y);
      assert r == Clz32(d);
      Clz32Meaning(d, r);
    }
  }

  /**
   * On a range across 2^31, where the design answers 0, this copy returns
   * -1 exactly when lo is above 1 and the range spans at most 2^31
   * addresses, agrees with the design exactly when lo is 0 or 1 and the
   * range spans at most 2^31 addresses, and otherwise returns the leading-
   * zero count of 2^32 - (hi - lo).
   */
  lemma CrossMeaning(x: int, y: int)
    requires 0 <= x < 0x8000_0000 <= y < 0x1_0000_0000
    ensures Largest(x, y) == 0
    ensures Returned(x, y) == -1 <==> 1 < x && y - x <= 0x8000_0000
    ensures Returned(x, y) == Largest(x, y) <==> x <= 1 && y - x <= 0x8000_0000
    ensures Returned(x, y) != -1 ==> EstimateFor(0x1_0000_0000 - (y - x), Returned(x, y))
  {
    Pow2Values();
    StraddleLargestZero(x, y);
    var n := 0x1_0000_0000 - (y - x);
    var p := Clz32(n);
    assert CrossReturned(x, y) == if p == 0 && x > 1 then -1 else p;
    Clz32Meaning(n, 0);
    Clz32Meaning(n, p);
  }

  /**
   * After the swap, for lo = x <= y = hi: d is the difference n and end the
   * signed reading the guard compares with. Within one half d is hi - lo and
   * end is hi, or negative above 2^31; across 2^31 the swap puts hi first,
   * so end is lo and d is 2^32 - (hi - lo).
   */
  predicate SignedEnds(x: int, y: int, d: int, end: int)
  {
    && x <= y
    && ((y < 0x8000_0000 && end == y && d == y - x)
       || (0x8000_0000 <= x && end < 0 && d == y - x)
       || (x < 0x8000_0000 <= y && end == x && d == 0x1_0000_0000 - (y - x)))
  }

  /** What the shared loops give, in the cases the signed comparisons of this copy lead to within one half. */
  lemma ReturnedOfLoops(x: int, y: int, d: int, end: int, prefix: int)
    requires !Straddles(x, y)
    requires SignedEnds(x, y, d, end) && InOrderOutcome(x, y, d, end, prefix)
    ensures prefix == Returned(x, y)
  {
    if end == y {
      assert !(0x8000_0000 <= x < y);
    } else if d == 0 {
      assert x == y;
      LargestOfEqual(x);
    } else {
      assert 0x8000_0000 <= x < y && y - x == d;
      assert Returned(x, y) == Clz32(d);
    }
  }

  /**
   * The swap on the signed readings a of x and b of y, with a <= b after
   * it: within one half x <= y, across 2^31 the address x is the higher one.
   */
  lemma SwapOutcome(x: int, y: int, a: int, b: int, d: int)
    requires 0 <= x < 0x1_0000_0000 && 0 <= y < 0x1_0000_0000
    requires Reading(x, a) && Reading(y, b) && a <= b && d == b - a
    ensures (x <= y && !Straddles(x, y) && SignedEnds(x, y, d, b))
         || (y < x && Straddles(y, x) && SignedEnds(y, x, d, b))
  {
  }

  /**
   * The first half of this copy's guess_prefix: signed_casting on both
   * addresses, the swap when the signed end is below the signed start, and
   * the difference n = end - start. Within one half the swap puts the
   * addresses in unsigned order; across 2^31 it puts the higher one first.
   */
  method SignedSwap(start: bv32, end: bv32) returns (s: bv32, e: bv32, d: int, b: int)
    ensures !Straddles(Value(Lo(start, end)), Value(Hi(start, end))) ==> s == Lo(start, end) && e == Hi(start, end)
    ensures Straddles(Value(Lo(start, end)), Value(Hi(start, end))) ==> s == Hi(start, end) && e == Lo(start, end)
    ensures SignedEnds(Value(Lo(start, end)), Value(Hi(start, end)), d, b)
  {
    ValueBounds(start);
    ValueBounds(end);
    Pow2Values();
    var x, y := Value(start), Value(end);
    var a := SignedCasting(x);
    b := SignedCasting(y);
    SignedReading(x, a);
    SignedReading(y, b);
    s, e := start, end;
    if b < a {
      s, e := end, start;
      a, b := b, a;
      x, y := y, x;
    }
    d := b - a;
    SwapOutcome(x, y, a, b, d);
  }

  /** PHP_INT_MAX of 64-bit PHP. */
  const INT_MAX := 0x7fff_ffff_ffff_ffff

  /**
   * What the correction loop's guard reads as broadcast(start, q) when start
   * is hi - 2^32, the negative reading of an address hi at or above 2^31.
   * For q from 0 to 32 the netmask is non-negative and below 2^32, so the
   * 64-bit `&` keeps the low 32 bits of start, which are hi's, and the
   * result is broadcast's expression on hi. For a negative q the `>= 0`
   * test keeps the mask at -1; not_operand(-1) inverts the 64 ones of
   * decbin(-1) into a string of 64 zeros, which is truthy, and gives 0; the
   * result is start itself, which sprintf('%u') prints as 2^64 + start and
   * `(int)` caps at PHP_INT_MAX.
   */
  function CrossBroadcast(hi: bv32, q: int): int
    requires q <= 32
  {
    if q < 0 then INT_MAX else Value(BroadcastWith(hi, PrefixArgMask(q)))
  }

  /** At hi's negative reading, broadcast reaches hi for a prefix from 1 on, is 1 at prefix 0 and PHP_INT_MAX below. */
  lemma CrossBroadcastValues(hi: bv32, q: int)
    requires Value(hi) >= 0x8000_0000 && q <= 32
    ensures 1 <= q ==> CrossBroadcast(hi, q) >= Value(hi)
    ensures q == 0 ==> CrossBroadcast(hi, q) == 1
    ensures q < 0 ==> CrossBroadcast(hi, q) == INT_MAX
  {
    if 1 <= q {
      BroadcastWithValue(hi, q);
      BlockLastAbove(Value(hi), q);
    } else if q == 0 {
      BroadcastAtNoPrefix(hi, 0);
      OnesZero();
      OnesSucc(0);
      ValueOnes(1);
    }
  }

  /**
   * The correction loop on a range across 2^31: start is hi's negative
   * reading and end is lo. A first pass at an estimate above 0 reaches hi,
   * which is above lo; at estimate 0 broadcast gives 1, and once lo is above
   * 1 the prefix drops to -1, where the guard reads PHP_INT_MAX.
   */
  method CrossNarrow(start: bv32, end: int, estimate: int) returns (prefix: int)
    requires 0 <= end < 0x8000_0000 <= Value(start)
    requires 0 <= estimate <= 31
    ensures prefix == (if estimate == 0 && end > 1 then -1 else estimate)
  {
    prefix := estimate;
    var n := 0;
    while end > n
      invariant prefix == estimate || (prefix == -1 && estimate == 0 && end > 1)
      invariant n != 0 ==> n == CrossBroadcast(start, prefix)
      invariant n == 0 ==> prefix == estimate
      decreases prefix + (if n == 0 then 2 else 1)
    {
      CrossBroadcastValues(start, prefix);
      if n > 0 {
        prefix := prefix - 1;
      }
      n := CrossBroadcast(start, prefix);
      CrossBroadcastValues(start, prefix);
    }
    CrossBroadcastValues(start, prefix);
  }

  /**
   * The second half of guess_prefix on a range across 2^31, from the swap
   * on: start is hi, end is lo and d = 2^32 - (hi - lo), which is never 0,
   * so the estimate and the correction loop run.
   */
  method CrossGuess(start: bv32, d: int, end: int) returns (prefix: int)
    requires 0 <= end < 0x8000_0000 <= Value(start)
    requires d == 0x1_0000_0000 - (Value(start) - end)
    ensures prefix == CrossReturned(end, Value(start))
  {
    ValueBounds(start);
    Pow2Values();
    var estimate := Estimate(d);
    prefix := CrossNarrow(start, end, estimate);
    assert CrossReturned(end, Value(start)) == if Clz32(d) == 0 && end > 1 then -1 else Clz32(d);
  }

  /**
   * guess_prefix on the two addresses ip2long gives, with signed_casting
   * applied to both. The source runs the same lines on every range; they
   * are two methods here because a range across 2^31 reaches broadcast with
   * a negative start, which the loop shared with the older copy never takes.
   */
  method GuessPrefixOf(start: bv32, end: bv32) returns (prefix: int)
    ensures prefix == Returned(Value(Lo(start, end)), Value(Hi(start, end)))
  {
    var s, e, d, b := SignedSwap(start, end);
    if Straddles(Value(Lo(start, end)), Value(Hi(start, end))) {
      ValueBounds(e);
      prefix := CrossGuess(s, d, b);
    } else {
      prefix := GuessInOrder(s, e, d, b);
      ReturnedOfLoops(Value(s), Value(e), d, b, prefix);
    }
  }

  /**
   * PHP's own ip2long, which this copy's guess_prefix calls on a text
   * argument: the address, or false (None) for text it cannot read. A
   * numeric argument is taken as it is.
   */
  function Long(x: Operand): (r: Option<bv32>)
    ensures r.Some? ==> r.value == AsLong(x)
    ensures x.Text? && r == None ==> AsLong(x) == 0
  {
    match x
    case Number(v) => Some(v)
    case Text(s) => Dotted.Parse(s)
  }

  /**
   * What this copy's guess_prefix returns for what ip2long gives on each
   * argument: Returned for two addresses; for one address y next to a false,
   * the designed answer for the range 0 to y; 32 for two falses.
   */
  function GuessOutcome(a: Option<bv32>, b: Option<bv32>): int
  {
    match (a, b)
    case (Some(x), Some(y)) => Returned(Value(Lo(x, y)), Value(Hi(x, y)))
    case (Some(x), None) => Largest(0, Value(x))
    case (None, Some(y)) => Largest(0, Value(y))
    case (None, None) => 32
  }

  /**
   * guess_prefix with the address v on one side and ip2long's false on the
   * other. false stays false through signed_casting, and the swap test
   * compares it as a boolean, so false ends up as start (v = 0 and false
   * compare equal and are not swapped either). n is v's signed reading minus
   * false, which counts as 0, and broadcast(false, q) reads false as the
   * address 0. Below 2^31 this is the shared path from 0 to v. From 2^31 on
   * n is negative: its bit 31 is v's and set, so the shift loop does not
   * run, and the guard reads the negative end and fails at once.
   */
  method FalseGuess(v: bv32) returns (prefix: int)
    ensures prefix == Largest(0, Value(v))
    ensures IsLargestCovering(0, Value(v), prefix)
  {
    ValueBounds(v);
    ValueZero();
    Pow2Values();
    var b := SignedCasting(Value(v));
    SignedReading(Value(v), b);
    var n := b;
    if n == 0 {
      LargestOfEqual(0);
      LargestIsLargestCovering(0, 0, 32);
      return 32;
    }
    if b > 0 {
      prefix := GuessInOrder(0, v, Value(v), b);
    } else {
      prefix := 0;
      StraddleLargestZero(0, Value(v));
    }
  }

  /**
   * guess_prefix(start, end): both arguments go through ip2long first; an
   * argument ip2long cannot read is false, which the rest of the function
   * compares as a boolean (FalseGuess).
   */
  method GuessPrefix(start: Operand, end: Operand) returns (prefix: int)
    ensures prefix == GuessOutcome(Long(start), Long(end))
    ensures Long(start).Some? && Long(end).Some? ==>
      prefix == Returned(Value(Lo(AsLong(start), AsLong(end))), Value(Hi(AsLong(start), AsLong(end))))
  {
    var a, b := Long(start), Long(end);
    if a.Some? && b.Some? {
      prefix := GuessPrefixOf(a.value, b.value);
    } else if a.Some? {
      prefix := FalseGuess(a.value);
    } else if b.Some? {
      prefix := FalseGuess(b.value);
    } else {
      prefix := 32;
    }
  }

  /**
   * An argument ip2long cannot read leaves guess_prefix with the designed
   * answer for the range from 0.0.0.0 to the other address, whichever side
   * it is on, and a single host for two of them; the number 0 instead goes
   * through the signed swap like any address.
   */
  lemma UnreadableMeaning(y: bv32)
    ensures GuessOutcome(None, Some(y)) == GuessOutcome(Some(y), None) == GuessFor(0, y)
    ensures IsLargestCovering(0, Value(y), GuessOutcome(None, Some(y)))
    ensures GuessOutcome(None, None) == 32
    ensures GuessOutcome(Some(0), Some(y)) == Returned(0, Value(y))
  {
    ValueZero();
    ValueBounds(y);
    LargestIsLargestCovering(0, Value(y), 0);
    assert Lo(0, y) == 0 && Hi(0, y) == y;
  }

  /**
   * guess_netmask: prefix2long of what guess_prefix returns, written as a
   * dotted quad by long2ip; prefix2long refuses -1 and its false is written
   * as 0.0.0.0.
   */
  method GuessNetmask(start: Operand, end: Operand) returns (mask: string)
    ensures var r := GuessOutcome(Long(start), Long(end));
      && (0 <= r ==> mask == Dotted.Format(PrefixMask(r)))
      && (r < 0 ==> mask == Dotted.Format(0))
  {
    var p := GuessPrefix(start, end);
    var r := Prefix2Long(Numeric(p));
    mask := Dotted.Format(OrZero(r));
  }

  lemma HighValues()
    ensures Value(TOP | 1) == Value(TOP) + 1 && Value(TOP | 2) == Value(TOP) + 2
  {
    OnesZero();
    OnesSucc(0);
    OnesSucc(1);
    ValueOnes(1);
    ValueOnes(2);
    ValueDisjoint(2, 1);
    ValueDisjoint(TOP, 1);
    ValueDisjoint(TOP, 2);
  }

  /** At a multiple b of 4, the /30 block at b + 1 is the narrowest that reaches b + 2. */
  lemma HighLargest(b: int)
    requires b >= 0 && b % 4 == 0
    ensures Largest(b + 1, b + 2) == 30
  {
    var k := b / 4;
    var x, y := b + 1, b + 2;
    assert Pow2(0) == 1 && Pow2(1) == 2 && Pow2(2) == 4;
    ModUnique(x, 1, x, 0);
    ModUnique(x, 2, 2 * k, 1);
    ModUnique(x, 4, k, 1);
    BlockHostBits(x, 32, 0);
    BlockHostBits(x, 31, 1);
    BlockHostBits(x, 30, 2);
    assert !Covers(x, y, 32) && !Covers(x, y, 31) && Covers(x, y, 30);
    assert LargestFrom(x, y, 32) == LargestFrom(x, y, 31) == LargestFrom(x, y, 30);
  }

  /**
   * 128.0.0.1 to 128.0.0.2: the estimate, which this copy returns, is 31,
   * but the /31 block at 128.0.0.1 ends there, and the answer the design
   * asks for is 30.
   */
  lemma HighHalfCounterexample(s: bv32, e: bv32)
    requires s == TOP | 1 && e == TOP | 2
    ensures !Straddles(Value(Lo(s, e)), Value(Hi(s, e)))
    ensures Returned(Value(Lo(s, e)), Value(Hi(s, e))) == 31
    ensures GuessFor(s, e) == 30
  {
    HighValues();
    ValueTopBit();
    Pow2Values();
    assert Lo(s, e) == s && Hi(s, e) == e;
    Clz32Meaning(1, 31);
    HighLargest(Value(TOP));
  }

  /**
   * 0.0.0.1 to 255.255.255.255, a range across 2^31 that only the /0 block
   * holds: the difference after the swap is 2, and its estimate 30 is kept
   * because broadcast at once reaches 255.255.255.255.
   */
  lemma CrossWholeCounterexample(s: bv32, e: bv32)
    requires s == 1 && e == FULL
    ensures Straddles(Value(Lo(s, e)), Value(Hi(s, e)))
    ensures Returned(Value(Lo(s, e)), Value(Hi(s, e))) == 30 && GuessFor(s, e) == 0
  {
    OnesValues();
    OnesZero();
    OnesSucc(0);
    ValueOnes(1);
    ValueOnes(32);
    Pow2Values();
    assert Pow2(1) == 2 && Pow2(2) == 4;
    assert Lo(s, e) == s && Hi(s, e) == e;
    CrossAt(Value(s), Value(e), 2, 30);
  }

  /**
   * 127.255.255.255 to 128.0.0.0: the difference after the swap is
   * 2^32 - 1, the estimate is 0, and since 127.255.255.255 is above
   * broadcast's 1 the loop goes on to -1.
   */
  lemma CrossMiddleCounterexample(s: bv32, e: bv32)
    requires s == 0x7FFF_FFFF && e == TOP
    ensures Straddles(Value(Lo(s, e)), Value(Hi(s, e)))
    ensures Returned(Value(Lo(s, e)), Value(Hi(s, e))) == -1 && GuessFor(s, e) == 0
  {
    OnesValues();
    ValueOnes(31);
    ValueTopBit();
    Pow2Values();
    assert Lo(s, e) == s && Hi(s, e) == e;
    CrossAt(Value(s), Value(e), 0xFFFF_FFFF, 0);
  }

  /**
   * "x" and 255.255.255.255: ip2long gives false for "x", and guess_prefix
   * returns 0, the /0 block; the number 0 in its place gives 31, since the
   * signed swap puts 255.255.255.255 first and the difference is 1.
   */
  lemma UnreadableCounterexample(z: bv32, e: bv32)
    requires z == 0 && e == FULL
    ensures GuessOutcome(Long(Text("x")), Long(Number(e))) == 0
    ensures GuessOutcome(Long(Number(z)), Long(Number(e))) == 31
  {
    UnreadableText();
    FullAt(e);
    UnreadableAt(z, e, 1, 31);
  }

  /** "x" is not a dotted quad. */
  lemma UnreadableText()
    ensures Dotted.Parse("x") == None
  {
    assert |Dotted.Fields("x")| != 4;
  }

  /** 255.255.255.255 is 2^32 - 1, whose distance 1 to 2^32 has 31 leading zeros. */
  lemma FullAt(e: bv32)
    requires e == FULL
    ensures Value(e) >= 0x8000_0000 && 1 == 0x1_0000_0000 - Value(e) && EstimateFor(1, 31)
  {
    OnesValues();
    ValueOnes(32);
    Pow2Values();
    assert Pow2(1) == 2;
  }

  /** For two addresses the outcome is Returned of their unsigned order. */
  lemma OutcomeOfSome(a: bv32, b: bv32)
    ensures GuessOutcome(Some(a), Some(b)) == Returned(Value(Lo(a, b)), Value(Hi(a, b)))
  {
  }

  /** The address y at 2^32 - n, n >= 1, next to false and next to the number z = 0. */
  lemma UnreadableAt(z: bv32, y: bv32, n: int, p: int)
    requires z == 0 && Value(y) >= 0x8000_0000 && n == 0x1_0000_0000 - Value(y) && EstimateFor(n, p)
    ensures GuessOutcome(None, Some(y)) == 0
    ensures GuessOutcome(Some(z), Some(y)) == p
  {
    ValueBounds(y);
    ValueZero();
    Pow2Values();
    var x, w := Value(Lo(z, y)), Value(Hi(z, y));
    assert x == 0 && w == Value(y);
    CrossAt(x, w, n, p);
    assert Returned(x, w) == p;
    OutcomeOfSome(z, y);
    assert GuessOutcome(Some(z), Some(y)) == p;
  }

  /** A range x < 2^31 <= y whose difference after the swap, n, has p leading zeros. */
  lemma CrossAt(x: int, y: int, n: int, p: int)
    requires 0 <= x < 0x8000_0000 <= y < 0x1_0000_0000
    requires n == 0x1_0000_0000 - (y - x) && EstimateFor(n, p)
    ensures Returned(x, y) == (if p == 0 && x > 1 then -1 else p)
    ensures Largest(x, y) == 0
  {
    Pow2Values();
    Clz32Meaning(n, p);
    assert Clz32(n) == p;
    assert CrossReturned(x, y) == if p == 0 && x > 1 then -1 else p;
    StraddleLargestZero(x, y);
  }
}
