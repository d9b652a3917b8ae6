/**
 * 32-bit patterns. Every bit position and width in this model is an `int`
 * (a prefix length, a loop counter); the patterns that depend on a width are
 * built by recursion on it (`Ones`, `Bit`), so no proof here converts between
 * integers and bit-vectors. Each recursive pattern sits behind a plain
 * function of the same meaning, and its recursion is used only through the
 * step lemmas next to it.
 */
module Bits32 {
  const FULL: bv32 := 0xFFFF_FFFF
  const TOP: bv32 := 0x8000_0000

  /** Shifts acc one place up and puts bit (0 or 1) into the lowest place. */
  function Push(acc: bv32, bit: bv32): bv32
  {
    (acc << 1) | bit
  }

  /** v shifted one place down: v without its lowest bit. */
  function Half(v: bv32): bv32
  {
    v >> 1
  }

  function OnesRec(k: nat): bv32
  {
    if k == 0 then 0 else Push(OnesRec(k - 1), 1)
  }

  /** The pattern whose low k bits are set (all 32 once k >= 32). */
  function Ones(k: nat): bv32
  {
    OnesRec(k)
  }

  function BitRec(k: nat): bv32
  {
    if k == 0 then 1 else Push(BitRec(k - 1), 0)
  }

  /** 2^k as a 32-bit pattern (0 once k >= 32): what PHP computes as 2 << (k - 1). */
  function Bit(k: nat): bv32
  {
    BitRec(k)
  }

  /** The netmask of a /p network: the top p bits set, the other 32 - p clear. */
  function PrefixMask(p: int): bv32
    requires 0 <= p <= 32
  {
    !Ones(32 - p)
  }

  /** h is of the form 2^k - 1. */
  predicate LowOnes(h: bv32)
  {
    h & (h + 1) == 0
  }

  lemma OnesZero()
    ensures Ones(0) == 0
  {
  }

  lemma OnesSucc(k: nat)
    ensures Ones(k + 1) == Push(Ones(k), 1)
  {
    assert OnesRec(k + 1) == Push(OnesRec(k), 1);
  }

  lemma BitZero()
    ensures Bit(0) == 1
  {
  }

  lemma BitSucc(k: nat)
    ensures Bit(k + 1) == Push(Bit(k), 0)
  {
    assert BitRec(k + 1) == Push(BitRec(k), 0);
  }

  // ---- single-step facts about Push, each proved by the bit-vector decision procedure

  lemma PushOneKeepsLowOnes(o: bv32)
    ensures LowOnes(o) ==> LowOnes(Push(o, 1))
  {
  }

  lemma PushOneGrows(o: bv32)
    ensures LowOnes(o) ==> o <= Push(o, 1)
  {
  }

  lemma PushOneGrowsBelowTop(o: bv32)
    ensures o < TOP ==> o < Push(o, 1)
  {
  }

  lemma PushOneSucc(o: bv32)
    ensures Push(o, 1) + 1 == Push(o + 1, 0)
  {
  }

  lemma PushFull()
    ensures Push(FULL, 1) == FULL
  {
  }

  // ---- Ones

  lemma {:induction false} OnesLowOnes(k: nat)
    ensures LowOnes(Ones(k))
  {
    if k == 0 {
      OnesZero();
    } else {
      OnesLowOnes(k - 1);
      OnesSucc(k - 1);
      PushOneKeepsLowOnes(Ones(k - 1));
    }
  }

  lemma OnesEight()
    ensures Ones(1) == 1 && Ones(2) == 3 && Ones(3) == 7 && Ones(4) == 0xF
    ensures Ones(5) == 0x1F && Ones(6) == 0x3F && Ones(7) == 0x7F && Ones(8) == 0xFF
  {
    OnesZero();
    OnesSucc(0);
    OnesSucc(1);
    OnesSucc(2);
    OnesSucc(3);
    OnesSucc(4);
    OnesSucc(5);
    OnesSucc(6);
    OnesSucc(7);
  }

  lemma OnesSixteen()
    ensures Ones(16) == 0xFFFF
  {
    OnesEight();
    OnesSucc(8);
    assert Ones(9) == 0x1FF;
    OnesSucc(9);
    assert Ones(10) == 0x3FF;
    OnesSucc(10);
    assert Ones(11) == 0x7FF;
    OnesSucc(11);
    assert Ones(12) == 0xFFF;
    OnesSucc(12);
    assert Ones(13) == 0x1FFF;
    OnesSucc(13);
    assert Ones(14) == 0x3FFF;
    OnesSucc(14);
    assert Ones(15) == 0x7FFF;
    OnesSucc(15);
  }

  lemma OnesTwentyFour()
    ensures Ones(24) == 0xFFFFFF
  {
    OnesSixteen();
    OnesSucc(16);
    assert Ones(17) == 0x1FFFF;
    OnesSucc(17);
    assert Ones(18) == 0x3FFFF;
    OnesSucc(18);
    assert Ones(19) == 0x7FFFF;
    OnesSucc(19);
    assert Ones(20) == 0xFFFFF;
    OnesSucc(20);
    assert Ones(21) == 0x1FFFFF;
    OnesSucc(21);
    assert Ones(22) == 0x3FFFFF;
    OnesSucc(22);
    assert Ones(23) == 0x7FFFFF;
    OnesSucc(23);
  }

  lemma OnesValues()
    ensures Ones(31) == 0x7FFF_FFFF
    ensures Ones(32) == FULL
  {
    OnesTwentyFour();
    OnesSucc(24);
    assert Ones(25) == 0x1FFFFFF;
    OnesSucc(25);
    assert Ones(26) == 0x3FFFFFF;
    OnesSucc(26);
    assert Ones(27) == 0x7FFFFFF;
    OnesSucc(27);
    assert Ones(28) == 0xFFFFFFF;
    OnesSucc(28);
    assert Ones(29) == 0x1FFFFFFF;
    OnesSucc(29);
    assert Ones(30) == 0x3FFFFFFF;
    OnesSucc(30);
    assert Ones(31) == 0x7FFFFFFF;
    OnesSucc(31);
  }

  /** Ones is monotone in the width. */
  lemma {:induction false} OnesMonotone(j: nat, k: nat)
    requires j <= k
    ensures Ones(j) <= Ones(k)
    decreases k - j
  {
    if j < k {
      OnesMonotone(j, k - 1);
      OnesLowOnes(k - 1);
      OnesSucc(k - 1);
      PushOneGrows(Ones(k - 1));
    }
  }

  /** Widths up to 31 leave bit 31 clear. */
  lemma OnesBelowTop(k: nat)
    requires k <= 31
    ensures Ones(k) < TOP
  {
    OnesMonotone(k, 31);
    OnesValues();
  }

  /** Below the top bit, Ones is strictly monotone in the width. */
  lemma OnesStrict(j: nat, k: nat)
    requires j < k <= 32
    ensures Ones(j) < Ones(k)
  {
    OnesMonotone(j, k - 1);
    OnesLowOnes(k - 1);
    OnesBelowTop(k - 1);
    OnesSucc(k - 1);
    PushOneGrowsBelowTop(Ones(k - 1));
  }

  lemma {:induction false} OnesFull(k: nat)
    requires 32 <= k
    ensures Ones(k) == FULL
  {
    if k == 32 {
      OnesValues();
    } else {
      OnesFull(k - 1);
      OnesSucc(k - 1);
      PushFull();
    }
  }

  /** Ones(k) + 1 is 2^k, wrapping to 0 at k = 32. */
  lemma {:induction false} OnesPlusOne(k: nat)
    ensures Ones(k) + 1 == Bit(k)
  {
    if k == 0 {
      OnesZero();
      BitZero();
    } else {
      OnesPlusOne(k - 1);
      OnesSucc(k - 1);
      BitSucc(k - 1);
      PushOneSucc(Ones(k - 1));
    }
  }

  // ---- netmasks as built by prefix2long

  lemma PushOneComplementStep(o: bv32, b: bv32)
    ensures o + 1 == b ==> !Push(o, 1) + b == !o
  {
  }

  /** Adding 2^(l-1) to the mask with the top 32 - l bits set sets one more bit. */
  lemma MaskGrowsByBit(l: nat)
    requires 1 <= l
    ensures !Ones(l) + Bit(l - 1) == !Ones(l - 1)
  {
    OnesPlusOne(l - 1);
    OnesSucc(l - 1);
    PushOneComplementStep(Ones(l - 1), Bit(l - 1));
  }

  // ---- windows of low bits

  lemma LowOnesNested(a: bv32, b: bv32)
    ensures LowOnes(a) && LowOnes(b) && a <= b ==> a & b == a
  {
  }

  /** The low j bits are among the low k bits. */
  lemma OnesNested(j: nat, k: nat)
    requires j <= k
    ensures Ones(j) & Ones(k) == Ones(j)
  {
    OnesLowOnes(j);
    OnesLowOnes(k);
    OnesMonotone(j, k);
    LowOnesNested(Ones(j), Ones(k));
  }

  lemma ClearUnderNested(m: bv32, a: bv32, b: bv32)
    ensures a & b == a && m & b == 0 ==> m & a == 0
  {
  }

  /** Clearing the low k bits clears every narrower window too. */
  lemma LowClearMonotone(m: bv32, j: nat, k: nat)
    requires j <= k
    ensures m & Ones(k) == 0 ==> m & Ones(j) == 0
  {
    OnesNested(j, k);
    ClearUnderNested(m, Ones(j), Ones(k));
  }

  lemma ComplementMeetsOnes(o: bv32)
    ensures (!o) & o == 0
  {
  }

  lemma ComplementMeetsPushOne(o: bv32)
    ensures LowOnes(o) && o < TOP ==> (!o) & Push(o, 1) != 0
  {
  }

  /**
   * c is the prefix length of m: the low 32 - c bits of m are clear and, unless c is 0,
   * the next bit up is set, so no wider window of low bits is clear.
   */
  predicate IsPrefixLength(m: bv32, c: int)
  {
    0 <= c <= 32 && m & Ones(32 - c) == 0 && (c > 0 ==> m & Ones(33 - c) != 0)
  }

  /** Every pattern has at most one prefix length. */
  lemma PrefixLengthUnique(m: bv32, c: int, d: int)
    requires IsPrefixLength(m, c) && IsPrefixLength(m, d)
    ensures c == d
  {
    if c < d {
      LowClearMonotone(m, 33 - d, 32 - c);
    } else if d < c {
      LowClearMonotone(m, 33 - c, 32 - d);
    }
  }

  /** A /p netmask has prefix length p. */
  lemma PrefixMaskLength(p: int)
    requires 0 <= p <= 32
    ensures IsPrefixLength(PrefixMask(p), p)
  {
    var k := 32 - p;
    ComplementMeetsOnes(Ones(k));
    if k < 32 {
      OnesLowOnes(k);
      OnesBelowTop(k);
      OnesSucc(k);
      ComplementMeetsPushOne(Ones(k));
    }
  }
}
