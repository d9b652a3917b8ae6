/**
 * The network and broadcast address of an address under a /p netmask, as
 * the design intends them: the address with its 32 - p host bits cleared,
 * and with them all set.
 */
module Subnet {
  import opened Bits32

  /** The network address of a in its /p block. */
  function NetworkOf(a: bv32, p: int): bv32
    requires 0 <= p <= 32
  {
    a & PrefixMask(p)
  }

  /** The broadcast address of a in its /p block. */
  function BroadcastOf(a: bv32, p: int): bv32
    requires 0 <= p <= 32
  {
    NetworkOf(a, p) | Ones(32 - p)
  }

  // ---- facts about one pattern o of low ones, proved by the bit-vector decision procedure

  lemma ClearBelow(a: bv32, o: bv32)
    ensures a & !o <= a
  {
  }

  lemma ClearClears(a: bv32, o: bv32)
    ensures (a & !o) & o == 0
  {
  }

  lemma ClearTwice(a: bv32, o: bv32)
    ensures (a & !o) & !o == a & !o
  {
  }

  lemma SetAbove(a: bv32, o: bv32)
    ensures a <= (a & !o) | o
  {
  }

  lemma SetSets(a: bv32, o: bv32)
    ensures ((a & !o) | o) & o == o
  {
  }

  lemma SameBlockBits(lo: bv32, hi: bv32, o: bv32)
    ensures LowOnes(o) && lo <= hi && hi & !o == lo & !o ==> hi <= (lo & !o) | o
  {
  }

  lemma NoOnesNoBits(a: bv32)
    ensures (a & !0) | 0 == a
  {
  }

  lemma AllOnes(a: bv32)
    ensures (a & !FULL) | FULL == FULL
  {
  }

  // ---- the block of a

  /** The network address has no host bits and lies at or below the address. */
  lemma NetworkOfBounds(a: bv32, p: int)
    requires 0 <= p <= 32
    ensures NetworkOf(a, p) & Ones(32 - p) == 0
    ensures NetworkOf(a, p) <= a
  {
    ClearClears(a, Ones(32 - p));
    ClearBelow(a, Ones(32 - p));
  }

  /** Taking the network address twice changes nothing. */
  lemma NetworkOfIdempotent(a: bv32, p: int)
    requires 0 <= p <= 32
    ensures NetworkOf(NetworkOf(a, p), p) == NetworkOf(a, p)
  {
    ClearTwice(a, Ones(32 - p));
  }

  /** The broadcast address has every host bit set. */
  lemma BroadcastOfHostBits(a: bv32, p: int)
    requires 0 <= p <= 32
    ensures BroadcastOf(a, p) & Ones(32 - p) == Ones(32 - p)
  {
    SetSets(a, Ones(32 - p));
  }

  /** The broadcast address lies at or above the address. */
  lemma BroadcastOfAbove(a: bv32, p: int)
    requires 0 <= p <= 32
    ensures a <= BroadcastOf(a, p)
  {
    SetAbove(a, Ones(32 - p));
  }

  /** A /32 block is the address alone; the /0 block is the whole address space. */
  lemma BroadcastOfEnds(a: bv32)
    ensures BroadcastOf(a, 32) == a
    ensures BroadcastOf(a, 0) == FULL
  {
    OnesZero();
    NoOnesNoBits(a);
    OnesValues();
    AllOnes(a);
  }

  /** An address hi at or above lo with the same /p network address is in lo's /p block. */
  lemma SameBlock(lo: bv32, hi: bv32, p: int)
    requires 0 <= p <= 32 && lo <= hi
    ensures NetworkOf(hi, p) == NetworkOf(lo, p) ==> hi <= BroadcastOf(lo, p)
  {
    OnesLowOnes(32 - p);
    SameBlockBits(lo, hi, Ones(32 - p));
  }
}
