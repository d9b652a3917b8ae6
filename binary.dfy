/**
 * PHP's decbin and bindec on 32-bit patterns, and the complement within the
 * bit length of a value that not_operand computes with them.
 */
module Binary {
  import opened Bits32

  /** The digit decbin writes for the lowest bit of b (b is 0 or 1). */
  function DigitChar(b: bv32): char
  {
    if b == 0 then '0' else '1'
  }

  /** The bit bindec reads from a digit. */
  function DigitValue(c: char): bv32
  {
    if c == '1' then 1 else 0
  }

  function DecBinRec(v: bv32): (s: string)
    ensures 1 <= |s|
    decreases v
  {
    if Half(v) == 0 then [DigitChar(v)] else DecBinRec(Half(v)) + [DigitChar(v & 1)]
  }

  /** decbin(v): the binary digits of v, most significant first, "0" for zero. */
  function DecBin(v: bv32): (s: string)
    ensures 1 <= |s|
  {
    DecBinRec(v)
  }

  function BinDecRec(s: string): bv32
  {
    if s == [] then 0 else Push(BinDecRec(s[..|s| - 1]), DigitValue(s[|s| - 1]))
  }

  /** bindec(s): the digits of s read as a binary number, most significant first. */
  function BinDec(s: string): bv32
  {
    BinDecRec(s)
  }

  /** What not_operand appends for one digit of decbin: a '0' digit is falsy in PHP, so it gives 1. */
  function FlipDigit(c: char): char
  {
    if c == '0' then '1' else '0'
  }

  function FlipRec(s: string): (r: string)
    ensures |r| == |s|
  {
    if s == [] then [] else FlipRec(s[..|s| - 1]) + [FlipDigit(s[|s| - 1])]
  }

  /** The digit string not_operand builds: every digit inverted. */
  function Flip(s: string): (r: string)
    ensures |r| == |s|
  {
    FlipRec(s)
  }

  function BitLengthRec(v: bv32): nat
    decreases v
  {
    if Half(v) == 0 then 1 else BitLengthRec(Half(v)) + 1
  }

  /** The number of binary digits of v, one for zero. */
  function BitLength(v: bv32): nat
  {
    BitLengthRec(v)
  }

  /** The complement of v within its own bit length. */
  function BitLengthNot(v: bv32): bv32
  {
    Ones(BitLength(v)) ^ v
  }

  // ---- unfolding steps

  lemma BitLengthStep(v: bv32)
    ensures Half(v) == 0 ==> BitLength(v) == 1
    ensures Half(v) != 0 ==> BitLength(v) == BitLength(Half(v)) + 1
  {
  }

  lemma DecBinStep(v: bv32)
    ensures Half(v) == 0 ==> DecBin(v) == [DigitChar(v)]
    ensures Half(v) != 0 ==> DecBin(v) == DecBin(Half(v)) + [DigitChar(v & 1)]
  {
    assert DecBinRec(v) == if Half(v) == 0 then [DigitChar(v)] else DecBinRec(Half(v)) + [DigitChar(v & 1)];
  }

  lemma BinDecSnoc(s: string, c: char)
    ensures BinDec(s + [c]) == Push(BinDec(s), DigitValue(c))
  {
    assert (s + [c])[..|s|] == s;
  }

  lemma BinDecEmpty()
    ensures BinDec([]) == 0
  {
  }

  lemma FlipSnoc(t: string, c: char)
    ensures Flip(t + [c]) == Flip(t) + [FlipDigit(c)]
  {
    assert (t + [c])[..|t|] == t;
  }

  lemma FlipOne(c: char)
    ensures Flip([c]) == [FlipDigit(c)]
  {
    FlipSnoc([], c);
    assert [] + [c] == [c];
  }

  // ---- decbin writes BitLength(v) digits

  lemma {:induction false} DecBinLength(v: bv32)
    ensures |DecBin(v)| == BitLength(v)
    decreases BitLength(v)
  {
    BitLengthStep(v);
    DecBinStep(v);
    if Half(v) != 0 {
      DecBinLength(Half(v));
    }
  }

  // ---- how many digits: v fits in BitLength(v) bits and needs all of them

  lemma FitsShift(v: bv32, o: bv32)
    ensures Half(v) & !o == 0 ==> v & !Push(o, 1) == 0
  {
  }

  lemma ShiftFits(v: bv32, o: bv32)
    ensures v & !Push(o, 1) == 0 ==> Half(v) & !o == 0
  {
  }

  lemma FitsOneBit(v: bv32)
    ensures Half(v) != 0 ==> v & !1 != 0
  {
  }

  lemma FitsOneDigit(v: bv32)
    ensures Half(v) == 0 ==> v & !1 == 0
  {
  }

  /** v fits in its own bit length: no bit at or above position BitLength(v) is set. */
  lemma {:induction false} BitLengthFits(v: bv32)
    ensures v & !Ones(BitLength(v)) == 0
    decreases BitLength(v)
  {
    BitLengthStep(v);
    if Half(v) != 0 {
      var k := BitLength(Half(v));
      BitLengthFits(Half(v));
      OnesSucc(k);
      FitsShift(v, Ones(k));
    } else {
      OnesZero();
      OnesSucc(0);
      FitsOneDigit(v);
    }
  }

  /** A value that fits in k >= 1 bits has at most k digits. */
  lemma {:induction false} BitLengthAtMost(v: bv32, k: nat)
    requires 1 <= k
    ensures v & !Ones(k) == 0 ==> BitLength(v) <= k
    decreases BitLength(v)
  {
    BitLengthStep(v);
    if Half(v) != 0 && v & !Ones(k) == 0 {
      OnesSucc(k - 1);
      if k == 1 {
        OnesZero();
        FitsOneBit(v);
      } else {
        ShiftFits(v, Ones(k - 1));
        BitLengthAtMost(Half(v), k - 1);
      }
    }
  }

  /** decbin writes between 1 and 32 digits. */
  lemma BitLengthRange(v: bv32)
    ensures 1 <= BitLength(v) <= 32
  {
    BitLengthStep(v);
    OnesValues();
    BitLengthAtMost(v, 32);
  }

  lemma LeadingShift(v: bv32, o: bv32)
    ensures Half(v) & !o != 0 ==> v & !Push(o, 1) != 0
  {
  }

  lemma LeadingOneDigit(v: bv32)
    ensures v != 0 ==> v & !0 != 0
  {
  }

  /** A non-zero v needs all of its digits: some bit at or above position BitLength(v) - 1 is set. */
  lemma {:induction false} BitLengthLeading(v: bv32)
    ensures v != 0 ==> v & !Ones(BitLength(v) - 1) != 0
    decreases BitLength(v)
  {
    BitLengthStep(v);
    if Half(v) != 0 {
      var k := BitLength(Half(v));
      BitLengthLeading(Half(v));
      OnesSucc(k - 1);
      LeadingShift(v, Ones(k - 1));
    } else {
      OnesZero();
      LeadingOneDigit(v);
    }
  }

  // ---- bindec undoes decbin

  lemma Recompose(v: bv32)
    ensures Push(Half(v), v & 1) == v
  {
  }

  lemma DigitOfLowBit(v: bv32)
    ensures DigitValue(DigitChar(v & 1)) == v & 1
  {
    assert v & 1 == 0 || v & 1 == 1;
  }

  lemma DigitOfSmall(v: bv32)
    ensures Half(v) == 0 ==> Push(0, DigitValue(DigitChar(v))) == v
  {
  }

  /** bindec undoes decbin. */
  lemma {:induction false} BinDecDecBin(v: bv32)
    ensures BinDec(DecBin(v)) == v
    decreases BitLength(v)
  {
    BitLengthStep(v);
    DecBinStep(v);
    if Half(v) != 0 {
      BinDecDecBin(Half(v));
      BinDecSnoc(DecBin(Half(v)), DigitChar(v & 1));
      DigitOfLowBit(v);
      Recompose(v);
    } else {
      BinDecEmpty();
      BinDecSnoc([], DigitChar(v));
      assert [] + [DigitChar(v)] == DecBin(v);
      DigitOfSmall(v);
    }
  }

  // ---- inverting the digits

  lemma FlipLowBit(a: bv32, o: bv32, f: bv32, v: bv32)
    requires a == Push(o, 1) && f == o ^ Half(v)
    ensures a ^ v == Push(f, 1 ^ (v & 1))
  {
  }

  lemma LowDigitFlip(v: bv32)
    ensures DigitValue(FlipDigit(DigitChar(v & 1))) == 1 ^ (v & 1)
  {
    assert v & 1 == 0 || v & 1 == 1;
  }

  lemma SmallDigitFlip(v: bv32)
    ensures Half(v) == 0 ==> Push(0, DigitValue(FlipDigit(DigitChar(v)))) == 1 ^ v
  {
  }

  /** One more digit of decbin(v): its inversion is read back as one more pushed bit. */
  lemma FlipDecBinUnfold(v: bv32)
    requires Half(v) != 0
    ensures BinDec(Flip(DecBin(v))) == Push(BinDec(Flip(DecBin(Half(v)))), 1 ^ (v & 1))
  {
    var c := DigitChar(v & 1);
    DecBinStep(v);
    FlipSnoc(DecBin(Half(v)), c);
    BinDecSnoc(Flip(DecBin(Half(v))), FlipDigit(c));
    LowDigitFlip(v);
  }

  /** The single digit of a small v, inverted and read back. */
  lemma FlipDecBinSmall(v: bv32)
    requires Half(v) == 0
    ensures BinDec(Flip(DecBin(v))) == 1 ^ v
  {
    var c := DigitChar(v);
    DecBinStep(v);
    FlipOne(c);
    BinDecEmpty();
    BinDecSnoc([], FlipDigit(c));
    assert [] + [FlipDigit(c)] == [FlipDigit(c)];
    SmallDigitFlip(v);
  }

  lemma OnesAtLength(v: bv32)
    requires Half(v) != 0
    ensures Ones(BitLength(v)) == Push(Ones(BitLength(Half(v))), 1)
  {
    BitLengthStep(v);
    OnesSucc(BitLength(Half(v)));
  }

  /** The bit-length complement of v extends that of v without its lowest bit by one inverted bit. */
  lemma BitLengthNotStep(v: bv32)
    requires Half(v) != 0
    ensures BitLengthNot(v) == Push(BitLengthNot(Half(v)), 1 ^ (v & 1))
  {
    OnesAtLength(v);
    BitLengthNotPushed(v, Ones(BitLength(v)), Ones(BitLength(Half(v))), BitLengthNot(Half(v)));
  }

  lemma BitLengthNotPushed(v: bv32, a: bv32, o: bv32, f: bv32)
    requires a == Ones(BitLength(v)) && f == BitLengthNot(Half(v))
    requires a == Push(o, 1) && f == o ^ Half(v)
    ensures BitLengthNot(v) == Push(BitLengthNot(Half(v)), 1 ^ (v & 1))
  {
    FlipLowBit(a, o, f, v);
  }

  lemma BitLengthNotOne(v: bv32)
    requires Half(v) == 0
    ensures BitLengthNot(v) == 1 ^ v
  {
    BitLengthStep(v);
    OnesZero();
    OnesSucc(0);
  }

  /** Inverting the digits of decbin(v) and reading them back gives the bit-length complement. */
  lemma {:induction false} FlipDecBin(v: bv32)
    ensures BinDec(Flip(DecBin(v))) == BitLengthNot(v)
    decreases BitLength(v)
  {
    BitLengthStep(v);
    if Half(v) != 0 {
      FlipDecBin(Half(v));
      FlipDecBinUnfold(v);
      BitLengthNotStep(v);
    } else {
      FlipDecBinSmall(v);
      BitLengthNotOne(v);
    }
  }

  /** The inverted digits are the single digit "0" exactly when v is 1. */
  lemma FlipDecBinIsZero(v: bv32)
    ensures Flip(DecBin(v)) == "0" <==> v == 1
  {
    DecBinStep(v);
    if Half(v) != 0 {
      DecBinLength(Half(v));
      BitLengthRange(Half(v));
      assert |Flip(DecBin(v))| == |DecBin(Half(v))| + 1;
      assert v != 1;
    } else {
      FlipOne(DigitChar(v));
    }
  }

  // ---- the bit-length complement

  lemma LowOnesXorIsSub(o: bv32, v: bv32)
    ensures LowOnes(o) && v & !o == 0 ==> o ^ v == o - v
  {
  }

  /** The bit-length complement is 2^n - 1 - v, where n is the number of digits of v. */
  lemma BitLengthNotArithmetic(v: bv32)
    ensures BitLengthNot(v) == Ones(BitLength(v)) - v
  {
    BitLengthFits(v);
    OnesLowOnes(BitLength(v));
    LowOnesXorIsSub(Ones(BitLength(v)), v);
  }

  lemma FitsBelowTop(v: bv32, o: bv32)
    ensures v & !o == 0 && o < TOP ==> v & TOP == 0
  {
  }

  /** A value with bit 31 set has 32 digits. */
  lemma TopBitLength(v: bv32)
    requires v & TOP != 0
    ensures BitLength(v) == 32
  {
    BitLengthRange(v);
    BitLengthFits(v);
    var n := BitLength(v);
    if n <= 31 {
      OnesBelowTop(n);
      FitsBelowTop(v, Ones(n));
    }
  }

  lemma FullXor(v: bv32)
    ensures FULL ^ v == !v
    ensures FULL ^ v == FULL - v
  {
  }

  /** When bit 31 is set, the bit-length complement is the full 32-bit NOT, 0xFFFFFFFF - v. */
  lemma BitLengthNotFull(v: bv32)
    requires v & TOP != 0
    ensures BitLengthNot(v) == !v
    ensures BitLengthNot(v) == FULL - v
  {
    TopBitLength(v);
    OnesValues();
    FullXor(v);
  }

  lemma BitLengthNotSmall()
    ensures BitLengthNot(0) == 1
    ensures BitLengthNot(1) == 0
  {
    BitLengthStep(0);
    BitLengthStep(1);
    OnesZero();
    OnesSucc(0);
  }
}
