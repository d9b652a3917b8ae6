/**
 * The expected values of the repository's test script, as facts about the
 * model: ip2long of 222.222.222.222, a rejected address with trailing
 * junk, the /26 netmask in both directions, the /26 network and broadcast
 * of 222.222.222.222, and prefix 26 guessed for 222.222.222.193 to
 * 222.222.222.229 by the design and by both copies.
 */
module Scenarios {
  import opened Wrappers
  import opened Bits32
  import opened Unsigned
  import opened Subnet
  import opened Logic
  import opened Range
  import Dotted
  import Trunk

  /** The dotted text of v, given the texts of its four octets. */
  lemma FormatIs(v: bv32, t3: string, t2: string, t1: string, t0: string)
    requires Dotted.OctetText(Dotted.Octet3(v)) == t3 && Dotted.OctetText(Dotted.Octet2(v)) == t2
    requires Dotted.OctetText(Dotted.Octet1(v)) == t1 && Dotted.OctetText(Dotted.Octet0(v)) == t0
    ensures Dotted.Format(v) == (t3 + ".") + ((t2 + ".") + ((t1 + ".") + t0))
  {
    var p := Dotted.Texts(v);
    assert p == [t3, t2, t1, t0];
    assert p[1..] == [t2, t1, t0] && p[1..][1..] == [t1, t0] && p[1..][1..][1..] == [t0];
    assert Dotted.Join(p[1..][1..]) == (t1 + ".") + t0;
    assert Dotted.Join(p[1..]) == (t2 + ".") + ((t1 + ".") + t0);
  }

  lemma Text222()
    ensures Dotted.OctetText(0xDE) == "222"
  {
  }

  lemma Text255()
    ensures Dotted.OctetText(0xFF) == "255"
  {
  }

  lemma Text192()
    ensures Dotted.OctetText(0xC0) == "192"
  {
  }

  lemma Text193()
    ensures Dotted.OctetText(0xC1) == "193"
  {
  }

  lemma Text229()
    ensures Dotted.OctetText(0xE5) == "229"
  {
  }

  /** The dotted text of 222.222.222.x, for the octet x written t. */
  lemma FormatInBlock(v: bv32, x: Dotted.Octet, t: string)
    requires v == 0xDEDE_DE00 | x as bv32 && Dotted.OctetText(x) == t
    ensures Dotted.Format(v) == ("222" + ".") + (("222" + ".") + (("222" + ".") + t))
  {
    assert Dotted.Octet3(v) == 0xDE && Dotted.Octet2(v) == 0xDE && Dotted.Octet1(v) == 0xDE;
    assert Dotted.Octet0(v) == x;
    Text222();
    FormatIs(v, "222", "222", "222", t);
  }

  lemma AddressText()
    ensures Dotted.Format(0xDEDE_DEDE) == "222.222.222.222"
  {
    Text222();
    FormatInBlock(0xDEDE_DEDE, 0xDE, "222");
  }

  lemma Ip2LongExample()
    ensures Ip2Long("222.222.222.222") == 3739147998
  {
    AddressText();
    Ip2LongMeaning("", 0xDEDE_DEDE);
  }

  lemma StripExample()
    ensures Dotted.Strip("1.1.1.1 :") == "1.1.1.1:"
  {
    assert "1.1.1.1 :" == "1.1.1.1" + " :";
    Dotted.StripAppend("1.1.1.1", " :");
    Dotted.StripClean("1.1.1.1");
    assert Dotted.Strip(" :") == ":";
  }

  lemma FieldsExample()
    ensures Dotted.Fields("1.1.1.1:") == ["1", "1", "1", "1:"]
  {
    var parts := ["1", "1", "1", "1:"];
    assert Dotted.Join(parts) == "1.1.1.1:";
    Dotted.FieldsJoin(parts);
  }

  /** "1.1.1.1 :" is rejected: without its space the last field is "1:", which is not an octet. */
  lemma InvalidExample()
    ensures !ValidIpv4Addr("1.1.1.1 :")
  {
    StripExample();
    FieldsExample();
    assert Dotted.ParseOctet("1:") == None;
  }

  lemma MaskText()
    ensures Dotted.Format(0xFFFF_FFC0) == "255.255.255.192"
  {
    var v: bv32 := 0xFFFF_FFC0;
    assert Dotted.Octet3(v) == 0xFF && Dotted.Octet2(v) == 0xFF && Dotted.Octet1(v) == 0xFF;
    assert Dotted.Octet0(v) == 0xC0;
    Text255();
    Text192();
    FormatIs(v, "255", "255", "255", "192");
  }

  /** prefix2mask(26) is 255.255.255.192, and mask2prefix reads 26 back from it. */
  lemma MaskExample()
    ensures PrefixValue(Numeric(26)) == Some(0xFFFF_FFC0)
    ensures Dotted.Format(0xFFFF_FFC0) == "255.255.255.192"
    ensures Ip2Long("255.255.255.192") == 0xFFFF_FFC0
    ensures IsPrefixLength(0xFFFF_FFC0, 26)
    ensures forall c :: IsPrefixLength(0xFFFF_FFC0, c) ==> c == 26
  {
    OnesEight();
    MaskText();
    Ip2LongMeaning("", 0xFFFF_FFC0);
    PrefixMaskLength(26);
    forall c | IsPrefixLength(0xFFFF_FFC0, c)
      ensures c == 26
    {
      PrefixLengthUnique(0xFFFF_FFC0, c, 26);
    }
  }

  lemma NetworkValue()
    ensures Network(Text("222.222.222.222"), Number(26)) == 0xDEDE_DEC0
  {
    Ip2LongExample();
    NetmaskOfPrefix(26);
    OnesEight();
  }

  lemma BroadcastValue()
    ensures Broadcast(Text("222.222.222.222"), Number(26)) == 0xDEDE_DEFF
  {
    Ip2LongExample();
    NetmaskOfPrefix(26);
    OnesEight();
    BroadcastAtPrefix(0xDEDE_DEDE, 26);
  }

  lemma NetworkText()
    ensures Dotted.Format(0xDEDE_DEC0) == "222.222.222.192"
  {
    Text192();
    FormatInBlock(0xDEDE_DEC0, 0xC0, "192");
  }

  lemma BroadcastText()
    ensures Dotted.Format(0xDEDE_DEFF) == "222.222.222.255"
  {
    Text255();
    FormatInBlock(0xDEDE_DEFF, 0xFF, "255");
  }

  /** network and broadcast of 222.222.222.222 with mask 26 are 222.222.222.192 and 222.222.222.255. */
  lemma BlockExample()
    ensures Dotted.Format(Network(Text("222.222.222.222"), Number(26))) == "222.222.222.192"
    ensures Dotted.Format(Broadcast(Text("222.222.222.222"), Number(26))) == "222.222.222.255"
  {
    NetworkValue();
    BroadcastValue();
    NetworkText();
    BroadcastText();
  }

  lemma StartText()
    ensures Dotted.Format(0xDEDE_DEC1) == "222.222.222.193"
  {
    Text193();
    FormatInBlock(0xDEDE_DEC1, 0xC1, "193");
  }

  lemma EndText()
    ensures Dotted.Format(0xDEDE_DEE5) == "222.222.222.229"
  {
    Text229();
    FormatInBlock(0xDEDE_DEE5, 0xE5, "229");
  }

  lemma RangeStart()
    ensures Ip2Long("222.222.222.193") == 0xDEDE_DEC1
  {
    StartText();
    Ip2LongMeaning("", 0xDEDE_DEC1);
  }

  lemma RangeEnd()
    ensures Ip2Long("222.222.222.229") == 0xDEDE_DEE5
  {
    EndText();
    Ip2LongMeaning("", 0xDEDE_DEE5);
  }

  lemma ValueOne()
    ensures Value(1) == 1
  {
    OnesEight();
    ValueOnes(1);
  }

  lemma ValueFour()
    ensures Value(4) == 4
  {
    OnesEight();
    ValueOnes(2);
    ValueOnes(3);
    ValueDisjoint(3, 4);
  }

  lemma ValueThirtyTwo()
    ensures Value(0x20) == 32
  {
    OnesEight();
    ValueOnes(5);
    ValueOnes(6);
    ValueDisjoint(0x1F, 0x20);
  }

  lemma ValueThirtySeven()
    ensures Value(0x25) == 37
  {
    ValueOne();
    ValueFour();
    ValueThirtyTwo();
    ValueDisjoint(4, 1);
    ValueDisjoint(0x20, 5);
  }

  /** 222.222.222.192 is a multiple of 64. */
  lemma BaseAligned()
    ensures Value(0xDEDE_DEC0) % 64 == 0
  {
    OnesEight();
    ValueLowBits(0xDEDE_DEC0, 6);
    ValueZero();
  }

  /** 222.222.222.192 lies in the upper half of the address space. */
  lemma BaseHigh()
    ensures Pow2(31) <= Value(0xDEDE_DEC0) < Pow2(32)
  {
    ValueWindow(0xDEDE_DEC0, TOP);
    ValueTopBit();
    ValueBounds(0xDEDE_DEC0);
    ValueBounds(0xDEDE_DEC0 & !TOP);
  }

  /** 222.222.222.193 and 222.222.222.229 are 1 and 37 above 222.222.222.192. */
  lemma RangeValues()
    ensures Value(0xDEDE_DEC1) == Value(0xDEDE_DEC0) + 1
    ensures Value(0xDEDE_DEE5) == Value(0xDEDE_DEC0) + 37
  {
    ValueOne();
    ValueThirtySeven();
    ValueDisjoint(0xDEDE_DEC0, 1);
    ValueDisjoint(0xDEDE_DEC0, 0x25);
  }

  /** Within a block of 64 starting at b, the range from b + 1 to b + 37 fits /26 and nothing narrower. */
  lemma GuessNumbers(b: int)
    requires b >= 0 && b % 64 == 0
    ensures Largest(b + 1, b + 37) == 26
  {
    var k := b / 64;
    var x, y := b + 1, b + 37;
    assert Pow2(0) == 1 && Pow2(1) == 2 && Pow2(2) == 4 && Pow2(3) == 8;
    assert Pow2(4) == 16 && Pow2(5) == 32 && Pow2(6) == 64;
    ModUnique(x, 1, x, 0);
    ModUnique(x, 2, 32 * k, 1);
    ModUnique(x, 4, 16 * k, 1);
    ModUnique(x, 8, 8 * k, 1);
    ModUnique(x, 16, 4 * k, 1);
    ModUnique(x, 32, 2 * k, 1);
    ModUnique(x, 64, k, 1);
    BlockHostBits(x, 32, 0);
    BlockHostBits(x, 31, 1);
    BlockHostBits(x, 30, 2);
    BlockHostBits(x, 29, 3);
    BlockHostBits(x, 28, 4);
    BlockHostBits(x, 27, 5);
    BlockHostBits(x, 26, 6);
    assert !Covers(x, y, 32) && !Covers(x, y, 31) && !Covers(x, y, 30);
    assert !Covers(x, y, 29) && !Covers(x, y, 28) && !Covers(x, y, 27);
    assert Covers(x, y, 26);
    assert LargestFrom(x, y, 32) == LargestFrom(x, y, 31) == LargestFrom(x, y, 30);
    assert LargestFrom(x, y, 30) == LargestFrom(x, y, 29) == LargestFrom(x, y, 28);
    assert LargestFrom(x, y, 28) == LargestFrom(x, y, 27) == LargestFrom(x, y, 26);
  }

  /** The same for two patterns 1 and 37 above such a block start, in the upper half. */
  lemma GuessAt(s: bv32, e: bv32, b: int)
    requires b >= 0 && b % 64 == 0 && Pow2(31) <= b && b + 37 < Pow2(32)
    requires Value(s) == b + 1 && Value(e) == b + 37
    ensures GuessFor(s, e) == 26
    ensures !Straddles(Value(Lo(s, e)), Value(Hi(s, e)))
    ensures Trunk.Returned(Value(Lo(s, e)), Value(Hi(s, e))) == 26
  {
    assert Lo(s, e) == s && Hi(s, e) == e;
    Pow2Values();
    GuessNumbers(b);
    assert Pow2(5) == 32 && Pow2(6) == 64;
    assert EstimateFor(36, 26);
    Clz32Meaning(36, 26);
  }

  /**
   * guess_prefix(222.222.222.193, 222.222.222.229) is 26: the design's
   * answer, and what the later copy returns for this range above 2^31,
   * since there the estimate clz32(36) happens to be the answer already;
   * guess_netmask gives 255.255.255.192.
   */
  lemma GuessExample(s: bv32, e: bv32)
    requires s == Ip2Long("222.222.222.193") && e == Ip2Long("222.222.222.229")
    ensures GuessFor(s, e) == 26
    ensures !Straddles(Value(Lo(s, e)), Value(Hi(s, e)))
    ensures Trunk.Returned(Value(Lo(s, e)), Value(Hi(s, e))) == 26
    ensures Dotted.Format(PrefixMask(GuessFor(s, e))) == "255.255.255.192"
  {
    RangeStart();
    RangeEnd();
    BaseAligned();
    BaseHigh();
    RangeValues();
    ValueBounds(e);
    GuessAt(s, e, Value(0xDEDE_DEC0));
    OnesEight();
    MaskText();
  }
}
