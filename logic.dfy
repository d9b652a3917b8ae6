/**
 * The operations the two copies of IPCALCLogic share: not_operand,
 * ip2long, valid_ipv4_addr, prefix2long, long2prefix, network and
 * broadcast. Values are 32-bit patterns; PHP's `false` is None, and where
 * the source goes on to use a `false` in `&`, `|` or decbin it acts as 0.
 */
module Logic {
  import opened Wrappers
  import opened Bits32
  import opened Binary
  import opened Subnet
  import Dotted

  /** A prefix argument: a number PHP's is_numeric accepts, or anything else. */
  datatype Scalar = Numeric(n: int) | NonNumeric(s: string)

  /** An address or mask argument: dotted text, or a number (an unsigned 32-bit value). */
  datatype Operand = Text(s: string) | Number(v: bv32)

  /** A PHP `false` where a number is used in `&`, `|` or decbin: 0. */
  function OrZero(x: Option<bv32>): bv32
  {
    if x.Some? then x.value else 0
  }

  /** PHP's truth value of a string: false only for "" and "0". */
  predicate Truthy(z: string)
  {
    z != "" && z != "0"
  }

  // ---- not_operand

  /** What not_operand returns: the bit-length complement of v, or false when that is the string "0". */
  function NotOperandValue(v: bv32): Option<bv32>
  {
    if v == 1 then None else Some(BitLengthNot(v))
  }

  /** not_operand: the digits of decbin(v), each inverted, read back with bindec. */
  method NotOperand(v: bv32) returns (r: Option<bv32>)
    ensures r == NotOperandValue(v)
  {
    var d := DecBin(v);
    var l := |d|;
    var z := "";
    var i := 0;
    while i < l
      invariant 0 <= i <= l
      invariant z == Flip(d[..i])
    {
      assert d[..i + 1] == d[..i] + [d[i]];
      FlipSnoc(d[..i], d[i]);
      z := z + [FlipDigit(d[i])];
      i := i + 1;
    }
    assert d[..l] == d;
    FlipDecBin(v);
    FlipDecBinIsZero(v);
    DecBinLength(v);
    if Truthy(z) {
      r := Some(BinDec(z));
    } else {
      r := None;
    }
  }

  /** not_operand(0) is 1; not_operand(1) is false. */
  lemma NotOperandSmall()
    ensures NotOperandValue(0) == Some(1)
    ensures NotOperandValue(1) == None
  {
    BitLengthNotSmall();
  }

  /** For any other v, not_operand(v) is 2^n - 1 - v, where n is the number of binary digits of v. */
  lemma NotOperandArithmetic(v: bv32)
    requires v != 1
    ensures NotOperandValue(v) == Some(Ones(BitLength(v)) - v)
  {
    BitLengthNotArithmetic(v);
  }

  /** When bit 31 of v is set, not_operand(v) is the 32-bit NOT of v, 0xFFFFFFFF - v. */
  lemma NotOperandFull(v: bv32)
    requires v & TOP != 0
    ensures NotOperandValue(v) == Some(!v)
    ensures NotOperandValue(v) == Some(FULL - v)
  {
    BitLengthNotFull(v);
  }

  // ---- ip2long and valid_ipv4_addr

  /** IPCALCLogic::ip2long: the unsigned value of a dotted quad, 0 when PHP's ip2long fails. */
  function Ip2Long(s: string): (r: bv32)
    ensures Dotted.Parse(s).Some? ==> Dotted.Format(r) == s
    ensures Dotted.Parse(s) == None ==> r == 0
  {
    var p := Dotted.Parse(s);
    if p.Some? then Dotted.FormatParse(s); p.value else 0
  }

  /** ip2long reads back the dotted text of every address, and gives 0 for text that is not a dotted quad. */
  lemma Ip2LongMeaning(s: string, v: bv32)
    ensures Ip2Long(Dotted.Format(v)) == v
    ensures Dotted.Parse(s) == None ==> Ip2Long(s) == 0
  {
    Dotted.ParseFormat(v);
  }

  /** valid_ipv4_addr: ip2long of the text without whitespace is non-zero, the text has a dot, and the value is at least 16777216. */
  function ValidIpv4Addr(ip: string): (r: bool)
    ensures r ==> Dotted.Format(Ip2Long(Dotted.Strip(ip))) == Dotted.Strip(ip)
  {
    var t := Dotted.Strip(ip);
    var p := Ip2Long(t);
    if p == 0 || '.' !in t then false
    else if p < 0x0100_0000 then false
    else true
  }

  /** An address is valid exactly when its text without whitespace is a dotted quad worth at least 16777216 (1.0.0.0). */
  lemma ValidIpv4AddrMeaning(ip: string)
    ensures ValidIpv4Addr(ip) <==>
      Dotted.Parse(Dotted.Strip(ip)).Some? && Dotted.Parse(Dotted.Strip(ip)).value >= 0x0100_0000
  {
    Dotted.ParseHasDot(Dotted.Strip(ip));
  }

  // ---- prefix2long

  /** What prefix2long returns: the /p netmask, or false for a non-numeric or out-of-range p. */
  function PrefixValue(x: Scalar): Option<bv32>
  {
    match x
    case NonNumeric(_) => None
    case Numeric(p) => if p > 32 || p < 0 then None else Some(PrefixMask(p))
  }

  /** The state of prefix2long's loop after it has set the top 32 - l bits. */
  predicate MaskBuilt(target: int, l: int, shift: int, v: bv32)
  {
    0 <= target <= l <= 32 && shift == l - 2 && v == !Ones(l)
  }

  /** prefix2long: adds 2 << shift for shift = 30, 29, ..., then 1, once per prefix bit. */
  method Prefix2Long(x: Scalar) returns (r: Option<bv32>)
    ensures r == PrefixValue(x)
  {
    if !x.Numeric? {
      return None;
    }
    var prefix := x.n;
    if prefix > 32 || prefix < 0 {
      return None;
    }
    var l := 32;
    var shift := 30;
    var v: bv32 := 0;
    prefix := 32 - prefix;
    NoMaskBits(prefix);
    while l > prefix
      invariant MaskBuilt(prefix, l, shift, v)
    {
      MaskStep(prefix, l, shift, v);
      if shift < 0 {
        v := v + 1;
      } else {
        // 2 << shift is 2^(shift + 1)
        v := v + Bit(shift + 1);
      }
      shift := shift - 1;
      l := l - 1;
    }
    MaskDone(x.n, l, shift, v);
    r := Some(v);
  }

  lemma MaskDone(p: int, l: int, shift: int, v: bv32)
    requires 0 <= p <= 32 && MaskBuilt(32 - p, l, shift, v) && l <= 32 - p
    ensures v == PrefixMask(p)
  {
  }

  lemma NoMaskBits(target: int)
    requires 0 <= target <= 32
    ensures MaskBuilt(target, 32, 30, 0)
  {
    OnesValues();
  }

  /** One pass of prefix2long's loop sets the next mask bit down. */
  lemma MaskStep(target: int, l: int, shift: int, v: bv32)
    requires MaskBuilt(target, l, shift, v) && l > target
    ensures shift < 0 ==> MaskBuilt(target, l - 1, shift - 1, v + 1)
    ensures shift >= 0 ==> MaskBuilt(target, l - 1, shift - 1, v + Bit(shift + 1))
  {
    MaskGrowsByBit(l);
    BitZero();
  }

  /** A /p netmask is 2^32 - 2^(32 - p): adding 2^(32 - p) wraps it round to 0. */
  lemma PrefixMaskArithmetic(p: int)
    requires 0 <= p <= 32
    ensures PrefixMask(p) + Bit(32 - p) == 0
  {
    OnesPlusOne(32 - p);
    ComplementPlusOne(Ones(32 - p));
  }

  lemma ComplementPlusOne(o: bv32)
    ensures !o + (o + 1) == 0
  {
  }

  /** /0 is 0, /32 is 0xFFFFFFFF and /26 is 255.255.255.192. */
  lemma PrefixMaskValues()
    ensures PrefixMask(0) == 0 && PrefixMask(32) == FULL && PrefixMask(26) == 0xFFFF_FFC0
  {
    OnesValues();
    OnesZero();
    OnesEight();
    OnesSucc(7);
    assert Ones(6) == 0x3F by {
      OnesSucc(6);
    }
  }

  // ---- long2prefix

  /** After i windows, c of them clear: the low c bits of mask are clear and, if c < i, the next one is set. */
  predicate Counted(mask: bv32, i: int, c: int)
  {
    0 <= c <= i && mask & Ones(c) == 0 && (c < i ==> mask & Ones(c + 1) != 0)
  }

  /** long2prefix: counts down from 32 once for every window (2 << i) - 1 of low bits that mask leaves clear. */
  method Long2Prefix(mask: bv32) returns (count: int)
    ensures IsPrefixLength(mask, count)
  {
    count := 32;
    OnesZero();
    for i := 0 to 32
      invariant Counted(mask, i, 32 - count)
    {
      // (2 << i) - 1 is 2^(i + 1) - 1
      var window := Bit(i + 1) - 1;
      CountStepClear(mask, i, 32 - count, window);
      CountStepSet(mask, i, 32 - count, window);
      if mask & window == 0 {
        count := count - 1;
      }
    }
  }

  /** A window w = (2 << i) - 1 that mask leaves clear is one more clear window. */
  lemma CountStepClear(mask: bv32, i: int, c: int, w: bv32)
    requires 0 <= i < 32 && Counted(mask, i, c) && w == Bit(i + 1) - 1
    ensures mask & w == 0 ==> Counted(mask, i + 1, c + 1)
  {
    WindowOnes(i + 1, w);
    CountClear(mask, i, c);
  }

  /** A window w = (2 << i) - 1 that meets a set bit of mask leaves the count as it is. */
  lemma CountStepSet(mask: bv32, i: int, c: int, w: bv32)
    requires 0 <= i < 32 && Counted(mask, i, c) && w == Bit(i + 1) - 1
    ensures mask & w != 0 ==> Counted(mask, i + 1, c)
  {
    WindowOnes(i + 1, w);
    CountSet(mask, i, c);
  }

  /** The window (2 << i) - 1 is the low i + 1 bits. */
  lemma WindowOnes(k: nat, w: bv32)
    requires w == Bit(k) - 1
    ensures w == Ones(k)
  {
    OnesPlusOne(k);
    MinusOne(Ones(k), Bit(k));
  }

  lemma MinusOne(a: bv32, b: bv32)
    ensures a + 1 == b ==> b - 1 == a
  {
  }

  /** A clear window i + 1 is one more clear window: the windows grow, so every earlier one was clear too. */
  lemma CountClear(mask: bv32, i: int, c: int)
    requires 0 <= i < 32 && Counted(mask, i, c)
    ensures mask & Ones(i + 1) == 0 ==> Counted(mask, i + 1, c + 1)
  {
    if c < i {
      LowClearMonotone(mask, c + 1, i + 1);
    }
  }

  /** A window i + 1 that meets a set bit leaves the count as it is. */
  lemma CountSet(mask: bv32, i: int, c: int)
    requires 0 <= i < 32 && Counted(mask, i, c)
    ensures mask & Ones(i + 1) != 0 ==> Counted(mask, i + 1, c)
  {
  }

  /** long2prefix undoes prefix2long: the prefix length of the /p netmask is p. */
  lemma Long2PrefixOfMask(p: int, c: int)
    requires 0 <= p <= 32
    ensures IsPrefixLength(PrefixMask(p), c) <==> c == p
  {
    PrefixMaskLength(p);
    if IsPrefixLength(PrefixMask(p), c) {
      PrefixLengthUnique(PrefixMask(p), c, p);
    }
  }

  /** long2prefix(0) is 0. */
  lemma Long2PrefixZero(c: int)
    ensures IsPrefixLength(0, c) <==> c == 0
  {
    OnesZero();
  }

  // ---- network and broadcast

  /** What an operand is worth as a number: text goes through PHP's ip2long, whose false acts as 0. */
  function AsLong(x: Operand): bv32
  {
    match x
    case Number(v) => v
    case Text(s) => Ip2Long(s)
  }

  /** The netmask prefix2long gives for a prefix argument q; its false acts as 0. */
  function PrefixArgMask(q: int): bv32
  {
    OrZero(PrefixValue(Numeric(q)))
  }

  /** The netmask a mask value stands for: a value below 33 is a prefix length, any other is the netmask itself. */
  function NetmaskOf(m: bv32): bv32
  {
    if m < 33 then PrefixArgMask(m as int) else m
  }

  /** broadcast's expression for an address and a netmask: (ip & mask) | not_operand(mask). */
  function BroadcastWith(a: bv32, m: bv32): bv32
  {
    (a & m) | OrZero(NotOperandValue(m))
  }

  /**
   * network(ip, mask): the address with every bit outside the netmask
   * cleared, so at most the address; a mask value below 33 stands for
   * prefix2long's netmask.
   */
  function Network(ip: Operand, mask: Operand): (r: bv32)
    ensures r <= AsLong(ip)
    ensures r & !NetmaskOf(AsLong(mask)) == 0
  {
    AndWithin(AsLong(ip), NetmaskOf(AsLong(mask)));
    AsLong(ip) & NetmaskOf(AsLong(mask))
  }

  /**
   * broadcast(ip, mask): (ip & mask) | not_operand(mask), which keeps every
   * bit of the network address.
   */
  function Broadcast(ip: Operand, mask: Operand): (r: bv32)
    ensures Network(ip, mask) & !r == 0
  {
    OrCovers(AsLong(ip) & NetmaskOf(AsLong(mask)), OrZero(NotOperandValue(NetmaskOf(AsLong(mask)))));
    BroadcastWith(AsLong(ip), NetmaskOf(AsLong(mask)))
  }

  /** a & m keeps no bit a or m lacks. */
  lemma AndWithin(a: bv32, m: bv32)
    ensures a & m <= a && (a & m) & !m == 0
  {
  }

  /** a | b keeps every bit of a. */
  lemma OrCovers(a: bv32, b: bv32)
    ensures a & !(a | b) == 0
  {
  }

  /** A mask value m below 33 is read as the prefix length m. */
  lemma NetmaskOfPrefix(m: bv32)
    requires m < 33
    ensures 0 <= m as int <= 32 && NetmaskOf(m) == PrefixMask(m as int)
  {
  }

  /** network with a prefix m is the address with its host bits below the /m netmask cleared. */
  lemma NetworkPrefix(ip: bv32, m: bv32)
    requires m < 33
    ensures Network(Number(ip), Number(m)) == NetworkOf(ip, m as int)
  {
    NetmaskOfPrefix(m);
  }

  lemma ComplementTop(o: bv32)
    ensures o < TOP ==> (!o) & TOP != 0
  {
  }

  lemma DoubleComplement(o: bv32)
    ensures !!o == o
  {
  }

  /** The netmask of a prefix from 1 to 32 has bit 31 set. */
  lemma PrefixMaskTop(p: int)
    requires 1 <= p <= 32
    ensures PrefixMask(p) & TOP != 0
  {
    OnesBelowTop(32 - p);
    ComplementTop(Ones(32 - p));
  }

  /** For a prefix from 1 to 32, broadcast's expression is the designed broadcast address. */
  lemma BroadcastAtPrefix(a: bv32, q: int)
    requires 1 <= q <= 32
    ensures BroadcastWith(a, PrefixArgMask(q)) == BroadcastOf(a, q)
  {
    PrefixMaskTop(q);
    NotOperandFull(PrefixMask(q));
    DoubleComplement(Ones(32 - q));
  }

  /** For prefix 0, and for any prefix prefix2long refuses, broadcast's expression is 1. */
  lemma BroadcastAtNoPrefix(a: bv32, q: int)
    requires q <= 0 || q > 32
    ensures BroadcastWith(a, PrefixArgMask(q)) == 1
  {
    PrefixMaskValues();
    NotOperandSmall();
    AndZeroOrOne(a);
  }

  lemma AndZeroOrOne(a: bv32)
    ensures (a & 0) | 1 == 1
  {
  }

  /** broadcast with a prefix m from 1 to 32 is the address with its host bits set. */
  lemma BroadcastPrefix(ip: bv32, m: bv32)
    requires 1 <= m < 33
    ensures Broadcast(Number(ip), Number(m)) == BroadcastOf(ip, m as int)
  {
    NetmaskOfPrefix(m);
    BroadcastAtPrefix(ip, m as int);
  }

  /** broadcast with prefix 0 is 1, whatever the address: not_operand(0) is 1, not 0xFFFFFFFF. */
  lemma BroadcastPrefixZero(ip: bv32)
    ensures Broadcast(Number(ip), Number(0)) == 1
  {
    BroadcastAtNoPrefix(ip, 0);
  }

  /** broadcast with a netmask whose bit 31 is set: the address with the bits outside the netmask set. */
  lemma BroadcastNetmask(ip: bv32, m: bv32)
    requires m & TOP != 0
    ensures Broadcast(Number(ip), Number(m)) == (ip & m) | !m
  {
    TopAbovePrefixes(m);
    NotOperandFull(m);
  }

  lemma TopAbovePrefixes(m: bv32)
    ensures m & TOP != 0 ==> !(m < 33)
  {
  }
}
