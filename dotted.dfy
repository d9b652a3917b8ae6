/**
 * Dotted-quad text, as PHP's ip2long and long2ip read and write it (the
 * inet_pton form: exactly four decimal fields of one to three digits, no
 * leading zero, each at most 255), and the whitespace that valid_ipv4_addr
 * strips with preg_replace('/[\s]/', '', ...).
 */
module Dotted {
  import opened Wrappers

  type Octet = bv8

  // ---- decimal fields

  predicate IsDigit(c: char)
  {
    '0' <= c <= '9'
  }

  function DigitOf(c: char): (d: nat)
    requires IsDigit(c)
    ensures d < 10
  {
    c as int - '0' as int
  }

  function CharOf(d: nat): (c: char)
    requires d < 10
    ensures IsDigit(c) && DigitOf(c) == d
  {
    ('0' as int + d) as char
  }

  predicate AllDigits(t: string)
  {
    forall i | 0 <= i < |t| :: IsDigit(t[i])
  }

  /** The number written by the decimal digits t. */
  function DigitsValue(t: string): nat
    requires AllDigits(t)
  {
    if t == [] then 0 else DigitsValue(t[..|t| - 1]) * 10 + DigitOf(t[|t| - 1])
  }

  /** A field as the parser accepts it: one to three digits, no leading zero, at most 255. */
  predicate IsOctetField(t: string)
  {
    1 <= |t| <= 3 && AllDigits(t) && (t[0] == '0' ==> |t| == 1) && DigitsValue(t) <= 255
  }

  /** One more than an octet below 255 is worth one more. */
  lemma OctetSucc(b: Octet)
    requires b as int < 255
    ensures (b + 1) as int == b as int + 1
  {
  }

  /** Octets worth the same are the same. */
  lemma OctetSame(a: Octet, b: Octet)
    requires a as int == b as int
    ensures a == b
  {
  }

  /** The octet worth n, counted up from 0. */
  function OctetOf(n: nat): (b: Octet)
    requires n < 256
    ensures b as int == n
  {
    if n == 0 then 0 else OctetSucc(OctetOf(n - 1)); OctetOf(n - 1) + 1
  }

  /** One field of a dotted quad, or None when it is not a valid field. */
  function ParseOctet(t: string): Option<Octet>
  {
    if IsOctetField(t) then Some(OctetOf(DigitsValue(t))) else None
  }

  /** The decimal text of n, without leading zeros. */
  function DecimalText(n: nat): string
    requires n < 256
  {
    if n < 10 then [CharOf(n)]
    else if n < 100 then [CharOf(n / 10), CharOf(n % 10)]
    else [CharOf(n / 100), CharOf(n / 10 % 10), CharOf(n % 10)]
  }

  /** The decimal text of an octet. */
  function OctetText(b: Octet): string
  {
    DecimalText(b as int)
  }

  lemma DigitsValueOne(t: string)
    requires |t| == 1 && AllDigits(t)
    ensures DigitsValue(t) == DigitOf(t[0])
  {
    assert t[..0] == [];
  }

  lemma DigitsValueTwo(t: string)
    requires |t| == 2 && AllDigits(t)
    ensures DigitsValue(t) == DigitOf(t[0]) * 10 + DigitOf(t[1])
  {
    DigitsValueOne(t[..1]);
  }

  lemma DigitsValueThree(t: string)
    requires |t| == 3 && AllDigits(t)
    ensures DigitsValue(t) == DigitOf(t[0]) * 100 + DigitOf(t[1]) * 10 + DigitOf(t[2])
  {
    DigitsValueTwo(t[..2]);
  }

  lemma SplitTwo(n: int)
    requires 10 <= n < 100
    ensures (n / 10) * 10 + n % 10 == n && 1 <= n / 10 < 10
  {
  }

  lemma SplitThree(n: int)
    requires 100 <= n < 256
    ensures (n / 100) * 100 + (n / 10 % 10) * 10 + n % 10 == n && 1 <= n / 100 < 10
  {
    var q := n / 10;
    assert n == q * 10 + n % 10;
    assert q == (q / 10) * 10 + q % 10;
    assert n / 100 == q / 10;
  }

  /** The decimal text of n is a valid field worth n. */
  lemma DecimalTextField(n: nat)
    requires n < 256
    ensures IsOctetField(DecimalText(n)) && DigitsValue(DecimalText(n)) == n
  {
    var t := DecimalText(n);
    if n < 10 {
      DigitsValueOne(t);
    } else if n < 100 {
      SplitTwo(n);
      DigitsValueTwo(t);
    } else {
      SplitThree(n);
      DigitsValueThree(t);
    }
  }

  lemma DigitEq(c: char, e: char)
    requires IsDigit(c) && IsDigit(e) && DigitOf(c) == DigitOf(e)
    ensures c == e
  {
  }

  lemma FieldTwoDigits(t: string)
    requires IsOctetField(t) && |t| == 2
    ensures DecimalText(DigitsValue(t)) == t
  {
    var n := DigitsValue(t);
    DigitsValueTwo(t);
    assert DigitOf(t[0]) != 0;
    assert n / 10 == DigitOf(t[0]) && n % 10 == DigitOf(t[1]);
    var u := DecimalText(n);
    DigitEq(u[0], t[0]);
    DigitEq(u[1], t[1]);
  }

  lemma FieldThreeDigits(t: string)
    requires IsOctetField(t) && |t| == 3
    ensures DecimalText(DigitsValue(t)) == t
  {
    var n := DigitsValue(t);
    DigitsValueThree(t);
    assert DigitOf(t[0]) != 0;
    assert n / 10 == DigitOf(t[0]) * 10 + DigitOf(t[1]);
    assert n / 100 == DigitOf(t[0]) && n / 10 % 10 == DigitOf(t[1]) && n % 10 == DigitOf(t[2]);
    var u := DecimalText(n);
    DigitEq(u[0], t[0]);
    DigitEq(u[1], t[1]);
    DigitEq(u[2], t[2]);
  }

  /** A valid field is the decimal text of its value. */
  lemma FieldDecimalText(t: string)
    requires IsOctetField(t)
    ensures DecimalText(DigitsValue(t)) == t
  {
    if |t| == 1 {
      DigitsValueOne(t);
      DigitEq(DecimalText(DigitsValue(t))[0], t[0]);
    } else if |t| == 2 {
      FieldTwoDigits(t);
    } else {
      FieldThreeDigits(t);
    }
  }

  /** Reading back the text of an octet gives the octet. */
  lemma ParseOctetText(b: Octet)
    ensures ParseOctet(OctetText(b)) == Some(b)
  {
    DecimalTextField(b as int);
    OctetSame(OctetOf(b as int), b);
  }

  /** A field that parses is the canonical text of its octet. */
  lemma OctetTextParse(t: string)
    requires ParseOctet(t).Some?
    ensures OctetText(ParseOctet(t).value) == t
  {
    FieldDecimalText(t);
  }

  lemma OctetTextDigits(b: Octet)
    ensures '.' !in OctetText(b)
  {
  }

  // ---- splitting on dots

  /** The fields of s between its dots, as explode('.', s) gives them. */
  function Fields(s: string): (r: seq<string>)
    ensures |r| >= 1
  {
    if s == [] then [[]]
    else if s[0] == '.' then [[]] + Fields(s[1..])
    else var f := Fields(s[1..]); [[s[0]] + f[0]] + f[1..]
  }

  /** The fields joined with dots, as implode('.', parts) gives them. */
  function Join(parts: seq<string>): string
    requires |parts| >= 1
  {
    if |parts| == 1 then parts[0] else parts[0] + "." + Join(parts[1..])
  }

  lemma {:induction false} FieldsPrefix(a: string, s: string)
    requires '.' !in a
    ensures Fields(a + s) == [a + Fields(s)[0]] + Fields(s)[1..]
  {
    if a != [] {
      assert (a + s)[1..] == a[1..] + s;
      FieldsPrefix(a[1..], s);
      assert [a[0]] + (a[1..] + Fields(s)[0]) == a + Fields(s)[0];
    } else {
      assert a + s == s;
      assert a + Fields(s)[0] == Fields(s)[0];
    }
  }

  /** Splitting dot-free fields joined with dots gives the fields back. */
  lemma {:induction false} FieldsJoin(parts: seq<string>)
    requires |parts| >= 1
    requires forall i | 0 <= i < |parts| :: '.' !in parts[i]
    ensures Fields(Join(parts)) == parts
  {
    if |parts| == 1 {
      FieldsPrefix(parts[0], []);
      assert parts[0] + [] == parts[0];
    } else {
      var rest := Join(parts[1..]);
      FieldsJoin(parts[1..]);
      assert parts[0] + "." + rest == parts[0] + ("." + rest);
      FieldsPrefix(parts[0], "." + rest);
      assert ("." + rest)[1..] == rest;
      assert parts[0] + [] == parts[0];
    }
  }

  /** Joining the fields of s with dots gives s back. */
  lemma {:induction false} JoinFields(s: string)
    ensures Join(Fields(s)) == s
  {
    if s != [] {
      JoinFields(s[1..]);
      var f := Fields(s[1..]);
      if s[0] == '.' {
        assert Fields(s)[1..] == f;
      } else {
        var g := Fields(s);
        assert g[0] == [s[0]] + f[0];
        assert g[1..] == f[1..];
        if |f| > 1 {
          assert Join(f) == f[0] + "." + Join(f[1..]);
        }
      }
    }
  }

  /** Text without a dot is a single field. */
  lemma {:induction false} FieldsNoDot(s: string)
    ensures '.' !in s ==> Fields(s) == [s]
  {
    if s != [] && s[0] != '.' {
      FieldsNoDot(s[1..]);
      assert '.' !in s ==> [s[0]] + s[1..] == s;
    }
  }

  // ---- packing four octets into a 32-bit address

  /** a.b.c.d as the number a * 2^24 + b * 2^16 + c * 2^8 + d. */
  function Pack(a: Octet, b: Octet, c: Octet, d: Octet): bv32
  {
    ((a as bv32) << 24) | ((b as bv32) << 16) | ((c as bv32) << 8) | (d as bv32)
  }

  function Octet3(v: bv32): Octet
  {
    (v >> 24) as bv8
  }

  function Octet2(v: bv32): Octet
  {
    ((v >> 16) & 0xFF) as bv8
  }

  function Octet1(v: bv32): Octet
  {
    ((v >> 8) & 0xFF) as bv8
  }

  function Octet0(v: bv32): Octet
  {
    (v & 0xFF) as bv8
  }

  lemma PackOctets(v: bv32)
    ensures Pack(Octet3(v), Octet2(v), Octet1(v), Octet0(v)) == v
  {
  }

  lemma OctetsPack(a: Octet, b: Octet, c: Octet, d: Octet)
    ensures Octet3(Pack(a, b, c, d)) == a && Octet2(Pack(a, b, c, d)) == b
    ensures Octet1(Pack(a, b, c, d)) == c && Octet0(Pack(a, b, c, d)) == d
  {
  }

  // ---- ip2long and long2ip

  /** PHP's ip2long: the address written by s, or None (PHP's false) when s is not a dotted quad. */
  function Parse(s: string): Option<bv32>
  {
    var f := Fields(s);
    if |f| == 4 && ParseOctet(f[0]).Some? && ParseOctet(f[1]).Some?
       && ParseOctet(f[2]).Some? && ParseOctet(f[3]).Some?
    then Some(Pack(ParseOctet(f[0]).value, ParseOctet(f[1]).value,
                   ParseOctet(f[2]).value, ParseOctet(f[3]).value))
    else None
  }

  function Texts(v: bv32): seq<string>
  {
    [OctetText(Octet3(v)), OctetText(Octet2(v)), OctetText(Octet1(v)), OctetText(Octet0(v))]
  }

  /** PHP's long2ip: the four octets of v in decimal, most significant first, joined by dots. */
  function Format(v: bv32): string
  {
    Join(Texts(v))
  }

  /** Every address is read back from its dotted text. */
  lemma ParseFormat(v: bv32)
    ensures Parse(Format(v)) == Some(v)
  {
    var t := Texts(v);
    OctetTextDigits(Octet3(v));
    OctetTextDigits(Octet2(v));
    OctetTextDigits(Octet1(v));
    OctetTextDigits(Octet0(v));
    FieldsJoin(t);
    ParseOctetText(Octet3(v));
    ParseOctetText(Octet2(v));
    ParseOctetText(Octet1(v));
    ParseOctetText(Octet0(v));
    PackOctets(v);
  }

  /** Text that parses is the canonical dotted text of its address. */
  lemma FormatParse(s: string)
    requires Parse(s).Some?
    ensures Format(Parse(s).value) == s
  {
    var f := Fields(s);
    var a, b, c, d := ParseOctet(f[0]).value, ParseOctet(f[1]).value, ParseOctet(f[2]).value, ParseOctet(f[3]).value;
    OctetsPack(a, b, c, d);
    OctetTextParse(f[0]);
    OctetTextParse(f[1]);
    OctetTextParse(f[2]);
    OctetTextParse(f[3]);
    assert Texts(Pack(a, b, c, d)) == f;
    JoinFields(s);
  }

  /** Text that parses has a dot in it. */
  lemma ParseHasDot(s: string)
    ensures Parse(s).Some? ==> '.' in s
  {
    FieldsNoDot(s);
  }

  // ---- whitespace

  /** The characters PCRE's \s matches: space, tab, line feed, vertical tab, form feed, carriage return. */
  predicate IsSpace(c: char)
  {
    c == ' ' || c == '\t' || c == '\n' || c == '\U{B}' || c == '\U{C}' || c == '\r'
  }

  /** s with every whitespace character removed. */
  function Strip(s: string): (r: string)
  {
    if s == [] then []
    else if IsSpace(s[0]) then Strip(s[1..])
    else [s[0]] + Strip(s[1..])
  }

  /** Stripping leaves no whitespace. */
  lemma {:induction false} StripNoSpace(s: string)
    ensures forall i | 0 <= i < |Strip(s)| :: !IsSpace(Strip(s)[i])
  {
    if s != [] {
      StripNoSpace(s[1..]);
    }
  }

  /** Stripping keeps every other character and adds none. */
  lemma {:induction false} StripKeeps(s: string)
    ensures forall i | 0 <= i < |s| && !IsSpace(s[i]) :: s[i] in Strip(s)
    ensures forall c | c in Strip(s) :: c in s
  {
    if s != [] {
      StripKeeps(s[1..]);
      forall i | 0 <= i < |s| && !IsSpace(s[i])
        ensures s[i] in Strip(s)
      {
        if i > 0 {
          assert s[i] == s[1..][i - 1];
        }
      }
    }
  }

  /** Text without whitespace is left as it is. */
  lemma {:induction false} StripClean(s: string)
    requires forall i | 0 <= i < |s| :: !IsSpace(s[i])
    ensures Strip(s) == s
  {
    if s != [] {
      StripClean(s[1..]);
    }
  }

  /** Stripping works piece by piece. */
  lemma {:induction false} StripAppend(a: string, b: string)
    ensures Strip(a + b) == Strip(a) + Strip(b)
  {
    if a == [] {
      assert a + b == b;
    } else {
      assert (a + b)[0] == a[0] && (a + b)[1..] == a[1..] + b;
      StripAppend(a[1..], b);
    }
  }

  lemma StripTwice(s: string)
    ensures Strip(Strip(s)) == Strip(s)
  {
    StripNoSpace(s);
    StripClean(Strip(s));
  }
}
