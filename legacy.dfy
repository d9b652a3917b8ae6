/**
 * guess_prefix and guess_netmask as the older copy of IPCALCLogic writes
 * them. The addresses are the non-negative numbers ip2long gives, swapped
 * into order, and the correction loop compares the higher one with
 * broadcast's result. On a range that straddles 2^31 that loop never stops
 * (Range.CorrectionNeverStops), so such ranges are excluded here.
 */
module Legacy {
  import opened Bits32
  import opened Unsigned
  import opened Logic
  import opened Range
  import Dotted

  /** guess_prefix on the two addresses ip2long gives. */
  method GuessPrefixOf(start: bv32, end: bv32) returns (prefix: int)
    requires !Straddles(Value(Lo(start, end)), Value(Hi(start, end)))
    ensures prefix == GuessFor(start, end)
    ensures IsLargestCovering(Value(Lo(start, end)), Value(Hi(start, end)), prefix)
  {
    var s, e := Lo(start, end), Hi(start, end);
    LoHiOrder(start, end);
    var y := Value(e);
    var d := y - Value(s);
    prefix := GuessInOrder(s, e, d, y);
  }

  /** guess_prefix(start, end): both arguments go through ip2long first. */
  method GuessPrefix(start: Operand, end: Operand) returns (prefix: int)
    requires !Straddles(Value(Lo(AsLong(start), AsLong(end))), Value(Hi(AsLong(start), AsLong(end))))
    ensures prefix == GuessFor(AsLong(start), AsLong(end))
    ensures IsLargestCovering(Value(Lo(AsLong(start), AsLong(end))), Value(Hi(AsLong(start), AsLong(end))), prefix)
  {
    prefix := GuessPrefixOf(AsLong(start), AsLong(end));
  }

  /** guess_netmask: prefix2long of the guessed prefix, written as a dotted quad by long2ip. */
  method GuessNetmask(start: Operand, end: Operand) returns (mask: string)
    requires !Straddles(Value(Lo(AsLong(start), AsLong(end))), Value(Hi(AsLong(start), AsLong(end))))
    ensures mask == Dotted.Format(PrefixMask(GuessFor(AsLong(start), AsLong(end))))
  {
    var p := GuessPrefix(start, end);
    var r := Prefix2Long(Numeric(p));
    mask := Dotted.Format(OrZero(r));
  }
}
