# IPCALCLogic in Dafny

This project models `IPCALCLogic`, the IPv4 arithmetic engine of the IPCALC
PHP package, and proves properties of the model. The engine comes in two
copies, the older `IPCALC/IPCALC.php` and the later
`trunk/IPCALC/IPCALC.php`. Its operations are:

- `not_operand`: a NOT over the bit length of a value, done by inverting
  decbin's digits;
- `ip2long` and `valid_ipv4_addr`;
- `prefix2long` and `long2prefix`: prefix to netmask and back;
- `network` and `broadcast`;
- `guess_prefix` and `guess_netmask`: infer a CIDR block from an address
  range.

Addresses and masks are 32-bit patterns (`bv32`). Ordering is done on the
unsigned number a pattern stands for (`Unsigned.Value`). PHP's `false` is
`None`, and it acts as 0 wherever the source passes it on to `&`, `|` or
decbin. In the later copy's guess_prefix, the `false` of an unreadable
address is also compared as a boolean, which `Trunk.FalseGuess` models.

The loops of the source are methods with `while`/`for` loops. Each is proved
against a specification function:

- `prefix2long` is proved against `PrefixMask`;
- `long2prefix` against `IsPrefixLength`;
- `not_operand` against `BitLengthNot`;
- the estimate loop of `guess_prefix` against `Clz32`;
- the correction loop against `IsLargestCovering` and `Largest`.

The straight-line operations are functions, and lemmas state their meaning.

Modules:

- `Bits32`, `Unsigned`: patterns built by recursion on a width (`Ones`,
  `Bit`, `PrefixMask`), and the number a pattern stands for.
- `Binary`: PHP's decbin and bindec, and the bit-length complement.
- `Dotted`: dotted-quad text as PHP's `ip2long`/`long2ip` read and write it,
  and the whitespace `valid_ipv4_addr` strips.
- `Subnet`: network and broadcast addresses as designed.
- `Logic`: the operations both copies share.
- `Range`: the specification of `guess_prefix` (`Largest`,
  `IsLargestCovering`), the estimate and correction loops, the correction
  loop as the source writes it, and `guess_prefix`/`guess_netmask` as
  designed.
- `Legacy`, `Trunk`: each copy's own `guess_prefix`/`guess_netmask`.
- `Scenarios`: the expected values of `test.php`.

Where the code falls short of what its own comments promise, the model
follows the code. Those comments are not_operand's "Support ~(NOT) operand"
(IPCALC/IPCALC.php:20, trunk/IPCALC/IPCALC.php:37) and guess_prefix's
"network prefix about given start and end ip address"
(IPCALC/IPCALC.php:182, trunk/IPCALC/IPCALC.php:204). The differences are:

- `broadcast` inverts the digits of decbin, not 32 bits, so a /0 network has
  broadcast 1 (Finding 1).
- The older copy's correction loop does not always stop (Finding 2).
- The later copy compares signed numbers in the correction loop's guard
  (Finding 3).
- On a range across 2^31 the later copy's signed swap puts the higher
  address first, and the result is not the range's prefix (Finding 4).

## Model

| member | source | states |
|---|---|---|
| Logic.NotOperand | trunk/IPCALC/IPCALC.php:43-52 | the digit-inverting loop returns the bit-length complement of v (2^n - 1 - v for n binary digits), or false when the inverted text is "0"; the older copy at IPCALC/IPCALC.php:27-36 is the same |
| Logic.NotOperandSmall | trunk/IPCALC/IPCALC.php:43-52 | not_operand(0) is 1 and not_operand(1) is false |
| Logic.NotOperandArithmetic | IPCALC/IPCALC.php:27-36 | for every v other than 1 the result is 2^n - 1 - v, where n is the number of binary digits of v |
| Logic.NotOperandFull | trunk/IPCALC/IPCALC.php:43-52 | when bit 31 of v is set the result is the 32-bit NOT, 0xFFFFFFFF - v |
| Binary.DecBinLength | trunk/IPCALC/IPCALC.php:44-45 | strlen(decbin(v)) is the bit length of v |
| Binary.BitLengthRange | trunk/IPCALC/IPCALC.php:44-45 | decbin writes between 1 and 32 digits |
| Binary.BinDecDecBin | trunk/IPCALC/IPCALC.php:44-51 | bindec undoes decbin |
| Binary.FlipDecBin | trunk/IPCALC/IPCALC.php:44-51 | the inverted digits of decbin(v), read back by bindec, are the bit-length complement of v |
| Binary.FlipDecBinIsZero | trunk/IPCALC/IPCALC.php:51 | the inverted text is the falsy "0" exactly when v is 1 |
| Binary.BitLengthNotFull | trunk/IPCALC/IPCALC.php:43-52 | a value with bit 31 set has 32 digits, so its complement is the 32-bit NOT |
| Logic.Ip2Long | trunk/IPCALC/IPCALC.php:66-68 | text that PHP's ip2long accepts is written back unchanged by long2ip of the result; any other text gives 0, the value of sprintf('%lu', false) |
| Logic.Ip2LongMeaning | trunk/IPCALC/IPCALC.php:66-68 | ip2long reads back the dotted text of every address and gives 0 for text that is not a dotted quad; the older copy at IPCALC/IPCALC.php:50-52 is the same |
| Dotted.ParseFormat | trunk/IPCALC/IPCALC.php:67 | PHP's ip2long reads back every address written by long2ip |
| Dotted.FormatParse | trunk/IPCALC/IPCALC.php:67 | text that ip2long accepts is exactly the long2ip text of its address |
| Dotted.ParseHasDot | trunk/IPCALC/IPCALC.php:82 | text that parses has a dot in it |
| Dotted.StripNoSpace | trunk/IPCALC/IPCALC.php:80 | removing whitespace leaves none |
| Dotted.StripKeeps | trunk/IPCALC/IPCALC.php:80 | removing whitespace keeps every other character and adds none |
| Dotted.StripAppend | trunk/IPCALC/IPCALC.php:80 | whitespace is removed piece by piece: Strip(a + b) == Strip(a) + Strip(b) |
| Dotted.StripTwice | trunk/IPCALC/IPCALC.php:80 | removing whitespace twice is the same as once |
| Logic.ValidIpv4Addr | trunk/IPCALC/IPCALC.php:79-89 | the text of a valid address, without its whitespace, is exactly long2ip of its ip2long value |
| Logic.ValidIpv4AddrMeaning | trunk/IPCALC/IPCALC.php:79-89 | an address is valid exactly when its text without whitespace is a dotted quad worth at least 16777216; the older copy at IPCALC/IPCALC.php:63-73 is the same |
| Logic.Prefix2Long | trunk/IPCALC/IPCALC.php:100-125 | the loop returns the mask with exactly the top p bits set for p in [0,32], and false for a non-numeric p or one outside [0,32]; the older copy at IPCALC/IPCALC.php:84-109 is the same |
| Logic.PrefixMaskArithmetic | trunk/IPCALC/IPCALC.php:100-125 | adding 2^(32-p) to the /p mask wraps it round to 0, so the mask is 2^32 - 2^(32-p) |
| Logic.PrefixMaskValues | trunk/IPCALC/IPCALC.php:100-125 | /0 gives 0, /32 gives 0xFFFFFFFF and /26 gives 255.255.255.192 |
| Bits32.PrefixMaskLength | trunk/IPCALC/IPCALC.php:100-125 | the /p mask has its low 32 - p bits clear and, for p > 0, bit 32 - p set |
| Logic.Long2Prefix | trunk/IPCALC/IPCALC.php:136-145 | the count is 32 minus the trailing zero bits of the mask: its low 32 - count bits are clear and, if count > 0, the next bit is set; so the count is in [0,32]; the older copy at IPCALC/IPCALC.php:120-127 is the same |
| Bits32.PrefixLengthUnique | trunk/IPCALC/IPCALC.php:136-145 | every mask has only one such count |
| Logic.Long2PrefixOfMask | trunk/IPCALC/IPCALC.php:136-145 | long2prefix undoes prefix2long: the count for the /p mask is p and nothing else |
| Logic.Long2PrefixZero | trunk/IPCALC/IPCALC.php:136-145 | long2prefix(0) is 0 |
| Logic.Network | trunk/IPCALC/IPCALC.php:158-171 | network(ip, mask) is at most ip and has no bit outside the netmask the mask argument stands for, where a value below 33 stands for prefix2long's netmask; the older copy at IPCALC/IPCALC.php:140-151 is the same |
| Logic.NetmaskOfPrefix | trunk/IPCALC/IPCALC.php:167-168 | a mask value below 33 is read as a prefix length and replaced by its netmask |
| Logic.NetworkPrefix | trunk/IPCALC/IPCALC.php:158-171 | network with a prefix m is ip & prefix2long(m); the older copy at IPCALC/IPCALC.php:140-151 is the same |
| Subnet.NetworkOfBounds | trunk/IPCALC/IPCALC.php:158-171 | the network address has no host bits set and is at most ip |
| Subnet.NetworkOfIdempotent | trunk/IPCALC/IPCALC.php:158-171 | taking the network address twice changes nothing |
| Logic.Broadcast | trunk/IPCALC/IPCALC.php:184-199 | every bit of network(ip, mask) is set in broadcast(ip, mask); the older copy at IPCALC/IPCALC.php:164-177 is the same |
| Logic.BroadcastPrefixZero | IPCALC/IPCALC.php:174 | broadcast(ip, 0) is 1 for every ip, because prefix2long(0) is 0 and not_operand(0) is 1; trunk/IPCALC/IPCALC.php:196 is the same |
| Logic.BroadcastPrefix | trunk/IPCALC/IPCALC.php:184-199 | for a prefix from 1 to 32, broadcast is the network address with every host bit set; the older copy at IPCALC/IPCALC.php:164-177 is the same |
| Logic.BroadcastAtPrefix | trunk/IPCALC/IPCALC.php:196 | for a prefix from 1 to 32, broadcast's expression with not_operand of the mask is the designed broadcast address |
| Logic.BroadcastAtNoPrefix | trunk/IPCALC/IPCALC.php:193-196 | for prefix 0, and for any prefix prefix2long refuses, broadcast's expression is 1 |
| Logic.BroadcastNetmask | trunk/IPCALC/IPCALC.php:184-199 | with a netmask whose bit 31 is set, broadcast is (ip & mask) with every bit outside the mask set |
| Subnet.BroadcastOfHostBits | trunk/IPCALC/IPCALC.php:184-199 | the designed /p broadcast address, for p from 0 to 32, has every host bit set; the source's broadcast agrees for prefixes 1 to 32 (Logic.BroadcastPrefix, Logic.BroadcastAtPrefix) but not at prefix 0 (Logic.BroadcastPrefixZero) |
| Subnet.BroadcastOfAbove | trunk/IPCALC/IPCALC.php:184-199 | the designed broadcast address is at least ip; the source's broadcast agrees for prefixes 1 to 32 but gives 1 at prefix 0 |
| Subnet.BroadcastOfEnds | trunk/IPCALC/IPCALC.php:184-199 | in the designed broadcast, the corrected half of Finding 1, /32 gives ip itself and /0 gives 255.255.255.255; the source's broadcast gives 1 at /0 |
| Range.ValueBlock | trunk/IPCALC/IPCALC.php:196 | the network address (`ip & mask`, line 170 and the first half of line 196) and the broadcast address of a /q block are its first and last address as numbers |
| Range.LoHiOrder | IPCALC/IPCALC.php:196-200 | the swap puts the addresses in unsigned order and keeps both |
| Range.GuessSymmetric | IPCALC/IPCALC.php:196-200 | the intended answer is the same with the arguments swapped |
| Range.LargestOfEqual | IPCALC/IPCALC.php:202-204 | a single address is its own /32 block |
| Range.LargestIsLargestCovering | IPCALC/IPCALC.php:211-217 | the reference search from /32 downward finds the largest prefix whose block at lo reaches hi, and only that prefix has this property |
| Range.Estimate | trunk/IPCALC/IPCALC.php:231-234 | the shift loop stops with prefix = clz32(d), in [0,31], with 2^(31-prefix) <= d < 2^(32-prefix); the older copy at IPCALC/IPCALC.php:206-209 is the same |
| Range.Clz32Meaning | trunk/IPCALC/IPCALC.php:231-234 | a positive 32-bit d has exactly one such count, clz32(d) |
| Range.AboveEstimateNotCovered | trunk/IPCALC/IPCALC.php:231-234 | no prefix above the estimate has a block that reaches the far end |
| Range.StepDown | IPCALC/IPCALC.php:211-217 | a pass whose broadcast is below hi rules out the current prefix, and a wider prefix is left |
| Range.Narrow | IPCALC/IPCALC.php:211-217 | the correction loop with the true 32-bit broadcast, started at the estimate with the sentinel n = 0, only decreases the prefix and stops at the largest prefix whose block reaches hi |
| Range.NarrowAsWritten | IPCALC/IPCALC.php:211-217 | the correction loop with broadcast's own expression stops at the largest covering prefix on a range within one half; if the guard reads hi as a negative number, the loop returns the estimate unchanged |
| Range.GuessInOrder | IPCALC/IPCALC.php:202-217 | on ordered addresses within one half: 32 for a single address, otherwise the estimate and correction give the designed answer, or the bare estimate when the guard reads hi as negative |
| Range.StraddleLargestZero | IPCALC/IPCALC.php:189-220 | a range across 2^31 fits in no block but the /0 one, so the designed answer for it is 0 |
| Range.StraddleBroadcastBelow | IPCALC/IPCALC.php:216 | on a range across 2^31, broadcast at lo is below hi for every prefix, 0 and negative ones included |
| Range.CorrectionNeverStops | IPCALC/IPCALC.php:211-217 | on a range across 2^31, the loop guard still holds after any number of passes |
| Range.GuessPrefixOf | IPCALC/IPCALC.php:189-220 | guess_prefix as designed returns the largest prefix whose block at the lower address reaches the higher one, for every pair of addresses |
| Range.GuessPrefix | IPCALC/IPCALC.php:189-194 | the same after ip2long of both arguments |
| Range.GuessNetmask | IPCALC/IPCALC.php:232-235 | guess_netmask as designed is long2ip of the /p mask for that prefix |
| Legacy.GuessPrefixOf | IPCALC/IPCALC.php:189-220 | the older copy's guess_prefix returns the designed answer, the largest covering prefix, on every range that does not cross 2^31 |
| Legacy.GuessPrefix | IPCALC/IPCALC.php:189-194 | the same after ip2long of both arguments |
| Legacy.GuessNetmask | IPCALC/IPCALC.php:232-235 | long2ip of prefix2long of that prefix |
| Trunk.SignedCasting | trunk/IPCALC/IPCALC.php:29-32 | values up to 0x7fffffff are unchanged; every 32-bit value lands in [-2^31, 2^31) on a number equal to it modulo 2^32 |
| Trunk.SignedHigh | trunk/IPCALC/IPCALC.php:29-32 | a value at or above 2^31 is read as itself minus 2^32 |
| Trunk.SignedReading | trunk/IPCALC/IPCALC.php:29-32 | so signed_casting reads a 32-bit value as itself below 2^31 and as itself minus 2^32 above |
| Trunk.ReadingOnto | trunk/IPCALC/IPCALC.php:29-32 | every number in [-2^31, 2^31) is the reading of exactly one 32-bit value |
| Trunk.SwapOutcome | trunk/IPCALC/IPCALC.php:221-227 | after the swap on signed readings, the two addresses are in unsigned order within one half, and the higher address comes first across 2^31 |
| Trunk.SignedSwap | trunk/IPCALC/IPCALC.php:213-227 | within one half the signed swap puts the addresses in unsigned order, n is hi - lo, and the signed end is hi below 2^31 and negative above; across 2^31 start is hi, the end the guard reads is lo, and n is 2^32 - (hi - lo) |
| Trunk.ReturnedMeaning | trunk/IPCALC/IPCALC.php:211-245 | the later copy's result is the designed answer below 2^31 and for a single address; above 2^31 it is clz32 of the difference |
| Trunk.CrossMeaning | trunk/IPCALC/IPCALC.php:211-245 | on a range across 2^31, where the designed answer is 0, the result is -1 exactly when lo is above 1 and hi - lo is at most 2^31; it is the designed 0 exactly when lo is 0 or 1 and hi - lo is at most 2^31; otherwise it is clz32(2^32 - (hi - lo)) |
| Trunk.ReturnedOfLoops | trunk/IPCALC/IPCALC.php:227-244 | within one half, what the shared loops give after the signed swap is that result |
| Trunk.CrossBroadcastValues | trunk/IPCALC/IPCALC.php:184-199 | with a start that is hi - 2^32 for an address hi at or above 2^31, broadcast reaches at least hi for prefixes 1 to 32, is 1 at prefix 0, and what the guard reads is PHP_INT_MAX below 0 |
| Trunk.CrossNarrow | trunk/IPCALC/IPCALC.php:236-244 | across 2^31 the correction loop keeps an estimate above 0; at estimate 0 it returns 0 when lo is 0 or 1 and -1 otherwise |
| Trunk.CrossGuess | trunk/IPCALC/IPCALC.php:227-244 | across 2^31 the estimate of 2^32 - (hi - lo) and the correction loop give that result |
| Trunk.GuessPrefixOf | trunk/IPCALC/IPCALC.php:211-245 | the later copy's guess_prefix returns that result on every pair of addresses |
| Trunk.Long | trunk/IPCALC/IPCALC.php:213-218 | PHP's ip2long gives the address of text it reads and false otherwise; an address it gives is what the model's ip2long gives, and for text it cannot read that is 0 |
| Trunk.FalseGuess | trunk/IPCALC/IPCALC.php:211-244 | with an address v on one side and ip2long's false on the other, guess_prefix returns the largest prefix whose block at 0.0.0.0 reaches v: false is never swapped out of first place, n is v's signed reading, broadcast reads false as 0, and from 2^31 on the negative n and end give 0 at once |
| Trunk.GuessPrefix | trunk/IPCALC/IPCALC.php:211-219 | guess_prefix after PHP's ip2long of both arguments: Returned for two addresses, FalseGuess's answer when one is unreadable, and 32 when both are |
| Trunk.UnreadableMeaning | trunk/IPCALC/IPCALC.php:213-229 | an unreadable argument on either side gives the designed answer for the range from 0.0.0.0 to the other address; two give 32; the number 0 instead gives Returned(0, y) |
| Trunk.UnreadableCounterexample | trunk/IPCALC/IPCALC.php:213-244 | "x" with 255.255.255.255 gives 0, while the number 0 with 255.255.255.255 gives 31 |
| Trunk.GuessNetmask | trunk/IPCALC/IPCALC.php:257-260 | long2ip of prefix2long of guess_prefix's result, which is 0.0.0.0 for the result -1 that prefix2long refuses |
| Trunk.HighHalfCounterexample | trunk/IPCALC/IPCALC.php:237 | for 128.0.0.1 to 128.0.0.2 the later copy returns 31, while the designed answer is 30 |
| Trunk.CrossWholeCounterexample | trunk/IPCALC/IPCALC.php:221-244 | for 0.0.0.1 to 255.255.255.255 the later copy returns 30, while the designed answer is 0 |
| Trunk.CrossMiddleCounterexample | trunk/IPCALC/IPCALC.php:221-244 | for 127.255.255.255 to 128.0.0.0 the later copy returns -1, while the designed answer is 0 |
| Scenarios.Ip2LongExample | test.php:17-22 | ip2long("222.222.222.222") is 3739147998 |
| Scenarios.InvalidExample | test.php:24-26 | "1.1.1.1 :" is not a valid address |
| Scenarios.MaskExample | test.php:28-34 | prefix 26 gives 255.255.255.192, and 26 is the only prefix length of that mask |
| Scenarios.BlockExample | test.php:36-42 | network and broadcast of 222.222.222.222 with prefix 26 are 222.222.222.192 and 222.222.222.255 |
| Scenarios.GuessExample | test.php:44-50 | for 222.222.222.193 to 222.222.222.229 the designed answer and the later copy's result are both 26; the netmask is 255.255.255.192 |

## Left out

- Legacy.GuessPrefixOf, Legacy.GuessPrefix and Legacy.GuessNetmask require a range that does not cross 2^31. On such a range the older copy's loop never stops (Finding 2), and `Range.CorrectionNeverStops` states that case.
- Trunk.CrossBroadcast: on a range across 2^31 the later copy calls broadcast with the negative start hi - 2^32. The model does not carry 64-bit PHP integers. It takes two steps as given. For prefixes 0 to 32, the 64-bit `&` of that start with the netmask gives the 32-bit `hi & mask`. For prefix -1, the printed 2^64 + start is capped by `(int)` at PHP_INT_MAX.
- Numeric arguments outside [0, 2^32), such as a mask of -1, are not representable: `Operand.Number` holds a 32-bit pattern. The two copies differ on such values. For network(ip, -1), the older copy calls prefix2long(-1), whose false makes the result 0. The later copy's `>= 0` test keeps the mask at -1, so the result is ip.
- PHP integer width: the model follows 64-bit PHP, where ip2long gives non-negative values. It does not reproduce 32-bit PHP's negative ip2long results, or `(int)` casts of numeric strings.
- Logic.Network and Logic.Broadcast are stated on 32-bit patterns. When the later copy signs its ip or mask with signed_casting, the result is a negative PHP integer with the same low 32 bits. The model does not represent that sign.
- Logic.NotOperand takes a 32-bit pattern. decbin of a negative number writes 64 digits, but each copy only reaches not_operand with such a number through a netmask with bit 31 set. There the inverted 64 digits read back as the 32-bit NOT, which is what `Logic.NotOperandFull` states.
- Non-integer prefixes, such as "26.5", are not modelled. A prefix argument is `Numeric(n)` for an integer n, or `NonNumeric`.
- is_numeric coercion is modelled as two kinds of argument: `Operand.Number` for a numeric argument and `Operand.Text` for dotted text.
- The `(int)` casts and the `>= 0` test the later copy adds in prefix2long, network and broadcast change nothing on the values the model takes, except at the negative start described under Trunk.CrossBroadcast. Both copies share `Logic`.
- The estimate loop's `$n <<= 1` is modelled on unbounded integers. The loop ends before n reaches 2^32, so no wrap-around can happen.
- `sprintf('%u', ...)` in guess_prefix is the identity on a non-negative broadcast value and is not modelled separately. The one negative value it prints is described under Trunk.CrossBroadcast.
- The CLI front end and the `IPCALC` wrapper class (ipcalc.php, tags/1.0.0/ipcalc.php, htonl, ntohl) are not part of this model. `Scenarios` states test.php's expected values for the `IPCALCLogic` operations the wrapper delegates to, with `Dotted.Format` for `long2ip`.

## Findings

| source | as written | input that shows it | evidently intended | confidence | as-written member | corrected member |
|---|---|---|---|---|---|---|
| IPCALC/IPCALC.php:174 | broadcast with prefix 0 is `(ip & 0) \| not_operand(0)`, and not_operand(0) is 1 | broadcast(any address, 0) gives 1 | the /0 broadcast address 255.255.255.255 | not executed | Logic.BroadcastPrefixZero | Subnet.BroadcastOfEnds |
| IPCALC/IPCALC.php:211-217 | the correction loop compares end with broadcast(start, prefix), which stays below 2^31 for every prefix, and is 1 at prefix 0 and below | 127.255.255.255 to 128.0.0.0: the loop never stops | stop at the /0 block, prefix 0 | not executed | Range.CorrectionNeverStops | Range.GuessPrefixOf |
| trunk/IPCALC/IPCALC.php:237 | the guard reads the signed end, which is negative at or above 2^31, so the estimate is returned uncorrected | 128.0.0.1 to 128.0.0.2 gives 31, a /31 block that does not reach 128.0.0.2 | 30 | not executed | Trunk.HighHalfCounterexample | Range.GuessPrefixOf |
| trunk/IPCALC/IPCALC.php:221-244 | on a range across 2^31 the swap on signed numbers puts the higher address first, so n = 2^32 - (hi - lo) is estimated and the guard compares lo with broadcast at hi's negative reading | 0.0.0.1 to 255.255.255.255 gives 30; 127.255.255.255 to 128.0.0.0 gives -1 | 0, the /0 block | not executed | Trunk.CrossWholeCounterexample | Range.GuessPrefixOf |
