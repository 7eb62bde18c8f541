# SubnetingCode in Dafny

A verified model of the two computations in `main.cpp` of SubnetingCode,
a console subnet calculator.

- `applySubnetMask(ip, prefixLength)` computes a network address on the
  text of an IPv4 address. The loop works like this:
  - It splits the string on '.' with `std::getline`.
  - It reads each token with `std::stoi`.
  - It ANDs the number with `255 << (8 - subnetBits)`. Here `subnetBits` is
    the part of the prefix this token takes: 8, or whatever is left.
  - It appends the result in decimal with `std::to_string`, then a '.'.
  - At the end, `pop_back` drops the last '.'.
- The broadcast step of `main` reads `std::stoul(network, nullptr, 0)`,
  which is only the first field of the network string. It puts that number
  into a `std::bitset<32>` and sets bits 31 down to `prefixLength - 1` in a
  descending loop. Then it prints `to_ulong()` as one decimal number.

The program does no VLSM allocation: no host counts, block sizes or
packing. This model follows the code, including what it does not check:
- Nothing limits the number of tokens.
- Nothing checks that a token lies in 0..255.
- The mask is not cut to 8 bits: once the prefix is spent it is `0xFF00`.
- The "broadcast" is one number built from the first octet. It is not a
  dotted address.

Modules:
- `Bits` models a C++ `int` on a 32-bit two's-complement platform.
  - `And32` is `&` taken bit by bit on the two's-complement patterns.
  - `Pow2` models the left shift.
- `Conversions` models the standard-library calls in the "C" locale:
  - `Tokens`: the `getline(…, '.')` loop. A field after a final '.' is
    never read.
  - `Stoi`: white space, one sign, the leading decimal digits; then
    `invalid_argument` or `out_of_range`.
  - `Stoul`: white space, then the leading decimal digits.
  - `Decimal`: `to_string`.
- `SubnetMask` holds three things:
  - the function `Masked`, which is what `applySubnetMask` returns or the
    exception it throws;
  - the method `ApplySubnetMask`, which is the loop, and which is proved
    to compute `Masked`;
  - the facts about one masked octet.
- `SubnetMaskProperties` states what the output means. `Expected` is an
  independent, position-indexed reference: number i read from the tokens,
  masked with `min(8, max(0, prefixLength - 8 * i))` prefix bits.
- `Broadcast` models the `bitset<32>` as an `array<bool>` (bit k at
  index k). The method `BroadcastValue` runs the loop of `main` on it.
- `Calculator` models the `try` block of `main` for one row. It ends in
  one of three ways:
  - the row is added;
  - `invalid_argument` is reported;
  - `out_of_range` escapes.

## Model

| member | source | states |
|---|---|---|
| SubnetMask.Masked | main.cpp:14-31 | What applySubnetMask returns, or the exception it throws. A result has no trailing '.': it starts and ends with a digit. `MaskedFields` states its value. |
| SubnetMask.MaskTokens | main.cpp:19-26 | The loop over the tokens. It gives one masked octet per token, or the exception of the first token std::stoi rejects (`MaskTokensReads`, `MaskTokensRejects`). |
| SubnetMask.MaskOctet | main.cpp:22-23 | `octet & subnetMask` on ints lies in 0..0xFF00. Its value is given by `MaskOctetClosedForm`. |
| SubnetMask.Dotted | main.cpp:23-28 | The octets written in decimal and joined by single dots form a non-empty string that starts and ends with a digit. |
| SubnetMask.ApplySubnetMask | main.cpp:14-31 | The getline/stoi/append loop followed by `pop_back` returns exactly `Masked(ip, prefixLength)`: the dotted masked octets, or the exception of the first token std::stoi rejects. |
| SubnetMask.ScanField | main.cpp:19 | One `getline` scan from the read position stops at the first '.' at or after it, or at the end of the input. No '.' lies in between. |
| SubnetMask.SubnetBits | main.cpp:21 | The bits a token takes are between 0 and 8 and never more than the remaining prefix. Fewer than 8 means the whole remaining prefix. |
| SubnetMask.SubnetMask | main.cpp:22 | `255 << (8 - subnetBits)` lies between 255 and 0xFF00, so the shift never overflows an int. |
| SubnetMask.LoopStep | main.cpp:19-25 | One pass, from the token at the read position, has two outcomes. It either carries the exception of that token or extends the octets so far by its masked value, with the prefix reduced by `SubnetBits`. |
| SubnetMask.LoopExit | main.cpp:19-28 | When the input is used up, at least one octet has been produced and `Masked` succeeds. Its value is `result` without its last character. |
| SubnetMask.TerminatedIsDotted | main.cpp:23-28 | `result` before `pop_back` is the dotted octets followed by exactly one '.'. |
| SubnetMask.TerminatedSnoc | main.cpp:23-24 | Appending `to_string(octet & mask)` and "." to `result` appends that octet to the octets it renders. |
| SubnetMask.MaskOctetClosedForm | main.cpp:22-23 | `octet & (255 << s)` keeps byte s..s+7 of the token's 32-bit pattern, in place. |
| SubnetMask.MaskOctetInRange | main.cpp:21-23 | For a token in 0..255 the mask clears its low `8 - subnetBits` bits. The result is not above the token. 8 prefix bits keep the token and 0 give 0. |
| SubnetMask.MaskOctetIdempotent | main.cpp:22-23 | Masking a masked value again with the same prefix bits changes nothing, for any int. |
| SubnetMask.MaskOctetUnchecked | main.cpp:20-23 | Out-of-range tokens are not rejected. A full octet of prefix keeps the low byte (-1 gives 255). A spent prefix keeps the second byte, because the mask is 0xFF00 (300 gives 256). |
| SubnetMaskProperties.OctetBitsShift | main.cpp:21-25 | Prefix budget: token 0 takes `min(8, p)` bits. What remains gives token i the bits the whole prefix gives token i + 1. |
| SubnetMaskProperties.ReadsCons | main.cpp:19-20 | The numbers read from the tokens are the first token's number followed by the numbers of the rest. |
| SubnetMaskProperties.ExpectedCons | main.cpp:21-25 | The reference octets are the first number masked with `SubnetBits(p)`, followed by the reference octets of the rest under the prefix that remains. |
| SubnetMaskProperties.MaskTokensReads | main.cpp:19-25 | The loop runs to the end exactly when std::stoi accepts every token. It then yields octet i = number i masked with `min(8, max(0, p - 8i))` bits. |
| SubnetMaskProperties.MaskTokensRejects | main.cpp:19-20 | When tokens 0..k-1 are read and token k is rejected, the loop throws token k's exception. |
| SubnetMaskProperties.MaskTokensSameReading | main.cpp:20 | Tokens that std::stoi reads alike give the same outcome. |
| SubnetMaskProperties.TokensOfDotted | main.cpp:19-28 | Splitting the output on '.' gives back its decimal numerals, one per octet. |
| SubnetMaskProperties.StoiOfNumerals | main.cpp:20-23 | std::stoi reads each `to_string` numeral back as its value. |
| SubnetMaskProperties.MaskedFields | main.cpp:19-28 | applySubnetMask returns exactly when every token is read. It then returns the reference octets, one decimal number per token, joined by single dots with no trailing dot. |
| SubnetMaskProperties.MaskedRejects | main.cpp:19-20 | It throws the exception of the first rejected token. An empty token, as in "1..2", throws invalid_argument. |
| SubnetMaskProperties.ClearedBits | main.cpp:21-23 | Each cleared value is the largest multiple of `2^(8 - bits_i)` not above the input value, so it is at most the input. |
| SubnetMaskProperties.MaskedInRange | main.cpp:19-28 | For tokens in 0..255, output octet i is input octet i with its low `8 - min(8, max(0, p - 8i))` bits cleared. |
| SubnetMaskProperties.ExpectedUnchecked | main.cpp:20-25 | Out-of-range numbers: an octet wholly inside the prefix keeps `v % 256`. One past the prefix keeps `v % 65536 - v % 256`. |
| SubnetMaskProperties.MaskedFullPrefix | main.cpp:21-23 | A prefix covering every token (32 on four) returns the address in canonical decimal. |
| SubnetMaskProperties.MaskedCanonical | main.cpp:19-28 | A canonical dotted address of octets in 0..255 under such a prefix comes back unchanged. |
| SubnetMaskProperties.MaskedZeroPrefix | main.cpp:21-23 | Prefix 0 turns every octet in 0..255 into 0. |
| SubnetMaskProperties.DottedZeros | main.cpp:23-28 | Four zero octets are written "0.0.0.0". |
| SubnetMaskProperties.MaskedZeroPrefixFour | main.cpp:19-28 | Prefix 0 on a four-token address whose tokens read as 0..255 returns "0.0.0.0". |
| SubnetMaskProperties.MaskedIdempotent | main.cpp:19-28 | Applying the mask again with the same prefix to its own output returns the same string, whatever the tokens were. |
| SubnetMaskProperties.MaskedIgnoresTrailingText | main.cpp:19-20 | For any address ending in a digit, text glued after it that holds no '.' and does not start with a digit changes nothing: "10.0.0.0/24", " 10.0.0.0/24" and "010.0.0.0/24" mask like their bare forms. |
| SubnetMaskProperties.TokensOfGlued | main.cpp:19 | Text without '.' glued to a string not ending in '.' lands in its last token; the other tokens are unchanged. |
| SubnetMaskProperties.GluedReadsSame | main.cpp:20 | Gluing such text to a last token that ends in a digit leaves every std::stoi reading unchanged. |
| Broadcast.BitsOf | main.cpp:56 | `std::bitset<n>(v)` has exactly n bits: bit k of v at index k (`BitsOfValue` and `BitsOfPrefix` give its value). |
| Broadcast.ValueOf | main.cpp:60 | `to_ulong` of n bits is below 2^n. |
| Broadcast.SetFrom | main.cpp:57-58 | Setting every bit from `low` upwards keeps the width. Its value is given by `SetFromValue` and `SetFromNotBelow`. |
| Broadcast.BroadcastOf | main.cpp:56-60 | The number the broadcast step prints for the field std::stoul read is below 2^32. Its closed forms are in `BroadcastFacts`. |
| Broadcast.BitsOfPrefix | main.cpp:56 | The low m bits of a `bitset<n>` built from v are the `bitset<m>` of v. |
| Broadcast.BroadcastValue | main.cpp:56-60 | The descending loop over `bitset<32>(field)` followed by `to_ulong` gives `BroadcastOf(field, p)`. That value is at least `field mod 2^32` and below 2^32. It equals `field mod 2^(p-1) + 2^32 - 2^(p-1)` for p ≤ 33 and `field mod 2^32` for p ≥ 33. |
| Broadcast.BroadcastFacts | main.cpp:57-60 | The same bounds and closed forms, stated on the specification function. |
| Broadcast.BitsOfValue | main.cpp:56 | A `bitset<n>` built from v reads back as v mod 2^n. |
| Broadcast.SetFromValue | main.cpp:57-58 | Setting bits low..n-1 keeps the bits below low and adds `2^n - 2^low`. |
| Broadcast.SetFromNotBelow | main.cpp:57-58 | Setting bits never lowers the value. |
| Calculator.ComputeRow | main.cpp:50-64 | Defined for every prefix of at least 0, with one exception: prefix 0 is left out when the mask succeeds, because the loop would then write `bits[-1]`. With prefix 0 and a token std::stoi rejects, the row ends in the reported error, before the broadcast loop. A row is added exactly when applySubnetMask succeeds. invalid_argument is reported exactly on that exception, and out_of_range aborts. An added row's network is the masked string, stoul of it is its first masked octet, and its broadcast is that octet's `BroadcastOf` in decimal digits. |
| Calculator.StoulOfMasked | main.cpp:53-56 | std::stoul reads off the network string its first field: the first token masked with `SubnetBits(p)` bits. |
| Calculator.StoulOfDotted | main.cpp:56 | std::stoul of a dotted string is its first octet. |
| Conversions.DelimIndex | main.cpp:19 | `getline` with delimiter '.' stops at the first '.', or at the end when there is none. No '.' lies before it. |
| Conversions.JoinDotsEnds | main.cpp:23-28 | The joined string starts with the first field's first character and ends with the last field's last character. |
| Conversions.Tokens | main.cpp:19 | The getline tokens hold no '.'. There is at least one exactly when the input is not empty. |
| Conversions.TokensOfJoin | main.cpp:19 | Splitting inverts joining for '.'-free fields whose last one is not empty. |
| Conversions.JoinOfTokens | main.cpp:19 | Joining the tokens gives back the input when it does not end in '.'; when it does, the tokens joined plus that final '.' give it back, since getline consumes the '.' without a token. |
| Conversions.LastToken | main.cpp:19 | For input not ending in '.', the last token is not empty and ends with the input's last character. |
| Conversions.Stoi | main.cpp:20 | A value std::stoi returns lies in the range of int. |
| Conversions.StoiIgnoresSuffix | main.cpp:20 | For a token ending in a digit, text glued after it that does not start with a digit leaves std::stoi's result (value or error) unchanged. |
| Conversions.StoiDecimal | main.cpp:20 | std::stoi reads a numeral back as its value. Text after it that does not start with a digit is ignored. |
| Conversions.StoiRejectsNoDigits | main.cpp:20 | A token with no digits is invalid_argument. |
| Conversions.Stoul | main.cpp:56 | A value std::stoul returns fits an unsigned long (at most 2^64 - 1). Only decimal digits after white space are read. |
| Conversions.StoulDecimal | main.cpp:56 | std::stoul reads the leading numeral of a string. |
| Conversions.Decimal | main.cpp:23 | `to_string` of a non-negative value is all digits, with no leading zero except in "0". |
| Conversions.DecimalValue | main.cpp:23 | Reading the digits of `to_string(n)` gives n. |
| Bits.Pow2 | main.cpp:22 | `x << n` for a non-negative x that does not overflow is `x * Pow2(n)`, and Pow2(n) is at least 1. |
| Bits.BitAnd | main.cpp:23 | The bitwise AND of two non-negative numbers is at most each of them. |
| Bits.ToSigned32 | main.cpp:23 | A 32-bit pattern read back as an int lies in the range of int and has the same value mod 2^32. |
| Bits.And32 | main.cpp:23 | `a & b` on ints lies in the range of int. With a non-negative mask it is between 0 and the mask. |
| Bits.AndShiftedByte | main.cpp:22-23 | ANDing with `255 * 2^s` keeps bits s..s+7 in place. |
| Bits.AndLowOnes | main.cpp:22-23 | ANDing with `2^k - 1` is the value mod 2^k. |

## Left out

- Console input and output are not modelled: the prompts, `std::cin` reads, the y/n loop and the printed table (main.cpp:39-50, 68-77). `ip`, the name and `prefixLength` become parameters.
- The `Subnet` record and the vector of rows are not modelled (main.cpp:8-12, 37, 43-46, 66). `ComputeRow` returns the network and broadcast strings the row would hold.
- SubnetMask.ApplySubnetMask: requires a non-empty `ip`. An empty input yields no token, and `pop_back` on the empty `result` is undefined behaviour.
- SubnetMask.ApplySubnetMask: requires `prefixLength >= 0`, and so do `Masked` and `Calculator.ComputeRow`. A prompt asks for a CIDR length. A negative prefix p gives the first token `subnetBits = p`, so the shift is by `8 - p`.
  - From -16 down, `255 << (8 - p)` is above INT_MAX: 255 << 24 is already 4278190080.
  - From -24 down, the shift count is 32 or more, which is undefined whatever the value.
  - For -15..-1 the source computes a defined result. The first token is masked with `255 << (8 - p)`. The prefix then becomes 0, so every later token is masked with 0xFF00. The model leaves these inputs out as well.
- Broadcast.BroadcastValue: requires `prefixLength >= 1`. With 0, the loop writes `bits[-1]`, which is undefined.
- Conversions.Stoul: reads decimal digits only, with no sign and no "0x"/"0" base prefix. Its only input is the network string, whose first field is a canonical decimal numeral (`Calculator.StoulOfMasked`). On that input base 0 reads the same value.
- Conversions.Stoi: locales other than "C" are not modelled.
- An `out_of_range` from `std::stoi` is not caught by `main` and ends the program. The model stops there (`Aborted`).
