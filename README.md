# validate_email in Dafny

A model of the core of `validate_email`, a C++ library that decides
whether a string is a usable e-mail address. It has three parts.

- **The Punycode encoder** (`punycode.cpp`). It follows the encoding
  procedure of section 6.3 of RFC 3492, with the `xn--` prefix of
  section 5 of RFC 3490. A domain name is cut into labels at '.', each
  non-empty label is encoded, and the labels are joined with '.' again.
- **The newer validator** (`src/validate_email.cpp`).
  - The address is cut at its last '@'.
  - A bracketed domain literal loses its brackets and may then hold only
    digits and dots.
  - The local part has 1 to 64 code points and no control character. It
    does not start with '.'. It has either exactly two unescaped quotes, or
    none, in which case it neither ends in '.' nor holds an '@'.
  - The address has at most 255 code points.
  - The domain, in Punycode, must resolve.
- **The older validator** (`validate_email.cpp`). The address needs an
  '@' and at most 255 code points. The local part needs at most 64 code
  points and no control character. The domain, in Punycode, must resolve.

Files and modules:

| file | module | models |
|---|---|---|
| `bootstring.dfy` | `Bootstring` | the constants, `calculate_threshold`, `encode_digit`, `encode_int`, `adapt` |
| `punycode.dfy` | `Punycode` | `to_lower`, `sort_uniq`, `encode_part` |
| `domain.dfy` | `Domain` | `split`, `to_puny_code` |
| `legacy_email.dfy` | `LegacyEmail` | `validate_email.cpp` |
| `email_address.dfy` | `EmailAddress` | `src/validate_email.cpp` |

How the model is built:

- Every loop of the source is a `method` with the same loop. Its
  `ensures` ties the result to a function. The lemmas state the source's
  promises about that function.
  - `EncodePart` computes `EncodeLabel`.
  - `EncodeInt` computes `VarInt`.
  - `Adapt` computes `Adapted`.
  - `Split` and `ToPunyCode` compute `Labels` and `PunyCode`.
  - `FindLast`, the two `IsLocal` methods, `GetDomainPart` and the two
    `IsEmailAddress` methods compute `LastIndex`, the two `LocalOk`
    predicates, `DomainPart` and the two `Accepts` functions.
- Code points are Dafny `char`s and strings are `seq<char>`.
- The 32-bit `delta` of `encode_part` is a `u32` subset type. Its two
  silent wrap-arounds both reduce modulo 2^32 (`Wrap`): the addition at
  `punycode.cpp:157` and the `++delta` of the for-increment at line 153.
  The only failure, `DeltaOverflow`, is the `++delta == 0` test at line
  161 (`Scan`).
- The DNS lookup `can_resolve` is a parameter `resolves: string -> bool`.
  Both validators apply it to the Punycode form of the domain part, the
  name they hand to the resolver. `PunyCodeNoOverflow` shows that
  `to_puny_code` cannot throw on a domain of an address that passed the
  255 code-point test, so the lookup always receives a name.

Two behaviours of the code deserve a note; the model keeps what the code
does:

- Section 6.3 of RFC 3492 fails whenever delta overflows. The code
  wraps silently at lines 153 and 157 and fails only at line 161. Only
  the wrap at line 157 is within reach. In each inner loop, handling a
  code point resets delta to 0, and the rest of the loop adds at most one
  per remaining code point. So after the loop delta is at most the label
  length (`Punycode.ScanBounded` proves this bound when the loop starts
  with enough headroom). The `++delta` of line 153 therefore cannot wrap
  for a label shorter than 2^32 - 1 code points. The product at line 157
  can wrap only for labels longer than 3854 code points
  (`Punycode.NoOverflow`).
- `to_lower` sets bit 5 of every basic code point, not only of letters:
  '@' becomes '`', code points 0..31 become 32..63, and U+000E becomes
  '.'. `Domain.PunyCodeDots` therefore gives the exact count of '.' in
  the output: the '.' of the input plus one per U+000E.

## Model

| member | source | states |
|---|---|---|
| `Bootstring.Threshold` | punycode.cpp:82-90 | the threshold always lies in [1, 26]; it is exactly k - bias when bias + 1 < k < bias + 26, 1 at or below bias + 1 and 26 at or above bias + 26 |
| `Bootstring.ThresholdMonotone` | punycode.cpp:82-90 | a later digit position never has a smaller threshold |
| `Bootstring.EncodeDigit` | punycode.cpp:92-98 | digit values 0..25 become d + 97 ('a'..'z') and 26..35 become d + 22 ('0'..'9'); every result is a digit character whose value is d again |
| `Bootstring.EncodeDigitOfValue` | punycode.cpp:92-98 | the other half of the bijection: every digit character is the encoding of its own value |
| `Bootstring.QuotRemIsDivMod` | punycode.cpp:113-114 | the quotient and remainder by repeated subtraction are Euclidean `/` and `%` |
| `Bootstring.DigitStep` | punycode.cpp:113-114 | one non-final step of `encode_int`: digit t + (q - t) mod (36 - t), and the next q is (q - t) div (36 - t) |
| `Bootstring.VarIntFromWellFormed` | punycode.cpp:100-121 | the digits for any q: at least one; every digit before the last is at least its threshold and the last is below its threshold |
| `Bootstring.VarIntFromRoundTrip` | punycode.cpp:100-121 | reading the digits back as the variable-length integer of section 3.3 of RFC 3492 gives q |
| `Bootstring.VarIntFromOfDecode` | punycode.cpp:100-121 | every well-formed digit string is the encoding of the integer it denotes |
| `Bootstring.VarIntRoundTrip` | punycode.cpp:100-121 | decode(encode(q)) == q from the first position k = 36, and the encoding is well formed |
| `Bootstring.VarIntOfDecode` | punycode.cpp:100-121 | encode(decode(s)) == s for every well-formed s, from k = 36 |
| `Bootstring.EncodeInt` | punycode.cpp:100-121 | the loop over q and k writes exactly the variable-length integer of delta under bias |
| `Bootstring.Damped` | punycode.cpp:51-53 | delta divided by 700 on the first call and by 2 otherwise, then increased by its quotient by n_points |
| `Bootstring.Final` | punycode.cpp:63-66 | the last term is the integer quotient (36 * d) / (d + 38), and it is below 36 |
| `Bootstring.AdaptDivides` | punycode.cpp:58-61 | the division loop stops at the first value <= 455, every earlier value is > 455, and k is 36 per division |
| `Bootstring.AdaptedSpec` | punycode.cpp:49-67 | with d the damped delta (delta / 700 on the first call, delta / 2 otherwise, plus its share per code point), the new bias is 36 * j + (36 * d') / (d' + 38), where j is the number of divisions by 35 that first bring d to d' <= 455 (every earlier value is > 455); bias lies in [36 j, 36 j + 36) |
| `Bootstring.Adapt` | punycode.cpp:49-67 | the method computes that bias |
| `Punycode.ToLower` | punycode.cpp:44-47 | the result is basic and has bit 5 set; a code point with bit 5 already set is unchanged, any other gains 32; so 'A'..'Z' gain 32; 'a'..'z', digits and '-' are unchanged; the result is '.' exactly for '.' and U+000E |
| `Punycode.LoweredBasics` | punycode.cpp:127-133 | the basic code points, each lowered: never longer than the label, all basic |
| `Punycode.CollectBasics` | punycode.cpp:127-137 | the first loop writes the lowered basic code points in order and collects exactly the code points >= 128 that occur; the collection is empty exactly when the label is all basic |
| `Punycode.BasicCount` | punycode.cpp:127-141 | b is the number of code points below 128, and b equals the label length exactly when no code point is non-basic |
| `Punycode.SortUniq` | punycode.cpp:70-79 | the result is strictly descending (sorted and without duplicates) and holds exactly the values of its input |
| `Punycode.SortDescending` | punycode.cpp:75 | a non-increasing permutation of the input (equal multisets) |
| `Punycode.InsertDescending` | punycode.cpp:75 | one insertion step keeps the order and adds exactly one copy of the value |
| `Punycode.CollapseRuns` | punycode.cpp:76-77 | removing adjacent duplicates leaves a strictly descending sequence with the same set of values |
| `Punycode.MinAtLeast` | punycode.cpp:151-155 | None exactly when no code point is >= lo; otherwise the least code point >= lo that occurs |
| `Punycode.NextCodePoint` | punycode.cpp:151-155 | while h < len the descending list is non-empty and its `back()` is the least unhandled code point m; after `pop_back` it holds exactly the occurring values >= m + 1 |
| `Punycode.SomeUnhandled` | punycode.cpp:153-154 | while h is below the label length some code point >= n remains, so `back()` is never taken of an empty vector |
| `Punycode.SkipToDelta` | punycode.cpp:157-158 | delta becomes (delta + (m - n) * (h + 1)) mod 2^32 and n becomes m |
| `Punycode.ScanCount` | punycode.cpp:160-169 | the inner loop keeps n and raises h by the number of occurrences of n |
| `Punycode.ScanEmits` | punycode.cpp:160-169 | the inner loop appends one insertion per code point it handles and keeps the earlier ones |
| `Punycode.Round` | punycode.cpp:153-170 | one outer round keeps the invariant h == number of code points below n, with n and h strictly larger afterwards |
| `Punycode.CountAfter` | punycode.cpp:153-170 | after value m, h counts the code points below 128 or <= m: the old count plus the (positive) number of occurrences of m |
| `Punycode.RoundsEmit` | punycode.cpp:153-170 | the outer loop ends with h equal to the label length and one insertion per non-basic code point |
| `Punycode.Emit` | punycode.cpp:164-166 | records exactly one more insertion (delta, h): the output gains its digits and bias becomes the value the emission of all insertions so far prescribes |
| `Punycode.EmissionStep` | punycode.cpp:164-165 | one more insertion (delta, h) appends the digits of delta under the previous bias, and the new bias adapts delta over h + 1 code points, as the first adaptation exactly when h == b |
| `Punycode.InsertionRound` | punycode.cpp:160-169 | the inner-loop method computes `Scan`: same failure, same state, same output |
| `Punycode.NextRound` | punycode.cpp:153-170 | one outer iteration computes `Round` and keeps the vector of pending code points exact |
| `Punycode.InsertAll` | punycode.cpp:147-170 | the outer loop fails exactly when the functional encoder fails, and otherwise writes its digits |
| `Punycode.EncodePart` | punycode.cpp:123-172 | `encode_part` computes `EncodeLabel`, throwing `DeltaOverflow` exactly when it does |
| `Punycode.AsciiLabel` | punycode.cpp:127-137 | a label with no code point >= 128 encodes to itself with every code point lowered, without prefix or delimiter |
| `Punycode.EmissionDigits` | punycode.cpp:164 | at least one digit per insertion, and only digit characters |
| `Punycode.LabelShape` | punycode.cpp:127-171 | a label with a non-basic code point encodes to "xn--", the lowered basics in order, '-' if there was one, and then only digit characters, at least one per non-basic code point |
| `Punycode.ScanBounded` | punycode.cpp:160-169 | the inner loop cannot fail while delta plus the code points left stays below 2^32 - 1, and it leaves delta within the label length |
| `Punycode.RoundsBounded` | punycode.cpp:153-170 | with (max code point - 126) * (len + 1) < 2^32 - 1 the outer loop never fails |
| `Punycode.NoOverflow` | punycode.cpp:153-170 | a label of at most 3854 code points never fails |
| `Punycode.BucherDigits` | punycode.cpp:100-121 | delta 745 under bias 72 is written "kva" |
| `Punycode.BucherRounds` | punycode.cpp:153-170 | "Bücher" takes one round, with insertion (745, 5) |
| `Punycode.BucherLabel` | punycode.cpp:123-172 | "Bücher" encodes to "xn--bcher-kva" |
| `Domain.FindFirst` | punycode.cpp:177 | `find_first_of`: None only when c is absent; otherwise a position holding c with none before it |
| `Domain.Labels` | punycode.cpp:174-185 | `split` gives at least one part, no part holds '.', and joining the parts with '.' gives the input back |
| `Domain.LabelsOfJoin` | punycode.cpp:174-185 | the inverse direction: splitting a join of dot-free parts gives those parts |
| `Domain.Split` | punycode.cpp:174-185 | the re-slicing loop computes `Labels` |
| `Domain.ToPunyCode` | punycode.cpp:188-203 | the `is_first` loop computes `PunyCode` |
| `Domain.EncodePartsFails` | punycode.cpp:198-199 | once a leading run of labels throws, the whole name throws `DeltaOverflow` |
| `Domain.EncodePartsOk` | punycode.cpp:188-203 | the encoding of a list of labels succeeds exactly when every label encodes |
| `Domain.EncodePartsValue` | punycode.cpp:188-203 | a successful encoding is the per-label encodings joined with '.', in order |
| `Domain.PunyCodeJoin` | punycode.cpp:188-203 | `to_puny_code` succeeds exactly when every label encodes, and then writes the label encodings in order, each encoded on its own, empty labels left empty, joined with '.' |
| `Domain.PunyCodeNoOverflow` | punycode.cpp:188-203 | a name of at most 3854 code points never makes `to_puny_code` throw |
| `Domain.JoinCount` | punycode.cpp:174-185 | a join holds the dots of its parts plus one between each neighbouring pair |
| `Domain.LoweredDots` | punycode.cpp:44-47 | lowering a label yields one '.' per '.' and per U+000E |
| `Domain.EncodedDots` | punycode.cpp:127-171 | the encoding of a dot-free label holds one '.' per U+000E of the label |
| `Domain.PunyCodeDots` | punycode.cpp:188-203 | the output holds as many '.' as the input plus one per U+000E |
| `Domain.PunyCodeFixed` | punycode.cpp:188-203 | a name whose code points `to_lower` leaves alone (basic, bit 5 already set: lower-case letters, digits, '-', '.', most punctuation) is written unchanged |
| `Domain.PunyCodeAscii` | punycode.cpp:188-203 | a name with no code point >= 128 is written without any ACE label, each code point passed through `to_lower` |
| `Domain.BucherChLabels` | punycode.cpp:174-185 | "Bücher.ch" splits into "Bücher" and "ch" |
| `Domain.BucherCh` | punycode.cpp:188-203 | "Bücher.ch" is written "xn--bcher-kva.ch" |
| `LegacyEmail.LastIndex` | validate_email.cpp:60-69 | the position of the last val, with no val after it, or the end when val is absent |
| `LegacyEmail.FindLast` | validate_email.cpp:60-69 | the loop that remembers every match computes `LastIndex` |
| `LegacyEmail.LastIndexOfSplit` | validate_email.cpp:60-69 | in a + [val] + b with no val in b, the last val is at position abs(a) |
| `LegacyEmail.IsLocal` | validate_email.cpp:34-47 | true exactly when there are at most 64 code points and none is <= 31 or == 127 |
| `LegacyEmail.EmptyLocalAccepted` | validate_email.cpp:38-40 | the empty local part passes |
| `LegacyEmail.LongLocalRefused` | validate_email.cpp:38-40 | more than 64 code points fail |
| `LegacyEmail.ControlRefused` | validate_email.cpp:41-45 | one control character anywhere fails |
| `LegacyEmail.IsEmailAddress` | validate_email.cpp:72-87 | the method computes `Accepts` |
| `LegacyEmail.NoAtRefused` | validate_email.cpp:73-76 | an address without '@' is refused |
| `LegacyEmail.LongAddressRefused` | validate_email.cpp:77-79 | an address of more than 255 code points is refused |
| `LegacyEmail.AcceptsSplit` | validate_email.cpp:80-86 | for local + "@" + domain with no '@' in domain: accepted exactly when within 255 code points, `is_local(local)` holds, and the Punycode form of domain resolves |
| `LegacyEmail.AcceptsFixedName` | validate_email.cpp:80-86 | with a passing local part and a domain that `to_lower` leaves alone, the answer is the resolver's for that domain itself |
| `EmailAddress.FindAmpPos` | src/validate_email.cpp:118-120 | None exactly when there is no '@'; otherwise the position of an '@' with none after it |
| `EmailAddress.LocalPart` | src/validate_email.cpp:122-128 | a prefix of the address; "" when there is no '@' |
| `EmailAddress.StripLiteral` | src/validate_email.cpp:136-146 | a bracketed text loses its brackets and becomes "" if anything but '0'..'9' and '.' remains; other text is kept |
| `EmailAddress.DomainPart` | src/validate_email.cpp:130-147 | never longer than the address; "" when there is no '@' |
| `EmailAddress.GetDomainPart` | src/validate_email.cpp:130-147 | the slicing and scanning method computes `DomainPart` |
| `EmailAddress.DomainPartAsWritten` | src/validate_email.cpp:130-147 | `get_domain_part` as written, defined only when the address does not end in its last '@' |
| `EmailAddress.AsWrittenAgrees` | src/validate_email.cpp:130-147 | wherever the source is defined, the total `DomainPart` agrees with it |
| `EmailAddress.TrailingAtUndefined` | src/validate_email.cpp:135-136 | "a@" has the non-empty local part "a", yet `front()` would be read of an empty text |
| `EmailAddress.SplitAtLastAt` | src/validate_email.cpp:118-135 | for local + "@" + rest with no '@' in rest, the local part is local and the domain part is rest with a literal stripped |
| `EmailAddress.NoAtEmptyParts` | src/validate_email.cpp:118-134 | without '@' both parts are empty |
| `EmailAddress.SplitRoundTrip` | src/validate_email.cpp:122-135 | unless the domain is bracketed, local part + "@" + domain part is the address |
| `EmailAddress.DomainPartNoAt` | src/validate_email.cpp:130-147 | the domain part never holds an '@' |
| `EmailAddress.QuoteCountConcat` | src/validate_email.cpp:59-68 | over a concatenation the counted quotes add up, except one quote that follows a backslash across the seam |
| `EmailAddress.EscapedQuoteIgnored` | src/validate_email.cpp:59-68 | a quote right after a backslash is not counted |
| `EmailAddress.NoQuoteNoCount` | src/validate_email.cpp:59-68 | a part without quotes counts none |
| `EmailAddress.IsLocal` | src/validate_email.cpp:40-93 | the method (length test, control scan, leading '.', quote-counting fold, the quoted and unquoted rules) computes `LocalOk` |
| `EmailAddress.EmptyOrLongLocalRefused` | src/validate_email.cpp:49-51 | an empty local part, or one over 64 code points, fails |
| `EmailAddress.ControlRefused` | src/validate_email.cpp:53-55 | any code point in 0..31 or 127 fails |
| `EmailAddress.LeadingDotRefused` | src/validate_email.cpp:56-58 | a leading '.' fails |
| `EmailAddress.QuoteCountRefused` | src/validate_email.cpp:70-74 | a non-zero count of unescaped quotes other than 2 fails |
| `EmailAddress.EscapedOpeningRefused` | src/validate_email.cpp:75-78 | with two counted quotes, a part of length >= 3 that starts with backslash-quote and ends with a quote fails |
| `EmailAddress.TrailingDotRefused` | src/validate_email.cpp:80-84 | without counted quotes, a trailing '.' fails |
| `EmailAddress.BareAtRefused` | src/validate_email.cpp:85-90 | without counted quotes, any '@' fails |
| `EmailAddress.StricterLocal` | src/validate_email.cpp:40-93 | every local part the newer `is_local` accepts, the older one accepts too |
| `EmailAddress.IsEmailAddress` | src/validate_email.cpp:151-171 | the method computes `Accepts` |
| `EmailAddress.EmptyLocalRefused` | src/validate_email.cpp:152-155 | an empty local part refuses the address |
| `EmailAddress.EmptyDomainRefused` | src/validate_email.cpp:156-159 | an empty domain part refuses the address |
| `EmailAddress.LongAddressRefused` | src/validate_email.cpp:160-162 | more than 255 code points refuse the address |
| `EmailAddress.AcceptsSplit` | src/validate_email.cpp:151-170 | for local + "@" + rest with no '@' in rest: accepted exactly when within 255 code points, the stripped domain is non-empty, `is_local(local)` holds, and its Punycode form resolves |
| `EmailAddress.AcceptsFixedName` | src/validate_email.cpp:151-170 | with a passing local part and a domain that `to_lower` leaves alone, the answer is the resolver's for that domain |
| `EmailAddress.LocalRefused` | src/validate_email.cpp:168-170 | a failing local part refuses the address whatever the domain |
| `EmailAddress.StricterThanLegacy` | src/validate_email.cpp:151-170 | an address the newer validator accepts, with an unbracketed domain, the older one accepts too |
| `EmailAddress.PlainCase` | validate_email_test.cpp:40 | "test@example.com" is accepted exactly when "example.com" resolves |
| `EmailAddress.InternationalCase` | validate_email_test.cpp:41 | "test@Bücher.ch" is accepted exactly when "xn--bcher-kva.ch" resolves |
| `EmailAddress.QuotedCase` | validate_email_test.cpp:42 | `"@ test"@Bücher.ch` is accepted exactly when "xn--bcher-kva.ch" resolves |
| `EmailAddress.LiteralCase` | validate_email_test.cpp:43 | "test@[127.0.0.1]" is accepted exactly when "127.0.0.1" resolves |
| `EmailAddress.PlainAddressRefused` | validate_email_test.cpp:66 | "plainaddress" is refused |
| `EmailAddress.EmptyLocalCase` | validate_email_test.cpp:68 | "@domain.com" is refused |
| `EmailAddress.LegacyEmptyLocalCase` | validate_email.cpp:72-87 | the older validator accepts "@domain.com" exactly when "domain.com" resolves |
| `EmailAddress.TwoAtsRefused` | validate_email_test.cpp:71 | "email@domain@domain.com" is refused |
| `EmailAddress.LeadingDotCase` | validate_email_test.cpp:72 | ".email@domain.com" is refused |
| `EmailAddress.TrailingDotCase` | validate_email_test.cpp:73 | "email.@domain.com" is refused |
| `EmailAddress.DoubleDotCase` | validate_email_test.cpp:74 | "email..email@domain.com" is accepted exactly when "domain.com" resolves |
| `EmailAddress.IpDomainCase` | validate_email_test.cpp:44 | "test@127.0.0.1" is accepted exactly when "127.0.0.1" resolves |
| `EmailAddress.PublicIpCase` | validate_email_test.cpp:45 | "test@8.8.8.8" is accepted exactly when "8.8.8.8" resolves |
| `EmailAddress.EmailDomainCase` | validate_email_test.cpp:46 | "email@domain.com" is accepted exactly when "domain.com" resolves |
| `EmailAddress.DottedLocalCase` | validate_email_test.cpp:47 | "firstname.lastname@domain.com" is accepted exactly when "domain.com" resolves |
| `EmailAddress.SubdomainCase` | validate_email_test.cpp:48 | "email@subdomain.domain.com" is accepted exactly when "subdomain.domain.com" resolves |
| `EmailAddress.PlusLocalCase` | validate_email_test.cpp:49 | "firstname+lastname@domain.com" is accepted exactly when "domain.com" resolves |
| `EmailAddress.NumericDomainCase` | validate_email_test.cpp:50 | "email@123.123.123.123" is accepted exactly when "123.123.123.123" resolves |
| `EmailAddress.BracketedIpCase` | validate_email_test.cpp:51 | "email@[123.123.123.123]" is accepted exactly when "123.123.123.123" resolves |
| `EmailAddress.CurlyQuotesCase` | validate_email_test.cpp:52 | "“email”@domain.com" is accepted exactly when "domain.com" resolves: typographic quotes are ordinary code points |
| `EmailAddress.DigitLocalCase` | validate_email_test.cpp:53 | "1234567890@domain.com" is accepted exactly when "domain.com" resolves |
| `EmailAddress.DashDomainCase` | validate_email_test.cpp:54 | "email@domain-one.com" is accepted exactly when "domain-one.com" resolves |
| `EmailAddress.UnderscoreLocalCase` | validate_email_test.cpp:55 | "_______@domain.com" is accepted exactly when "domain.com" resolves |
| `EmailAddress.CountryDomainCase` | validate_email_test.cpp:56 | "email@domain.co.jp" is accepted exactly when "domain.co.jp" resolves |
| `EmailAddress.DashLocalCase` | validate_email_test.cpp:57 | "firstname-lastname@domain.com" is accepted exactly when "domain.com" resolves |
| `EmailAddress.DomainDoubleDotCase` | validate_email_test.cpp:63 | "email@domain..com" is accepted exactly when "domain..com" resolves; the empty label is not refused (the same address recurs at line 81) |
| `EmailAddress.GarbageRefused` | validate_email_test.cpp:64 | "#@%^%#$@#$@#.com" is refused: its unquoted local part holds a bare '@' (the same address recurs at line 67) |
| `EmailAddress.LegacyGarbageCase` | validate_email_test.cpp:64 | the older validator accepts the same address exactly when "#.com" resolves |
| `EmailAddress.DisplayNameCase` | validate_email_test.cpp:69 | "Joe Smith <email@domain.com>" is accepted exactly when "domain.com>" resolves |
| `EmailAddress.MissingAtRefused` | validate_email_test.cpp:70 | "email.domain.com" is refused by both validators |
| `EmailAddress.NoTopLevelCase` | validate_email_test.cpp:77 | "email@domain" is accepted exactly when "domain" resolves |
| `EmailAddress.LeadingDashDomainCase` | validate_email_test.cpp:78 | "email@-domain.com" is accepted exactly when "-domain.com" resolves |
| `EmailAddress.UnknownTopLevelCase` | validate_email_test.cpp:79 | "email@domain.web" is accepted exactly when "domain.web" resolves |
| `EmailAddress.BadIpCase` | validate_email_test.cpp:80 | "email@111.222.333.44444" is accepted exactly when "111.222.333.44444" resolves; octets are not checked |

The test suite expects "email..email@domain.com" to be refused
(validate_email_test.cpp:74). `EmailAddress.DoubleDotCase` shows that the
code refuses it only if "domain.com" does not resolve: `is_local` has no
rule against two dots in a row. The model keeps what the code does.

## Left out

- `can_resolve` (DNS through boost::asio) is the parameter `resolves`. The model says which name is looked up, not whether it resolves.
- `std::async` and `std::future` are left out; both validators combine the two results with a plain `&&`.
- UTF-8 decoding (`daw::range::CharRange`, `create_char_range`) belongs to a foreign library. The model's input is a sequence of code points. Cutting bytes at '@', '[', ']' and '.' agrees with cutting code points, because those are ASCII.
- The `boost::string_ref` overload of the older `is_email_address` (validate_email.cpp:89-91) only decodes UTF-8 and calls the code-point overload; the model has the code-point overload only.
- `std::stringstream` in `to_puny_code` is modelled as string concatenation.
- The test harnesses (Boost.Test, console output, the JSON fixtures of tests/validate_email_test.cpp) are left out. The addresses at validate_email_test.cpp:40-57, 63-64, 66-74 and 77-81 appear as lemmas. Each gives the answer, or the name handed to the resolver when the answer depends on DNS. Two addresses have no lemma. Line 65 needs the Punycode form of an Arabic label. Line 76 needs the lowering of "domain.com (Joe Smith)".
- `find_last` in src/validate_email.cpp:106-115 is a copy of the older one and is never called there; it is modelled once, as `LegacyEmail.FindLast`.
- `Punycode.SortUniq` works on a `seq`: an insertion sort followed by removal of adjacent duplicates. It does not model `std::sort` and `std::unique` in place on a vector; only their result is modelled.
- Punycode.EncodePart: the failure is characterised by `Punycode.Scan`, which fails exactly at a step where delta already holds 2^32 - 1 (line 161). No separate lemma restates this as a closed-form condition on the label. What is proved is that it cannot happen for labels of at most 3854 code points (`Punycode.NoOverflow`).
- The product `(m - n) * (h + 1)` at punycode.cpp:157 is taken over the integers and reduced modulo 2^32 when added to delta. Because 2^32 divides 2^64, a wrapped 64-bit `size_t` product leaves the same residue modulo 2^32 once added into the 32-bit delta, so the model is exact for every label length.
- `Punycode.EncodePart` keeps the list of insertions made so far (`emitted`) as ghost state beside the real delta, bias, h and output, to tie the loops to `EncodeLabel`; the source has no such list.

## Findings

| source | as written | input that shows it | evidently intended | confidence | as-written member | corrected member |
|---|---|---|---|---|---|---|
| src/validate_email.cpp:130-136 | `get_domain_part` calls `front()` and `back()` on the text after the last '@' without checking that it is non-empty | "a@": the local part "a" is non-empty, so `is_email_address` calls `get_domain_part`, which reads the first element of an empty `string_view` (undefined behaviour) | an address ending in '@' has an empty domain part and is refused | not executed | `EmailAddress.DomainPartAsWritten` (with `EmailAddress.TrailingAtUndefined`) | `EmailAddress.DomainPart` (with `EmailAddress.AsWrittenAgrees`, used by `EmailAddress.GetDomainPart` and `EmailAddress.Accepts`) |
