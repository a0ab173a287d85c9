# Simulated UPI payment flow, in Dafny

This project models the educational UPI payment simulator in
`lab/simulated_payment_flow.py`. The simulator has four parts:

- an amount check: more than 0 and at most the default UPI limit of Rs 1,00,000;
- a `user@handle` VPA (virtual payment address) check;
- a UTR (unique transaction reference) generator: eight random bytes in upper-case hex;
- `simulate_payment`, which runs the sender check, the receiver check and the
  amount check in that order and builds a `SimulatedTransaction` record.

The record gets either a failure status and the UTR `"N/A"`, or the status
`"SUCCESS (SIMULATED)"` and a fresh UTR.

The code is pure once the clock and the random source are parameters, so the
model is made of datatypes, functions and lemmas. It has three modules:

- `Base16`: the upper-case Base16 encoding of section 8 of RFC 4648, with a
  decoder, both round trips and injectivity. The UTR is this encoding of the
  eight random bytes.
- `PyStr`: the Python string operations the code calls, on ASCII:
  - `strip`, `lower` and `split(sep)` in the VPA check, the split modelled at
    every occurrence of the separator;
  - the anchored `re.match(r"^[class]+$", s)` in the VPA check, including the
    case where Python's `$` matches before one final newline;
  - `upper`, which the UTR generator applies;
  - and two helpers used to state their properties: `isspace`, the whitespace
    notion behind `strip`, and `count`, the number of occurrences of a
    character.
- `PaymentFlow`: the record, the two validators with their exact message
  strings, `bytes.hex()` and the UTR generator, and the simulator.

The record `SimulatedTransaction` (lab/simulated_payment_flow.py:14-22) is a
datatype with the same six fields; `amount` is a `real` and the others are
strings. Every record the simulator builds satisfies `Consistent`.

The model follows these behaviours of the code:

- The `'@'` test runs on the raw input. Only after it passes is the input
  stripped and split, and the split is at every `'@'`. So `"al"` fails with
  `"Invalid format: need user@handle"`, and `"alice@@bank"` fails with
  `"Invalid format"`.
- Each part is stripped again and lower-cased before the length and character
  checks. This is why surrounding whitespace and letter case never matter
  (`VpaWhitespaceInsensitive`, `VpaCaseInsensitive`).
- Failure statuses are `"FAILED: Sender VPA invalid - " + msg`,
  `"FAILED: Receiver VPA invalid - " + msg` and `"FAILED: " + msg`.
- Python's `str.isspace` counts the ASCII separators 0x1C-0x1F as whitespace,
  as well as space and `\t \n \v \f \r`. `strip` removes all of them.
- `re.match` with `$` would also accept a part that ends in one `"\n"`. The
  parts are stripped first, so that case cannot arise
  (`MatchesClassPlusStripped`).

## Model

| member | source | states |
|---|---|---|
| PaymentFlow.ValidateAmount | lab/simulated_payment_flow.py:25-31 | accepted exactly when 0 < amount <= 100000; a non-positive amount always gets "Amount must be positive", so that check wins over the limit; above the limit gives the limit message; success carries "OK" |
| PaymentFlow.AmountLimitInclusive | lab/simulated_payment_flow.py:29-31 | 100000 itself is accepted and every larger amount is rejected with the limit message |
| PaymentFlow.UnparsableAmountRejected | lab/simulated_payment_flow.py:119-121 | the -1 that the console substitutes for an unparsable amount is rejected as not positive |
| PaymentFlow.ValidateVpaFormat | lab/simulated_payment_flow.py:34-48 | the verdict is ok exactly when its message is "OK"; an input with no '@' (the empty string included) gets "Invalid format: need user@handle" |
| PaymentFlow.CheckParts | lab/simulated_payment_flow.py:42-48 | the content checks on the two parts succeed exactly when their message is "OK" |
| PaymentFlow.CheckPartsOrder | lab/simulated_payment_flow.py:42-48 | on stripped parts: a user shorter than 3 gives "Username too short"; otherwise a character outside [a-z0-9._-] gives "Invalid characters in username"; otherwise an empty handle or one outside [a-z0-9] gives "Invalid handle"; parts that satisfy all three rules give "OK" |
| PaymentFlow.UserChar | lab/simulated_payment_flow.py:44 | the user-name class [a-z0-9._-]; none of its characters is '@' or whitespace, and lower-casing leaves each unchanged |
| PaymentFlow.HandleChar | lab/simulated_payment_flow.py:46 | the handle class [a-z0-9], which lies inside the user-name class |
| PaymentFlow.VpaSeveralAt | lab/simulated_payment_flow.py:38-40 | two or more '@' anywhere in the input give "Invalid format" |
| PaymentFlow.StripSplitAt | lab/simulated_payment_flow.py:38-41 | with exactly one '@', strip-then-split gives two parts, and after the second strip they equal the stripped sides of that '@' in the raw input |
| PaymentFlow.VpaAt | lab/simulated_payment_flow.py:38-48 | with exactly one '@', the verdict is the content checks applied to the raw sides of it, stripped and lower-cased |
| PaymentFlow.VpaSingleAt | lab/simulated_payment_flow.py:41-48 | with exactly one '@', the first failing rule picks the message, in the order length, user characters, handle; all three passing gives (true, "OK") |
| PaymentFlow.VpaAcceptedIff | lab/simulated_payment_flow.py:34-48 | accepted if and only if the input holds exactly one '@' and its trimmed, lower-cased sides have a user of at least 3 characters of [a-z0-9._-] and a non-empty handle of [a-z0-9] |
| PaymentFlow.LowerSingleAt | lab/simulated_payment_flow.py:41 | lower-casing the input keeps the single '@' at the same index and the normalised user and handle unchanged |
| PaymentFlow.VpaLowerInvariant | lab/simulated_payment_flow.py:41 | lower-casing the whole input never changes the verdict or the message |
| PaymentFlow.VpaCaseInsensitive | lab/simulated_payment_flow.py:41 | two inputs that differ only in the case of ASCII letters get the same verdict and message |
| PaymentFlow.VpaWhitespaceInsensitive | lab/simulated_payment_flow.py:38-41 | whitespace added before or after the user part or the handle never changes the verdict or the message |
| PaymentFlow.VpaOfParts | lab/simulated_payment_flow.py:34-48 | an address made of two '@'-free sides is judged by the content checks on those sides, trimmed and lower-cased |
| PaymentFlow.VpaOfCleanParts | lab/simulated_payment_flow.py:34-48 | sides that already satisfy the content rules are accepted as they are |
| PaymentFlow.VpaDoubledAt | lab/simulated_payment_flow.py:38-40 | a doubled '@' is "Invalid format" whatever surrounds it |
| PaymentFlow.ExampleAliceValid | lab/simulated_payment_flow.py:34-48 | "alice@bank" is accepted |
| PaymentFlow.ExampleBobValid | lab/simulated_payment_flow.py:34-48 | "bob@bank" is accepted |
| PaymentFlow.ExampleShortUserBeforeBadChar | lab/simulated_payment_flow.py:42-45 | "a!@bank" gets "Username too short", not the character error |
| PaymentFlow.GenerateUtr | lab/simulated_payment_flow.py:51-54 | the UTR is the upper-case Base16 encoding of the eight drawn bytes: 16 characters of 0-9A-F |
| PaymentFlow.UtrDecodes | lab/simulated_payment_flow.py:51-54 | decoding a UTR gives back the eight bytes it was made from |
| PaymentFlow.SimulatePayment | lab/simulated_payment_flow.py:57-99 | copies sender, receiver, amount and timestamp unchanged; status is "SUCCESS (SIMULATED)" if and only if all three checks pass; the UTR is "N/A" exactly on failure and is otherwise the 16-character encoding of the drawn bytes; an invalid sender gives "FAILED: Sender VPA invalid - " + its message whatever the receiver and amount; otherwise an invalid receiver gives "FAILED: Receiver VPA invalid - " + its message; otherwise a bad amount gives "FAILED: " + its message |
| PaymentFlow.Consistent | lab/simulated_payment_flow.py:57-99 | the record invariant: the UTR is "N/A" exactly when the status is a "FAILED: " report, and a success carries a 16-character 0-9A-F UTR |
| PaymentFlow.FailureRecord | lab/simulated_payment_flow.py:64-86 | a failure record has the UTR "N/A", the given "FAILED: " status and the request fields unchanged, and keeps the record invariant |
| PaymentFlow.SimulateOnlyUtrVaries | lab/simulated_payment_flow.py:57-99 | two simulations of the same request at the same time differ at most in the UTR; on success the UTRs are equal exactly when the drawn bytes are |
| PaymentFlow.ExampleSuccess | lab/simulated_payment_flow.py:57-99 | alice@bank paying bob@bank Rs 500 succeeds and carries the encoded UTR |
| PaymentFlow.ExampleSenderWithoutAt | lab/simulated_payment_flow.py:64-70 | sender "al" fails with the sender prefix and "Invalid format: need user@handle", even with an amount of 0 |
| PaymentFlow.ExampleSenderDoubleAt | lab/simulated_payment_flow.py:64-70 | sender "alice@@bank" fails with the sender prefix and "Invalid format" |
| PaymentFlow.ExampleAmountNotPositive | lab/simulated_payment_flow.py:80-86 | valid addresses with amount 0 fail with "FAILED: Amount must be positive" |
| PaymentFlow.ExampleAmountOverLimit | lab/simulated_payment_flow.py:80-86 | valid addresses with amount 250000 fail with "FAILED: " and the limit message |
| Base16.Encode | lab/simulated_payment_flow.py:54 | two characters of 0-9A-F per byte, the high nibble first |
| Base16.DigitValue | lab/simulated_payment_flow.py:54 | the value of a Base16 character is a nibble whose character is that character |
| Base16.DecodeAccepts | lab/simulated_payment_flow.py:54 | decoding succeeds exactly on even-length strings over 0-9A-F |
| Base16.DecodeEncode | lab/simulated_payment_flow.py:54 | decoding an encoding gives back the bytes |
| Base16.EncodeDecode | lab/simulated_payment_flow.py:54 | whatever decodes re-encodes to the same string |
| Base16.EncodeInjective | lab/simulated_payment_flow.py:54 | two byte strings have the same encoding exactly when they are equal |
| PaymentFlow.BytesHex | lab/simulated_payment_flow.py:54 | `bytes.hex()`: two lower-case hex digits per byte, the high nibble first |
| PaymentFlow.UpperBytesHex | lab/simulated_payment_flow.py:54 | `token_hex(8).upper()`, that is `bytes.hex()` then `upper()`, is the RFC 4648 Base16 encoding |
| PyStr.StripBounds | lab/simulated_payment_flow.py:38 | the kept slice has only whitespace before and after it, and no whitespace at either of its own ends |
| PyStr.Strip | lab/simulated_payment_flow.py:38 | the result is no longer than the input and starts and ends with a non-whitespace character, or is empty |
| PyStr.StripUnique | lab/simulated_payment_flow.py:38 | any slice with only whitespace around it and none at its ends is exactly what `strip` returns |
| PyStr.StripPadded | lab/simulated_payment_flow.py:38-41 | whitespace added around a string does not change what `strip` returns |
| PyStr.StripLower | lab/simulated_payment_flow.py:41 | `strip` and `lower` commute |
| PyStr.CountStrip | lab/simulated_payment_flow.py:38 | `strip` removes no occurrence of a non-whitespace character such as '@' |
| PyStr.CountLower | lab/simulated_payment_flow.py:41 | `lower` keeps every occurrence of a character that is not a letter |
| PyStr.Split | lab/simulated_payment_flow.py:38 | `split(sep)` yields one more part than there are occurrences of sep; no part holds sep; joining the parts with sep gives back the input |
| PyStr.SplitOnce | lab/simulated_payment_flow.py:38-41 | at the only occurrence of sep, the parts are exactly the two sides of it |
| PyStr.StripSplitOnce | lab/simulated_payment_flow.py:38-41 | with one non-whitespace separator, strip-then-split gives the two sides of it, cut to what `strip` keeps |
| PyStr.Lower | lab/simulated_payment_flow.py:41 | `lower()`: the same length, no upper-case letter left, every character equal to the original up to letter case |
| PyStr.Upper | lab/simulated_payment_flow.py:54 | `upper()`: the same length, no lower-case letter left, every character equal to the original up to letter case |
| PyStr.MatchesClassPlus | lab/simulated_payment_flow.py:44-47 | `re.match(r"^[class]+$", s)`: a match needs a non-empty string whose characters are all in the class, except that one final "\n" is also allowed before `$`; a non-empty string all in the class always matches |
| PyStr.MatchesClassPlusStripped | lab/simulated_payment_flow.py:44-47 | on a stripped string, `re.match(r"^[class]+$")` holds exactly when the string is non-empty and every character is in the class |

## Left out

- `interactive_lab` and `main` (lab/simulated_payment_flow.py:102-146): console input and output, `sys.argv`, `KeyboardInterrupt` and `float()` parsing. Only the substituted amount -1 is modelled (`UnparsableAmountRejected`).
- lab/flowchart.py is not part of this model: it only prints fixed text.
- lab/encryption_demo.py is not part of this model: it only calls library hashing, HMAC and encryption routines and prints their results.
- The clock (`datetime.now` and `strftime`, line 62): the formatted timestamp is the parameter `now`, and its format is not modelled.
- The secure random source (`secrets`, line 54): the eight bytes are the parameter `entropy`. The model proves that distinct bytes give distinct UTRs (`EncodeInjective`). It says nothing about how likely a repeated UTR is.
- Floating point: `amount` is a `real`, so NaN, infinities and rounding are not modelled. In the code both comparisons at lines 27 and 29 are false for NaN, so `validate_amount(float("nan"))` returns `(True, "OK")`, `simulate_payment` issues a SUCCESS record for it, and the console accepts `nan` typed at the amount prompt. A `real` has no NaN, so the model cannot show this.
- Unicode: `lower`, `upper`, `isspace` and `strip` are modelled on ASCII. Every other character counts as non-whitespace and is left unchanged by case mapping.
- VpaCaseInsensitive: covers the case of ASCII letters only, because case mapping is modelled on ASCII.
- Regular expressions: only the pattern shape the validator uses, `^[class]+$` under `re.match`, is modelled.
- Steps 4 and 5 of `simulate_payment` (the MPIN check and the routing, lines 88-89) are comments with no code behind them.
