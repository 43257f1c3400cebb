# Matter manual pairing code and Verhoeff check digit, in Dafny

This project models the two pieces of `matter.ts` that do their own logic.

- **`generateManualPairingCode(discriminator, pincode, vid, pid)`** builds a
  Matter manual pairing code. It takes the short discriminator
  (`discriminator >> 8`) and packs it, together with the version bit 0, the
  VID/PID-present flag 1 and the setup passcode, into three bit chunks with
  `<<`, `>>`, `&` and `|`. It writes the chunks and the vendor and product
  ids in decimal, padded with zeros to 1, 5, 4, 5 and 5 digits. It then
  appends the Verhoeff check digit of that 20-digit payload.
- **`Verhoeff.calcCheckDigit(num)`** computes the Verhoeff check digit. It
  reverses the digits, then runs a loop that folds each digit into an
  accumulator `c := d[c][p[(i + 1) % 8][digit]]`. It returns `inv[c]`. The
  tables `d`, `p` and `inv` are the multiplication table of the dihedral
  group D5, eight position permutations and the group inverses.

The two pieces live in four modules:

- `Bits` models JavaScript's `>>`, `<<`, `&` and `|` on nonnegative 32-bit
  integers as functions on natural numbers.
- `Decimal` models `toString`, `padStart` and `parseInt` on digits.
- `Verhoeff` holds the tables, the loop as a method (`CalcCheckDigit`) and
  the recursive function that specifies it (`Fold`, `CheckDigit`).
- `ManualPairingCode` holds the encoder as a pure function
  (`GenerateManualPairingCode`).

Two partners are defined in the model; the repository has neither.

- `Verhoeff.IsValid` is the Verhoeff test a reader of the code applies: the
  same loop with positions counted from 0 must end at 0.
- `ManualPairingCode.Decode` reads a code back, with the inverse bit
  operations.

The main results are these:

- the check digit is the only digit that makes the payload pass the
  Verhoeff test;
- every single-digit error and every swap of two adjacent different digits
  changes the check digit;
- decoding a generated code gives back its fields;
- every code that decodes is the generated code of its fields.

**Length of the code.** Matter defines an 11-digit manual code (10 digits
and a check digit) for codes without vendor and product ids. This generator
always sets the VID/PID flag in chunk 1 (`1 << 2`, matter.ts:35) and always
appends the two ids. Its codes are therefore 21 digits: a 20-digit payload
and a check digit. The model follows the code and proves length 21 with the
check digit over the first 20 digits.

## Model

| member | source | states |
|---|---|---|
| Bits.ShiftRight | matter.ts:29-37 | `x >> k` for a nonnegative int32 x: floor division by 2^k; `ShortDiscriminatorRange`, `Chunk3Range` and `PackUnpack` state its values |
| Bits.ShiftLeft | matter.ts:35-37 | `x << k` when no bit is lost: the result stays a nonnegative int32; `PackUnpack` states its value |
| Bits.And | matter.ts:36 | `x & y` bit by bit: the result is at most either operand; `AndLowMask` states that masking with 2^k - 1 keeps the low k bits |
| Bits.Or | matter.ts:35-36 | the bitwise or of x and y, bit by bit: the result is at least either operand and at most their sum; `OrDisjoint` and `OrBelowPow2` state the packing facts |
| Bits.AndLowMask | matter.ts:36 | masking with `2^k - 1` (as in `pincode & 0x3FFF`, `short & 0x03`) keeps exactly the value mod 2^k |
| Bits.OrDisjoint | matter.ts:35-36 | the bitwise or of a value shifted left by k and a value below 2^k is their sum: the fields occupy disjoint bits |
| Bits.OrBelowPow2 | matter.ts:35 | the bitwise or of two values below 2^n stays below 2^n, so chunk 1 never reaches the sign bit |
| Bits.PackUnpack | matter.ts:36-37 | packing a above a k-bit b with shift-left and bitwise or, then unpacking with `>> k` and `& (2^k - 1)`, returns both fields; the packed value is `a * 2^k + b` |
| Decimal.ToDecimal | matter.ts:35-39 | `toString` of a number is a nonempty string of digits with no leading zero unless the number is 0 |
| Decimal.PadStart | matter.ts:35-39 | `padStart` gives length max(width, length), keeps the string as a suffix and fills the left with the fill character; it never truncates |
| Decimal.ParseToDecimal | matter.ts:35-39 | reading the digits `toString` wrote gives the number back |
| Decimal.ToDecimalLength | matter.ts:35-39 | `toString` of n fits in k digits if and only if n < 10^k |
| Decimal.ParsePadded | matter.ts:35-39 | a zero-padded decimal field reads back as its number, whatever the width |
| Decimal.ParseInjective | matter.ts:35-39 | two digit strings of one length with one value are equal |
| Decimal.PaddedParse | matter.ts:35-39 | every digit string is the zero-padded `toString` of its value at its own width, so a written field is canonical |
| Decimal.DigitValue | matter.ts:76 | `parseInt` of a digit character is its value in 0..9; `DigitCharOfValue` and `DigitChar` make it the inverse of writing a digit |
| Decimal.DigitChar | matter.ts:78 | `inv[c].toString()` for a digit: one digit character whose value is the digit |
| Verhoeff.D | matter.ts:46-57 | the table `d`; `DIsDihedral` states that it is the multiplication of D5 |
| Verhoeff.P | matter.ts:59-68 | the table `p`; `PRowOneToOne`, `PRowOnto` and `PRowPowers` state that its rows are permutations, the powers of row 1 |
| Verhoeff.Inv | matter.ts:70 | the table `inv`; `InvIsInverse` and `InvUnique` state that it holds the inverses under `d` |
| Verhoeff.Step | matter.ts:76 | one loop iteration `d[c][p[pos % 8][x]]`, with the accumulator and every index in 0..9 by their types; `StepsTransposed` states what two steps distinguish |
| Verhoeff.Fold | matter.ts:73-77 | the loop over the reversed digits, as a recursive function; `CalcCheckDigit`'s invariant ties the loop to it, and `FoldFrom`, `FoldOneToOne`, `FoldSingleChange` and `FoldTransposition` state its laws |
| Verhoeff.Reverse | matter.ts:74 | `split('').reverse()`: same length, element i is element len-1-i of the input |
| Verhoeff.ReverseConcat | matter.ts:74 | reversing a concatenation reverses the order of its parts |
| Verhoeff.CheckDigit | matter.ts:72-79 | the returned check digit is a decimal digit character, for every digit string including the empty one |
| Verhoeff.CalcCheckDigit | matter.ts:72-79 | the loop over the reversed digits returns one digit character, equal to `inv` of the fold the tables define |
| Verhoeff.DIsDihedral | matter.ts:46-57 | `d` is the multiplication table of D5: rotations 0..4 add mod 5, reflections 5..9 subtract |
| Verhoeff.DAssociative | matter.ts:46-57 | `d` is associative |
| Verhoeff.Identity | matter.ts:46-60 | 0 is the identity of `d` on both sides, and `p[0]` is the identity permutation |
| Verhoeff.InvIsInverse | matter.ts:46-70 | `d[c][inv[c]] == 0` and `d[inv[c]][c] == 0` for every c |
| Verhoeff.InvInvolution | matter.ts:70 | `inv` is its own inverse |
| Verhoeff.InvUnique | matter.ts:46-70 | `inv[g]` is the one and only x with `d[x][g] == 0` |
| Verhoeff.LeftCancel | matter.ts:46-57 | `d[c][a] == d[c][b]` only when a == b |
| Verhoeff.RightCancel | matter.ts:46-57 | `d[a][c] == d[b][c]` only when a == b |
| Verhoeff.PRowOneToOne | matter.ts:59-68 | every row of `p` maps different digits to different digits |
| Verhoeff.PRowOnto | matter.ts:59-68 | every digit is the image of some digit under each row of `p`, so each row is a permutation of 0..9 |
| Verhoeff.PRowPowers | matter.ts:59-68 | row i of `p` is row 1 applied i times, and row 1 applied eight times is the identity, so `p[(i + 1) % 8]` cycles |
| Verhoeff.P1Transposition | matter.ts:46-61 | for u != v, `d[u][p1(v)] != d[v][p1(u)]`, the property row 1 is chosen for |
| Verhoeff.PTranspositionTable | matter.ts:46-68 | at any two consecutive positions, two different digits in one order and in the other give different products |
| Verhoeff.StepsTransposed | matter.ts:76 | two loop steps over two different digits end in different accumulators when the digits are swapped |
| Verhoeff.FoldFrom | matter.ts:73-77 | running the loop from accumulator c instead of 0 multiplies the result by c on the left |
| Verhoeff.FoldOneToOne | matter.ts:73-77 | two different starting accumulators give two different results |
| Verhoeff.FoldSingleChange | matter.ts:73-77 | changing one digit changes the accumulator the loop ends with |
| Verhoeff.FoldTransposition | matter.ts:73-77 | swapping two adjacent different digits changes the accumulator the loop ends with |
| Verhoeff.CheckDigitValid | matter.ts:72-79 | a digit appended to a digit string passes the Verhoeff test if and only if it is the check digit |
| Verhoeff.SingleErrorDetected | matter.ts:72-79 | two digit strings of one length differing in exactly one place have different check digits |
| Verhoeff.AdjacentTranspositionDetected | matter.ts:72-79 | swapping two adjacent different digits changes the check digit |
| Verhoeff.FoldIsFoldBy | matter.ts:73-77 | the loop is the instance, with the table step, of the fold over any step function |
| Verhoeff.FoldByConcat | matter.ts:73-77 | the fold over a concatenation folds the first part, then the second from where the first ended |
| Verhoeff.CheckDigitExample | matter.ts:72-79 | the payload `74945606851234056780` has check digit 7 |
| ManualPairingCode.ShortDiscriminatorRange | matter.ts:29 | for a 12-bit discriminator, `discriminator >> 8` is its top four bits, in [0, 15] |
| ManualPairingCode.ShortDiscriminator | matter.ts:29 | `discriminator >> 8` stays a nonnegative int32 |
| ManualPairingCode.Chunk1Value | matter.ts:35 | chunk 1 is `4 + (short >> 2)` |
| ManualPairingCode.Chunk1Range | matter.ts:31-35 | chunk 1 is one digit in [4, 7]; its bit 3 (version) is 0 and its bit 2 (VID/PID flag) is 1 |
| ManualPairingCode.Chunk1 | matter.ts:35 | chunk 1 stays a nonnegative int32 for every short discriminator that is one |
| ManualPairingCode.Chunk2 | matter.ts:36 | chunk 2 is below 65536, so at most five digits, for every passcode below 2^31 |
| ManualPairingCode.Chunk2Value | matter.ts:32-36 | chunk 2 is the low two bits of the short discriminator times 2^14 plus the low 14 bits of the passcode |
| ManualPairingCode.Chunk3 | matter.ts:37 | `pincode >> 14` stays a nonnegative int32; `Chunk3Range` states its value and bound |
| ManualPairingCode.Chunk3Range | matter.ts:33-37 | chunk 3 is the passcode without its low 14 bits, below 8192, so at most four digits |
| ManualPairingCode.Field | matter.ts:35-39 | a padded field is a digit string |
| ManualPairingCode.FieldWidth | matter.ts:35-39 | a number below 10^width is written in exactly width digits that read back as the number |
| ManualPairingCode.Payload | matter.ts:41 | the payload is a digit string |
| ManualPairingCode.Concat5 | matter.ts:41 | five fields of widths 1, 5, 4, 5 and 5 laid end to end make 20 characters and are cut apart again at those widths |
| ManualPairingCode.PayloadFields | matter.ts:35-41 | for in-range inputs the payload is 20 digits whose fields read back as chunk 1, chunk 2, chunk 3, vid and pid |
| ManualPairingCode.GenerateManualPairingCode | matter.ts:28-43 | the encoder, for discriminator and passcode below 2^31 and integer ids below 2^53: the payload followed by its check digit; `CodeShape` states its length and Verhoeff validity, `DecodeGenerated` and `GenerateDecoded` that `Decode` inverts it |
| ManualPairingCode.CodeShape | matter.ts:41-42 | for in-range inputs the code is 21 digits: the payload, then its check digit; the code passes the Verhoeff test |
| ManualPairingCode.ChunkValuesPrefix | matter.ts:41-42 | only the first 20 digits of a code carry the chunks |
| ManualPairingCode.ChunkLayout | matter.ts:29-39 | the five written values are `4 + short / 4`, `(short % 4) * 2^14 + pincode % 2^14`, `pincode / 2^14`, vid and pid |
| ManualPairingCode.GeneratedChunkValues | matter.ts:29-42 | the chunks read back from a generated code are those five values |
| ManualPairingCode.UnpackShort | matter.ts:31-36 | the bitwise or of `(chunk1 & 3) << 2` and `chunk2 >> 14` is the short discriminator, `(chunk1 % 4) * 4 + chunk2 / 2^14` |
| ManualPairingCode.UnpackPincode | matter.ts:32-37 | the bitwise or of `chunk3 << 14` and `chunk2 & 0x3FFF` is the passcode, `chunk3 * 2^14 + chunk2 % 2^14` |
| ManualPairingCode.UnpackFields | matter.ts:31-37 | both recoveries together, within int32 |
| ManualPairingCode.UnpackArithmetic | matter.ts:31-33 | the unpacker accepts exactly the chunk values with chunk 1 in [4, 7] and the others in range, and rebuilds the fields with multiplication and remainder |
| ManualPairingCode.DecodeArithmetic | matter.ts:31-33 | the decoder accepts exactly the 21-digit strings that pass the Verhoeff test and whose chunks are in range, and rebuilds the fields arithmetically |
| ManualPairingCode.RepackArithmetic | matter.ts:35-37 | the rebuilt short discriminator and passcode are the ones the chunks were made from |
| ManualPairingCode.UnpackLaidOut | matter.ts:31-39 | unpacking the values laid out for some in-range fields gives those fields |
| ManualPairingCode.DecodeChunks | matter.ts:31-42 | a valid 21-digit string holding the chunks of some fields decodes to those fields |
| ManualPairingCode.DecodeGenerated | matter.ts:28-43 | decoding a generated code gives back `discriminator >> 8`, the passcode, the vendor id and the product id |
| ManualPairingCode.RepackInverse | matter.ts:35-37 | the fields rebuilt from accepted chunk values are in range and lay out to the same chunk values |
| ManualPairingCode.SameChunks | matter.ts:35-41 | two digit strings with the same chunk values agree on their first 20 digits |
| ManualPairingCode.SameCheckDigit | matter.ts:42 | two valid 21-digit strings that agree on their first 20 digits are equal |
| ManualPairingCode.GenerateChunks | matter.ts:28-43 | a valid 21-digit string holding the chunks of some fields is the code generated from them |
| ManualPairingCode.GenerateDecoded | matter.ts:28-43 | every code that decodes is the generated code of its fields: the decoder accepts nothing else |
| ManualPairingCode.ExampleChunks | matter.ts:29-37 | for discriminator 3840 and passcode 11223344 the chunks are 7, 49456 and 685 |
| ManualPairingCode.ExamplePayload | matter.ts:35-41 | the payload for the worked example is `7`, `49456`, `0685`, `12340`, `56780` |
| ManualPairingCode.KnownVector | matter.ts:28-43 | discriminator 3840, passcode 11223344, vendor 12340 and product 56780 give the code `749456068512340567807`; the discriminator and passcode come from python/main.py:9-10 and the two ids from test.ts:12-13 |

## Left out

- `generateVerifier` (matter.ts:7-26) is not modelled. It is a wrapper over
  foreign cryptography: PBKDF2 with HMAC-SHA-256, P-256 scalar
  multiplication and big-integer encoding.
- The `export` list (matter.ts:82-85) declares no behaviour.
- test.ts and python/main.py are demonstration drivers that print to the
  console. The helpers they import (`generatePasscode`,
  `generateDiscriminator`, `generateSalt`, the Python `SetupPayload` and
  `spake2p` modules) are not part of this model. Only their example inputs
  appear, in `KnownVector`. The randomness of those helpers is not modelled.
- Verhoeff.CalcCheckDigit: the input must be all decimal digits. For another
  character `parseInt` yields NaN, and the table lookup then yields
  `undefined` or fails; that path is not modelled.
- ManualPairingCode.GenerateManualPairingCode: the discriminator and the
  passcode must be below 2^31. JavaScript converts the operands of the bit
  operators to signed 32-bit integers; below 2^31 that conversion changes
  nothing, so it is not modelled. Negative, fractional and larger
  discriminators and passcodes are outside the model.
- ManualPairingCode.GenerateManualPairingCode: the vendor and product ids
  must be natural numbers below 2^53. From 2^53 on, JavaScript's `toString`
  prints the shortest digits that read back as the same double (for example
  "1152921504606847000" for 2^60), and from 10^21 it uses exponent notation.
  Fractional ids print a decimal point ("001.5" for 1.5), which the checksum
  loop then reads as NaN. Negative ids print a minus sign. All these ids are
  outside the model. Below 2^53, `toString` is the plain decimal digits that
  `ToDecimal` gives.
- `Verhoeff.IsValid` and `ManualPairingCode.Decode` have no counterpart in
  the source. They are the reading side that the properties of the
  generator are stated against.
